/**
 The semaphore-throttled work queue and its pool of worker threads, one atomic step of one
 thread at a time.  The client thread puts the work and then one pill (None) per worker,
 joins the queue and joins the threads; each worker takes items until it takes a pill.
 */
module WorkPool {

  datatype Item<T> = Work(job: T) | Pill

  /** `WorkQ`: a queue.Queue with a semaphore in front of it. */
  datatype Queue<T> = Queue(maxsize: nat, semaphore: nat, items: seq<Item<T>>, unfinished: int)

  /** A worker between two steps; the number tells its item among those taken. */
  datatype Phase = Waiting | Got(k: nat) | Ran(k: nat) | Released(k: nat) | Exited(k: nat)

  /** The client: about to put, holding a slot for its next item, or waiting for its j-th thread. */
  datatype Client = Ready | Holding | Joining(j: nat)

  datatype State<T> = State(
    script: seq<Item<T>>,      // everything the client puts, in order
    q: Queue<T>,
    next: nat,                 // how much of the script is enqueued
    client: Client,
    workers: seq<Phase>,
    taken: seq<Item<T>>,       // the items that came off the queue so far
    takers: seq<nat>,          // which worker took each of them
    ran: seq<nat>)             // which of the taken items have been run so far

  datatype Action =
    | Acquire                  // WorkQ.put: semaphore.acquire()
    | Enqueue                  // WorkQ.put: Queue.put()
    | JoinQueue
    | JoinThread
    | Get(i: nat)
    | Run(i: nat)
    | Release(i: nat)          // WorkQ.task_done: semaphore.release()
    | Finish(i: nat)           // WorkQ.task_done: Queue.task_done()

  function Script<T>(work: seq<T>, pills: nat): seq<Item<T>> {
    seq(|work|, i requires 0 <= i < |work| => Work(work[i])) + seq(pills, _ => Pill)
  }

  function Init<T>(work: seq<T>, maxsize: nat, nworkers: nat): State<T> {
    State(Script(work, nworkers), Queue(maxsize, maxsize, [], 0), 0, Ready,
          seq(nworkers, _ => Waiting), [], [], [])
  }

  predicate Enabled<T>(s: State<T>, a: Action) {
    match a
    case Acquire => s.client.Ready? && s.next < |s.script| && (s.q.maxsize == 0 || s.q.semaphore > 0)
    case Enqueue => s.client.Holding? && s.next < |s.script| && (s.q.maxsize == 0 || |s.q.items| < s.q.maxsize)
    case JoinQueue => s.client.Ready? && s.next == |s.script| && s.q.unfinished == 0
    case JoinThread => s.client.Joining? && s.client.j < |s.workers| && s.workers[s.client.j].Exited?
    case Get(i) => i < |s.workers| && s.workers[i].Waiting? && s.q.items != []
    case Run(i) => i < |s.workers| && s.workers[i].Got? && s.workers[i].k < |s.taken| && s.taken[s.workers[i].k].Work?
    case Release(i) => i < |s.workers| && (s.workers[i].Ran? || (s.workers[i].Got? && s.workers[i].k < |s.taken| && s.taken[s.workers[i].k].Pill?))
    case Finish(i) => i < |s.workers| && s.workers[i].Released? && s.workers[i].k < |s.taken|
  }

  function Step<T>(s: State<T>, a: Action): State<T>
    requires Enabled(s, a)
  {
    match a
    case Acquire =>
      s.(client := Holding, q := if s.q.maxsize == 0 then s.q else s.q.(semaphore := s.q.semaphore - 1))
    case Enqueue =>
      s.(client := Ready, next := s.next + 1,
         q := s.q.(items := s.q.items + [s.script[s.next]], unfinished := s.q.unfinished + 1))
    case JoinQueue => s.(client := Joining(0))
    case JoinThread => s.(client := Joining(s.client.j + 1))
    case Get(i) =>
      s.(workers := s.workers[i := Got(|s.takers|)], takers := s.takers + [i], taken := s.taken + [s.q.items[0]],
         q := s.q.(items := s.q.items[1..]))
    case Run(i) =>
      s.(workers := s.workers[i := Ran(s.workers[i].k)], ran := s.ran + [s.workers[i].k])
    case Release(i) =>
      s.(workers := s.workers[i := Released(s.workers[i].k)],
         q := if s.q.maxsize == 0 then s.q else s.q.(semaphore := s.q.semaphore + 1))
    case Finish(i) =>
      var k := s.workers[i].k;
      s.(workers := s.workers[i := if s.taken[k].Pill? then Exited(k) else Waiting],
         q := s.q.(unfinished := s.q.unfinished - 1))
  }

  predicate Returned<T>(s: State<T>) { s.client == Joining(|s.workers|) }

  ghost predicate Runs<T>(s: State<T>, actions: seq<Action>, s': State<T>)
    decreases |actions|
  {
    if actions == [] then s' == s
    else Enabled(s, actions[0]) && Runs(Step(s, actions[0]), actions[1..], s')
  }

  // ---- counting workers ------------------------------------------------------------

  datatype Weight = Busy | Open | Dosed(firstPill: nat) | Effort

  /** Holding a slot; holding an unfinished task; having taken a pill; steps still owed. */
  function WeightOf(w: Weight, p: Phase): nat {
    match w
    case Busy => if p.Got? || p.Ran? then 1 else 0
    case Open => if p.Got? || p.Ran? || p.Released? then 1 else 0
    case Dosed(first) => if !p.Waiting? && p.k >= first then 1 else 0
    case Effort => if p.Got? then 4 else if p.Ran? then 3 else if p.Released? then 2 else 0
  }

  function Total(w: Weight, ps: seq<Phase>): nat {
    if ps == [] then 0 else WeightOf(w, ps[0]) + Total(w, ps[1..])
  }

  lemma {:induction false} TotalUpdate(w: Weight, ps: seq<Phase>, i: nat, p: Phase)
    requires i < |ps|
    ensures Total(w, ps[i := p]) == Total(w, ps) - WeightOf(w, ps[i]) + WeightOf(w, p)
    ensures Total(w, ps) >= WeightOf(w, ps[i])
  {
    if i == 0 {
      assert ps[i := p][1..] == ps[1..];
    } else {
      assert ps[i := p][1..] == ps[1..][i - 1 := p];
      TotalUpdate(w, ps[1..], i - 1, p);
    }
  }

  lemma TotalsUpdate(ps: seq<Phase>, i: nat, p: Phase, first: nat)
    requires i < |ps|
    ensures forall w | w in {Busy, Open, Dosed(first), Effort} ::
              Total(w, ps[i := p]) == Total(w, ps) - WeightOf(w, ps[i]) + WeightOf(w, p)
  {
    TotalUpdate(Busy, ps, i, p);
    TotalUpdate(Open, ps, i, p);
    TotalUpdate(Dosed(first), ps, i, p);
    TotalUpdate(Effort, ps, i, p);
  }

  /** A positive total has a worker behind it. */
  lemma {:induction false} SomeWorker(w: Weight, ps: seq<Phase>) returns (i: nat)
    requires Total(w, ps) > 0
    ensures i < |ps| && WeightOf(w, ps[i]) > 0
  {
    if WeightOf(w, ps[0]) > 0 {
      i := 0;
    } else {
      i := SomeWorker(w, ps[1..]);
      i := i + 1;
    }
  }

  lemma {:induction false} TotalUniform(w: Weight, ps: seq<Phase>, each: nat)
    requires forall p | p in ps :: WeightOf(w, p) == each
    ensures Total(w, ps) == each * |ps|
  {
    if ps != [] {
      assert ps[0] in ps;
      TotalUniform(w, ps[1..], each);
    }
  }

  // ---- the invariant ---------------------------------------------------------------

  function Jobs<T>(s: State<T>): int { |s.script| - |s.workers| }

  ghost predicate ScriptShape<T>(s: State<T>) {
    && Jobs(s) >= 0
    && forall k | 0 <= k < |s.script| :: s.script[k].Work? <==> k < Jobs(s)
  }

  /** Slots are conserved, and every unfinished task is queued or in some worker's hands. */
  ghost predicate Balanced<T>(s: State<T>) {
    && (s.q.maxsize > 0 ==>
          s.q.semaphore + (if s.client.Holding? then 1 else 0) + |s.q.items| + Total(Busy, s.workers) == s.q.maxsize)
    && s.q.unfinished == |s.q.items| + Total(Open, s.workers)
  }

  ghost predicate InFlight<T>(s: State<T>, i: nat)
    requires i < |s.workers|
  {
    var p := s.workers[i];
    p.Waiting? ||
    (&& p.k < |s.takers| <= |s.script| && s.takers[p.k] == i
     && (p.Exited? ==> s.script[p.k].Pill?)
     && (p.Ran? ==> s.script[p.k].Work? && p.k in s.ran)
     && (p.Got? ==> p.k !in s.ran)
     && (p.Released? && s.script[p.k].Work? ==> p.k in s.ran))
  }

  /** An item taken is work that has been run or is about to be, or a pill its taker keeps. */
  ghost predicate Accounted<T>(s: State<T>, k: nat)
    requires k < |s.takers| && |s.takers| <= |s.script|
  {
    && s.takers[k] < |s.workers|
    && var p := s.workers[s.takers[k]];
       if s.script[k].Work? then k in s.ran || p == Got(k)
       else p == Got(k) || p == Released(k) || p == Exited(k)
  }

  ghost predicate Inv<T>(s: State<T>) {
    && ScriptShape(s) && Balanced(s)
    && |s.takers| <= s.next <= |s.script|
    && (s.client.Holding? ==> s.next < |s.script|)
    && |s.taken| == |s.takers| && s.taken == s.script[..|s.takers|]
    && s.q.items == s.script[|s.takers|..s.next]
    && (forall i | 0 <= i < |s.workers| :: InFlight(s, i))
    && (forall k | 0 <= k < |s.takers| :: Accounted(s, k))
    && (forall k | k in s.ran :: k < |s.takers| && s.script[k].Work?)
    && (forall i, j | 0 <= i < j < |s.ran| :: s.ran[i] != s.ran[j])
    && Total(Dosed(Jobs(s)), s.workers) == (if |s.takers| > Jobs(s) then |s.takers| - Jobs(s) else 0)
    && (s.client.Joining? ==>
          && s.next == |s.script| && s.q.unfinished == 0 && s.client.j <= |s.workers|
          && forall i | 0 <= i < s.client.j :: s.workers[i].Exited?)
  }

  lemma InitInv<T>(work: seq<T>, maxsize: nat, nworkers: nat)
    ensures Inv(Init(work, maxsize, nworkers))
  {
    var s := Init(work, maxsize, nworkers);
    TotalUniform(Busy, s.workers, 0);
    TotalUniform(Open, s.workers, 0);
    TotalUniform(Dosed(Jobs(s)), s.workers, 0);
  }

  lemma ClientKeepsInv<T>(s: State<T>, a: Action)
    requires Inv(s) && Enabled(s, a) && (a.Acquire? || a.Enqueue? || a.JoinQueue? || a.JoinThread?)
    ensures Inv(Step(s, a))
  {
    var s' := Step(s, a);
    forall i | 0 <= i < |s'.workers| ensures InFlight(s', i) { assert InFlight(s, i); }
    forall k | 0 <= k < |s'.takers| ensures Accounted(s', k) { assert Accounted(s, k); }
  }

  lemma GetKeepsInv<T>(s: State<T>, i: nat)
    requires Inv(s) && Enabled(s, Get(i))
    ensures Inv(Step(s, Get(i)))
  {
    var s' := Step(s, Get(i));
    assert InFlight(s, i);
    TotalsUpdate(s.workers, i, s'.workers[i], Jobs(s));
    forall j | 0 <= j < |s'.workers| ensures InFlight(s', j) { assert InFlight(s, j); }
    forall k | 0 <= k < |s'.takers| ensures Accounted(s', k) {
      if k < |s.takers| { assert Accounted(s, k); }
    }
  }

  lemma RunKeepsInv<T>(s: State<T>, i: nat)
    requires Inv(s) && Enabled(s, Run(i))
    ensures Inv(Step(s, Run(i)))
  {
    var s' := Step(s, Run(i));
    assert InFlight(s, i);
    TotalsUpdate(s.workers, i, s'.workers[i], Jobs(s));
    forall j | 0 <= j < |s'.workers| ensures InFlight(s', j) { assert InFlight(s, j); }
    forall k | 0 <= k < |s'.takers| ensures Accounted(s', k) {
      if k < |s.takers| { assert Accounted(s, k); }
    }
  }

  lemma ReleaseKeepsInv<T>(s: State<T>, i: nat)
    requires Inv(s) && Enabled(s, Release(i))
    ensures Inv(Step(s, Release(i)))
  {
    var s' := Step(s, Release(i));
    assert InFlight(s, i);
    TotalsUpdate(s.workers, i, s'.workers[i], Jobs(s));
    forall j | 0 <= j < |s'.workers| ensures InFlight(s', j) { assert InFlight(s, j); }
    forall k | 0 <= k < |s'.takers| ensures Accounted(s', k) {
      if k < |s.takers| { assert Accounted(s, k); }
    }
  }

  lemma FinishKeepsInv<T>(s: State<T>, i: nat)
    requires Inv(s) && Enabled(s, Finish(i))
    ensures Inv(Step(s, Finish(i)))
  {
    var s' := Step(s, Finish(i));
    assert InFlight(s, i);
    TotalsUpdate(s.workers, i, s'.workers[i], Jobs(s));
    forall j | 0 <= j < |s'.workers| ensures InFlight(s', j) { assert InFlight(s, j); }
    forall k | 0 <= k < |s'.takers| ensures Accounted(s', k) {
      if k < |s.takers| { assert Accounted(s, k); }
    }
  }

  lemma StepKeepsInv<T>(s: State<T>, a: Action)
    requires Inv(s) && Enabled(s, a)
    ensures Inv(Step(s, a))
  {
    match a
    case Get(i) => GetKeepsInv(s, i);
    case Run(i) => RunKeepsInv(s, i);
    case Release(i) => ReleaseKeepsInv(s, i);
    case Finish(i) => FinishKeepsInv(s, i);
    case _ => ClientKeepsInv(s, a);
  }

  // ---- every step costs one unit of effort ------------------------------------------

  /** Steps still owed by the client and the workers. */
  function Measure<T>(s: State<T>): int {
    7 * (|s.script| - s.next) - (if s.client.Holding? then 1 else 0)
    + 5 * |s.q.items| + Total(Effort, s.workers)
    + (if s.client.Joining? then |s.workers| - s.client.j else |s.workers| + 1)
  }

  lemma MeasureNonNegative<T>(s: State<T>)
    requires Inv(s)
    ensures Measure(s) >= 0
  {
  }

  lemma StepDropsMeasure<T>(s: State<T>, a: Action)
    requires Inv(s) && Enabled(s, a)
    ensures Measure(Step(s, a)) < Measure(s)
  {
    if a.Get? || a.Run? || a.Release? || a.Finish? {
      TotalsUpdate(s.workers, a.i, Step(s, a).workers[a.i], Jobs(s));
    }
  }

  lemma StepFrame<T>(s: State<T>, a: Action)
    requires Enabled(s, a)
    ensures var s' := Step(s, a);
            s'.script == s.script && |s'.workers| == |s.workers| && s'.q.maxsize == s.q.maxsize
  {
  }

  /** No schedule goes on for ever: its length is bounded by the effort it starts with. */
  lemma {:induction false} RunIsBounded<T>(s: State<T>, actions: seq<Action>, s': State<T>)
    requires Inv(s) && Runs(s, actions, s')
    ensures Inv(s') && |actions| + Measure(s') <= Measure(s)
    ensures s'.script == s.script && |s'.workers| == |s.workers| && s'.q.maxsize == s.q.maxsize
    decreases |actions|
  {
    if actions != [] {
      var a := actions[0];
      var next := Step(s, a);
      assert Inv(next) by { StepKeepsInv(s, a); }
      assert Measure(next) < Measure(s) by { StepDropsMeasure(s, a); }
      StepFrame(s, a);
      RunIsBounded(next, actions[1..], s');
    }
  }

  // ---- progress ----------------------------------------------------------------------

  /** A worker that holds an item can always go on. */
  lemma OpenWorkerMoves<T>(s: State<T>) returns (a: Action)
    requires Inv(s) && Total(Open, s.workers) > 0
    ensures Enabled(s, a)
  {
    var i := SomeWorker(Open, s.workers);
    assert InFlight(s, i);
    var p := s.workers[i];
    a := if p.Released? then Finish(i) else if p.Got? && s.script[p.k].Work? then Run(i) else Release(i);
  }

  lemma WaitingOrAllExited<T>(s: State<T>) returns (i: nat)
    requires Inv(s) && Total(Open, s.workers) == 0
    requires |s.workers| > 0 || |s.script| == 0
    ensures i <= |s.workers|
    ensures if i < |s.workers| then s.workers[i].Waiting? else |s.takers| == |s.script|
  {
    if w :| 0 <= w < |s.workers| && s.workers[w].Waiting? {
      i := w;
    } else {
      i := |s.workers|;
      forall p | p in s.workers ensures WeightOf(Dosed(Jobs(s)), p) == 1 {
        var j :| 0 <= j < |s.workers| && s.workers[j] == p;
        assert InFlight(s, j);
        if !p.Exited? {
          TotalUpdate(Open, s.workers, j, Waiting);
        }
      }
      TotalUniform(Dosed(Jobs(s)), s.workers, 1);
    }
  }

  /**
   No deadlock: unless the client has returned, some thread can step - save for a pool that
   was started without workers and given work, which waits for ever.
   */
  lemma SomeoneMoves<T>(s: State<T>) returns (a: Action)
    requires Inv(s) && !Returned(s)
    requires |s.workers| > 0 || |s.script| == 0
    ensures Enabled(s, a)
  {
    if s.client.Joining? {
      a := JoinThread;
      var j := s.client.j;
      if Total(Open, s.workers) > 0 { a := OpenWorkerMoves(s); }
      else if !s.workers[j].Exited? {
        assert InFlight(s, j);
        TotalUpdate(Open, s.workers, j, Waiting);
        AllPillsTaken(s, j);
      }
    } else if Total(Open, s.workers) > 0 {
      a := OpenWorkerMoves(s);
    } else {
      var i := WaitingOrAllExited(s);
      BusyIsOpen(s.workers);
      if s.q.items != [] {
        assert i < |s.workers|;
        a := Get(i);
      } else if s.client.Holding? {
        a := Enqueue;
      } else if s.next < |s.script| {
        a := Acquire;
      } else {
        a := JoinQueue;
      }
    }
  }

  lemma {:induction false} BusyIsOpen(ps: seq<Phase>)
    ensures Total(Busy, ps) <= Total(Open, ps)
  {
    if ps != [] { BusyIsOpen(ps[1..]); }
  }

  /** Once the queue has been joined every pill has been taken, so no worker is still waiting. */
  lemma AllPillsTaken<T>(s: State<T>, j: nat)
    requires Inv(s) && s.client.Joining? && j < |s.workers|
    ensures !s.workers[j].Waiting?
  {
    if s.workers[j].Waiting? {
      assert |s.takers| == |s.script|;
      DosedAtMostOnce(s.workers, Dosed(Jobs(s)), j);
    }
  }

  lemma {:induction false} DosedAtMostOnce(ps: seq<Phase>, w: Weight, j: nat)
    requires w.Dosed? && j < |ps| && ps[j].Waiting?
    ensures Total(w, ps) < |ps|
  {
    if j > 0 {
      DosedAtMostOnce(ps[1..], w, j - 1);
    } else {
      DosedBound(ps[1..], w);
    }
  }

  lemma {:induction false} DosedBound(ps: seq<Phase>, w: Weight)
    requires w.Dosed?
    ensures Total(w, ps) <= |ps|
  {
    if ps != [] { DosedBound(ps[1..], w); }
  }

  // ---- the end -----------------------------------------------------------------------

  /** The jobs of a run log, in the order they were run. */
  function JobsRun<T>(s: State<T>): seq<Item<T>>
    requires forall j | 0 <= j < |s.ran| :: s.ran[j] < |s.taken|
  {
    seq(|s.ran|, j requires 0 <= j < |s.ran| => s.taken[s.ran[j]])
  }

  /** Nothing is queued, unfinished, held or alive, and the semaphore is as it started. */
  ghost predicate ShutDown<T>(s: State<T>) {
    && s.q.items == [] && s.q.unfinished == 0
    && (s.q.maxsize > 0 ==> s.q.semaphore == s.q.maxsize)
    && (forall i | 0 <= i < |s.workers| :: s.workers[i].Exited?)
  }

  /** Each job was run, and run once, by the worker that took it. */
  ghost predicate RanExactlyOnce<T>(s: State<T>) {
    && (forall k :: k in s.ran <==> 0 <= k < Jobs(s))
    && (forall i, j | 0 <= i < j < |s.ran| :: s.ran[i] != s.ran[j])
  }

  /** Worker i took exactly one pill. */
  ghost predicate OnePill<T>(s: State<T>, i: nat) {
    exists k: nat | k < |s.taken| ::
      TookPill(s, k, i) && forall other: nat | other < |s.taken| && TookPill(s, other, i) :: other == k
  }

  /** The k-th item taken was a pill, and worker i took it. */
  predicate TookPill<T>(s: State<T>, k: nat, i: nat) {
    k < |s.taken| && s.taken[k].Pill? && k < |s.takers| && s.takers[k] == i
  }

  lemma FinalState<T>(s: State<T>)
    requires Inv(s) && Returned(s)
    ensures ShutDown(s) && RanExactlyOnce(s)
    ensures s.taken == s.script
    ensures forall i | 0 <= i < |s.workers| :: OnePill(s, i)
  {
    BusyIsOpen(s.workers);
    assert |s.takers| == |s.script|;
    forall k | 0 <= k < Jobs(s) ensures k in s.ran {
      assert Accounted(s, k);
    }
    forall i: nat | i < |s.workers| ensures OnePill(s, i) {
      assert InFlight(s, i);
      var k := s.workers[i].k;
      assert TookPill(s, k, i);
      forall other: nat | other < |s.taken| && TookPill(s, other, i) ensures other == k {
        assert Accounted(s, other);
      }
    }
  }

  /**
   The main theorem.  Take any schedule of a pool started with `nworkers` threads.  It is finite,
   and where it can go no further `end_workers` has returned with everything run exactly once.
   */
  lemma EveryScheduleCompletes<T>(work: seq<T>, maxsize: nat, nworkers: nat, actions: seq<Action>, s: State<T>)
    requires Runs(Init(work, maxsize, nworkers), actions, s)
    ensures |actions| <= 7 * (|work| + nworkers) + nworkers + 1
    ensures (forall a :: !Enabled(s, a)) && (nworkers > 0 || work == []) ==> Returned(s)
    ensures Returned(s) ==> ShutDown(s) && RanExactlyOnce(s) && s.taken == Script(work, nworkers)
                            && forall i | 0 <= i < nworkers :: OnePill(s, i)
  {
    var s0 := Init(work, maxsize, nworkers);
    InitInv(work, maxsize, nworkers);
    TotalUniform(Effort, s0.workers, 0);
    RunIsBounded(s0, actions, s);
    MeasureNonNegative(s);
    if !Returned(s) && (nworkers > 0 || work == []) {
      var a := SomeoneMoves(s);
    }
    if Returned(s) { FinalState(s); }
  }

  /** The one pool that never comes back: no threads, some work. */
  lemma NoWorkersNeverReturns<T>(work: seq<T>, maxsize: nat, actions: seq<Action>, s: State<T>)
    requires work != [] && Runs(Init(work, maxsize, 0), actions, s)
    ensures !Returned(s)
  {
    InitInv(work, maxsize, 0);
    RunIsBounded(Init(work, maxsize, 0), actions, s);
    if Returned(s) {
      FinalState(s);
      TakerExists(s, 0);
      assert false;
    }
  }

  lemma TakerExists<T>(s: State<T>, k: nat)
    requires Inv(s) && k < |s.takers|
    ensures s.takers[k] < |s.workers|
  {
    assert Accounted(s, k);
  }

  /** Slots are conserved throughout, so a put that got its slot never waits for room in the queue. */
  lemma SlotHolderNeverBlocks<T>(work: seq<T>, maxsize: nat, nworkers: nat, actions: seq<Action>, s: State<T>)
    requires Runs(Init(work, maxsize, nworkers), actions, s)
    ensures maxsize > 0 ==>
              s.q.semaphore + (if s.client.Holding? then 1 else 0) + |s.q.items| + Total(Busy, s.workers) == maxsize
    ensures s.client.Holding? ==> Enabled(s, Enqueue)
  {
    InitInv(work, maxsize, nworkers);
    RunIsBounded(Init(work, maxsize, nworkers), actions, s);
  }

  // ---- a single consumer ---------------------------------------------------------------

  /** The one worker holds the item taken last. */
  ghost predicate OnlyLatest<T>(s: State<T>) {
    && |s.workers| == 1
    && (!s.workers[0].Waiting? ==> s.workers[0].k == |s.takers| - 1 && s.workers[0].k < |s.script|)
  }

  /** With one worker the run log follows the script. */
  ghost predicate InOrder<T>(s: State<T>) {
    && OnlyLatest(s)
    && (forall j | 0 <= j < |s.ran| :: s.ran[j] == j)
    && |s.ran| == (if s.workers[0].Got? && s.script[s.workers[0].k].Work? then |s.takers| - 1
                   else if |s.takers| < Jobs(s) then |s.takers| else Jobs(s))
  }

  lemma StepKeepsOrder<T>(s: State<T>, a: Action)
    requires Inv(s) && InOrder(s) && Enabled(s, a)
    ensures InOrder(Step(s, a))
  {
    assert InFlight(s, 0);
  }

  lemma {:induction false} RunKeepsOrder<T>(s: State<T>, actions: seq<Action>, s': State<T>)
    requires Inv(s) && InOrder(s) && Runs(s, actions, s')
    ensures InOrder(s')
    decreases |actions|
  {
    if actions != [] {
      StepKeepsInv(s, actions[0]);
      StepKeepsOrder(s, actions[0]);
      RunKeepsOrder(Step(s, actions[0]), actions[1..], s');
    }
  }

  /** A lone consumer runs exactly the work put before the pill, in the order it was put. */
  lemma SingleConsumerInOrder<T>(work: seq<T>, maxsize: nat, actions: seq<Action>, s: State<T>)
    requires Runs(Init(work, maxsize, 1), actions, s) && Returned(s)
    ensures forall j | 0 <= j < |s.ran| :: s.ran[j] < |s.taken|
    ensures JobsRun(s) == Script(work, 0)
  {
    var s0 := Init(work, maxsize, 1);
    InitInv(work, maxsize, 1);
    RunKeepsOrder(s0, actions, s);
    RunIsBounded(s0, actions, s);
    FinalState(s);
    assert |s.script| == |work| + 1;
    assert JobsRun(s) == Script(work, 0);
  }
}
