/** The queue object and the pool driver as programs, each step tied to its model in WorkPool. */
module Workers {
  import opened WorkPool

  class WorkQ<T> {
    const maxsize: nat
    var semaphore: nat
    var items: seq<Item<T>>
    var unfinished: int

    function View(): Queue<T> reads this { Queue(maxsize, semaphore, items, unfinished) }

    constructor (maxsize: nat)
      ensures View() == Queue(maxsize, maxsize, [], 0)
    {
      this.maxsize, semaphore, items, unfinished := maxsize, maxsize, [], 0;
    }

    /** put, first half: blocks while no slot is left. */
    method AcquireSlot()
      requires maxsize == 0 || semaphore > 0
      modifies this
      ensures View() == old(View()).(semaphore := if maxsize == 0 then old(semaphore) else old(semaphore) - 1)
    {
      if maxsize != 0 { semaphore := semaphore - 1; }
    }

    /** put, second half: blocks while the queue is full. */
    method Insert(item: Item<T>)
      requires maxsize == 0 || |items| < maxsize
      modifies this
      ensures View() == old(View()).(items := old(items) + [item], unfinished := old(unfinished) + 1)
    {
      items := items + [item];
      unfinished := unfinished + 1;
    }

    method Take() returns (item: Item<T>)
      requires items != []
      modifies this
      ensures item == old(items)[0] && View() == old(View()).(items := old(items)[1..])
    {
      item := items[0];
      items := items[1..];
    }

    /** task_done, first half. */
    method ReleaseSlot()
      modifies this
      ensures View() == old(View()).(semaphore := if maxsize == 0 then old(semaphore) else old(semaphore) + 1)
    {
      if maxsize != 0 { semaphore := semaphore + 1; }
    }

    /** task_done, second half. */
    method MarkDone()
      modifies this
      ensures View() == old(View()).(unfinished := old(unfinished) - 1)
    {
      unfinished := unfinished - 1;
    }
  }

  /** A scheduler that never picks a blocked thread while the client has not returned. */
  ghost predicate IsScheduler<T(!new)>(pick: State<T> -> Action) {
    forall s :: Inv(s) && !Returned(s) && (|s.workers| > 0 || |s.script| == 0) ==> Enabled(s, pick(s))
  }

  function Pick<T>(xs: seq<T>, order: seq<nat>): seq<T>
    requires forall k | k in order :: k < |xs|
  {
    assert forall j | 0 <= j < |order| :: order[j] in order;
    seq(|order|, j requires 0 <= j < |order| => xs[order[j]])
  }

  lemma PickAppend<T>(xs: seq<T>, a: seq<nat>, b: seq<nat>)
    requires forall k | k in a + b :: k < |xs|
    ensures (forall k | k in a :: k in a + b) && (forall k | k in b :: k in a + b)
    ensures Pick(xs, a + b) == Pick(xs, a) + Pick(xs, b)
  {
    assert forall k | k in a :: k in a + b;
    assert forall k | k in b :: k in a + b;
  }

  lemma PickFront<T>(xs: seq<T>, order: seq<nat>)
    requires xs != [] && forall k | k in order :: k < |xs| - 1
    ensures Pick(xs, order) == Pick(xs[..|xs| - 1], order)
  {
    assert forall j | 0 <= j < |order| :: order[j] in order;
  }

  lemma InOneHalf(order: seq<nat>, at: nat, k: nat)
    requires at < |order| && order[at] != k && k in order
    ensures k in order[..at] + order[at + 1..]
  {
    var i :| 0 <= i < |order| && order[i] == k;
    assert (order[..at] + order[at + 1..])[if i < at then i else i - 1] == k;
  }

  lemma InOneHalfOnly(order: seq<nat>, at: nat, k: nat)
    requires at < |order| && forall i, j | 0 <= i < j < |order| :: order[i] != order[j]
    requires k in order[..at] + order[at + 1..]
    ensures k in order && k != order[at]
  {
  }

  ghost predicate IsPermutation(order: seq<nat>, n: nat) {
    && (forall k :: k in order <==> 0 <= k < n)
    && (forall i, j | 0 <= i < j < |order| :: order[i] != order[j])
  }

  lemma SplitAtLargest(order: seq<nat>, n: nat) returns (a: seq<nat>, b: seq<nat>)
    requires n > 0 && IsPermutation(order, n)
    ensures order == a + ([n - 1] + b) && IsPermutation(a + b, n - 1)
  {
    assert n - 1 in order;
    var at :| 0 <= at < |order| && order[at] == n - 1;
    a, b := order[..at], order[at + 1..];
    forall k ensures k in a + b <==> 0 <= k < n - 1 {
      if 0 <= k < n - 1 { InOneHalf(order, at, k); }
      if k in a + b { InOneHalfOnly(order, at, k); }
    }
  }

  /** The same jobs, each as often, when every position is picked once. */
  lemma {:induction false} PickAll<T>(xs: seq<T>, order: seq<nat>)
    requires IsPermutation(order, |xs|)
    ensures multiset(Pick(xs, order)) == multiset(xs)
    decreases |xs|
  {
    if order == [] {
      assert 0 < |xs| ==> 0 in order;
    } else {
      assert order[0] in order;
      var front := xs[..|xs| - 1];
      var a, b := SplitAtLargest(order, |xs|);
      PickAll(front, a + b);
      PickFront(xs, a + b);
      PickAppend(xs, a, b);
      PickAppend(xs, a, [|xs| - 1] + b);
      PickAppend(xs, [|xs| - 1], b);
      assert Pick(xs, [|xs| - 1]) == [xs[|xs| - 1]];
      assert xs == front + [xs[|xs| - 1]];
    }
  }

  /** The item each worker thread has in its local variable; what a waiting or finished one has does not matter. */
  type Hands<T> = map<nat, Item<T>>

  ghost predicate HoldsTaken<T>(s: State<T>, hands: Hands<T>) {
    forall i: nat | i < |s.workers| && (s.workers[i].Got? || s.workers[i].Ran? || s.workers[i].Released?) ::
      s.workers[i].k < |s.taken| && i in hands && hands[i] == s.taken[s.workers[i].k]
  }

  /**
   One step of one thread on the real queue: a worker that gets an item keeps it, and a job that runs
   is the one its worker holds and is handed back.
   */
  method Perform<T>(q: WorkQ<T>, s: State<T>, a: Action, hands: Hands<T>)
    returns (s': State<T>, hands': Hands<T>, done: seq<T>)
    requires Enabled(s, a) && s.q == q.View() && HoldsTaken(s, hands) && |s.takers| == |s.taken|
    modifies q
    ensures s' == Step(s, a) && s'.q == q.View() && HoldsTaken(s', hands')
    ensures a.Run? ==> a.i in hands && hands[a.i].Work? && done == [hands[a.i].job]
    ensures !a.Run? ==> done == []
  {
    done, hands' := [], hands;
    s' := Step(s, a);
    match a {
      case Acquire => q.AcquireSlot();
      case Enqueue => q.Insert(s.script[s.next]);
      case Get(i) =>
        var item := q.Take();
        hands' := hands[i := item];
      case Run(i) => done := [hands[i].job];
      case Release(i) => q.ReleaseSlot();
      case Finish(i) => q.MarkDone();
      case JoinQueue =>
      case JoinThread =>
    }
  }

  /** The log holds the jobs of the items run, in the order they were run. */
  ghost predicate Logged<T>(s: State<T>, log: seq<T>) {
    && |log| == |s.ran|
    && forall j | 0 <= j < |log| :: s.ran[j] < |s.taken| && s.taken[s.ran[j]] == Work(log[j])
  }

  lemma LoggedStep<T>(s: State<T>, a: Action, hands: Hands<T>, log: seq<T>, done: seq<T>)
    requires Logged(s, log) && Enabled(s, a) && HoldsTaken(s, hands)
    requires a.Run? ==> a.i in hands && hands[a.i].Work? && done == [hands[a.i].job]
    requires !a.Run? ==> done == []
    ensures Logged(Step(s, a), log + done)
  {
    assert a.Run? || log + done == log;
  }

  ghost predicate PoolInv<T>(work: seq<T>, nworkers: nat, s: State<T>, hands: Hands<T>, log: seq<T>) {
    && Inv(s) && s.script == Script(work, nworkers) && |s.workers| == nworkers
    && HoldsTaken(s, hands) && Logged(s, log) && (nworkers == 1 ==> InOrder(s))
  }

  lemma PoolStarts<T>(work: seq<T>, maxsize: nat, nworkers: nat)
    ensures PoolInv(work, nworkers, Init(work, maxsize, nworkers), map[], [])
  {
    InitInv(work, maxsize, nworkers);
  }

  lemma PoolStep<T>(work: seq<T>, nworkers: nat, s: State<T>, a: Action, hands: Hands<T>, hands': Hands<T>,
                    log: seq<T>, done: seq<T>)
    requires PoolInv(work, nworkers, s, hands, log) && Enabled(s, a) && HoldsTaken(Step(s, a), hands')
    requires a.Run? ==> a.i in hands && hands[a.i].Work? && done == [hands[a.i].job]
    requires !a.Run? ==> done == []
    ensures PoolInv(work, nworkers, Step(s, a), hands', log + done)
    ensures 0 <= Measure(Step(s, a)) < Measure(s)
  {
    StepKeepsInv(s, a);
    StepDropsMeasure(s, a);
    StepFrame(s, a);
    MeasureNonNegative(Step(s, a));
    LoggedStep(s, a, hands, log, done);
    if nworkers == 1 { StepKeepsOrder(s, a); }
  }

  /** Every job once, whatever the order. */
  lemma JobsOnce<T>(work: seq<T>, s: State<T>, log: seq<T>)
    requires RanExactlyOnce(s) && Jobs(s) == |work| && Logged(s, log)
    requires s.taken == Script(work, |s.workers|)
    ensures multiset(log) == multiset(work)
  {
    PickAll(work, s.ran);
    assert log == Pick(work, s.ran);
  }

  /** The main theorem of the pool in terms of jobs: those run are those given, each as often. */
  lemma EveryJobRunOnce<T>(work: seq<T>, maxsize: nat, nworkers: nat, actions: seq<Action>, s: State<T>)
    requires Runs(Init(work, maxsize, nworkers), actions, s) && Returned(s)
    ensures forall j | 0 <= j < |s.ran| :: s.ran[j] < |s.taken|
    ensures multiset(JobsRun(s)) == multiset(Script(work, 0))
  {
    InitInv(work, maxsize, nworkers);
    RunIsBounded(Init(work, maxsize, nworkers), actions, s);
    FinalState(s);
    PickAll(Script(work, 0), s.ran);
    assert forall j | 0 <= j < |s.ran| :: s.ran[j] in s.ran;
    assert JobsRun(s) == Pick(Script(work, 0), s.ran);
  }

  /** With one consumer also in their order. */
  lemma JobsInOrder<T>(work: seq<T>, s: State<T>, log: seq<T>)
    requires RanExactlyOnce(s) && Jobs(s) == |work| && Logged(s, log) && InOrder(s) && |s.takers| == |s.script|
    requires s.taken == Script(work, 1)
    ensures log == work
  {
    forall j | 0 <= j < |log| ensures log[j] == Script(work, 1)[j].job && j < |work| {
      assert s.ran[j] in s.ran;
    }
  }

  /**
   Everything put, then a pill for each consumer, then join: interleaved by any scheduler the run
   terminates and the jobs that came off the queue and were run are exactly those put; a lone consumer
   runs them in the order they were put.
   */
  method RunQueue<T(!new)>(work: seq<T>, maxsize: nat, nworkers: nat, pick: State<T> -> Action) returns (log: seq<T>)
    requires nworkers > 0 || work == []
    requires IsScheduler(pick)
    ensures multiset(log) == multiset(work)
    ensures nworkers == 1 ==> log == work
  {
    var q := new WorkQ<T>(maxsize);
    var s := Init(work, maxsize, nworkers);
    var hands: Hands<T> := map[];
    log := [];
    PoolStarts(work, maxsize, nworkers);
    while !Returned(s)
      invariant s.q == q.View() && PoolInv(work, nworkers, s, hands, log)
      decreases Measure(s)
    {
      var a := pick(s);
      MeasureNonNegative(s);
      ghost var before, held := s, hands;
      var done;
      s, hands, done := Perform(q, s, a, hands);
      PoolStep(work, nworkers, before, a, held, hands, log, done);
      log := log + done;
    }
    FinalState(s);
    JobsOnce(work, s, log);
    if nworkers == 1 { JobsInOrder(work, s, log); }
  }

  /** start_workers, one wenque per job and end_workers: the queue has a slot for each worker. */
  method RunPool<T(!new)>(work: seq<T>, nworkers: nat, pick: State<T> -> Action) returns (log: seq<T>)
    requires nworkers > 0 || work == []
    requires IsScheduler(pick)
    ensures multiset(log) == multiset(work)
  {
    log := RunQueue(work, nworkers, nworkers, pick);
  }
}
