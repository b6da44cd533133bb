/**
 The double-checked singleton: any number of threads calling init, reinit, clear and get in
 any order, every read, write, construction and lock operation a step of its own.
 */
module Singleton {
  import opened Wrappers

  datatype Call = Init | Reinit | Clear | Get

  /** Where a thread stands in its call. */
  datatype Pc =
    | Idle
    | InitPeek              // about to read the field without the lock
    | Waiting(call: Call)   // about to take the lock
    | Locked(call: Call)    // holds the lock, about to check the field
    | Made(call: Call, obj: nat)   // holds the lock and a new instance, about to store it
    | Leaving(call: Call)   // about to release the lock
    | GetPeek               // about to check the field
    | GetRead(seen: nat)    // about to read it again and return it; so many clears before the first read

  datatype State = State(
    field: Option<nat>,
    lock: Option<nat>,
    threads: seq<Pc>,
    made: nat,          // instances constructed so far, also the next one's identity
    inits: nat,         // constructions by init
    clears: nat,        // successful clears
    initReturned: bool,
    lateRaises: nat,    // get calls that raised after an init had returned
    emptyGets: nat)     // get calls that returned None

  datatype Action = Start(t: nat, call: Call) | Move(t: nat)

  function Initial(threads: nat): State {
    State(None, None, seq(threads, _ => Idle), 0, 0, 0, false, 0, 0)
  }

  predicate Enabled(s: State, a: Action) {
    && a.t < |s.threads|
    && match a
       case Start(t, _) => s.threads[t].Idle?
       case Move(t) => !s.threads[t].Idle? && (s.threads[t].Waiting? ==> s.lock.None?)
  }

  function At(s: State, t: nat, pc: Pc): State
    requires t < |s.threads|
  {
    s.(threads := s.threads[t := pc])
  }

  function Step(s: State, a: Action): State
    requires Enabled(s, a)
  {
    match a
    case Start(t, call) =>
      At(s, t, match call case Init => InitPeek case Get => GetPeek case _ => Waiting(call))
    case Move(t) =>
      match s.threads[t]
      case Idle => s
      case InitPeek =>
        if s.field.Some? then At(s, t, Idle).(initReturned := true) else At(s, t, Waiting(Init))
      case Waiting(call) => At(s, t, Locked(call)).(lock := Some(t))
      case Locked(call) => Guarded(s, t, call)
      case Made(call, obj) => At(s, t, Leaving(call)).(field := Some(obj))
      case Leaving(call) =>
        At(s, t, Idle).(lock := None, initReturned := s.initReturned || call.Init?)
      case GetPeek =>
        if s.field.None? then At(s, t, Idle).(lateRaises := s.lateRaises + if s.initReturned then 1 else 0)
        else At(s, t, GetRead(s.clears))
      case GetRead(_) => At(s, t, Idle).(emptyGets := s.emptyGets + if s.field.None? then 1 else 0)
  }

  /** The check made while holding the lock. */
  function Guarded(s: State, t: nat, call: Call): State
    requires t < |s.threads|
  {
    match call
    case Init =>
      if s.field.Some? then At(s, t, Leaving(Init))
      else At(s, t, Made(Init, s.made)).(made := s.made + 1, inits := s.inits + 1)
    case Reinit =>
      if s.field.None? then At(s, t, Leaving(Reinit)) else At(s, t, Made(Reinit, s.made)).(made := s.made + 1)
    case Clear =>
      if s.field.None? then At(s, t, Leaving(Clear)) else At(s, t, Leaving(Clear)).(field := None, clears := s.clears + 1)
    case Get => s
  }

  ghost predicate Runs(s: State, actions: seq<Action>, s': State)
    decreases |actions|
  {
    if actions == [] then s' == s
    else Enabled(s, actions[0]) && Runs(Step(s, actions[0]), actions[1..], s')
  }

  predicate HoldsLock(pc: Pc) { pc.Locked? || pc.Made? || pc.Leaving? }

  /** An init has constructed an instance it has not stored yet. */
  predicate Pending(s: State) {
    s.lock.Some? && s.lock.value < |s.threads| && s.threads[s.lock.value].Made? && s.threads[s.lock.value].call.Init?
  }

  ghost predicate ThreadSound(s: State, t: nat)
    requires t < |s.threads|
  {
    var pc := s.threads[t];
    && (HoldsLock(pc) <==> s.lock == Some(t))
    && ((pc.Waiting? || HoldsLock(pc)) ==> !pc.call.Get?)
    && (pc.Made? && pc.call.Init? ==> s.field.None?)
    && (pc.Made? && pc.call.Reinit? ==> s.field.Some?)
    && (pc.Made? ==> !pc.call.Clear?)
    && (pc.Leaving? && pc.call.Init? ==> s.field.Some?)
    && (pc.GetRead? ==> pc.seen <= s.clears && (s.field.None? ==> pc.seen < s.clears))
  }

  ghost predicate Inv(s: State) {
    && (forall t | 0 <= t < |s.threads| :: ThreadSound(s, t))
    && (s.lock.Some? ==> s.lock.value < |s.threads|)
    && s.inits == s.clears + (if s.field.Some? || Pending(s) then 1 else 0)
    && (s.clears == 0 && s.initReturned ==> s.field.Some?)
    && (s.clears == 0 ==> s.lateRaises == 0 && s.emptyGets == 0)
  }

  lemma OwnThreadSound(s: State, a: Action)
    requires Inv(s) && Enabled(s, a)
    ensures a.t < |Step(s, a).threads| && ThreadSound(Step(s, a), a.t)
  {
    assert ThreadSound(s, a.t);
  }

  /** Another thread stays sound: it does not hold the lock while the field or the lock changes. */
  lemma OtherThreadSound(s: State, a: Action, t: nat)
    requires Inv(s) && Enabled(s, a) && t < |s.threads| && t != a.t
    ensures t < |Step(s, a).threads| && ThreadSound(Step(s, a), t)
  {
    assert ThreadSound(s, a.t) && ThreadSound(s, t);
    assert Step(s, a).threads[t] == s.threads[t];
  }

  lemma ThreadsStaySound(s: State, a: Action)
    requires Inv(s) && Enabled(s, a)
    ensures |Step(s, a).threads| == |s.threads|
    ensures forall t | 0 <= t < |s.threads| :: ThreadSound(Step(s, a), t)
  {
    OwnThreadSound(s, a);
    forall t: nat | t < |s.threads| ensures t < |Step(s, a).threads| && ThreadSound(Step(s, a), t) {
      if t != a.t { OtherThreadSound(s, a, t); }
    }
  }

  lemma StepKeepsInv(s: State, a: Action)
    requires Inv(s) && Enabled(s, a)
    ensures Inv(Step(s, a)) && |Step(s, a).threads| == |s.threads|
  {
    ThreadsStaySound(s, a);
    assert ThreadSound(s, a.t);
    if s.lock.Some? { assert ThreadSound(s, s.lock.value); }
  }

  lemma {:induction false} RunKeepsInv(s: State, actions: seq<Action>, s': State)
    requires Inv(s) && Runs(s, actions, s')
    ensures Inv(s') && |s'.threads| == |s.threads|
    decreases |actions|
  {
    if actions != [] {
      StepKeepsInv(s, actions[0]);
      RunKeepsInv(Step(s, actions[0]), actions[1..], s');
    }
  }

  /** The field changes only in the hands of the thread that holds the lock, and only one can hold it. */
  lemma WrittenUnderLock(n: nat, actions: seq<Action>, s: State, a: Action)
    requires Runs(Initial(n), actions, s) && Enabled(s, a) && Step(s, a).field != s.field
    ensures s.lock == Some(a.t)
    ensures forall t | 0 <= t < |s.threads| && HoldsLock(s.threads[t]) :: t == a.t
  {
    RunKeepsInv(Initial(n), actions, s);
    assert ThreadSound(s, a.t);
    forall t | 0 <= t < |s.threads| && HoldsLock(s.threads[t]) ensures t == a.t { assert ThreadSound(s, t); }
  }

  /** Init constructions minus clears is 0 or 1, and 1 exactly when an instance is stored or about to be. */
  lemma OneInstance(n: nat, actions: seq<Action>, s: State)
    requires Runs(Initial(n), actions, s)
    ensures s.inits == s.clears + (if s.field.Some? || Pending(s) then 1 else 0)
  {
    RunKeepsInv(Initial(n), actions, s);
  }

  /** As long as nobody clears: one construction at most, and once an init has returned every get returns an instance. */
  lemma WithoutClears(n: nat, actions: seq<Action>, s: State)
    requires Runs(Initial(n), actions, s) && s.clears == 0
    ensures s.inits <= 1
    ensures s.initReturned ==> s.field.Some?
    ensures s.lateRaises == 0 && s.emptyGets == 0
  {
    RunKeepsInv(Initial(n), actions, s);
  }

  /**
   The second read of a get finds nothing if and only if a clear ran between its two reads and no
   instance has been stored since.
   */
  lemma GetReturnsNoneExactly(n: nat, actions: seq<Action>, s: State, t: nat)
    requires Runs(Initial(n), actions, s) && t < |s.threads| && s.threads[t].GetRead?
    ensures Step(s, Move(t)).emptyGets == s.emptyGets + 1
       <==> s.clears > s.threads[t].seen && (s.inits == s.clears || Pending(s))
    ensures Step(s, Move(t)).emptyGets == s.emptyGets <==> s.field.Some?
  {
    RunKeepsInv(Initial(n), actions, s);
    assert ThreadSound(s, t);
    if s.lock.Some? { assert ThreadSound(s, s.lock.value); }
  }

  /** Whatever happened before: a clear that runs next, between the two reads of a get, empties it. */
  lemma ClearBetweenReads(s: State, getter: nat, clearer: nat)
    requires getter < |s.threads| && clearer < |s.threads|
    requires s.threads[getter].GetRead? && s.threads[clearer] == Locked(Clear) && s.field.Some?
    ensures Enabled(s, Move(clearer)) && Enabled(Step(s, Move(clearer)), Move(getter))
    ensures Step(Step(s, Move(clearer)), Move(getter)).emptyGets == s.emptyGets + 1
  {
  }

  /** No thread is stuck: if any call is under way some thread can move. */
  lemma SomeoneMoves(n: nat, actions: seq<Action>, s: State)
    requires Runs(Initial(n), actions, s)
    requires exists t :: 0 <= t < |s.threads| && !s.threads[t].Idle?
    ensures exists t :: Enabled(s, Move(t))
  {
    RunKeepsInv(Initial(n), actions, s);
    if s.lock.Some? {
      assert ThreadSound(s, s.lock.value);
      assert Enabled(s, Move(s.lock.value));
    } else {
      var t :| 0 <= t < |s.threads| && !s.threads[t].Idle?;
      assert Enabled(s, Move(t));
    }
  }

  lemma {:induction false} OneMore(s: State, actions: seq<Action>, s': State, a: Action, s'': State)
    requires Runs(s, actions, s') && Enabled(s', a)
    requires Step(s', a).threads == s''.threads && Step(s', a) == s''.(threads := Step(s', a).threads)
    ensures Runs(s, actions + [a], s'')
    decreases |actions|
  {
    if actions == [] {
      assert (actions + [a])[1..] == [];
    } else {
      assert (actions + [a])[1..] == actions[1..] + [a];
      OneMore(Step(s, actions[0]), actions[1..], s', a, s'');
    }
  }

  /** A state of two threads. */
  function Two(field: Option<nat>, lock: Option<nat>, a: Pc, b: Pc, made: nat, inits: nat, clears: nat, returned: bool): State {
    State(field, lock, [a, b], made, inits, clears, returned, 0, 0)
  }

  lemma FirstInit() returns (run: seq<Action>)
    ensures Runs(Initial(2), run, Two(Some(0), None, Idle, Idle, 1, 1, 0, true))
  {
    var s0 := Initial(2);
    assert s0.threads == [Idle, Idle];
    var s1 := Two(None, None, InitPeek, Idle, 0, 0, 0, false);
    var s2 := Two(None, None, Waiting(Init), Idle, 0, 0, 0, false);
    var s3 := Two(None, Some(0), Locked(Init), Idle, 0, 0, 0, false);
    var s4 := Two(None, Some(0), Made(Init, 0), Idle, 1, 1, 0, false);
    var s5 := Two(Some(0), Some(0), Leaving(Init), Idle, 1, 1, 0, false);
    var s6 := Two(Some(0), None, Idle, Idle, 1, 1, 0, true);
    run := [];
    OneMore(s0, run, s0, Start(0, Init), s1); run := run + [Start(0, Init)];
    OneMore(s0, run, s1, Move(0), s2); run := run + [Move(0)];
    OneMore(s0, run, s2, Move(0), s3); run := run + [Move(0)];
    OneMore(s0, run, s3, Move(0), s4); run := run + [Move(0)];
    OneMore(s0, run, s4, Move(0), s5); run := run + [Move(0)];
    OneMore(s0, run, s5, Move(0), s6); run := run + [Move(0)];
  }

  /** ... and then a get of the other thread up to its second read. */
  lemma GetStarts() returns (run: seq<Action>)
    ensures Runs(Initial(2), run, Two(Some(0), None, Idle, GetRead(0), 1, 1, 0, true))
  {
    var s0 := Initial(2);
    run := FirstInit();
    var s1 := Two(Some(0), None, Idle, Idle, 1, 1, 0, true);
    var s2 := Two(Some(0), None, Idle, GetPeek, 1, 1, 0, true);
    var s3 := Two(Some(0), None, Idle, GetRead(0), 1, 1, 0, true);
    OneMore(s0, run, s1, Start(1, Get), s2); run := run + [Start(1, Get)];
    OneMore(s0, run, s2, Move(1), s3); run := run + [Move(1)];
  }

  /** get reads the field twice; a clear between the two reads makes it return None. */
  lemma ClearMakesGetEmpty()
    ensures exists run, s :: Runs(Initial(2), run, s) && s.emptyGets == 1
  {
    var s0 := Initial(2);
    var run := GetStarts();
    var s3 := Two(Some(0), None, Idle, GetRead(0), 1, 1, 0, true);
    var s4 := Two(Some(0), None, Waiting(Clear), GetRead(0), 1, 1, 0, true);
    var s5 := Two(Some(0), Some(0), Locked(Clear), GetRead(0), 1, 1, 0, true);
    var s6 := Two(None, Some(0), Leaving(Clear), GetRead(0), 1, 1, 1, true);
    OneMore(s0, run, s3, Start(0, Clear), s4); run := run + [Start(0, Clear)];
    OneMore(s0, run, s4, Move(0), s5); run := run + [Move(0)];
    OneMore(s0, run, s5, Move(0), s6); run := run + [Move(0)];
    OneMore(s0, run, s6, Move(1), Step(s6, Move(1))); run := run + [Move(1)];
  }
}
