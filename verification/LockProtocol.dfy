/**
 Whole runs of the lock protocol: any number of clients and targets, each lock and each
 unlock taken in the two requests the server sends - a search, then a patch computed
 from what the search returned.
 */
module LockProtocol {
  import opened Wrappers
  import opened Text
  import opened HolderString
  import opened LockRecord

  /** Where a client stands between its search and its patch. */
  datatype Phase =
    | Idle
    | Locking(target: string, kind: LockType, convert: bool, seen: Record)
    | Unlocking(target: string, seen: Record)

  datatype State = State(
    db: Db,
    phase: map<string, Phase>,
    holders: map<string, set<string>>)   // who has been granted each target

  datatype Action =
    | SearchToLock(client: string, target: string, kind: LockType, convert: bool)
    | PatchLock(client: string)
    | SearchToUnlock(client: string, target: string)
    | PatchUnlock(client: string)

  /** Client names: no name is part of another. */
  ghost predicate Independent(names: set<string>) {
    && (forall n | n in names :: IsName(n))
    && (forall n, m | n in names && m in names && n != m :: !Contains(n, m))
  }

  function Holders(s: State, t: string): set<string> {
    if t in s.holders then s.holders[t] else {}
  }

  ghost predicate TargetsKnown(s: State) {
    forall c | c in s.phase && !s.phase[c].Idle? :: s.phase[c].target in s.db
  }

  /** What a client may do next; it locks only what it does not hold and unlocks only what it holds. */
  predicate Enabled(s: State, a: Action) {
    && a.client in s.phase
    && match a
       case SearchToLock(c, t, kind, convert) =>
         s.phase[c].Idle? && t in s.db && c !in Holders(s, t)
       case SearchToUnlock(c, t) =>
         s.phase[c].Idle? && t in s.db && c in Holders(s, t)
       case PatchLock(c) => s.phase[c].Locking? && s.phase[c].target in s.db
       case PatchUnlock(c) =>
         c != "" && s.phase[c].Unlocking? && s.phase[c].target in s.db
  }

  /** One request; a search that matches nothing leaves the client idle. */
  function Step(s: State, a: Action): State
    requires Enabled(s, a)
  {
    match a
    case SearchToLock(c, t, kind, convert) =>
      if Lockable(s.db[t], kind, convert)
      then s.(phase := s.phase[c := Locking(t, kind, convert, s.db[t])])
      else s
    case PatchLock(c) =>
      var Locking(t, kind, convert, seen) := s.phase[c];
      State(s.db[t := Locked(s.db[t], kind, convert, c, seen)],
            s.phase[c := Idle],
            s.holders[t := Holders(s, t) + {c}])
    case SearchToUnlock(c, t) =>
      if !s.db[t].isFree then s.(phase := s.phase[c := Unlocking(t, s.db[t])]) else s
    case PatchUnlock(c) =>
      var Unlocking(t, seen) := s.phase[c];
      State(s.db[t := Unlocked(s.db[t], c, seen)],
            s.phase[c := Idle],
            s.holders[t := Holders(s, t) - {c}])
  }

  /** Some client is between its search and its patch of this target. */
  predicate WindowOpen(s: State, t: string) {
    exists c | c in s.phase :: !s.phase[c].Idle? && s.phase[c].target == t
  }

  /** No search opens a second window on a target. */
  predicate Apart(s: State, a: Action) {
    (a.SearchToLock? || a.SearchToUnlock?) ==> !WindowOpen(s, a.target)
  }

  /** The state after a run, provided every action of it was possible. */
  ghost predicate Runs(s: State, actions: seq<Action>, apart: bool, s': State)
    decreases |actions|
  {
    if actions == [] then s' == s
    else
      && Enabled(s, actions[0])
      && (apart ==> Apart(s, actions[0]))
      && Runs(Step(s, actions[0]), actions[1..], apart, s')
  }

  // ---- the invariant ---------------------------------------------------------------

  predicate IsInitial(r: Record) {
    r.isFree && r.useBy == "" && !r.forParallel && r.clientCount == 0
  }

  ghost function Members(names: seq<string>): set<string> { set n | n in names }

  ghost predicate HeldAlone(r: Record, client: string) {
    !r.isFree && r.useBy == client && !r.forParallel && r.clientCount == 0
  }

  ghost predicate HeldTogether(r: Record, clients: set<string>) {
    && clients != {}
    && !r.isFree && r.forParallel && r.clientCount == |clients|
    && OnlyBlanks(r.useBy)
    && Distinct(Tokens(r.useBy)) && Members(Tokens(r.useBy)) == clients
  }

  /** A record is free, held by one client alone, or shared by as many clients as it counts. */
  ghost predicate Consistent(r: Record, clients: set<string>) {
    || (clients == {} && IsInitial(r))
    || (exists c :: clients == {c} && HeldAlone(r, c))
    || HeldTogether(r, clients)
  }

  ghost predicate Inv(s: State) {
    && TargetsKnown(s)
    && Independent(s.phase.Keys)
    && (forall t | t in s.db :: Holders(s, t) <= s.phase.Keys && Consistent(s.db[t], Holders(s, t)))
    && (forall c | c in s.phase :: WindowSound(s, c))
    && (forall c, d | c in s.phase && d in s.phase && c != d && !s.phase[c].Idle? && !s.phase[d].Idle? ::
          s.phase[c].target != s.phase[d].target)
  }

  /** What a client saw in its search still stands. */
  ghost predicate WindowSound(s: State, c: string)
    requires TargetsKnown(s) && c in s.phase
  {
    match s.phase[c]
    case Idle => true
    case Locking(t, kind, convert, seen) =>
      seen == s.db[t] && Lockable(seen, kind, convert) && c !in Holders(s, t)
    case Unlocking(t, seen) => seen == s.db[t] && c in Holders(s, t)
  }

  ghost predicate AllIdleAndFree(s: State) {
    && TargetsKnown(s)
    && Independent(s.phase.Keys)
    && (forall c | c in s.phase :: s.phase[c].Idle?)
    && (forall t | t in s.db :: Holders(s, t) == {} && IsInitial(s.db[t]))
  }

  // ---- one record ------------------------------------------------------------------

  lemma {:induction false} WithoutMembers(names: seq<string>, name: string)
    ensures forall n :: n in Without(names, name) <==> n in names && n != name
    ensures Distinct(names) ==> Distinct(Without(names, name))
  {
    if names != [] {
      WithoutMembers(names[1..], name);
      var rest := Without(names[1..], name);
      if Distinct(names) {
        assert Distinct(names[1..]);
        assert names[0] !in names[1..];
        assert Distinct([names[0]] + rest);
      }
    }
  }

  lemma LockKeepsConsistent(r: Record, clients: set<string>, kind: LockType, convert: bool, c: string)
    requires IsName(c) && Consistent(r, clients) && Lockable(r, kind, convert) && c !in clients
    ensures Consistent(Locked(r, kind, convert, c, r), clients + {c})
  {
    var after := Locked(r, kind, convert, c, r);
    assert c in Tokens(r.useBy) ==> c in Members(Tokens(r.useBy));
    if kind.Exclusive? {
      assert clients + {c} == {c} && HeldAlone(after, c);
    } else if convert {
      SplitNone(c, ' ') by { assert IsSpace(' '); }
      assert Tokens(c) == [c];
      assert clients + {c} == {c} == Members([c]);
      assert HeldTogether(after, clients + {c});
    } else {
      JoinAddsName(r.useBy, c);
      assert Members(Tokens(after.useBy)) == clients + {c};
      assert HeldTogether(after, clients + {c});
    }
  }

  lemma UnlockKeepsConsistent(r: Record, clients: set<string>, c: string)
    requires Independent(clients) && Consistent(r, clients) && c in clients
    ensures !r.isFree
    ensures Consistent(Unlocked(r, c, r), clients - {c})
  {
    if r.forParallel {
      if r.clientCount == 1 {
        assert |clients - {c}| == 0;
        assert clients - {c} == {};
      } else {
        forall t | t in Tokens(r.useBy) && t != c ensures !Contains(t, c) {
          assert t in Members(Tokens(r.useBy));
        }
        LeaveExact(r.useBy, c);
        DepartedTokens(r.useBy, c);
        WithoutMembers(Tokens(r.useBy), c);
        assert Members(Without(Tokens(r.useBy), c)) == clients - {c};
        assert |clients - {c}| > 0;
        assert HeldTogether(Unlocked(r, c, r), clients - {c});
      }
    } else {
      assert clients - {c} == {};
    }
  }

  // ---- runs ------------------------------------------------------------------------

  lemma SearchKeepsInv(s: State, a: Action)
    requires Inv(s) && Enabled(s, a) && Apart(s, a) && (a.SearchToLock? || a.SearchToUnlock?)
    ensures Inv(Step(s, a))
  {
    var s' := Step(s, a);
    forall d | d in s'.phase ensures WindowSound(s', d) {
      assert WindowSound(s, d);
    }
  }

  /** A patch of `t` by `c` that leaves a consistent record leaves every other window alone. */
  lemma PatchKeepsInv(s: State, c: string, t: string, r: Record, clients: set<string>)
    requires Inv(s) && c in s.phase && !s.phase[c].Idle? && s.phase[c].target == t
    requires Consistent(r, clients) && clients <= s.phase.Keys
    ensures Inv(State(s.db[t := r], s.phase[c := Idle], s.holders[t := clients]))
  {
    var s' := State(s.db[t := r], s.phase[c := Idle], s.holders[t := clients]);
    forall d | d in s'.phase ensures WindowSound(s', d) {
      assert WindowSound(s, d);
    }
  }

  lemma StepKeepsInv(s: State, a: Action)
    requires Inv(s) && Enabled(s, a) && Apart(s, a)
    ensures Inv(Step(s, a)) && Step(s, a).phase.Keys == s.phase.Keys && Step(s, a).db.Keys == s.db.Keys
  {
    var c := a.client;
    assert WindowSound(s, c);
    if a.PatchLock? {
      var Locking(t, kind, convert, seen) := s.phase[c];
      LockKeepsConsistent(seen, Holders(s, t), kind, convert, c);
      PatchKeepsInv(s, c, t, Locked(seen, kind, convert, c, seen), Holders(s, t) + {c});
    } else if a.PatchUnlock? {
      var Unlocking(t, seen) := s.phase[c];
      UnlockKeepsConsistent(seen, Holders(s, t), c);
      PatchKeepsInv(s, c, t, Unlocked(seen, c, seen), Holders(s, t) - {c});
    } else {
      SearchKeepsInv(s, a);
    }
  }

  /** Safety over every run in which windows on one target do not overlap. */
  lemma {:induction false} RunKeepsInv(s: State, actions: seq<Action>, s': State)
    requires Inv(s) && Runs(s, actions, true, s')
    ensures Inv(s') && s'.phase.Keys == s.phase.Keys && s'.db.Keys == s.db.Keys
    decreases |actions|
  {
    if actions != [] {
      StepKeepsInv(s, actions[0]);
      RunKeepsInv(Step(s, actions[0]), actions[1..], s');
    }
  }

  /** An exclusive holder is alone, and the count of a shared target is the number of its holders. */
  lemma HoldersExcludeEachOther(s: State, actions: seq<Action>, s': State, t: string)
    requires AllIdleAndFree(s) && Runs(s, actions, true, s') && t in s'.db
    ensures !s'.db[t].forParallel ==> |Holders(s', t)| <= 1
    ensures s'.db[t].forParallel ==> s'.db[t].clientCount == |Holders(s', t)| >= 1
    ensures Holders(s', t) == {} <==> s'.db[t].isFree
  {
    RunKeepsInv(s, actions, s');
    assert Consistent(s'.db[t], Holders(s', t));
    if |Holders(s', t)| == 0 { assert Holders(s', t) == {}; }
  }

  /** Locking and unlocking never touch what does not belong to the lock: over every run, overlapping windows or not. */
  lemma {:induction false} HealthStays(s: State, actions: seq<Action>, apart: bool, s': State, t: string)
    requires Runs(s, actions, apart, s') && t in s.db
    ensures t in s'.db && s'.db[t].isHealthy == s.db[t].isHealthy
    decreases |actions|
  {
    if actions != [] {
      HealthStays(Step(s, actions[0]), actions[1..], apart, s', t);
    }
  }

  /** In whatever order the holders left, the last one leaves the very record behind that the run began with. */
  lemma LastHolderRestores(s: State, actions: seq<Action>, s': State, t: string)
    requires AllIdleAndFree(s) && Runs(s, actions, true, s') && t in s.db
    requires Holders(s', t) == {}
    ensures t in s'.db && s'.db[t] == s.db[t]
  {
    RunKeepsInv(s, actions, s');
    HealthStays(s, actions, true, s', t);
    assert Consistent(s'.db[t], Holders(s', t));
  }

  /** At every moment of a run the confirming search answers yes to the holders and to nobody else. */
  lemma ConfirmedExactlyForHolders(s: State, actions: seq<Action>, s': State, t: string, c: string)
    requires AllIdleAndFree(s) && Runs(s, actions, true, s') && t in s'.db && c in s.phase
    ensures Confirmed(s'.db[t], Shared, c) <==> s'.db[t].forParallel && c in Holders(s', t)
    ensures !s'.db[t].forParallel ==> (Confirmed(s'.db[t], Exclusive, c) <==> c in Holders(s', t))
  {
    RunKeepsInv(s, actions, s');
    var r, clients := s'.db[t], Holders(s', t);
    assert Consistent(r, clients);
    if r.forParallel {
      forall n | n in Tokens(r.useBy) && n != c ensures !Contains(n, c) {
        assert n in Members(Tokens(r.useBy));
      }
      MembershipExact(r.useBy, c);
      assert c in Tokens(r.useBy) <==> c in Members(Tokens(r.useBy));
    }
  }

  /**
   The search/patch pair alone does not exclude: with overlapping windows two clients are
   both granted an exclusive lock, and each is confirmed at the time it asks.
   */
  lemma OverlapGrantsTwice()
    ensures var r0 := Record(true, true, "", false, 0);
            var s := State(map["t" := r0], map["a" := Idle, "b" := Idle], map["t" := {}]);
            exists middle, s' ::
              && Runs(s, [SearchToLock("a", "t", Exclusive, false), SearchToLock("b", "t", Exclusive, false),
                          PatchLock("a")], false, middle)
              && Confirmed(middle.db["t"], Exclusive, "a")
              && Runs(middle, [PatchLock("b")], false, s')
              && Confirmed(s'.db["t"], Exclusive, "b")
              && Holders(s', "t") == {"a", "b"}
  {
    var r0 := Record(true, true, "", false, 0);
    var s := State(map["t" := r0], map["a" := Idle, "b" := Idle], map["t" := {}]);
    var a1, a2, a3, a4 := SearchToLock("a", "t", Exclusive, false), SearchToLock("b", "t", Exclusive, false),
                          PatchLock("a"), PatchLock("b");
    var s1 := Step(s, a1);
    var s2 := Step(s1, a2);
    var s3 := Step(s2, a3);
    var s4 := Step(s3, a4);
    assert [a1, a2, a3][1..] == [a2, a3] && [a2, a3][1..] == [a3] && [a3][1..] == [];
    assert Runs(s3, [], false, s3);
    assert Runs(s2, [a3], false, s3);
    assert Runs(s1, [a2, a3], false, s3);
    assert Runs(s, [a1, a2, a3], false, s3);
    assert [a4][1..] == [];
    assert Runs(s4, [], false, s4);
    assert Runs(s3, [a4], false, s4);
    assert Holders(s4, "t") == {"a", "b"};
  }
}
