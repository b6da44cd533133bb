/**
 When overlapping search-to-patch windows do harm: exactly when a patch lands on a target whose holders, or
 the way they hold it, are no longer those its search met.
 */
module LockOverlap {
  import opened Text
  import opened HolderString
  import opened LockRecord
  import opened LockProtocol

  // ---- one patch ---------------------------------------------------------------------------

  /** The patch of a client in this phase, on the record it lands on. */
  function Patched(now: Record, c: string, ph: Phase): Record
    requires c != "" && !ph.Idle?
  {
    match ph
    case Locking(_, kind, convert, seen) => Locked(now, kind, convert, c, seen)
    case Unlocking(_, seen) => Unlocked(now, c, seen)
  }

  function HoldersAfter(holders: set<string>, c: string, ph: Phase): set<string>
    requires !ph.Idle?
  {
    if ph.Locking? then holders + {c} else holders - {c}
  }

  /** What the client's search met: a consistent record on which its request is possible. */
  ghost predicate Met(ph: Phase, c: string, holders: set<string>)
    requires !ph.Idle?
  {
    && Consistent(ph.seen, holders) && Independent(holders + {c})
    && match ph
       case Locking(_, kind, convert, seen) => Lockable(seen, kind, convert) && c !in holders
       case Unlocking(_, seen) => c in holders
  }

  /** The holders and their way of holding are those the search met. */
  predicate Fresh(seen: Record, met: set<string>, now: Record, holders: set<string>) {
    met == holders && seen.forParallel == now.forParallel
  }

  lemma SameButHealth(a: Record, b: Record, holders: set<string>)
    requires a == b.(isHealthy := a.isHealthy) && Consistent(b, holders)
    ensures Consistent(a, holders)
  {
    if c :| holders == {c} && HeldAlone(b, c) {
      assert HeldAlone(a, c);
    }
  }

  /** Alone on the record: as the single name, or as the one shared holder. */
  lemma AloneIsOne(r: Record, holders: set<string>, c: string)
    requires IsName(c) && r.useBy == c && Consistent(r, holders) && holders != {}
    ensures holders == {c}
  {
    if HeldTogether(r, holders) {
      SplitNone(c, ' ') by { assert IsSpace(' '); }
      assert NonEmpty([c]) == [c];
      assert Members([c]) == {c};
    }
  }

  lemma LockExact(now: Record, holders: set<string>, met: set<string>, c: string, ph: Phase)
    requires ph.Locking? && Met(ph, c, met) && Consistent(now, holders) && c !in holders
    ensures Consistent(Patched(now, c, ph), holders + {c}) <==> Fresh(ph.seen, met, now, holders)
  {
    var Locking(_, kind, convert, seen) := ph;
    var after := Patched(now, c, ph);
    assert IsName(c);
    if kind.Exclusive? || convert {
      if Consistent(after, holders + {c}) {
        AloneIsOne(after, holders + {c}, c);
        assert holders == {};
      }
      if holders == {} {
        LockKeepsConsistent(seen, met, kind, convert, c);
        SameButHealth(after, Locked(seen, kind, convert, c, seen), {c});
        assert holders + {c} == {c} == met + {c};
      }
    } else {
      JoinExact(now, holders, met, c, seen);
    }
  }

  /** Joining writes the names and the count it saw, plus one. */
  lemma JoinExact(now: Record, holders: set<string>, met: set<string>, c: string, seen: Record)
    requires IsName(c) && Consistent(seen, met) && Lockable(seen, Shared, false) && c !in met && c !in holders
    requires Consistent(now, holders)
    ensures Consistent(Locked(now, Shared, false, c, seen), holders + {c}) <==> Fresh(seen, met, now, holders)
  {
    var after := Locked(now, Shared, false, c, seen);
    JoinAddsName(seen.useBy, c);
    assert Members(Tokens(after.useBy)) == met + {c};
    if Consistent(after, holders + {c}) {
      assert HeldTogether(after, holders + {c});
      assert met == (met + {c}) - {c} == (holders + {c}) - {c} == holders;
    }
    if Fresh(seen, met, now, holders) {
      LockKeepsConsistent(seen, met, Shared, false, c);
      SameButHealth(after, Locked(seen, Shared, false, c, seen), holders + {c});
    }
  }

  lemma UnlockExact(now: Record, holders: set<string>, met: set<string>, c: string, ph: Phase)
    requires ph.Unlocking? && Met(ph, c, met) && Consistent(now, holders) && c in holders
    requires ph.seen.forParallel == now.forParallel
    ensures Consistent(Patched(now, c, ph), holders - {c}) <==> Fresh(ph.seen, met, now, holders)
  {
    var seen := ph.seen;
    var after := Patched(now, c, ph);
    if seen.forParallel {
      if met == holders {
        UnlockKeepsConsistent(seen, met, c);
        SameButHealth(after, Unlocked(seen, c, seen), holders - {c});
      }
      LeaveExactly(now, holders, met, c, seen);
    } else {
      assert met == {c} == holders;
      assert IsInitial(after) && holders - {c} == {};
    }
  }

  /** Leaving writes the names and the count it saw, less one. */
  lemma LeaveExactly(now: Record, holders: set<string>, met: set<string>, c: string, seen: Record)
    requires Independent(met) && HeldTogether(seen, met) && c in met && c in holders && !now.isFree
    ensures Consistent(Unlocked(now, c, seen), holders - {c}) ==> met == holders
  {
    if Consistent(Unlocked(now, c, seen), holders - {c}) {
      if seen.clientCount == 1 {
        OnlyMember(met, c);
      } else {
        NamesLeft(met, c, seen);
        assert HeldTogether(Unlocked(now, c, seen), holders - {c});
      }
      SameWithout(met, holders, c);
    }
  }

  lemma OnlyMember(names: set<string>, c: string)
    requires c in names && |names| == 1
    ensures names - {c} == {}
  {
    assert |names - {c}| == 0;
  }

  lemma SameWithout(a: set<string>, b: set<string>, c: string)
    requires c in a && c in b && a - {c} == b - {c}
    ensures a == b
  {
    assert a == (a - {c}) + {c} && b == (b - {c}) + {c};
  }

  lemma NamesLeft(met: set<string>, c: string, seen: Record)
    requires Independent(met) && HeldTogether(seen, met) && c in met
    ensures Members(Tokens(Departed(seen.useBy, c))) == met - {c}
  {
    var names := Tokens(seen.useBy);
    forall t | t in names && t != c ensures !Contains(t, c) {
      assert t in Members(names);
    }
    LeaveExact(seen.useBy, c);
    WithoutMembers(names, c);
    assert forall n :: n in names <==> n in Members(names);
  }

  // ---- whole runs, windows overlapping or not ------------------------------------------------

  /** The holders each client's latest search met. */
  type Searches = map<string, set<string>>

  function Noted(s: State, a: Action, met: Searches): Searches {
    if a.SearchToLock? || a.SearchToUnlock? then met[a.client := Holders(s, a.target)] else met
  }

  /** A window: what its search met could be patched, and the client's own holding has not changed since. */
  ghost predicate WindowMet(s: State, met: Searches, c: string)
    requires TargetsKnown(s) && c in s.phase
  {
    var ph := s.phase[c];
    ph.Idle? ||
    (&& c in met && Met(ph, c, met[c])
     && if ph.Locking? then c !in Holders(s, ph.target)
        else c in Holders(s, ph.target) && ph.seen.forParallel == s.db[ph.target].forParallel)
  }

  ghost predicate AllConsistent(s: State) {
    forall t | t in s.db :: Consistent(s.db[t], Holders(s, t))
  }

  ghost predicate Tracked(s: State, met: Searches) {
    && TargetsKnown(s) && Independent(s.phase.Keys) && AllConsistent(s)
    && (forall t | t in s.db :: Holders(s, t) <= s.phase.Keys)
    && (forall c | c in s.phase :: WindowMet(s, met, c))
  }

  predicate IsPatch(a: Action) { a.PatchLock? || a.PatchUnlock? }

  /** A patch lands on the holders, and the way of holding, that its search met. */
  predicate LandsFresh(s: State, a: Action, met: Searches) {
    IsPatch(a) ==>
      && a.client in s.phase && !s.phase[a.client].Idle? && a.client in met
      && var ph := s.phase[a.client];
         ph.target in s.db && Fresh(ph.seen, met[a.client], s.db[ph.target], Holders(s, ph.target))
  }

  /** Every patch of the run lands fresh. */
  ghost predicate FreshRun(s: State, actions: seq<Action>, met: Searches)
    decreases |actions|
  {
    actions == [] ||
    (&& Enabled(s, actions[0]) && LandsFresh(s, actions[0], met)
     && FreshRun(Step(s, actions[0]), actions[1..], Noted(s, actions[0], met)))
  }

  /** Every record is consistent with its holders at every point of the run. */
  ghost predicate ConsistentRun(s: State, actions: seq<Action>)
    decreases |actions|
  {
    && AllConsistent(s)
    && (actions != [] ==> Enabled(s, actions[0]) && ConsistentRun(Step(s, actions[0]), actions[1..]))
  }

  lemma IndependentPart(names: set<string>, part: set<string>)
    requires Independent(names) && part <= names
    ensures Independent(part)
  {
  }

  /** The searching client's window, and that of any other. */
  lemma SearchWindow(s: State, a: Action, met: Searches, c: string)
    requires Tracked(s, met) && Enabled(s, a) && !IsPatch(a) && c in s.phase
    ensures TargetsKnown(Step(s, a)) && WindowMet(Step(s, a), Noted(s, a, met), c)
  {
    assert WindowMet(s, met, c);
    IndependentPart(s.phase.Keys, Holders(s, a.target) + {a.client});
  }

  lemma SearchTracked(s: State, a: Action, met: Searches)
    requires Tracked(s, met) && Enabled(s, a) && !IsPatch(a)
    ensures Tracked(Step(s, a), Noted(s, a, met))
  {
    var s', met' := Step(s, a), Noted(s, a, met);
    assert forall t | t in s'.db :: Holders(s', t) == Holders(s, t);
    assert forall c | c in s'.phase :: WindowMet(s', met', c) by {
      forall c | c in s'.phase ensures WindowMet(s', met', c) {
        SearchWindow(s, a, met, c);
      }
    }
  }

  /** The record and the holders after a patch are those of the one-patch model. */
  lemma PatchStep(s: State, a: Action)
    requires Enabled(s, a) && IsPatch(a) && a.client != ""
    ensures var c := a.client;
            var ph := s.phase[c];
            && !ph.Idle?
            && Step(s, a) == State(s.db[ph.target := Patched(s.db[ph.target], c, ph)], s.phase[c := Idle],
                                   s.holders[ph.target := HoldersAfter(Holders(s, ph.target), c, ph)])
  {
  }

  /** A patch leaves a consistent record if and only if it lands fresh. */
  lemma PatchExact(s: State, a: Action, met: Searches)
    requires Tracked(s, met) && Enabled(s, a) && IsPatch(a)
    ensures AllConsistent(Step(s, a)) <==> LandsFresh(s, a, met)
  {
    var c := a.client;
    assert IsName(c) && WindowMet(s, met, c);
    PatchStep(s, a);
    var ph := s.phase[c];
    var now, holders := s.db[ph.target], Holders(s, ph.target);
    if ph.Locking? {
      LockExact(now, holders, met[c], c, ph);
    } else {
      UnlockExact(now, holders, met[c], c, ph);
    }
    var s' := Step(s, a);
    assert s'.db[ph.target] == Patched(now, c, ph) && Holders(s', ph.target) == HoldersAfter(holders, c, ph);
    assert forall t | t in s.db && t != ph.target :: s'.db[t] == s.db[t] && Holders(s', t) == Holders(s, t);
  }

  /** With another holder on the record neither a conversion nor a last release is possible. */
  lemma ModeStays(now: Record, holders: set<string>, c: string, ph: Phase, d: string)
    requires c != "" && !ph.Idle? && ph.seen.forParallel == now.forParallel
    requires d in holders && d != c
    requires ph.Locking? ==> Lockable(ph.seen, ph.kind, ph.convert) && !ph.seen.isFree
    requires ph.Unlocking? && ph.seen.forParallel ==> c in holders && ph.seen.clientCount == |holders|
    ensures Patched(now, c, ph).forParallel == now.forParallel
  {
    if ph.Unlocking? && ph.seen.forParallel {
      assert {c, d} <= holders && |holders - {c} - {d}| == |holders| - 2;
    }
  }

  /** Another client's window after a fresh patch. */
  lemma OtherWindow(s: State, a: Action, met: Searches, d: string)
    requires Tracked(s, met) && Enabled(s, a) && IsPatch(a) && LandsFresh(s, a, met)
    requires d in s.phase && d != a.client && TargetsKnown(Step(s, a))
    ensures d in Step(s, a).phase && WindowMet(Step(s, a), met, d)
  {
    var c := a.client;
    assert IsName(c) && WindowMet(s, met, c) && WindowMet(s, met, d);
    PatchStep(s, a);
    var ph := s.phase[c];
    if s.phase[d].Unlocking? && s.phase[d].target == ph.target {
      ModeStays(s.db[ph.target], Holders(s, ph.target), c, ph, d);
    }
  }

  lemma FreshTracked(s: State, a: Action, met: Searches)
    requires Tracked(s, met) && Enabled(s, a) && IsPatch(a) && LandsFresh(s, a, met)
    ensures Tracked(Step(s, a), met)
  {
    var c, s' := a.client, Step(s, a);
    assert IsName(c);
    PatchExact(s, a, met);
    PatchStep(s, a);
    assert s'.phase.Keys == s.phase.Keys && s'.db.Keys == s.db.Keys;
    assert TargetsKnown(s');
    forall d | d in s'.phase ensures WindowMet(s', met, d) {
      if d != c { OtherWindow(s, a, met, d); }
    }
  }

  /**
   The exact condition, for every run of any number of clients and targets: the records are consistent
   with their holders throughout if and only if every patch lands on the holders its search met.
   */
  lemma {:induction false} ConsistentExactly(s: State, actions: seq<Action>, s': State, met: Searches)
    requires Tracked(s, met) && Runs(s, actions, false, s')
    ensures ConsistentRun(s, actions) <==> FreshRun(s, actions, met)
    decreases |actions|
  {
    if actions != [] {
      var a := actions[0];
      if !IsPatch(a) {
        SearchTracked(s, a, met);
        ConsistentExactly(Step(s, a), actions[1..], s', Noted(s, a, met));
      } else {
        PatchExact(s, a, met);
        if LandsFresh(s, a, met) {
          FreshTracked(s, a, met);
          ConsistentExactly(Step(s, a), actions[1..], s', met);
        } else {
          NotConsistent(Step(s, a), actions[1..]);
        }
      }
    }
  }

  /** ... in particular for every run from free targets. */
  lemma ConsistentFromTheStart(s: State, actions: seq<Action>, s': State)
    requires AllIdleAndFree(s) && Runs(s, actions, false, s')
    ensures ConsistentRun(s, actions) <==> FreshRun(s, actions, map[])
  {
    ConsistentExactly(s, actions, s', map[]);
  }

  lemma NotConsistent(s: State, actions: seq<Action>)
    requires !AllConsistent(s)
    ensures !ConsistentRun(s, actions)
  {
  }

  /** Runs whose windows do not overlap are consistent throughout, so all their patches land fresh. */
  lemma {:induction false} ApartIsConsistent(s: State, actions: seq<Action>, s': State)
    requires Inv(s) && Runs(s, actions, true, s')
    ensures ConsistentRun(s, actions) && Runs(s, actions, false, s')
    decreases |actions|
  {
    if actions != [] {
      StepKeepsInv(s, actions[0]);
      ApartIsConsistent(Step(s, actions[0]), actions[1..], s');
    }
  }

  /** Overlapping windows or not: where the records stayed consistent, a target without holders is as it was. */
  lemma {:induction false} ConsistentAtTheEnd(s: State, actions: seq<Action>, s': State)
    requires ConsistentRun(s, actions) && Runs(s, actions, false, s')
    ensures AllConsistent(s')
    decreases |actions|
  {
    if actions != [] {
      ConsistentAtTheEnd(Step(s, actions[0]), actions[1..], s');
    }
  }

  lemma NoHolderNoTrace(s: State, actions: seq<Action>, s': State, t: string)
    requires AllIdleAndFree(s) && ConsistentRun(s, actions) && Runs(s, actions, false, s') && t in s.db
    requires Holders(s', t) == {}
    ensures t in s'.db && s'.db[t] == s.db[t]
  {
    ConsistentAtTheEnd(s, actions, s');
    HealthStays(s, actions, false, s', t);
  }

  // ---- two requests ------------------------------------------------------------------------------

  datatype Request = Request(client: string, unlock: bool, kind: LockType, convert: bool)

  function SearchOf(r: Request, t: string): Action {
    if r.unlock then SearchToUnlock(r.client, t) else SearchToLock(r.client, t, r.kind, r.convert)
  }

  function PatchOf(r: Request): Action {
    if r.unlock then PatchUnlock(r.client) else PatchLock(r.client)
  }

  /** The six ways to interleave two requests of two steps each. */
  predicate Interleaved(actions: seq<Action>, s1: Action, p1: Action, s2: Action, p2: Action) {
    || actions == [s1, p1, s2, p2] || actions == [s2, p2, s1, p1]
    || actions == [s1, s2, p1, p2] || actions == [s1, s2, p2, p1]
    || actions == [s2, s1, p1, p2] || actions == [s2, s1, p2, p1]
  }

  lemma RunsCons(s: State, a: Action, rest: seq<Action>, apart: bool, s': State)
    ensures Runs(s, [a] + rest, apart, s')
       <==> Enabled(s, a) && (apart ==> Apart(s, a)) && Runs(Step(s, a), rest, apart, s')
  {
    assert ([a] + rest)[1..] == rest;
  }

  ghost predicate FourSteps(s: State, a: Action, b: Action, c: Action, d: Action, apart: bool, s': State) {
    && Enabled(s, a) && (apart ==> Apart(s, a))
    && var s1 := Step(s, a);
       && Enabled(s1, b) && (apart ==> Apart(s1, b))
       && var s2 := Step(s1, b);
          && Enabled(s2, c) && (apart ==> Apart(s2, c))
          && var s3 := Step(s2, c);
             Enabled(s3, d) && (apart ==> Apart(s3, d)) && s' == Step(s3, d)
  }

  lemma RunsFour(s: State, a: Action, b: Action, c: Action, d: Action, apart: bool, s': State)
    ensures Runs(s, [a, b, c, d], apart, s') <==> FourSteps(s, a, b, c, d, apart, s')
  {
    assert [a, b, c, d] == [a] + [b, c, d] && [b, c, d] == [b] + [c, d] && [c, d] == [c] + [d] && [d] == [d] + [];
    RunsCons(s, a, [b, c, d], apart, s');
    if Enabled(s, a) {
      var s1 := Step(s, a);
      RunsCons(s1, b, [c, d], apart, s');
      if Enabled(s1, b) {
        var s2 := Step(s1, b);
        RunsCons(s2, c, [d], apart, s');
        if Enabled(s2, c) {
          RunsCons(Step(s2, c), d, [], apart, s');
        }
      }
    }
  }

  /** The window a request opens when its search matches. */
  function PhaseOf(r: Request, t: string, seen: Record): Phase {
    if r.unlock then Unlocking(t, seen) else Locking(t, r.kind, r.convert, seen)
  }

  /** Both searches met the same record and its holders. */
  ghost predicate BothOpen(s: State, t: string, x: Request, y: Request) {
    && t in s.db && x.client in s.phase && y.client in s.phase && x.client != y.client
    && Consistent(s.db[t], Holders(s, t)) && Holders(s, t) <= s.phase.Keys && Independent(s.phase.Keys)
    && s.phase[x.client] == PhaseOf(x, t, s.db[t]) && Met(s.phase[x.client], x.client, Holders(s, t))
    && s.phase[y.client] == PhaseOf(y, t, s.db[t]) && Met(s.phase[y.client], y.client, Holders(s, t))
  }

  /** Whichever patches first, the second one leaves an inconsistent record. */
  lemma SecondPatchBreaks(s: State, t: string, x: Request, y: Request)
    requires BothOpen(s, t, x, y)
    ensures Enabled(s, PatchOf(x)) && Enabled(Step(s, PatchOf(x)), PatchOf(y))
    ensures var s' := Step(Step(s, PatchOf(x)), PatchOf(y));
            t in s'.db && !Consistent(s'.db[t], Holders(s', t))
  {
    var r, met, c, d := s.db[t], Holders(s, t), x.client, y.client;
    assert IsName(c) && IsName(d);
    var phc, phd := s.phase[c], s.phase[d];
    PatchStep(s, PatchOf(x));
    var s1 := Step(s, PatchOf(x));
    var now, holders := s1.db[t], Holders(s1, t);
    assert Fresh(r, met, r, met);
    if x.unlock { UnlockExact(r, met, met, c, phc); } else { LockExact(r, met, met, c, phc); }
    assert Consistent(now, holders) && holders != met && s1.phase[d] == phd;
    PatchStep(s1, PatchOf(y));
    if y.unlock {
      ModeStays(r, met, c, phc, d);
      UnlockExact(now, holders, met, d, phd);
    } else {
      LockExact(now, holders, met, d, phd);
    }
  }

  /** A search that matches only opens its client's window. */
  lemma SearchOpens(s: State, t: string, x: Request)
    requires t in s.db && Consistent(s.db[t], Holders(s, t)) && Holders(s, t) <= s.phase.Keys && Independent(s.phase.Keys)
    requires Enabled(s, SearchOf(x, t)) && !Step(s, SearchOf(x, t)).phase[x.client].Idle?
    ensures Step(s, SearchOf(x, t)) == s.(phase := s.phase[x.client := PhaseOf(x, t, s.db[t])])
    ensures Met(PhaseOf(x, t, s.db[t]), x.client, Holders(s, t))
  {
    IndependentPart(s.phase.Keys, Holders(s, t) + {x.client});
  }

  /** Two searches before the first patch both meet the record the target started with. */
  lemma BothSearch(s: State, t: string, x: Request, y: Request, s1: State, s2: State)
    requires Inv(s) && x.client != y.client
    requires Enabled(s, SearchOf(x, t)) && s1 == Step(s, SearchOf(x, t)) && !s1.phase[x.client].Idle?
    requires Enabled(s1, SearchOf(y, t)) && s2 == Step(s1, SearchOf(y, t)) && !s2.phase[y.client].Idle?
    ensures BothOpen(s2, t, x, y) && !Apart(s1, SearchOf(y, t))
  {
    SearchOpens(s, t, x);
    assert s1.phase.Keys == s.phase.Keys && Holders(s1, t) == Holders(s, t);
    SearchOpens(s1, t, y);
    assert s2.phase.Keys == s.phase.Keys && Holders(s2, t) == Holders(s, t);
    assert s1.phase[x.client] == PhaseOf(x, t, s.db[t]);
  }

  /** A window in which a client can patch was opened by its own search. */
  lemma StillOpen(s: State, t: string, x: Request, y: Request)
    requires x.client != y.client && Enabled(s, SearchOf(y, t)) && x.client in s.phase
    ensures Step(s, SearchOf(y, t)).phase[x.client] == s.phase[x.client]
  {
  }

  /** Searched, searched, patched, patched: inconsistent, in either order of the patches. */
  lemma OverlapBreaks(s: State, t: string, x: Request, y: Request, p: Request, q: Request, s': State)
    requires Inv(s) && x.client != y.client && ((p == x && q == y) || (p == y && q == x))
    requires FourSteps(s, SearchOf(x, t), SearchOf(y, t), PatchOf(p), PatchOf(q), false, s')
    ensures t in s'.db && !Consistent(s'.db[t], Holders(s', t))
    ensures !FourSteps(s, SearchOf(x, t), SearchOf(y, t), PatchOf(p), PatchOf(q), true, s')
  {
    var s1 := Step(s, SearchOf(x, t));
    var s2 := Step(s1, SearchOf(y, t));
    PatchesOpen(s2, p, q);
    StillOpen(s1, t, x, y);
    BothSearch(s, t, x, y, s1, s2);
    SecondPatchBreaks(s2, t, p, q);
  }

  /** Two patches of different clients that can follow each other have both their windows open before. */
  lemma PatchesOpen(s: State, p: Request, q: Request)
    requires p.client != q.client && Enabled(s, PatchOf(p)) && Enabled(Step(s, PatchOf(p)), PatchOf(q))
    ensures !s.phase[p.client].Idle? && q.client in s.phase && !s.phase[q.client].Idle?
  {
  }

  /** A whole request with no other window open on its target. */
  lemma RequestKeeps(s: State, t: string, x: Request)
    requires Inv(s) && !WindowOpen(s, t)
    requires Enabled(s, SearchOf(x, t)) && Enabled(Step(s, SearchOf(x, t)), PatchOf(x))
    ensures Apart(s, SearchOf(x, t)) && Apart(Step(s, SearchOf(x, t)), PatchOf(x))
    ensures var s' := Step(Step(s, SearchOf(x, t)), PatchOf(x));
            Inv(s') && !WindowOpen(s', t) && t in s'.db
  {
    var s1 := Step(s, SearchOf(x, t));
    StepKeepsInv(s, SearchOf(x, t));
    StepKeepsInv(s1, PatchOf(x));
    WindowCloses(s, t, x, s1);
  }

  lemma WindowCloses(s: State, t: string, x: Request, s1: State)
    requires !WindowOpen(s, t) && Enabled(s, SearchOf(x, t)) && s1 == Step(s, SearchOf(x, t))
    requires Enabled(s1, PatchOf(x))
    ensures !WindowOpen(Step(s1, PatchOf(x)), t) && t in Step(s1, PatchOf(x)).db
  {
    var s2 := Step(s1, PatchOf(x));
    assert forall c | c in s2.phase && c != x.client :: s2.phase[c] == s.phase[c];
  }

  /** The three interleavings in which x searches first. */
  lemma PairFrom(s: State, t: string, x: Request, y: Request, actions: seq<Action>, s': State)
    requires Inv(s) && !WindowOpen(s, t) && x.client != y.client && Runs(s, actions, false, s')
    requires var sx, px, sy, py := SearchOf(x, t), PatchOf(x), SearchOf(y, t), PatchOf(y);
             actions == [sx, px, sy, py] || actions == [sx, sy, px, py] || actions == [sx, sy, py, px]
    ensures t in s'.db
    ensures Consistent(s'.db[t], Holders(s', t)) <==> Runs(s, actions, true, s')
  {
    var a, b, c, d := actions[0], actions[1], actions[2], actions[3];
    assert actions == [a, b, c, d];
    RunsFour(s, a, b, c, d, false, s');
    RunsFour(s, a, b, c, d, true, s');
    if b == PatchOf(x) {
      RequestKeeps(s, t, x);
      RequestKeeps(Step(Step(s, a), b), t, y);
    } else if c == PatchOf(x) {
      OverlapBreaks(s, t, x, y, x, y, s');
    } else {
      OverlapBreaks(s, t, x, y, y, x, s');
    }
  }

  /**
   Two requests of different clients on one target, however their steps interleave: the target ends up
   consistent with its holders if and only if the two windows do not overlap.
   */
  lemma PairExact(s: State, t: string, x: Request, y: Request, actions: seq<Action>, s': State)
    requires Inv(s) && !WindowOpen(s, t) && x.client != y.client
    requires Interleaved(actions, SearchOf(x, t), PatchOf(x), SearchOf(y, t), PatchOf(y))
    requires Runs(s, actions, false, s')
    ensures t in s'.db
    ensures Consistent(s'.db[t], Holders(s', t)) <==> Runs(s, actions, true, s')
  {
    if actions[0] == SearchOf(x, t) {
      PairFrom(s, t, x, y, actions, s');
    } else {
      PairFrom(s, t, y, x, actions, s');
    }
  }
}
