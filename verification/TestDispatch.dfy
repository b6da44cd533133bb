/** From the collected tests and the tickets to the messages on the bus. */
module TestDispatch {
  import opened Wrappers
  import opened TestPlanning

  datatype Ticket = Ticket(id: string, tests: seq<string>)

  datatype Listing = Listing(ticket: string, test: string)

  datatype Plan = Plan(tests: TestMap, selected: TagMap)

  function OfTicket(t: Ticket): seq<Listing> {
    seq(|t.tests|, i requires 0 <= i < |t.tests| => Listing(t.id, t.tests[i]))
  }

  function OfTickets(ts: seq<Ticket>): seq<Listing> {
    if ts == [] then [] else OfTickets(ts[..|ts| - 1]) + OfTicket(ts[|ts| - 1])
  }

  /** How many tests the first t tickets list. */
  function ListedBefore(ts: seq<Ticket>, t: nat): nat
    requires t <= |ts|
  {
    if t == 0 then 0 else ListedBefore(ts, t - 1) + |ts[t - 1].tests|
  }

  lemma {:induction false} ListedBeforeFront(ts: seq<Ticket>, t: nat)
    requires t < |ts|
    ensures ListedBefore(ts[..|ts| - 1], t) == ListedBefore(ts, t)
  {
    if t > 0 { ListedBeforeFront(ts, t - 1); }
  }

  lemma {:induction false} ListedCount(ts: seq<Ticket>)
    ensures |OfTickets(ts)| == ListedBefore(ts, |ts|)
    decreases |ts|
  {
    if ts != [] {
      ListedCount(ts[..|ts| - 1]);
      ListedBeforeFront(ts, |ts| - 1);
    }
  }

  /** Ticket by ticket, and within one in its order, every test of every ticket is listed, and nothing else is. */
  lemma {:induction false} TicketsListed(ts: seq<Ticket>, t: nat, k: nat)
    requires t < |ts| && k < |ts[t].tests|
    ensures ListedBefore(ts, t) + k < |OfTickets(ts)| == ListedBefore(ts, |ts|)
    ensures OfTickets(ts)[ListedBefore(ts, t) + k] == Listing(ts[t].id, ts[t].tests[k])
    decreases |ts|
  {
    var n := |ts| - 1;
    ListedCount(ts);
    ListedCount(ts[..n]);
    ListedBeforeFront(ts, n);
    if t < n {
      TicketsListed(ts[..n], t, k);
      ListedBeforeFront(ts, t);
    }
  }

  /** One listed test.  None is the ValueError of unpacking an entry that already has its ticket. */
  function PlanOne(skip: set<string>, rev: TagMap, p: Plan, l: Listing): Option<Plan> {
    if l.test in skip || l.test !in p.tests then Some(p)
    else
      var info := p.tests[l.test];
      if info.ticket.Some? then None
      else if info.mark == "" then Some(p)
      else
        var tests := p.tests[l.test := info.(ticket := Some(l.ticket))];
        if info.mark !in rev then Some(Plan(tests, p.selected))
        else Some(Plan(tests, Filed(p.selected, info.mark, l.test in rev[info.mark].parallel, l.test)))
  }

  function PlanAll(skip: set<string>, rev: TagMap, p: Plan, ls: seq<Listing>): Option<Plan> {
    if ls == [] then Some(p)
    else
      var front := PlanAll(skip, rev, p, ls[..|ls| - 1]);
      if front.None? then None else PlanOne(skip, rev, front.value, ls[|ls| - 1])
  }

  // ---- what a plan contains --------------------------------------------------------------

  /** A listed test that is not passed over. */
  predicate Chosen(skip: set<string>, tests: TestMap, id: string) {
    id !in skip && id in tests && tests[id].mark != ""
  }

  ghost predicate Unplanned(tests: TestMap) {
    forall id | id in tests :: tests[id].ticket.None?
  }

  /** Listing j puts the test in this group. */
  ghost predicate Places(skip: set<string>, rev: TagMap, tests: TestMap, l: Listing,
                         mark: string, par: bool, id: string) {
    && l.test == id && Chosen(skip, tests, id) && tests[id].mark == mark
    && mark in rev && par == (id in rev[mark].parallel)
  }

  ghost predicate ListedTwice(skip: set<string>, tests: TestMap, ls: seq<Listing>) {
    exists i, j :: 0 <= i < j < |ls| && Chosen(skip, tests, ls[i].test) && ls[i].test == ls[j].test
  }

  ghost predicate PlanSound(skip: set<string>, rev: TagMap, tests: TestMap, ls: seq<Listing>, p: Plan) {
    && p.tests.Keys == tests.Keys
    && (forall mark, par, id :: InGroup(p.selected, mark, par, id)
          <==> exists j :: 0 <= j < |ls| && Places(skip, rev, tests, ls[j], mark, par, id))
    && NoEmptyTags(p.selected)
    && (forall id | id in tests :: p.tests[id] == tests[id] || (exists j :: 0 <= j < |ls| && ls[j].test == id && Chosen(skip, tests, id)))
    && (forall j | 0 <= j < |ls| && Chosen(skip, tests, ls[j].test) ::
          p.tests[ls[j].test] == tests[ls[j].test].(ticket := Some(ls[j].ticket)))
  }

  lemma ExtendedFurtherHolds(rev: TagMap, mark: string, par: bool, id: string)
    ensures Extended(rev, Filed(rev, mark, par, id), {mark}, par, id)
  {
    assert Extended(rev, rev, {}, par, id);
    ExtendedFurther(rev, rev, {}, par, id, mark);
    assert {} + {mark} == {mark};
  }

  lemma GroupsFurther(skip: set<string>, rev: TagMap, tests: TestMap, ls: seq<Listing>, p: Plan, p': Plan, l: Listing)
    requires Unplanned(tests) && PlanSound(skip, rev, tests, ls, p)
    requires PlanOne(skip, rev, p, l) == Some(p')
    ensures forall mark, par, id :: InGroup(p'.selected, mark, par, id)
              <==> InGroup(p.selected, mark, par, id) || Places(skip, rev, tests, l, mark, par, id)
    ensures NoEmptyTags(p'.selected)
  {
    if l.test in p.tests {
      var info := p.tests[l.test];
      if info.mark in rev {
        ExtendedFurtherHolds(p.selected, info.mark, l.test in rev[info.mark].parallel, l.test);
      }
    }
  }

  lemma PlacedFurther(skip: set<string>, rev: TagMap, tests: TestMap, ls: seq<Listing>, p: Plan, p': Plan, l: Listing)
    requires Unplanned(tests) && PlanSound(skip, rev, tests, ls, p)
    requires PlanOne(skip, rev, p, l) == Some(p')
    ensures forall mark, par, id :: InGroup(p'.selected, mark, par, id)
              <==> exists j :: 0 <= j < |ls + [l]| && Places(skip, rev, tests, (ls + [l])[j], mark, par, id)
    ensures NoEmptyTags(p'.selected)
  {
    var all := ls + [l];
    assert all[|ls|] == l;
    GroupsFurther(skip, rev, tests, ls, p, p', l);
    forall mark, par, id
      ensures InGroup(p'.selected, mark, par, id)
         <==> exists j :: 0 <= j < |all| && Places(skip, rev, tests, all[j], mark, par, id)
    {
      if InGroup(p.selected, mark, par, id) {
        var j :| 0 <= j < |ls| && Places(skip, rev, tests, ls[j], mark, par, id);
        assert all[j] == ls[j];
      }
      if j :| 0 <= j < |all| && Places(skip, rev, tests, all[j], mark, par, id) {
        if j < |ls| { assert all[j] == ls[j]; }
      }
    }
  }

  lemma TicketsFurther(skip: set<string>, rev: TagMap, tests: TestMap, ls: seq<Listing>, p: Plan, p': Plan, l: Listing)
    requires Unplanned(tests) && PlanSound(skip, rev, tests, ls, p)
    requires PlanOne(skip, rev, p, l) == Some(p')
    ensures p'.tests.Keys == tests.Keys
    ensures forall j | 0 <= j < |ls| && Chosen(skip, tests, ls[j].test) ::
              p'.tests[ls[j].test] == tests[ls[j].test].(ticket := Some(ls[j].ticket))
    ensures Chosen(skip, tests, l.test) ==> p'.tests[l.test] == tests[l.test].(ticket := Some(l.ticket))
    ensures forall id | id in tests && !(id == l.test && Chosen(skip, tests, id)) :: p'.tests[id] == p.tests[id]
  {
  }

  lemma PlanSoundFurther(skip: set<string>, rev: TagMap, tests: TestMap, ls: seq<Listing>, p: Plan, p': Plan, l: Listing)
    requires Unplanned(tests) && PlanSound(skip, rev, tests, ls, p)
    requires PlanOne(skip, rev, p, l) == Some(p')
    ensures PlanSound(skip, rev, tests, ls + [l], p')
  {
    var all := ls + [l];
    assert all[|ls|] == l;
    PlacedFurther(skip, rev, tests, ls, p, p', l);
    TicketsFurther(skip, rev, tests, ls, p, p', l);
    forall id | id in tests
      ensures p'.tests[id] == tests[id] || (exists j :: 0 <= j < |all| && all[j].test == id && Chosen(skip, tests, id))
    {
      if p.tests[id] != tests[id] {
        var j :| 0 <= j < |ls| && ls[j].test == id && Chosen(skip, tests, id);
        assert all[j] == ls[j];
      }
    }
  }

  lemma ListedTwiceLast(skip: set<string>, tests: TestMap, ls: seq<Listing>, l: Listing)
    ensures ListedTwice(skip, tests, ls + [l])
       <==> ListedTwice(skip, tests, ls)
            || (Chosen(skip, tests, l.test) && exists j :: 0 <= j < |ls| && ls[j].test == l.test)
  {
    var all := ls + [l];
    if ListedTwice(skip, tests, ls) {
      var i, j :| 0 <= i < j < |ls| && Chosen(skip, tests, ls[i].test) && ls[i].test == ls[j].test;
      assert all[i] == ls[i] && all[j] == ls[j];
    }
    if Chosen(skip, tests, l.test) && exists j :: 0 <= j < |ls| && ls[j].test == l.test {
      var j :| 0 <= j < |ls| && ls[j].test == l.test;
      assert all[j] == ls[j] && all[|ls|] == l;
    }
    if ListedTwice(skip, tests, all) {
      var i, j :| 0 <= i < j < |all| && Chosen(skip, tests, all[i].test) && all[i].test == all[j].test;
      assert all[i] == ls[i];
      assert j < |ls| ==> all[j] == ls[j];
    }
  }

  /**
   Planning breaks off with a ValueError exactly when some chosen test is listed twice;
   otherwise the plan holds exactly the chosen tests, each in its group and with its ticket.
   */
  lemma {:induction false} PlanExact(skip: set<string>, rev: TagMap, tests: TestMap, ls: seq<Listing>)
    requires Unplanned(tests)
    ensures PlanAll(skip, rev, Plan(tests, map[]), ls).None? <==> ListedTwice(skip, tests, ls)
    ensures var r := PlanAll(skip, rev, Plan(tests, map[]), ls);
            r.Some? ==> PlanSound(skip, rev, tests, ls, r.value)
    decreases |ls|
  {
    if ls != [] {
      var front, l := ls[..|ls| - 1], ls[|ls| - 1];
      PlanExact(skip, rev, tests, front);
      assert ls == front + [l];
      var r := PlanAll(skip, rev, Plan(tests, map[]), front);
      if r.None? {
        ListedTwiceLast(skip, tests, front, l);
      } else {
        if PlanOne(skip, rev, r.value, l).Some? {
          PlanSoundFurther(skip, rev, tests, front, r.value, PlanOne(skip, rev, r.value, l).value, l);
        }
        ListedTwiceLast(skip, tests, front, l);
      }
    }
  }

  /** `develop_execution_plan` on the planner's maps. */
  method DevelopPlan(pl: Planner, tickets: seq<Ticket>) returns (ok: bool)
    modifies pl`testMap, pl`selected
    ensures var r := PlanAll(pl.skipTests, pl.revTagMap, Plan(old(pl.testMap), old(pl.selected)), OfTickets(tickets));
            && ok == r.Some?
            && (ok ==> Plan(pl.testMap, pl.selected) == r.value)
  {
    ghost var start := Plan(pl.testMap, pl.selected);
    ghost var done: seq<Listing> := [];
    for t := 0 to |tickets|
      invariant done == OfTickets(tickets[..t])
      invariant PlanAll(pl.skipTests, pl.revTagMap, start, done) == Some(Plan(pl.testMap, pl.selected))
    {
      ok := PlanTicket(pl, tickets[t], start, done);
      assert tickets[..t + 1][..t] == tickets[..t];
      done := done + OfTicket(tickets[t]);
      if !ok {
        FailureStays(pl.skipTests, pl.revTagMap, start, tickets, t + 1);
        return;
      }
    }
    assert tickets[..|tickets|] == tickets;
    ok := true;
  }

  lemma {:induction false} PlanAppend(skip: set<string>, rev: TagMap, p: Plan, a: seq<Listing>, b: seq<Listing>)
    ensures PlanAll(skip, rev, p, a).None? ==> PlanAll(skip, rev, p, a + b).None?
    decreases |b|
  {
    if b == [] {
      assert a + b == a;
    } else {
      assert (a + b)[..|a + b| - 1] == a + b[..|b| - 1];
      PlanAppend(skip, rev, p, a, b[..|b| - 1]);
    }
  }

  lemma {:induction false} FailureStays(skip: set<string>, rev: TagMap, p: Plan, tickets: seq<Ticket>, t: nat)
    requires t <= |tickets| && PlanAll(skip, rev, p, OfTickets(tickets[..t])).None?
    ensures PlanAll(skip, rev, p, OfTickets(tickets)).None?
    decreases |tickets| - t
  {
    if t == |tickets| {
      assert tickets[..t] == tickets;
    } else {
      assert tickets[..t + 1][..t] == tickets[..t];
      PlanAppend(skip, rev, p, OfTickets(tickets[..t]), OfTicket(tickets[t]));
      FailureStays(skip, rev, p, tickets, t + 1);
    }
  }

  lemma PlanNext(skip: set<string>, rev: TagMap, p: Plan, before: seq<Listing>, ls: seq<Listing>, i: nat)
    requires i < |ls|
    ensures var r := PlanAll(skip, rev, p, before + ls[..i]);
            PlanAll(skip, rev, p, before + ls[..i + 1]) == if r.None? then None else PlanOne(skip, rev, r.value, ls[i])
    ensures PlanAll(skip, rev, p, before + ls[..i + 1]).None? ==> PlanAll(skip, rev, p, before + ls).None?
  {
    assert (before + ls[..i + 1])[..|before| + i] == before + ls[..i];
    PlanAppend(skip, rev, p, before + ls[..i + 1], ls[i + 1..]);
    assert before + ls[..i + 1] + ls[i + 1..] == before + ls;
  }

  method PlanTicket(pl: Planner, ticket: Ticket, ghost start: Plan, ghost before: seq<Listing>) returns (ok: bool)
    requires PlanAll(pl.skipTests, pl.revTagMap, start, before) == Some(Plan(pl.testMap, pl.selected))
    modifies pl`testMap, pl`selected
    ensures var r := PlanAll(pl.skipTests, pl.revTagMap, start, before + OfTicket(ticket));
            && ok == r.Some?
            && (ok ==> Plan(pl.testMap, pl.selected) == r.value)
  {
    ghost var ls := OfTicket(ticket);
    assert before + ls[..0] == before;
    for i := 0 to |ticket.tests|
      invariant PlanAll(pl.skipTests, pl.revTagMap, start, before + ls[..i]) == Some(Plan(pl.testMap, pl.selected))
    {
      PlanNext(pl.skipTests, pl.revTagMap, start, before, ls, i);
      ok := PlanTest(pl, Listing(ticket.id, ticket.tests[i]));
      if !ok { return; }
    }
    assert ls[..|ls|] == ls;
    ok := true;
  }

  method PlanTest(pl: Planner, l: Listing) returns (ok: bool)
    modifies pl`testMap, pl`selected
    ensures var r := PlanOne(pl.skipTests, pl.revTagMap, Plan(old(pl.testMap), old(pl.selected)), l);
            && ok == r.Some?
            && (ok ==> Plan(pl.testMap, pl.selected) == r.value)
  {
    if l.test in pl.skipTests || l.test !in pl.testMap { return true; }
    var info := pl.testMap[l.test];
    if info.ticket.Some? { return false; }
    if info.mark == "" { return true; }
    pl.testMap := pl.testMap[l.test := info.(ticket := Some(l.ticket))];
    if info.mark !in pl.revTagMap { return true; }
    var groups := pl.revTagMap[info.mark];
    assert {} + {l.test} == {l.test};
    if info.mark !in pl.selected {
      pl.selected := pl.selected[info.mark := if l.test in groups.parallel then Groups({l.test}, {}) else Groups({}, {l.test})];
    } else {
      var chosen := pl.selected[info.mark];
      pl.selected := pl.selected[info.mark := if l.test in groups.parallel
                                              then chosen.(parallel := chosen.parallel + {l.test})
                                              else chosen.(sequential := chosen.sequential + {l.test})];
    }
    ok := true;
  }
}
