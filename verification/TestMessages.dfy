/** The messages of a plan: conservation of tests from the tickets to the bus. */
module TestMessages {
  import opened Wrappers
  import opened TestPlanning
  import opened TestDispatch
  import WorkPool
  import Workers

  // ---- where a test is planned -------------------------------------------------------------

  ghost predicate UniqueIds(metas: seq<Meta>) {
    forall i, j | 0 <= i < j < |metas| && metas[i].id != "" :: metas[i].id != metas[j].id
  }

  /** What `create_test_map` leaves behind. */
  ghost predicate CollectedFrom(metas: seq<Meta>, tests: TestMap, rev: TagMap, skip: set<string>) {
    RevSound(metas, rev) && MapSound(metas, tests) && SkipSound(metas, skip)
  }

  /** With unique ids the maps describe each test by its one collected record. */
  lemma MetaOf(metas: seq<Meta>, tests: TestMap, rev: TagMap, skip: set<string>, i: nat)
    requires CollectedFrom(metas, tests, rev, skip) && UniqueIds(metas)
    requires i < |metas| && metas[i].id != ""
    ensures metas[i].id in tests && tests[metas[i].id] == InfoOf(metas[i])
    ensures metas[i].id in skip <==> IsSkipped(metas[i])
    ensures forall mark, par :: InGroup(rev, mark, par, metas[i].id)
              <==> IsParallel(metas[i]) == par && mark in FiledMarks(metas[i])
  {
    var m := metas[i];
    forall mark, par ensures InGroup(rev, mark, par, m.id) <==> IsParallel(m) == par && mark in FiledMarks(m) {
      if InGroup(rev, mark, par, m.id) {
        var j :| 0 <= j < |metas| && Files(metas[j], mark, par, m.id);
        assert j == i;
      }
      if IsParallel(m) == par && mark in FiledMarks(m) {
        assert Files(metas[i], mark, par, m.id);
      }
    }
  }

  lemma {:induction false} LastSpecificIsSpecific(marks: seq<string>)
    ensures LastSpecific(marks) != "" ==> LastSpecific(marks) in marks && IsSpecific(LastSpecific(marks))
  {
    if marks != [] { LastSpecificIsSpecific(marks[..|marks| - 1]); }
  }

  /** A test is filed under its own mark when it has a specific mark, or when its first base mark ends its list. */
  lemma FiledUnderOwnMark(m: Meta)
    requires OwnMark(m) != ""
    ensures OwnMark(m) in FiledMarks(m)
       <==> LastSpecific(m.marks) != "" || m.marks[|m.marks| - 1] == FirstBase(m.marks)
  {
    LastSpecificIsSpecific(m.marks);
    FirstBaseIsBase(m.marks);
  }

  lemma {:induction false} FirstBaseIsBase(marks: seq<string>)
    ensures FirstBase(marks) != "" ==> FirstBase(marks) in marks && IsBase(FirstBase(marks))
  {
    if marks != [] { FirstBaseIsBase(marks[..|marks| - 1]); }
  }

  /**
   The group of one chosen test.  It is planned exactly when some test is filed under its own mark,
   and it lands in its own class exactly when it is itself filed there or is sequential.
   */
  lemma PlacementExact(metas: seq<Meta>, tests: TestMap, rev: TagMap, skip: set<string>,
                       ls: seq<Listing>, p: Plan, i: nat)
    requires CollectedFrom(metas, tests, rev, skip) && UniqueIds(metas)
    requires PlanSound(skip, rev, tests, ls, p)
    requires i < |metas| && metas[i].id != "" && OwnMark(metas[i]) != "" && !IsSkipped(metas[i])
    requires exists j :: 0 <= j < |ls| && ls[j].test == metas[i].id
    ensures (exists mark, par :: InGroup(p.selected, mark, par, metas[i].id)) <==> OwnMark(metas[i]) in rev
    ensures forall mark, par | InGroup(p.selected, mark, par, metas[i].id) :: mark == OwnMark(metas[i])
    ensures InGroup(p.selected, OwnMark(metas[i]), IsParallel(metas[i]), metas[i].id)
       <==> OwnMark(metas[i]) in rev && (OwnMark(metas[i]) in FiledMarks(metas[i]) || !IsParallel(metas[i]))
  {
    var m := metas[i];
    MetaOf(metas, tests, rev, skip, i);
    var j :| 0 <= j < |ls| && ls[j].test == m.id;
    var own := OwnMark(m);
    if own in rev {
      var par := m.id in rev[own].parallel;
      assert par <==> InGroup(rev, own, true, m.id);
      assert Places(skip, rev, tests, ls[j], own, par, m.id);
      assert InGroup(p.selected, own, par, m.id);
    }
    forall mark, par | InGroup(p.selected, mark, par, m.id)
      ensures mark == own && mark in rev && par == (m.id in rev[own].parallel)
    {
      var k :| 0 <= k < |ls| && Places(skip, rev, tests, ls[k], mark, par, m.id);
    }
  }

  // ---- messages ------------------------------------------------------------------------------

  /** A Ticket object on the bus; targets, build and plan are the same for all of them. */
  datatype Message = Message(tag: string, parallel: bool, tests: set<string>, ticket: string)

  predicate HasTicket(tests: TestMap, id: string) { id in tests && tests[id].ticket.Some? }

  predicate TicketOf(tests: TestMap, id: string, ticket: string) {
    id in tests && tests[id].ticket == Some(ticket)
  }

  ghost predicate AllTicketed(tests: TestMap, selected: TagMap) {
    forall mark, par, id | InGroup(selected, mark, par, id) :: HasTicket(tests, id)
  }

  ghost predicate MessageSound(tests: TestMap, selected: TagMap, m: Message) {
    && m.tag in selected
    && if m.parallel then
         && m.tests == selected[m.tag].parallel
         && exists id :: id in (if m.tests != {} then m.tests else selected[m.tag].sequential) && TicketOf(tests, id, m.ticket)
       else exists id :: id in selected[m.tag].sequential && m.tests == {id} && TicketOf(tests, id, m.ticket)
  }

  ghost predicate SameWork(a: Message, b: Message) {
    a.tag == b.tag && a.parallel == b.parallel && a.tests == b.tests
  }

  /** One message per parallel group - even an empty one - and one per sequential test of the given tags. */
  ghost predicate Carries(tests: TestMap, selected: TagMap, tags: set<string>, messages: seq<Message>) {
    && (forall i | 0 <= i < |messages| :: messages[i].tag in tags && MessageSound(tests, selected, messages[i]))
    && (forall tag | tag in tags && tag in selected :: Announced(selected, tag, messages))
    && (forall i, j | 0 <= i < j < |messages| :: !SameWork(messages[i], messages[j]))
  }

  ghost predicate Announced(selected: TagMap, tag: string, messages: seq<Message>)
    requires tag in selected
  {
    && (exists i :: 0 <= i < |messages| && messages[i].tag == tag && messages[i].parallel)
    && (forall id | id in selected[tag].sequential :: SentAlone(messages, tag, id))
  }

  ghost predicate SentAlone(messages: seq<Message>, tag: string, id: string) {
    exists i :: 0 <= i < |messages| && messages[i].tag == tag && !messages[i].parallel && messages[i].tests == {id}
  }

  /** The work items of one tag; `next(iter(set_t))` always finds a test. */
  method TagMessages(tests: TestMap, selected: TagMap, tag: string) returns (messages: seq<Message>)
    requires tag in selected && NoEmptyTags(selected) && AllTicketed(tests, selected)
    ensures Carries(tests, selected, {tag}, messages)
  {
    var Groups(parallel, sequential) := selected[tag];
    var pool := if parallel != {} then parallel else sequential;
    assert pool != {} by {
      var par, id :| InGroup(selected, tag, par, id);
      assert id in parallel || id in sequential;
    }
    var any :| any in pool;
    assert InGroup(selected, tag, parallel != {}, any);
    messages := [Message(tag, true, parallel, tests[any].ticket.value)];
    assert MessageSound(tests, selected, messages[0]) by {
      assert TicketOf(tests, any, messages[0].ticket);
    }
    var left := sequential;
    while left != {}
      invariant left <= sequential && |messages| > 0 && messages[0].parallel
      invariant forall i | 0 <= i < |messages| :: messages[i].tag == tag && MessageSound(tests, selected, messages[i])
      invariant forall i | 0 < i < |messages| :: !messages[i].parallel && messages[i].tests !! left
      invariant forall id | id in sequential - left :: SentAlone(messages, tag, id)
      invariant forall i, j | 0 <= i < j < |messages| :: !SameWork(messages[i], messages[j])
      decreases left
    {
      var id :| id in left;
      assert InGroup(selected, tag, false, id);
      var m := Message(tag, false, {id}, tests[id].ticket.value);
      assert TicketOf(tests, id, m.ticket);
      ghost var before, left0 := messages, left;
      messages := messages + [m];
      left := left - {id};
      forall x | x in sequential - left ensures SentAlone(messages, tag, x) {
        if x == id {
          assert messages[|before|] == m;
        } else {
          assert x in sequential - left0 && SentAlone(before, tag, x);
          var i :| 0 <= i < |before| && before[i].tag == tag && !before[i].parallel && before[i].tests == {x};
          assert messages[i] == before[i];
        }
      }
    }
  }

  /** The work-item loop of `run`, in whatever order the tags and tests come. */
  method BuildMessages(tests: TestMap, selected: TagMap) returns (messages: seq<Message>)
    requires NoEmptyTags(selected) && AllTicketed(tests, selected)
    ensures Carries(tests, selected, selected.Keys, messages)
  {
    messages := [];
    var left := selected.Keys;
    ghost var done: set<string> := {};
    while left != {}
      invariant done !! left && done + left == selected.Keys
      invariant Carries(tests, selected, done, messages)
      decreases left
    {
      var tag :| tag in left;
      messages := AddTag(tests, selected, tag, messages, done);
      left, done := left - {tag}, done + {tag};
    }
    assert done == selected.Keys;
  }

  method AddTag(tests: TestMap, selected: TagMap, tag: string, messages: seq<Message>, ghost done: set<string>)
    returns (messages': seq<Message>)
    requires NoEmptyTags(selected) && AllTicketed(tests, selected)
    requires tag in selected && tag !in done && Carries(tests, selected, done, messages)
    ensures Carries(tests, selected, done + {tag}, messages')
  {
    var more := TagMessages(tests, selected, tag);
    CarriesAppend(tests, selected, done, messages, tag, more);
    messages' := messages + more;
  }

  lemma AnnouncedIn(selected: TagMap, tag: string, part: seq<Message>, all: seq<Message>, at: nat)
    requires tag in selected && Announced(selected, tag, part)
    requires at + |part| <= |all| && all[at..at + |part|] == part
    ensures Announced(selected, tag, all)
  {
    assert forall i | 0 <= i < |part| :: part[i] == all[at..at + |part|][i] == all[at + i];
    var i :| 0 <= i < |part| && part[i].tag == tag && part[i].parallel;
    assert all[at + i] == part[i];
    forall id | id in selected[tag].sequential ensures SentAlone(all, tag, id) {
      assert SentAlone(part, tag, id);
      var k :| 0 <= k < |part| && part[k].tag == tag && !part[k].parallel && part[k].tests == {id};
      assert all[at + k] == part[k];
    }
  }

  lemma AppendKeepsSound(tests: TestMap, selected: TagMap, tags: set<string>, messages: seq<Message>,
                         tag: string, more: seq<Message>)
    requires tag !in tags && Carries(tests, selected, tags, messages) && Carries(tests, selected, {tag}, more)
    ensures var all := messages + more;
            && (forall i | 0 <= i < |all| :: all[i].tag in tags + {tag} && MessageSound(tests, selected, all[i]))
            && (forall i, j | 0 <= i < j < |all| :: !SameWork(all[i], all[j]))
  {
    var all := messages + more;
    forall i | 0 <= i < |all| ensures all[i].tag in tags + {tag} && MessageSound(tests, selected, all[i]) {
      if i < |messages| { assert all[i] == messages[i]; } else { assert all[i] == more[i - |messages|]; }
    }
    forall i, j | 0 <= i < j < |all| ensures !SameWork(all[i], all[j]) {
      if j < |messages| { assert all[i] == messages[i] && all[j] == messages[j]; }
      else if i >= |messages| { assert all[i] == more[i - |messages|] && all[j] == more[j - |messages|]; }
      else { assert all[i] == messages[i] && all[j] == more[j - |messages|]; }
    }
  }

  lemma CarriesAppend(tests: TestMap, selected: TagMap, tags: set<string>, messages: seq<Message>,
                      tag: string, more: seq<Message>)
    requires tag in selected && tag !in tags
    requires Carries(tests, selected, tags, messages) && Carries(tests, selected, {tag}, more)
    ensures Carries(tests, selected, tags + {tag}, messages + more)
  {
    var all := messages + more;
    assert all[0..0 + |messages|] == messages && all[|messages|..|messages| + |more|] == more;
    AppendKeepsSound(tests, selected, tags, messages, tag, more);
    forall t | t in tags + {tag} && t in selected ensures Announced(selected, t, all) {
      if t == tag {
        AnnouncedIn(selected, t, more, all, |messages|);
      } else {
        AnnouncedIn(selected, t, messages, all, 0);
      }
    }
  }

  // ---- conservation ---------------------------------------------------------------------------

  ghost predicate Disjoint(selected: TagMap) {
    forall mark, par, mark', par', id ::
      InGroup(selected, mark, par, id) && InGroup(selected, mark', par', id) ==> mark == mark' && par == par'
  }

  /** A test travels in the message of its group: the group's own, or one by itself. */
  lemma CarriedInGroup(tests: TestMap, selected: TagMap, messages: seq<Message>, i: nat, id: string)
    requires Carries(tests, selected, selected.Keys, messages)
    requires i < |messages| && id in messages[i].tests
    ensures InGroup(selected, messages[i].tag, messages[i].parallel, id)
    ensures !messages[i].parallel ==> messages[i].tests == {id} && TicketOf(tests, id, messages[i].ticket)
  {
    assert MessageSound(tests, selected, messages[i]);
  }

  /** No test is sent twice. */
  lemma MessagesAreDisjoint(tests: TestMap, selected: TagMap, messages: seq<Message>)
    requires Carries(tests, selected, selected.Keys, messages) && Disjoint(selected)
    ensures forall i, j | 0 <= i < j < |messages| :: messages[i].tests !! messages[j].tests
  {
    forall i, j | 0 <= i < j < |messages| ensures messages[i].tests !! messages[j].tests {
      if id :| id in messages[i].tests && id in messages[j].tests {
        CarriedInGroup(tests, selected, messages, i, id);
        CarriedInGroup(tests, selected, messages, j, id);
        assert MessageSound(tests, selected, messages[i]) && MessageSound(tests, selected, messages[j]);
        assert SameWork(messages[i], messages[j]);
        assert false;
      }
    }
  }

  ghost predicate Sent(messages: seq<Message>, id: string) {
    exists i :: 0 <= i < |messages| && id in messages[i].tests
  }

  /** Exactly the planned tests are sent. */
  lemma SentExactly(tests: TestMap, selected: TagMap, messages: seq<Message>, id: string)
    requires Carries(tests, selected, selected.Keys, messages)
    ensures Sent(messages, id) <==> exists mark, par :: InGroup(selected, mark, par, id)
  {
    if Sent(messages, id) {
      var i :| 0 <= i < |messages| && id in messages[i].tests;
      CarriedInGroup(tests, selected, messages, i, id);
    }
    if mark, par :| InGroup(selected, mark, par, id) {
      assert Announced(selected, mark, messages);
      if par {
        var i :| 0 <= i < |messages| && messages[i].tag == mark && messages[i].parallel;
        assert MessageSound(tests, selected, messages[i]);
      } else {
        assert SentAlone(messages, mark, id);
      }
    }
  }

  /** A test the run should execute: collected, listed, with a mark to plan it under and not skipped. */
  ghost predicate Wanted(metas: seq<Meta>, ls: seq<Listing>, id: string) {
    && (exists i :: 0 <= i < |metas| && metas[i].id == id && id != "" && OwnMark(metas[i]) != "" && !IsSkipped(metas[i]))
    && (exists j :: 0 <= j < |ls| && ls[j].test == id)
  }

  /** Some test is filed under this mark. */
  ghost predicate IsFiled(metas: seq<Meta>, mark: string) {
    exists k :: 0 <= k < |metas| && metas[k].id != "" && mark in FiledMarks(metas[k])
  }

  /** The own mark of this collected test is one that tests are filed under. */
  ghost predicate MarkFiled(metas: seq<Meta>, id: string) {
    exists i :: 0 <= i < |metas| && metas[i].id == id && IsFiled(metas, OwnMark(metas[i]))
  }

  lemma FiledInRev(metas: seq<Meta>, rev: TagMap, mark: string)
    requires RevSound(metas, rev)
    ensures mark in rev <==> IsFiled(metas, mark)
  {
    if mark in rev {
      var par, id :| InGroup(rev, mark, par, id);
      var k :| 0 <= k < |metas| && Files(metas[k], mark, par, id);
    }
    if k :| 0 <= k < |metas| && metas[k].id != "" && mark in FiledMarks(metas[k]) {
      assert Files(metas[k], mark, IsParallel(metas[k]), metas[k].id);
      assert InGroup(rev, mark, IsParallel(metas[k]), metas[k].id);
    }
  }

  /**
   Conservation from tickets to messages.  Every message carries tests nobody else carries, and a
   test is carried exactly when it is wanted and some test is filed under its own mark; a test with a
   specific mark always is.
   */
  lemma TestsAreConserved(metas: seq<Meta>, tests: TestMap, rev: TagMap, skip: set<string>,
                          ls: seq<Listing>, p: Plan, messages: seq<Message>)
    requires CollectedFrom(metas, tests, rev, skip) && UniqueIds(metas)
    requires PlanAll(skip, rev, Plan(tests, map[]), ls) == Some(p)
    requires Carries(p.tests, p.selected, p.selected.Keys, messages)
    ensures forall i, j | 0 <= i < j < |messages| :: messages[i].tests !! messages[j].tests
    ensures forall id :: Sent(messages, id) <==> Wanted(metas, ls, id) && MarkFiled(metas, id)
    ensures forall i | 0 <= i < |metas| && metas[i].id != "" && LastSpecific(metas[i].marks) != "" ::
              MarkFiled(metas, metas[i].id)
  {
    PlanExact(skip, rev, tests, ls);
    MessagesAreDisjoint(p.tests, p.selected, messages);
    forall id ensures Sent(messages, id) <==> Wanted(metas, ls, id) && MarkFiled(metas, id) {
      SentExactly(p.tests, p.selected, messages, id);
      WantedIsPlanned(metas, tests, rev, skip, ls, p, id);
    }
    forall i | 0 <= i < |metas| && metas[i].id != "" && LastSpecific(metas[i].marks) != ""
      ensures MarkFiled(metas, metas[i].id)
    {
      MetaOf(metas, tests, rev, skip, i);
      FiledUnderOwnMark(metas[i]);
      assert IsFiled(metas, OwnMark(metas[i]));
    }
  }

  lemma MetaWith(metas: seq<Meta>, tests: TestMap, id: string) returns (i: nat)
    requires MapSound(metas, tests) && id in tests
    ensures i < |metas| && metas[i].id == id != "" && tests[id] == InfoOf(metas[i])
  {
    i :| LastWith(metas, i, id) && tests[id] == InfoOf(metas[i]);
  }

  lemma PlacedIsWanted(metas: seq<Meta>, tests: TestMap, rev: TagMap, skip: set<string>,
                       ls: seq<Listing>, j: nat, mark: string, par: bool, id: string)
    requires CollectedFrom(metas, tests, rev, skip) && UniqueIds(metas)
    requires j < |ls| && Places(skip, rev, tests, ls[j], mark, par, id)
    ensures Wanted(metas, ls, id) && MarkFiled(metas, id)
  {
    var i := MetaWith(metas, tests, id);
    MetaOf(metas, tests, rev, skip, i);
    FiledInRev(metas, rev, mark);
  }

  lemma WantedIsPlanned(metas: seq<Meta>, tests: TestMap, rev: TagMap, skip: set<string>,
                        ls: seq<Listing>, p: Plan, id: string)
    requires CollectedFrom(metas, tests, rev, skip) && UniqueIds(metas)
    requires PlanSound(skip, rev, tests, ls, p)
    ensures (exists mark, par :: InGroup(p.selected, mark, par, id))
       <==> Wanted(metas, ls, id) && MarkFiled(metas, id)
  {
    if mark, par :| InGroup(p.selected, mark, par, id) {
      var j :| 0 <= j < |ls| && Places(skip, rev, tests, ls[j], mark, par, id);
      PlacedIsWanted(metas, tests, rev, skip, ls, j, mark, par, id);
    }
    if Wanted(metas, ls, id) && MarkFiled(metas, id) {
      var i :| 0 <= i < |metas| && metas[i].id == id && id != "" && OwnMark(metas[i]) != "" && !IsSkipped(metas[i]);
      var k :| 0 <= k < |metas| && metas[k].id == id && IsFiled(metas, OwnMark(metas[k]));
      assert i == k;
      FiledInRev(metas, rev, OwnMark(metas[i]));
      PlacementExact(metas, tests, rev, skip, ls, p, i);
    }
  }

  /** A lone test with only base marks is lost when its list does not end with the mark it is planned under. */
  lemma BaseOnlyTestIsLost(tests: TestMap, rev: TagMap, skip: set<string>, p: Plan, messages: seq<Message>)
    requires CollectedFrom([Meta("T1", "n", ["ha", "parallel"])], tests, rev, skip)
    requires PlanAll(skip, rev, Plan(tests, map[]), [Listing("X", "T1")]) == Some(p)
    requires Carries(p.tests, p.selected, p.selected.Keys, messages)
    ensures Wanted([Meta("T1", "n", ["ha", "parallel"])], [Listing("X", "T1")], "T1")
    ensures !Sent(messages, "T1")
  {
    var m := Meta("T1", "n", ["ha", "parallel"]);
    var ls := [Listing("X", "T1")];
    assert m.marks[..1] == ["ha"] && ["ha"][..0] == [];
    assert LastSpecific(m.marks) == "" && FirstBase(m.marks) == "ha";
    assert FiledMarks(m) == {"parallel"};
    TestsAreConserved([m], tests, rev, skip, ls, p, messages);
    assert [m][0].id == "T1" && ls[0].test == "T1";
    assert !IsFiled([m], "ha");
  }

  /**
   A test travels under the last specific mark of its list, or with none under its first base mark, in its own
   class if filed there; alone, it brings its own ticket, and a group that of one of its tests.
   */
  ghost predicate WellSent(metas: seq<Meta>, ls: seq<Listing>, m: Message) {
    forall k | 0 <= k < |metas| && metas[k].id != "" && metas[k].id in m.tests ::
      && m.tag == OwnMark(metas[k]) && PlannedUnder(metas[k].marks, m.tag)
      && (m.parallel <==> OwnMark(metas[k]) in FiledMarks(metas[k]) && IsParallel(metas[k]))
      && (!m.parallel ==> m.tests == {metas[k].id} && Listing(m.ticket, metas[k].id) in ls)
      && (m.parallel ==> exists id :: id in m.tests && Listing(m.ticket, id) in ls)
  }

  lemma GroupTicket(skip: set<string>, rev: TagMap, tests: TestMap, ls: seq<Listing>, p: Plan, messages: seq<Message>, i: nat)
    requires PlanSound(skip, rev, tests, ls, p) && Carries(p.tests, p.selected, p.selected.Keys, messages)
    requires i < |messages| && messages[i].parallel && messages[i].tests != {}
    ensures exists id :: id in messages[i].tests && Listing(messages[i].ticket, id) in ls
  {
    var m := messages[i];
    assert MessageSound(p.tests, p.selected, m);
    var id :| id in m.tests && TicketOf(p.tests, id, m.ticket);
    assert InGroup(p.selected, m.tag, true, id);
    var j :| 0 <= j < |ls| && Places(skip, rev, tests, ls[j], m.tag, true, id);
    assert p.tests[id] == tests[id].(ticket := Some(ls[j].ticket));
    assert ls[j] == Listing(m.ticket, id);
  }

  lemma MessagesAreWellSent(metas: seq<Meta>, tests: TestMap, rev: TagMap, skip: set<string>,
                            ls: seq<Listing>, p: Plan, messages: seq<Message>, i: nat)
    requires CollectedFrom(metas, tests, rev, skip) && UniqueIds(metas)
    requires PlanSound(skip, rev, tests, ls, p)
    requires Carries(p.tests, p.selected, p.selected.Keys, messages) && i < |messages|
    ensures WellSent(metas, ls, messages[i])
  {
    var m := messages[i];
    forall k | 0 <= k < |metas| && metas[k].id != "" && metas[k].id in m.tests
      ensures m.tag == OwnMark(metas[k]) && PlannedUnder(metas[k].marks, m.tag)
      ensures m.parallel <==> OwnMark(metas[k]) in FiledMarks(metas[k]) && IsParallel(metas[k])
      ensures !m.parallel ==> m.tests == {metas[k].id} && Listing(m.ticket, metas[k].id) in ls
      ensures m.parallel ==> exists id :: id in m.tests && Listing(m.ticket, id) in ls
    {
      if m.parallel { GroupTicket(skip, rev, tests, ls, p, messages, i); }
      var id := metas[k].id;
      OwnMarkExact(metas[k], OwnMark(metas[k]));
      CarriedInGroup(p.tests, p.selected, messages, i, id);
      MetaOf(metas, tests, rev, skip, k);
      var j :| 0 <= j < |ls| && Places(skip, rev, tests, ls[j], m.tag, m.parallel, id);
      assert p.tests[id] == tests[id].(ticket := Some(ls[j].ticket));
      assert InGroup(rev, m.tag, true, id) <==> id in rev[m.tag].parallel;
      assert ls[j] == Listing(ls[j].ticket, id);
    }
  }

  /** Planning breaks off on a wanted test that is listed twice. */
  ghost predicate WantedTwice(metas: seq<Meta>, ls: seq<Listing>) {
    exists i, j :: 0 <= i < j < |ls| && ls[i].test == ls[j].test && Wanted(metas, ls, ls[i].test)
  }

  lemma ChosenIsWanted(metas: seq<Meta>, tests: TestMap, rev: TagMap, skip: set<string>, ls: seq<Listing>, j: nat)
    requires CollectedFrom(metas, tests, rev, skip) && UniqueIds(metas) && j < |ls|
    ensures Chosen(skip, tests, ls[j].test) <==> Wanted(metas, ls, ls[j].test)
  {
    var id := ls[j].test;
    if id in tests {
      var i :| 0 <= i < |metas| && metas[i].id != "" && metas[i].id == id;
      MetaOf(metas, tests, rev, skip, i);
    }
  }

  /**
   What is asked of the messages: no test in two of them, every wanted test whose own mark is filed in
   one, no other test in any, and each test sent as its marks and ticket say.
   */
  ghost predicate Conserved(metas: seq<Meta>, ls: seq<Listing>, messages: seq<Message>) {
    && (forall i, j | 0 <= i < j < |messages| :: messages[i].tests !! messages[j].tests)
    && (forall id :: Sent(messages, id) <==> Wanted(metas, ls, id) && MarkFiled(metas, id))
    && (forall i | 0 <= i < |messages| :: WellSent(metas, ls, messages[i]))
  }

  /** The whole of `run` up to the queue, from an empty planner. */
  method PlanRun(metas: seq<Meta>, tickets: seq<Ticket>) returns (ok: bool, messages: seq<Message>)
    requires UniqueIds(metas)
    ensures !ok <==> WantedTwice(metas, OfTickets(tickets))
    ensures ok ==> Conserved(metas, OfTickets(tickets), messages)
  {
    var pl := new Planner();
    messages := [];
    pl.CreateTestMap(metas);
    ghost var tests, rev, skip, ls := pl.testMap, pl.revTagMap, pl.skipTests, OfTickets(tickets);
    PlanExact(skip, rev, tests, ls);
    ListedIsWanted(metas, tests, rev, skip, ls);
    ok := DevelopPlan(pl, tickets);
    if ok {
      ghost var p := Plan(pl.testMap, pl.selected);
      messages := BuildMessages(pl.testMap, pl.selected);
      TestsAreConserved(metas, tests, rev, skip, ls, p, messages);
      forall i | 0 <= i < |messages| ensures WellSent(metas, ls, messages[i]) {
        MessagesAreWellSent(metas, tests, rev, skip, ls, p, messages, i);
      }
    }
  }

  lemma ListedIsWanted(metas: seq<Meta>, tests: TestMap, rev: TagMap, skip: set<string>, ls: seq<Listing>)
    requires CollectedFrom(metas, tests, rev, skip) && UniqueIds(metas)
    ensures ListedTwice(skip, tests, ls) <==> WantedTwice(metas, ls)
  {
    forall j | 0 <= j < |ls| ensures Chosen(skip, tests, ls[j].test) <==> Wanted(metas, ls, ls[j].test) {
      ChosenIsWanted(metas, tests, rev, skip, ls, j);
    }
  }

  const QUEUE_SLOTS: nat := 1024

  /**
   Through the bounded queue to the single producer thread: however the two threads interleave, what
   has come off the queue and been emitted when the pill is taken is the list of messages, in order.
   */
  lemma EmittedInOrder(messages: seq<Message>, actions: seq<WorkPool.Action>, s: WorkPool.State<Message>)
    requires WorkPool.Runs(WorkPool.Init(messages, QUEUE_SLOTS, 1), actions, s) && WorkPool.Returned(s)
    ensures forall j | 0 <= j < |s.ran| :: s.ran[j] < |s.taken|
    ensures WorkPool.JobsRun(s) == seq(|messages|, i requires 0 <= i < |messages| => WorkPool.Work(messages[i]))
  {
    WorkPool.SingleConsumerInOrder(messages, QUEUE_SLOTS, actions, s);
    assert WorkPool.Script(messages, 0) == seq(|messages|, i requires 0 <= i < |messages| => WorkPool.Work(messages[i]));
  }

  /** The whole of `run`: from collection and tickets, through the queue, to what the producer emits. */
  method DispatchRun(metas: seq<Meta>, tickets: seq<Ticket>, pick: WorkPool.State<Message> -> WorkPool.Action)
    returns (ok: bool, emitted: seq<Message>)
    requires UniqueIds(metas) && Workers.IsScheduler(pick)
    ensures !ok <==> WantedTwice(metas, OfTickets(tickets))
    ensures ok ==> Conserved(metas, OfTickets(tickets), emitted)
  {
    emitted := [];
    var messages;
    ok, messages := PlanRun(metas, tickets);
    if ok {
      emitted := Workers.RunQueue(messages, QUEUE_SLOTS, 1, pick);
    }
  }
}
