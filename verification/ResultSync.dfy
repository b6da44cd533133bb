/** JIRA to reports-database synchronisation: one entry per test carries the `latest` marker. */
module ResultSync {
  import opened Wrappers
  import opened Text

  datatype Key = Key(build: string, execution: string, test: string)

  /** Fields read from JIRA whenever an entry is written. */
  datatype RunInfo = RunInfo(startedOn: string, logPath: string, platform: string, server: string,
                             enclosure: string, drIds: seq<string>, featureIds: seq<string>)

  /** Fields a renewed entry takes over from the entry it replaces. */
  datatype TestInfo = TestInfo(tags: seq<string>, testType: string, name: string, labels: seq<string>,
                               plan: string, planLabel: string, executionLabel: string, team: string,
                               buildType: string, executionType: string, feature: string)

  datatype Entry = Entry(key: Key, latest: bool, result: string, run: RunInfo, info: TestInfo,
                         issues: Option<seq<string>>)

  /** One test of one execution of one plan, as JIRA lists it. */
  datatype Listing = Listing(key: Key, status: string, run: RunInfo, info: TestInfo, defects: seq<string>)

  type Entries = seq<Entry>

  // ---- what the requests do ----------------------------------------------------------

  predicate IsLatest(e: Entry, key: Key) { e.latest && e.key == key }

  /** The search {key, latest: True}. */
  function Hits(db: Entries, key: Key): Entries {
    if db == [] then []
    else (if IsLatest(db[0], key) then [db[0]] else []) + Hits(db[1..], key)
  }

  /** The patches on the same filter; they update every match. */
  function Retired(db: Entries, key: Key): Entries {
    seq(|db|, i requires 0 <= i < |db| => if IsLatest(db[i], key) then db[i].(latest := false) else db[i])
  }

  function Tagged(db: Entries, key: Key, issues: seq<string>): Entries {
    seq(|db|, i requires 0 <= i < |db| => if IsLatest(db[i], key) then db[i].(issues := Some(issues)) else db[i])
  }

  function FreshEntry(l: Listing): Entry {
    Entry(l.key, true, l.status, l.run, l.info, None)
  }

  function RenewedEntry(l: Listing, previous: Entry): Entry {
    Entry(Key(l.key.build, previous.key.execution, previous.key.test), true, l.status, l.run, previous.info, None)
  }

  // ---- one test, and all of them ------------------------------------------------------

  predicate IsTodo(l: Listing) { l.status == "TODO" }

  predicate TagsIssues(l: Listing) { Contains(Lower(l.status), "fail") && l.defects != [] }

  function Recorded(db: Entries, l: Listing): Entries {
    var hits := Hits(db, l.key);
    if hits == [] then db + [FreshEntry(l)]
    else if Lower(hits[0].result) != Lower(l.status) then Retired(db, l.key) + [RenewedEntry(l, hits[0])]
    else db
  }

  function SyncOne(db: Entries, l: Listing): Entries {
    if IsTodo(l) then db
    else if TagsIssues(l) then Tagged(Recorded(db, l), l.key, l.defects)
    else Recorded(db, l)
  }

  function SyncAll(db: Entries, ls: seq<Listing>): Entries {
    if ls == [] then db else SyncOne(SyncAll(db, ls[..|ls| - 1]), ls[|ls| - 1])
  }

  // ---- properties ---------------------------------------------------------------------

  ghost predicate AtMostOneLatest(db: Entries) {
    forall i, j | 0 <= i < j < |db| && db[i].latest && db[j].latest :: db[i].key != db[j].key
  }

  /** History: an entry keeps everything but its marker, which can only go, and its issue list. */
  ghost predicate Evolves(before: Entries, after: Entries) {
    && |before| <= |after|
    && forall i | 0 <= i < |before| ::
         && after[i] == before[i].(latest := after[i].latest, issues := after[i].issues)
         && (after[i].latest ==> before[i].latest)
         && (!before[i].latest ==> after[i] == before[i])
  }

  /** Some latest entry of the test has this result, letter case aside. */
  ghost predicate Shows(db: Entries, key: Key, status: string) {
    exists i | 0 <= i < |db| :: IsLatest(db[i], key) && Lower(db[i].result) == Lower(status)
  }

  /** The status JIRA lists last for a test, if it lists one other than TODO. */
  function LastStatus(ls: seq<Listing>, key: Key): Option<string> {
    if ls == [] then None
    else
      var l := ls[|ls| - 1];
      if l.key == key && !IsTodo(l) then Some(l.status) else LastStatus(ls[..|ls| - 1], key)
  }

  lemma {:induction false} HitsFirst(db: Entries, key: Key) returns (at: nat)
    ensures Hits(db, key) == [] ==> forall i | 0 <= i < |db| :: !IsLatest(db[i], key)
    ensures Hits(db, key) != [] ==>
              && at < |db| && IsLatest(db[at], key) && Hits(db, key)[0] == db[at]
              && forall i | 0 <= i < at :: !IsLatest(db[i], key)
  {
    at := 0;
    if db != [] && !IsLatest(db[0], key) {
      at := HitsFirst(db[1..], key);
      at := at + 1;
      assert Hits(db, key) == Hits(db[1..], key);
    }
  }

  lemma RecordedKeepsOne(db: Entries, l: Listing)
    requires AtMostOneLatest(db)
    ensures AtMostOneLatest(Recorded(db, l)) && Shows(Recorded(db, l), l.key, l.status)
    ensures AtMostOneLatest(Retired(db, l.key))
  {
    var at := HitsFirst(db, l.key);
    var db' := Recorded(db, l);
    if Hits(db, l.key) != [] && db' == db {
      assert IsLatest(db'[at], l.key);
    } else {
      assert IsLatest(db'[|db|], l.key);
    }
  }

  lemma SyncOneKeepsOne(db: Entries, l: Listing)
    requires AtMostOneLatest(db)
    ensures AtMostOneLatest(SyncOne(db, l))
    ensures !IsTodo(l) ==> Shows(SyncOne(db, l), l.key, l.status)
  {
    RecordedKeepsOne(db, l);
    if !IsTodo(l) && TagsIssues(l) {
      var db' := Recorded(db, l);
      var i :| 0 <= i < |db'| && IsLatest(db'[i], l.key) && Lower(db'[i].result) == Lower(l.status);
      assert IsLatest(Tagged(db', l.key, l.defects)[i], l.key);
    }
  }

  lemma OtherTestsKeep(db: Entries, l: Listing, key: Key, status: string)
    requires key != l.key && Shows(db, key, status)
    ensures Shows(SyncOne(db, l), key, status)
  {
    var i :| 0 <= i < |db| && IsLatest(db[i], key) && Lower(db[i].result) == Lower(status);
    assert SyncOne(db, l)[i] == db[i];
  }

  lemma EvolvesTransitive(a: Entries, b: Entries, c: Entries)
    requires Evolves(a, b) && Evolves(b, c)
    ensures Evolves(a, c)
  {
    forall i | 0 <= i < |a|
      ensures c[i] == a[i].(latest := c[i].latest, issues := c[i].issues)
              && (c[i].latest ==> a[i].latest) && (!a[i].latest ==> c[i] == a[i])
    {
      assert b[i] == a[i].(latest := b[i].latest, issues := b[i].issues);
      assert c[i] == b[i].(latest := c[i].latest, issues := c[i].issues);
    }
  }

  lemma RecordedEvolves(db: Entries, l: Listing)
    ensures Evolves(db, Retired(db, l.key)) && Evolves(db, Recorded(db, l))
  {
  }

  lemma SyncOneEvolves(db: Entries, l: Listing)
    ensures Evolves(db, SyncOne(db, l))
  {
    RecordedEvolves(db, l);
    if !IsTodo(l) && TagsIssues(l) {
      EvolvesTransitive(db, Recorded(db, l), Tagged(Recorded(db, l), l.key, l.defects));
    }
  }

  /** After a sync every test JIRA reports on has exactly one latest entry, and it agrees with JIRA. */
  lemma {:induction false} SyncAgreesWithJira(db: Entries, ls: seq<Listing>, key: Key)
    requires AtMostOneLatest(db)
    ensures AtMostOneLatest(SyncAll(db, ls))
    ensures LastStatus(ls, key).Some? ==> Shows(SyncAll(db, ls), key, LastStatus(ls, key).value)
    ensures Evolves(db, SyncAll(db, ls))
    decreases |ls|
  {
    if ls != [] {
      var front, l := ls[..|ls| - 1], ls[|ls| - 1];
      SyncAgreesWithJira(db, front, key);
      SyncOneKeepsOne(SyncAll(db, front), l);
      SyncOneEvolves(SyncAll(db, front), l);
      EvolvesTransitive(db, SyncAll(db, front), SyncAll(db, ls));
      if LastStatus(front, key).Some? && l.key != key {
        OtherTestsKeep(SyncAll(db, front), l, key, LastStatus(front, key).value);
      }
    }
  }

  ghost predicate Describes(db: Entries, key: Key, info: TestInfo) {
    exists i | 0 <= i < |db| :: IsLatest(db[i], key) && db[i].info == info
  }

  lemma RecordedDescribes(db: Entries, l: Listing, key: Key, info: TestInfo)
    requires AtMostOneLatest(db) && Describes(db, key, info)
    ensures Describes(Recorded(db, l), key, info)
  {
    var db' := Recorded(db, l);
    var i :| 0 <= i < |db| && IsLatest(db[i], key) && db[i].info == info;
    var at := HitsFirst(db, l.key);
    if key == l.key && db' != db {
      assert i == at;
      assert IsLatest(db'[|db|], key) && db'[|db|].info == info;
    } else {
      assert IsLatest(db'[i], key);
    }
  }

  /** However often its result changes, a test keeps the description its latest entry had. */
  lemma {:induction false} DescriptionSurvives(db: Entries, ls: seq<Listing>, key: Key, info: TestInfo)
    requires AtMostOneLatest(db) && Describes(db, key, info)
    ensures Describes(SyncAll(db, ls), key, info)
    decreases |ls|
  {
    if ls != [] {
      var front, l := ls[..|ls| - 1], ls[|ls| - 1];
      var mid := SyncAll(db, front);
      DescriptionSurvives(db, front, key, info);
      SyncAgreesWithJira(db, front, key);
      RecordedDescribes(mid, l, key, info);
      var i :| 0 <= i < |Recorded(mid, l)| && IsLatest(Recorded(mid, l)[i], key) && Recorded(mid, l)[i].info == info;
      if !IsTodo(l) {
        assert IsLatest(SyncOne(mid, l)[i], key) && SyncOne(mid, l)[i].info == info;
      }
    }
  }

  // ---- a second sync --------------------------------------------------------------------

  /** JIRA lists no test with two different results. */
  ghost predicate OneStatusEach(ls: seq<Listing>) {
    forall i, j | 0 <= i < j < |ls| && !IsTodo(ls[i]) && !IsTodo(ls[j]) && ls[i].key == ls[j].key ::
      Lower(ls[i].status) == Lower(ls[j].status)
  }

  /** Every latest entry of a listed test already shows the listed result. */
  ghost predicate UpToDate(db: Entries, ls: seq<Listing>) {
    forall j | 0 <= j < |ls| && !IsTodo(ls[j]) :: Shows(db, ls[j].key, ls[j].status)
  }

  lemma RecordedWhenShown(db: Entries, l: Listing)
    requires AtMostOneLatest(db)
    ensures Shows(db, l.key, l.status) ==> Recorded(db, l) == db
    ensures !Shows(db, l.key, l.status) ==> |Recorded(db, l)| == |db| + 1
  {
    var at := HitsFirst(db, l.key);
    if Shows(db, l.key, l.status) {
      var i :| 0 <= i < |db| && IsLatest(db[i], l.key) && Lower(db[i].result) == Lower(l.status);
      assert i == at;
    }
  }

  /** The issues the last failing listing with defects puts on a test. */
  function LastIssues(ls: seq<Listing>, key: Key): Option<seq<string>> {
    if ls == [] then None
    else
      var l := ls[|ls| - 1];
      if l.key == key && TagsIssues(l) then Some(l.defects) else LastIssues(ls[..|ls| - 1], key)
  }

  lemma TodoHasNoIssues(l: Listing)
    requires IsTodo(l)
    ensures !TagsIssues(l)
  {
    assert Lower("TODO") == "todo";
    forall i: nat | i <= 4 ensures !OccursAt("todo", "fail", i) {
      assert i == 0 ==> "todo"[0..4][0] == 't';
    }
  }

  /** The issues of a latest entry after a pass that writes no entry. */
  function Relabelled(e: Entry, ls: seq<Listing>): Entry {
    if e.latest && LastIssues(ls, e.key).Some? then e.(issues := LastIssues(ls, e.key)) else e
  }

  /** On an up-to-date database a pass only sets issue lists. */
  lemma {:induction false} QuietPass(db: Entries, ls: seq<Listing>)
    requires AtMostOneLatest(db) && UpToDate(db, ls)
    ensures |SyncAll(db, ls)| == |db|
    ensures forall i | 0 <= i < |db| :: SyncAll(db, ls)[i] == Relabelled(db[i], ls)
    decreases |ls|
  {
    if ls != [] {
      var front, l := ls[..|ls| - 1], ls[|ls| - 1];
      assert UpToDate(db, front) by {
        assert forall j | 0 <= j < |front| :: front[j] == ls[j];
      }
      QuietPass(db, front);
      var mid := SyncAll(db, front);
      if IsTodo(l) {
        TodoHasNoIssues(l);
      } else {
        assert ls[|ls| - 1] == l;
        var i :| 0 <= i < |db| && IsLatest(db[i], l.key) && Lower(db[i].result) == Lower(l.status);
        assert mid[i] == Relabelled(db[i], front);
        SyncAgreesWithJira(db, front, l.key);
        QuietStep(mid, l, i);
      }
    }
  }

  lemma QuietStep(db: Entries, l: Listing, i: nat)
    requires AtMostOneLatest(db) && !IsTodo(l)
    requires i < |db| && IsLatest(db[i], l.key) && Lower(db[i].result) == Lower(l.status)
    ensures SyncOne(db, l) == if TagsIssues(l) then Tagged(db, l.key, l.defects) else db
  {
    RecordedWhenShown(db, l);
  }

  /** Where JIRA does not contradict itself the first pass already leaves the last issues in place. */
  lemma {:induction false} FirstPassSettles(db: Entries, ls: seq<Listing>)
    requires AtMostOneLatest(db) && OneStatusEach(ls)
    ensures UpToDate(SyncAll(db, ls), ls)
    ensures forall e | e in SyncAll(db, ls) :: Relabelled(e, ls) == e
    decreases |ls|
  {
    if ls != [] {
      var front, l := ls[..|ls| - 1], ls[|ls| - 1];
      assert forall j | 0 <= j < |front| :: front[j] == ls[j];
      FirstPassSettles(db, front);
      SyncAgreesWithJira(db, front, l.key);
      var mid, after := SyncAll(db, front), SyncAll(db, ls);
      SyncOneKeepsOne(mid, l);
      forall j | 0 <= j < |ls| && !IsTodo(ls[j]) ensures Shows(after, ls[j].key, ls[j].status) {
        if j < |front| {
          assert Shows(mid, ls[j].key, ls[j].status);
          if ls[j].key != l.key { OtherTestsKeep(mid, l, ls[j].key, ls[j].status); }
          else if !IsTodo(l) { ShownOnceIsShownAlways(after, l.key, l.status, ls[j].status); }
        }
      }
      if IsTodo(l) { TodoHasNoIssues(l); }
      forall e | e in after ensures Relabelled(e, ls) == e {
        assert ls == front + [l];
        EntrySettles(mid, front, l, e);
      }
    }
  }

  lemma ShownOnceIsShownAlways(db: Entries, key: Key, a: string, b: string)
    requires Shows(db, key, a) && Lower(a) == Lower(b)
    ensures Shows(db, key, b)
  {
  }

  lemma NoIssuesBefore(ls: seq<Listing>, key: Key)
    requires LastIssues(ls, key).Some?
    ensures exists j :: 0 <= j < |ls| && ls[j].key == key && TagsIssues(ls[j])
    decreases |ls|
  {
    var l := ls[|ls| - 1];
    if l.key == key && TagsIssues(l) {
    } else {
      var front := ls[..|ls| - 1];
      NoIssuesBefore(front, key);
      var j :| 0 <= j < |front| && front[j].key == key && TagsIssues(front[j]);
      assert ls[j] == front[j];
    }
  }

  lemma RecordedEntries(db: Entries, l: Listing, e: Entry)
    requires e in Recorded(db, l)
    ensures e in db || !e.latest || (e.key == l.key && Recorded(db, l) != db)
  {
    var at := HitsFirst(db, l.key);
    var i :| 0 <= i < |Recorded(db, l)| && Recorded(db, l)[i] == e;
    if i < |db| { assert db[i] in db; }
  }

  /** A test that has been given issues is not written anew by a listing that agrees. */
  lemma NotWrittenAfterIssues(db: Entries, ls: seq<Listing>, l: Listing)
    requires AtMostOneLatest(db) && OneStatusEach(ls + [l]) && UpToDate(db, ls)
    requires !IsTodo(l) && LastIssues(ls, l.key).Some?
    ensures Recorded(db, l) == db
  {
    NoIssuesBefore(ls, l.key);
    var j :| 0 <= j < |ls| && ls[j].key == l.key && TagsIssues(ls[j]);
    if IsTodo(ls[j]) { TodoHasNoIssues(ls[j]); }
    assert (ls + [l])[j] == ls[j] && (ls + [l])[|ls|] == l;
    ShownOnceIsShownAlways(db, l.key, ls[j].status, l.status);
    RecordedWhenShown(db, l);
  }

  /** The step of FirstPassSettles for one entry. */
  lemma EntrySettles(mid: Entries, front: seq<Listing>, l: Listing, e: Entry)
    requires AtMostOneLatest(mid) && OneStatusEach(front + [l]) && UpToDate(mid, front)
    requires forall d | d in mid :: Relabelled(d, front) == d
    requires e in SyncOne(mid, l)
    ensures Relabelled(e, front + [l]) == e
  {
    assert (front + [l])[..|front|] == front;
    if IsTodo(l) {
      TodoHasNoIssues(l);
    } else if TagsIssues(l) {
      if !IsLatest(e, l.key) { RecordedEntries(mid, l, e); }
    } else {
      RecordedEntries(mid, l, e);
      if e.latest && e.key == l.key && LastIssues(front, l.key).Some? {
        NotWrittenAfterIssues(mid, front, l);
      }
    }
  }

  /** A pass that writes no entry found every listed result already shown. */
  lemma {:induction false} NothingWritten(db: Entries, ls: seq<Listing>)
    requires AtMostOneLatest(db)
    ensures |SyncAll(db, ls)| >= |db|
    ensures |SyncAll(db, ls)| == |db| ==> UpToDate(db, ls)
    decreases |ls|
  {
    if ls != [] {
      var front, l := ls[..|ls| - 1], ls[|ls| - 1];
      NothingWritten(db, front);
      SyncAgreesWithJira(db, front, l.key);
      RecordedWhenShown(SyncAll(db, front), l);
      if |SyncAll(db, ls)| == |db| {
        QuietPass(db, front);
        forall j | 0 <= j < |ls| && !IsTodo(ls[j]) ensures Shows(db, ls[j].key, ls[j].status) {
          if j < |front| {
            assert front[j] == ls[j];
          } else {
            var mid := SyncAll(db, front);
            var i :| 0 <= i < |mid| && IsLatest(mid[i], l.key) && Lower(mid[i].result) == Lower(l.status);
            assert mid[i] == Relabelled(db[i], front);
          }
        }
      }
    }
  }

  /** Syncing again with the same JIRA state changes nothing exactly when JIRA lists no test with two results. */
  lemma SecondSyncIsIdle(db: Entries, ls: seq<Listing>)
    requires AtMostOneLatest(db)
    ensures SyncAll(SyncAll(db, ls), ls) == SyncAll(db, ls) <==> OneStatusEach(ls)
  {
    var once := SyncAll(db, ls);
    if ls != [] { SyncAgreesWithJira(db, ls, ls[0].key); }
    if OneStatusEach(ls) {
      FirstPassSettles(db, ls);
      QuietPass(once, ls);
    }
    if SyncAll(once, ls) == once {
      NothingWritten(once, ls);
      forall i, j | 0 <= i < j < |ls| && !IsTodo(ls[i]) && !IsTodo(ls[j]) && ls[i].key == ls[j].key
        ensures Lower(ls[i].status) == Lower(ls[j].status)
      {
        assert Shows(once, ls[i].key, ls[i].status) && Shows(once, ls[j].key, ls[j].status);
      }
    }
  }

  // ---- what each written entry says ------------------------------------------------------------

  /** Listing j makes the pass write an entry. */
  predicate Writes(db: Entries, ls: seq<Listing>, j: nat)
    requires j < |ls|
  {
    |SyncAll(db, ls[..j + 1])| > |SyncAll(db, ls[..j])|
  }

  lemma SyncNextListing(db: Entries, ls: seq<Listing>, j: nat)
    requires j < |ls|
    ensures SyncAll(db, ls[..j + 1]) == SyncOne(SyncAll(db, ls[..j]), ls[j])
  {
    assert ls[..j + 1][..j] == ls[..j];
  }

  /** The description of the first latest entry of the test or, if there is none, the listing's own. */
  ghost predicate TakesOver(mid: Entries, l: Listing, info: TestInfo) {
    if exists i :: 0 <= i < |mid| && IsLatest(mid[i], l.key) then
      exists i :: 0 <= i < |mid| && IsLatest(mid[i], l.key) && mid[i].info == info
                  && forall k | 0 <= k < i :: !IsLatest(mid[k], l.key)
    else info == l.info
  }

  /** The entry a listing writes: everything that JIRA says now, and the description the test had. */
  lemma OneWritten(mid: Entries, l: Listing)
    requires |SyncOne(mid, l)| > |mid|
    ensures var after := SyncOne(mid, l);
            && l.status != "TODO" && |after| == |mid| + 1
            && var e := after[|mid|];
               && e.key == l.key && e.latest && e.result == l.status && e.run == l.run
               && e.issues == (if Contains(Lower(l.status), "fail") && l.defects != [] then Some(l.defects) else None)
               && TakesOver(mid, l, e.info)
  {
    var at := HitsFirst(mid, l.key);
  }

  /** A listing of another test leaves a latest entry alone; one of its own that writes nothing only sets its issues. */
  lemma OneKept(mid: Entries, l: Listing, i: nat)
    requires i < |mid| && mid[i].latest && AtMostOneLatest(mid)
    requires l.key != mid[i].key || |SyncOne(mid, l)| == |mid|
    ensures i < |SyncOne(mid, l)|
    ensures SyncOne(mid, l)[i] ==
            if l.key == mid[i].key && l.status != "TODO" && Contains(Lower(l.status), "fail") && l.defects != []
            then mid[i].(issues := Some(l.defects)) else mid[i]
  {
  }

  predicate NamesIssues(l: Listing, key: Key) {
    l.key == key && l.status != "TODO" && Contains(Lower(l.status), "fail") && l.defects != []
  }

  /** The defects of the last listing from this position on that is named. */
  ghost predicate LastDefects(ls: seq<Listing>, from: nat, named: Listing -> bool, issues: Option<seq<string>>) {
    if exists k :: from <= k < |ls| && named(ls[k]) then
      exists k :: from <= k < |ls| && named(ls[k]) && issues == Some(ls[k].defects)
                  && forall k' | k < k' < |ls| :: !named(ls[k'])
    else issues == None
  }

  /** The issues that the last failing listing of a test with defects names. */
  ghost predicate IssuesFrom(ls: seq<Listing>, key: Key, from: nat, issues: Option<seq<string>>) {
    LastDefects(ls, from, l => NamesIssues(l, key), issues)
  }

  lemma DefectsFurther(ls: seq<Listing>, l: Listing, from: nat, named: Listing -> bool, issues: Option<seq<string>>)
    requires from <= |ls| && LastDefects(ls, from, named, issues)
    ensures LastDefects(ls + [l], from, named, if named(l) then Some(l.defects) else issues)
  {
    var all := ls + [l];
    assert all[|ls|] == l;
    assert forall k | 0 <= k < |ls| :: all[k] == ls[k];
    if !named(l) && exists k :: from <= k < |ls| && named(ls[k]) {
      var k :| from <= k < |ls| && named(ls[k]) && issues == Some(ls[k].defects)
               && forall k' | k < k' < |ls| :: !named(ls[k']);
      assert named(all[k]);
    }
  }

  lemma IssuesFurther(ls: seq<Listing>, l: Listing, key: Key, from: nat, issues: Option<seq<string>>)
    requires from <= |ls| && IssuesFrom(ls, key, from, issues)
    ensures IssuesFrom(ls + [l], key, from, if NamesIssues(l, key) then Some(l.defects) else issues)
  {
    DefectsFurther(ls, l, from, l => NamesIssues(l, key), issues);
  }

  /** The entry that listing j wrote, at the end of the pass. */
  ghost predicate WrittenBy(db: Entries, ls: seq<Listing>, j: nat, e: Entry)
    requires j < |ls|
  {
    && ls[j].status != "TODO" && e.key == ls[j].key && e.result == ls[j].status && e.run == ls[j].run
    && TakesOver(SyncAll(db, ls[..j]), ls[j], e.info)
  }

  /** No later listing of the test writes an entry. */
  ghost predicate LastWriter(db: Entries, ls: seq<Listing>, j: nat)
    requires j < |ls|
  {
    Writes(db, ls, j) && forall k: nat | j < k < |ls| && ls[k].key == ls[j].key :: !Writes(db, ls, k)
  }

  lemma PrefixWrites(db: Entries, ls: seq<Listing>, n: nat, j: nat)
    requires j < n <= |ls|
    ensures ls[..n][j] == ls[j] && ls[..n][..j] == ls[..j] && ls[..n][..j + 1] == ls[..j + 1]
    ensures Writes(db, ls[..n], j) == Writes(db, ls, j)
  {
  }

  /**
   Every listing that writes leaves one entry, right after those that were there; that entry carries the key,
   the result and the run of the listing and the description of the entry it replaced, for good.
   */
  lemma WrittenFields(db: Entries, ls: seq<Listing>, j: nat)
    requires j < |ls| && Writes(db, ls, j)
    ensures |SyncAll(db, ls)| > |SyncAll(db, ls[..j])| >= |db|
    ensures WrittenBy(db, ls, j, SyncAll(db, ls)[|SyncAll(db, ls[..j])|])
  {
    var mid := SyncAll(db, ls[..j]);
    SyncNextListing(db, ls, j);
    OneWritten(mid, ls[j]);
    SyncAllEvolves(db, ls[..j]);
    LaterEvolves(db, ls, j + 1);
  }

  lemma LaterEvolves(db: Entries, ls: seq<Listing>, j: nat)
    requires j <= |ls|
    ensures Evolves(SyncAll(db, ls[..j]), SyncAll(db, ls))
  {
    SyncAppend(db, ls[..j], ls[j..]);
    assert ls[..j] + ls[j..] == ls;
    SyncAllEvolves(SyncAll(db, ls[..j]), ls[j..]);
  }

  /** Every entry a pass adds was written by one of the listings. */
  lemma {:induction false} EveryEntryIsWritten(db: Entries, ls: seq<Listing>, i: nat) returns (j: nat)
    requires |db| <= i < |SyncAll(db, ls)|
    ensures j < |ls| && Writes(db, ls, j) && |SyncAll(db, ls[..j])| == i
    ensures WrittenBy(db, ls, j, SyncAll(db, ls)[i])
    decreases |ls|
  {
    var n := |ls| - 1;
    var mid := SyncAll(db, ls[..n]);
    assert ls[..n + 1] == ls;
    SyncNextListing(db, ls, n);
    if i < |mid| {
      j := EveryEntryIsWritten(db, ls[..n], i);
      PrefixWrites(db, ls, n, j);
    } else {
      OneWritten(mid, ls[n]);
      j := n;
    }
    WrittenFields(db, ls, j);
  }

  /** What the pass says of the entry that listing j wrote while no later one writes for its test. */
  ghost predicate StandsLatest(db: Entries, ls: seq<Listing>, j: nat, i: nat)
    requires j < |ls|
  {
    && i < |SyncAll(db, ls)| && IsLatest(SyncAll(db, ls)[i], ls[j].key)
    && IssuesFrom(ls, ls[j].key, j, SyncAll(db, ls)[i].issues)
  }

  lemma JustWritten(db: Entries, ls: seq<Listing>, l: Listing)
    requires Writes(db, ls + [l], |ls|)
    ensures StandsLatest(db, ls + [l], |ls|, |SyncAll(db, ls)|)
  {
    assert (ls + [l])[..|ls| + 1] == ls + [l] && (ls + [l])[..|ls|] == ls;
    OneWritten(SyncAll(db, ls), l);
    IssuesFurther(ls, l, l.key, |ls|, None);
  }

  lemma StandsFurther(db: Entries, ls: seq<Listing>, l: Listing, j: nat, i: nat)
    requires AtMostOneLatest(db) && j < |ls| && StandsLatest(db, ls, j, i)
    requires l.key == ls[j].key ==> !Writes(db, ls + [l], |ls|)
    ensures StandsLatest(db, ls + [l], j, i)
  {
    var mid := SyncAll(db, ls);
    assert (ls + [l])[..|ls| + 1] == ls + [l] && (ls + [l])[..|ls|] == ls;
    SyncAgreesWithJira(db, ls, l.key);
    SyncOneEvolves(mid, l);
    OneKept(mid, l, i);
    IssuesFurther(ls, l, ls[j].key, j, mid[i].issues);
  }

  /**
   The latest entry of a test, exactly: the listing that wrote last for it - the last that changed its result -
   gives key, result and run, the entry it replaced the description, and the last failing listing with defects
   from there on the issues.
   */
  lemma {:induction false} LatestEntryExact(db: Entries, ls: seq<Listing>, j: nat)
    requires AtMostOneLatest(db) && j < |ls| && LastWriter(db, ls, j)
    ensures var i := |SyncAll(db, ls[..j])|;
            && i < |SyncAll(db, ls)| && IsLatest(SyncAll(db, ls)[i], ls[j].key)
            && WrittenBy(db, ls, j, SyncAll(db, ls)[i])
            && IssuesFrom(ls, ls[j].key, j, SyncAll(db, ls)[i].issues)
    decreases |ls|
  {
    WrittenFields(db, ls, j);
    assert StandsLatest(db, ls, j, |SyncAll(db, ls[..j])|) by { LastStands(db, ls, j); }
  }

  lemma {:induction false} LastStands(db: Entries, ls: seq<Listing>, j: nat)
    requires AtMostOneLatest(db) && j < |ls| && LastWriter(db, ls, j)
    ensures StandsLatest(db, ls, j, |SyncAll(db, ls[..j])|)
    decreases |ls|
  {
    var n := |ls| - 1;
    assert ls == ls[..n] + [ls[n]];
    if j == n {
      JustWritten(db, ls[..n], ls[n]);
    } else {
      forall k: nat | k < n ensures Writes(db, ls[..n], k) == Writes(db, ls, k) { PrefixWrites(db, ls, n, k); }
      PrefixWrites(db, ls, n, j);
      LastStands(db, ls[..n], j);
      StandsFurther(db, ls[..n], ls[n], j, |SyncAll(db, ls[..j])|);
    }
  }

  /** A listing writes exactly when no latest entry of its test shows its result, letter case aside. */
  lemma WritesExactly(db: Entries, ls: seq<Listing>, j: nat)
    requires AtMostOneLatest(db) && j < |ls|
    ensures Writes(db, ls, j) <==> ls[j].status != "TODO" && !Shows(SyncAll(db, ls[..j]), ls[j].key, ls[j].status)
  {
    SyncNextListing(db, ls, j);
    SyncAgreesWithJira(db, ls[..j], ls[j].key);
    RecordedWhenShown(SyncAll(db, ls[..j]), ls[j]);
  }

  // ---- the script ------------------------------------------------------------------------

  datatype Test = Test(key: string, status: string, startedOn: string, comment: Option<string>,
                       defects: seq<string>, drIds: seq<string>, featureIds: seq<string>,
                       name: string, labels: seq<string>, executionType: string, feature: string)
  datatype Execution = Execution(key: string, executionLabel: string, team: string, tests: seq<Test>)
  datatype Plan = Plan(key: string, planLabel: string, build: string, branch: string,
                       platform: string, server: string, enclosure: string, executions: seq<Execution>)

  function ListingOf(p: Plan, x: Execution, t: Test): Listing {
    Listing(
      Key(p.build, x.key, t.key), t.status,
      RunInfo(t.startedOn, if t.comment.Some? then t.comment.value else "None",
              p.platform, p.server, p.enclosure,
              if t.drIds == [] then ["None"] else t.drIds, if t.featureIds == [] then ["None"] else t.featureIds),
      TestInfo([""], "", t.name, t.labels, p.key, p.planLabel, x.executionLabel, x.team, p.branch,
               t.executionType, t.feature),
      t.defects)
  }

  /** Which plan, execution and test a listing comes from, field by field. */
  ghost predicate ComesFrom(l: Listing, p: Plan, x: Execution, t: Test) {
    && l.key.build == p.build && l.key.execution == x.key && l.key.test == t.key
    && l.status == t.status && l.defects == t.defects
    && l.run.startedOn == t.startedOn && (t.comment.Some? ==> l.run.logPath == t.comment.value)
    && l.run.platform == p.platform && l.run.server == p.server && l.run.enclosure == p.enclosure
    && (t.drIds != [] ==> l.run.drIds == t.drIds) && (t.featureIds != [] ==> l.run.featureIds == t.featureIds)
    && (t.comment.None? ==> l.run.logPath == "None")
    && (t.drIds == [] ==> l.run.drIds == ["None"]) && (t.featureIds == [] ==> l.run.featureIds == ["None"])
    && l.info.tags == [""] && l.info.testType == "" && l.info.name == t.name && l.info.labels == t.labels
    && l.info.plan == p.key && l.info.planLabel == p.planLabel && l.info.buildType == p.branch
    && l.info.executionLabel == x.executionLabel && l.info.team == x.team
    && l.info.executionType == t.executionType && l.info.feature == t.feature
  }

  function OfTests(p: Plan, x: Execution, ts: seq<Test>): seq<Listing> {
    if ts == [] then [] else OfTests(p, x, ts[..|ts| - 1]) + [ListingOf(p, x, ts[|ts| - 1])]
  }

  function OfExecutions(p: Plan, xs: seq<Execution>): seq<Listing> {
    if xs == [] then []
    else OfExecutions(p, xs[..|xs| - 1]) + OfTests(p, xs[|xs| - 1], xs[|xs| - 1].tests)
  }

  function OfPlans(ps: seq<Plan>): seq<Listing> {
    if ps == [] then []
    else OfPlans(ps[..|ps| - 1]) + OfExecutions(ps[|ps| - 1], ps[|ps| - 1].executions)
  }

  lemma {:induction false} TestsListed(p: Plan, x: Execution, ts: seq<Test>)
    ensures |OfTests(p, x, ts)| == |ts|
    ensures forall i | 0 <= i < |ts| :: OfTests(p, x, ts)[i] == ListingOf(p, x, ts[i])
    decreases |ts|
  {
    if ts != [] {
      TestsListed(p, x, ts[..|ts| - 1]);
    }
  }

  /** How many tests come before this place: in earlier executions, and in earlier plans. */
  function TestsIn(xs: seq<Execution>): nat {
    if xs == [] then 0 else TestsIn(xs[..|xs| - 1]) + |xs[|xs| - 1].tests|
  }

  function TestsOf(ps: seq<Plan>): nat {
    if ps == [] then 0 else TestsOf(ps[..|ps| - 1]) + TestsIn(ps[|ps| - 1].executions)
  }

  lemma InFirst<T>(a: seq<T>, b: seq<T>, i: nat)
    requires i < |a|
    ensures i < |a + b| && (a + b)[i] == a[i]
  {
  }

  lemma InSecond<T>(a: seq<T>, b: seq<T>, i: nat)
    requires i < |b|
    ensures |a| + i < |a + b| && (a + b)[|a| + i] == b[i]
  {
  }

  lemma {:induction false} ExecutionsListed(p: Plan, xs: seq<Execution>, x: nat, n: nat, t: nat, l: Listing)
    requires x < |xs| && t < |OfTests(p, xs[x], xs[x].tests)| && OfTests(p, xs[x], xs[x].tests)[t] == l
    requires n == TestsIn(xs[..x])
    ensures n + t < |OfExecutions(p, xs)| && OfExecutions(p, xs)[n + t] == l
    decreases |xs|
  {
    var front, last := xs[..|xs| - 1], xs[|xs| - 1];
    var a, b := OfExecutions(p, front), OfTests(p, last, last.tests);
    if x < |front| {
      assert front[..x] == xs[..x];
      ExecutionsListed(p, front, x, n, t, l);
      InFirst(a, b, n + t);
    } else {
      assert front == xs[..x];
      ExecutionsCount(p, front);
      InSecond(a, b, t);
    }
  }

  lemma {:induction false} ExecutionsCount(p: Plan, xs: seq<Execution>)
    ensures |OfExecutions(p, xs)| == TestsIn(xs)
    decreases |xs|
  {
    if xs != [] {
      ExecutionsCount(p, xs[..|xs| - 1]);
      TestsListed(p, xs[|xs| - 1], xs[|xs| - 1].tests);
    }
  }

  lemma {:induction false} PlansCount(ps: seq<Plan>)
    ensures |OfPlans(ps)| == TestsOf(ps)
    decreases |ps|
  {
    if ps != [] {
      PlansCount(ps[..|ps| - 1]);
      ExecutionsCount(ps[|ps| - 1], ps[|ps| - 1].executions);
    }
  }

  lemma {:induction false} PlacedInOrder(ps: seq<Plan>, p: nat, k: nat, l: Listing)
    requires p < |ps| && k < |OfExecutions(ps[p], ps[p].executions)|
    requires OfExecutions(ps[p], ps[p].executions)[k] == l
    ensures TestsOf(ps[..p]) + k < |OfPlans(ps)| && OfPlans(ps)[TestsOf(ps[..p]) + k] == l
    decreases |ps|
  {
    var front, last := ps[..|ps| - 1], ps[|ps| - 1];
    var a, b := OfPlans(front), OfExecutions(last, last.executions);
    var whole := OfPlans(ps);
    assert whole == a + b;
    if p < |front| {
      PlacedInOrder(front, p, k, l);
      assert front[..p] == ps[..p];
      InFirst(a, b, TestsOf(ps[..p]) + k);
    } else {
      PlansCount(front);
      InSecond(a, b, k);
    }
  }

  lemma PlanListed(p: Plan, x: nat, t: nat) returns (k: nat, l: Listing)
    requires x < |p.executions| && t < |p.executions[x].tests|
    ensures k == TestsIn(p.executions[..x]) + t < |OfExecutions(p, p.executions)|
    ensures l == OfExecutions(p, p.executions)[k] && ComesFrom(l, p, p.executions[x], p.executions[x].tests[t])
  {
    k, l := TestsIn(p.executions[..x]) + t, ListingOf(p, p.executions[x], p.executions[x].tests[t]);
    TestsListed(p, p.executions[x], p.executions[x].tests);
    ExecutionsListed(p, p.executions, x, TestsIn(p.executions[..x]), t, l);
    ListingFields(p, p.executions[x], p.executions[x].tests[t]);
  }

  /** The place of a test in the pass: after the tests of earlier plans, then of earlier executions. */
  function PlaceOf(ps: seq<Plan>, p: nat, x: nat, t: nat): nat
    requires p < |ps| && x < |ps[p].executions|
  {
    TestsOf(ps[..p]) + (TestsIn(ps[p].executions[..x]) + t)
  }

  lemma ListingFields(p: Plan, x: Execution, t: Test)
    ensures ComesFrom(ListingOf(p, x, t), p, x, t)
  {
  }

  /**
   The listings of a pass: one for each test of each execution of each plan, in that order and at a place of its
   own, with every field from where JIRA has it; and there are no others, their number being that of the tests.
   */
  lemma PlansListed(ps: seq<Plan>, p: nat, x: nat, t: nat) returns (l: Listing)
    requires p < |ps| && x < |ps[p].executions| && t < |ps[p].executions[x].tests|
    ensures |OfPlans(ps)| == TestsOf(ps) && PlaceOf(ps, p, x, t) < |OfPlans(ps)|
    ensures l == OfPlans(ps)[PlaceOf(ps, p, x, t)]
    ensures ComesFrom(l, ps[p], ps[p].executions[x], ps[p].executions[x].tests[t])
  {
    var k: nat;
    PlansCount(ps);
    k, l := PlanListed(ps[p], x, t);
    PlacedInOrder(ps, p, k, l);
  }

  /** The reports database; its budget is the number of requests it answers before one fails. */
  class ReportsDb {
    var entries: Entries
    var budget: nat

    constructor (entries: Entries, budget: nat)
      ensures this.entries == entries && this.budget == budget
    {
      this.entries, this.budget := entries, budget;
    }

    method Search(key: Key) returns (ok: bool, results: Entries)
      modifies this`budget
      ensures ok <==> old(budget) > 0
      ensures ok ==> results == Hits(entries, key)
    {
      ok, results := budget > 0, [];
      if ok {
        budget := budget - 1;
        results := Hits(entries, key);
      }
    }

    method Create(e: Entry) returns (ok: bool)
      modifies this
      ensures ok <==> old(budget) > 0
      ensures entries == if ok then old(entries) + [e] else old(entries)
    {
      ok := budget > 0;
      if ok { budget, entries := budget - 1, entries + [e]; }
    }

    method Retire(key: Key) returns (ok: bool)
      modifies this
      ensures ok <==> old(budget) > 0
      ensures entries == if ok then Retired(old(entries), key) else old(entries)
    {
      ok := budget > 0;
      if ok { budget, entries := budget - 1, Retired(entries, key); }
    }

    method Tag(key: Key, issues: seq<string>) returns (ok: bool)
      modifies this
      ensures ok <==> old(budget) > 0
      ensures entries == if ok then Tagged(old(entries), key, issues) else old(entries)
    {
      ok := budget > 0;
      if ok { budget, entries := budget - 1, Tagged(entries, key, issues); }
    }
  }

  /** What holds after any request of a sync, the last one before a failure included. */
  ghost predicate Sound(before: Entries, after: Entries) {
    Evolves(before, after) && (AtMostOneLatest(before) ==> AtMostOneLatest(after))
  }

  lemma RequestsAreSound(db: Entries, l: Listing)
    ensures Sound(db, db) && Sound(db, Recorded(db, l)) && Sound(db, SyncOne(db, l))
    ensures Sound(db, Retired(db, l.key))
  {
    RecordedEvolves(db, l);
    SyncOneEvolves(db, l);
    if AtMostOneLatest(db) {
      RecordedKeepsOne(db, l);
      SyncOneKeepsOne(db, l);
    }
  }

  lemma SoundTransitive(a: Entries, b: Entries, c: Entries)
    requires Sound(a, b) && Sound(b, c)
    ensures Sound(a, c)
  {
    EvolvesTransitive(a, b, c);
  }

  /** One test; a request that fails ends the script. */
  method SyncTest(db: ReportsDb, l: Listing) returns (ok: bool)
    modifies db
    ensures Sound(old(db.entries), db.entries)
    ensures ok ==> db.entries == SyncOne(old(db.entries), l)
  {
    RequestsAreSound(db.entries, l);
    if l.status == "TODO" { return true; }
    var results;
    ok, results := db.Search(l.key);
    if !ok { return; }
    if results == [] {
      ok := db.Create(FreshEntry(l));
      if !ok { return; }
    } else if Lower(results[0].result) != Lower(l.status) {
      ok := db.Retire(l.key);
      if !ok { return; }
      ok := db.Create(RenewedEntry(l, results[0]));
      if !ok { return; }
    }
    if Contains(Lower(l.status), "fail") && l.defects != [] {
      ok := db.Tag(l.key, l.defects);
    }
  }

  lemma SyncLast(db: Entries, ls: seq<Listing>, l: Listing)
    ensures SyncAll(db, ls + [l]) == SyncOne(SyncAll(db, ls), l)
  {
    assert (ls + [l])[..|ls|] == ls;
  }

  lemma SyncAllSound(db: Entries, ls: seq<Listing>)
    ensures Sound(db, SyncAll(db, ls))
  {
    SyncAllEvolves(db, ls);
    if AtMostOneLatest(db) { SyncAgreesWithJira(db, ls, Key("", "", "")); }
  }

  lemma BrokenOffSound(db: Entries, ls: seq<Listing>, after: Entries)
    requires Sound(SyncAll(db, ls), after)
    ensures Sound(db, after)
  {
    SyncAllSound(db, ls);
    SoundTransitive(db, SyncAll(db, ls), after);
  }

  lemma {:induction false} SyncAllEvolves(db: Entries, ls: seq<Listing>)
    ensures Evolves(db, SyncAll(db, ls))
    decreases |ls|
  {
    if ls != [] {
      var mid := SyncAll(db, ls[..|ls| - 1]);
      SyncAllEvolves(db, ls[..|ls| - 1]);
      SyncOneEvolves(mid, ls[|ls| - 1]);
      EvolvesTransitive(db, mid, SyncAll(db, ls));
    }
  }

  /** The next test of a sync that has got through `done`. */
  method SyncNext(db: ReportsDb, l: Listing, ghost start: Entries, ghost done: seq<Listing>) returns (ok: bool)
    requires db.entries == SyncAll(start, done)
    modifies db
    ensures Sound(start, db.entries)
    ensures ok ==> db.entries == SyncAll(start, done + [l])
  {
    ok := SyncTest(db, l);
    BrokenOffSound(start, done, db.entries);
    SyncLast(start, done, l);
  }

  lemma NextTest(p: Plan, x: Execution, t: nat)
    requires t < |x.tests|
    ensures OfTests(p, x, x.tests[..t + 1]) == OfTests(p, x, x.tests[..t]) + [ListingOf(p, x, x.tests[t])]
  {
    assert x.tests[..t + 1][..t] == x.tests[..t];
  }

  method SyncTests(db: ReportsDb, plan: Plan, execution: Execution) returns (finished: bool)
    modifies db
    ensures Sound(old(db.entries), db.entries)
    ensures finished ==> db.entries == SyncAll(old(db.entries), OfTests(plan, execution, execution.tests))
  {
    ghost var start := db.entries;
    ghost var done: seq<Listing> := [];
    for t := 0 to |execution.tests|
      invariant done == OfTests(plan, execution, execution.tests[..t])
      invariant db.entries == SyncAll(start, done)
    {
      var l := ListingOf(plan, execution, execution.tests[t]);
      finished := SyncNext(db, l, start, done);
      if !finished { return; }
      NextTest(plan, execution, t);
      done := done + [l];
    }
    assert execution.tests[..|execution.tests|] == execution.tests;
    SyncAllSound(start, done);
    finished := true;
  }

  lemma {:induction false} SyncAppend(db: Entries, a: seq<Listing>, b: seq<Listing>)
    ensures SyncAll(db, a + b) == SyncAll(SyncAll(db, a), b)
    decreases |b|
  {
    if b == [] {
      assert a + b == a;
    } else {
      assert (a + b)[..|a + b| - 1] == a + b[..|b| - 1];
      SyncAppend(db, a, b[..|b| - 1]);
    }
  }

  /** The next execution of a sync that has got through `done`. */
  method NextExecution(db: ReportsDb, plan: Plan, execution: Execution, ghost start: Entries, ghost done: seq<Listing>)
    returns (ok: bool)
    requires db.entries == SyncAll(start, done)
    modifies db
    ensures Sound(start, db.entries)
    ensures ok ==> db.entries == SyncAll(start, done + OfTests(plan, execution, execution.tests))
  {
    ok := SyncTests(db, plan, execution);
    BrokenOffSound(start, done, db.entries);
    SyncAppend(start, done, OfTests(plan, execution, execution.tests));
  }

  lemma NextOfExecutions(p: Plan, xs: seq<Execution>, x: nat)
    requires x < |xs|
    ensures OfExecutions(p, xs[..x + 1]) == OfExecutions(p, xs[..x]) + OfTests(p, xs[x], xs[x].tests)
  {
    assert xs[..x + 1][..x] == xs[..x];
  }

  method SyncExecutions(db: ReportsDb, plan: Plan) returns (finished: bool)
    modifies db
    ensures Sound(old(db.entries), db.entries)
    ensures finished ==> db.entries == SyncAll(old(db.entries), OfExecutions(plan, plan.executions))
  {
    ghost var start := db.entries;
    ghost var done: seq<Listing> := [];
    for x := 0 to |plan.executions|
      invariant done == OfExecutions(plan, plan.executions[..x])
      invariant db.entries == SyncAll(start, done)
    {
      finished := NextExecution(db, plan, plan.executions[x], start, done);
      if !finished { return; }
      NextOfExecutions(plan, plan.executions, x);
      done := done + OfTests(plan, plan.executions[x], plan.executions[x].tests);
    }
    assert plan.executions[..|plan.executions|] == plan.executions;
    SyncAllSound(start, done);
    finished := true;
  }

  /** The nested loops over plans, executions and tests; unless a request failed, everything is synced. */
  method SyncPlans(db: ReportsDb, plans: seq<Plan>) returns (finished: bool)
    modifies db
    ensures Sound(old(db.entries), db.entries)
    ensures finished ==> db.entries == SyncAll(old(db.entries), OfPlans(plans))
  {
    ghost var ls: seq<Listing> := [];
    for p := 0 to |plans|
      invariant ls == OfPlans(plans[..p])
      invariant db.entries == SyncAll(old(db.entries), ls)
    {
      finished := SyncExecutions(db, plans[p]);
      if !finished {
        BrokenOffSound(old(db.entries), ls, db.entries);
        return;
      }
      assert plans[..p + 1][..p] == plans[..p];
      ghost var added := OfExecutions(plans[p], plans[p].executions);
      SyncAppend(old(db.entries), ls, added);
      ls := ls + added;
    }
    assert plans[..|plans|] == plans;
    SyncAllSound(old(db.entries), ls);
    finished := true;
  }
}
