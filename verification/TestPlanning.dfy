/**
 Distributed planning: collected tests are grouped by mark into parallel and sequential sets,
 the tests of the given tickets are selected from those groups, and every group becomes
 messages for the test runners.
 */
module TestPlanning {
  import opened Wrappers

  /** A collected test; an empty id stands for a missing one. */
  datatype Meta = Meta(id: string, nodeId: string, marks: seq<string>)

  datatype Groups = Groups(parallel: set<string>, sequential: set<string>)

  /** A test map entry: three fields when collected, a fourth - the ticket - once planned. */
  datatype Info = Info(mark: string, nodeId: string, marks: seq<string>, ticket: Option<string>)

  type TagMap = map<string, Groups>
  type TestMap = map<string, Info>

  const SKIP_MARKS: set<string> :=
    {"dataprovider", "test", "run", "skip", "usefixtures", "filterwarnings", "skipif", "xfail", "parametrize", "parallel"}
  const INTERNAL_SKIP_MARKS: set<string> := {"release_regression", "sanity"}
  const BASE_MARKS: set<string> :=
    {"cluster_user_ops", "cluster_management_ops", "s3_ops", "ha", "stress", "longevity", "scalability", "combinational"}

  predicate IsBase(mark: string) {
    mark !in SKIP_MARKS && mark !in INTERNAL_SKIP_MARKS && mark in BASE_MARKS
  }

  predicate IsSpecific(mark: string) {
    mark !in SKIP_MARKS && mark !in INTERNAL_SKIP_MARKS && mark !in BASE_MARKS
  }

  predicate IsParallel(m: Meta) { "parallel" in m.marks }

  predicate IsSkipped(m: Meta) { "skip" in m.marks }

  // ---- the loop over the marks of one test ---------------------------------------------

  function LastSpecific(marks: seq<string>): string {
    if marks == [] then ""
    else if IsSpecific(marks[|marks| - 1]) then marks[|marks| - 1]
    else LastSpecific(marks[..|marks| - 1])
  }

  function FirstBase(marks: seq<string>): string {
    if marks == [] then ""
    else
      var first := FirstBase(marks[..|marks| - 1]);
      if first == "" && IsBase(marks[|marks| - 1]) then marks[|marks| - 1] else first
  }

  /** The mark a test is planned under. */
  function OwnMark(m: Meta): string {
    if LastSpecific(m.marks) != "" then LastSpecific(m.marks) else FirstBase(m.marks)
  }

  /** The last mark of the list outside the three sets, and the first base mark, by position. */
  ghost predicate LastOutside(marks: seq<string>, mark: string) {
    exists i :: 0 <= i < |marks| && marks[i] == mark && IsSpecific(mark)
                && forall j | i < j < |marks| :: !IsSpecific(marks[j])
  }

  ghost predicate FirstOfBase(marks: seq<string>, mark: string) {
    exists i :: 0 <= i < |marks| && marks[i] == mark && IsBase(mark) && forall j | 0 <= j < i :: !IsBase(marks[j])
  }

  /** Which mark of its list a test is planned under: the last specific one, else the first base one, else none. */
  ghost predicate PlannedUnder(marks: seq<string>, mark: string) {
    if exists x :: x != "" && LastOutside(marks, x) then LastOutside(marks, mark)
    else if exists x :: FirstOfBase(marks, x) then FirstOfBase(marks, mark)
    else mark == ""
  }

  /** The position of the mark, or -1 when there is none. */
  lemma {:induction false} LastSpecificIs(marks: seq<string>) returns (k: int)
    ensures -1 <= k < |marks| && forall j | k < j < |marks| :: !IsSpecific(marks[j])
    ensures if k == -1 then LastSpecific(marks) == "" else LastSpecific(marks) == marks[k] && IsSpecific(marks[k])
    decreases |marks|
  {
    k := -1;
    if marks != [] {
      var n := |marks| - 1;
      if IsSpecific(marks[n]) {
        k := n;
      } else {
        k := LastSpecificIs(marks[..n]);
        assert forall j | 0 <= j < n :: marks[j] == marks[..n][j];
      }
    }
  }

  lemma {:induction false} FirstBaseIs(marks: seq<string>) returns (k: int)
    ensures -1 <= k < |marks| && forall j | 0 <= j < (if k == -1 then |marks| else k) :: !IsBase(marks[j])
    ensures if k == -1 then FirstBase(marks) == "" else FirstBase(marks) == marks[k] && IsBase(marks[k])
    decreases |marks|
  {
    k := -1;
    if marks != [] {
      var n := |marks| - 1;
      k := FirstBaseIs(marks[..n]);
      assert forall j | 0 <= j < n :: marks[j] == marks[..n][j];
      if k != -1 {
        BaseMarksHaveNames(marks[k]);
      } else if IsBase(marks[n]) {
        k := n;
      }
    }
  }

  lemma BaseMarksHaveNames(mark: string)
    requires mark in BASE_MARKS
    ensures mark != ""
  {
  }

  lemma LastOutsideIsOne(marks: seq<string>, a: string, b: string)
    requires LastOutside(marks, a) && LastOutside(marks, b)
    ensures a == b
  {
    var i :| 0 <= i < |marks| && marks[i] == a && IsSpecific(a) && forall j | i < j < |marks| :: !IsSpecific(marks[j]);
    var k :| 0 <= k < |marks| && marks[k] == b && IsSpecific(b) && forall j | k < j < |marks| :: !IsSpecific(marks[j]);
    assert i == k;
  }

  lemma FirstOfBaseIsOne(marks: seq<string>, a: string, b: string)
    requires FirstOfBase(marks, a) && FirstOfBase(marks, b)
    ensures a == b
  {
    var i :| 0 <= i < |marks| && marks[i] == a && IsBase(a) && forall j | 0 <= j < i :: !IsBase(marks[j]);
    var k :| 0 <= k < |marks| && marks[k] == b && IsBase(b) && forall j | 0 <= j < k :: !IsBase(marks[j]);
    assert i == k;
  }

  /** The own mark of a test is the mark it is planned under, by position in its list, and no other. */
  lemma OwnMarkExact(m: Meta, mark: string)
    ensures PlannedUnder(m.marks, mark) <==> mark == OwnMark(m)
  {
    var marks := m.marks;
    var k := LastSpecificIs(marks);
    var b := FirstBaseIs(marks);
    assert k >= 0 ==> LastOutside(marks, marks[k]);
    assert b >= 0 ==> FirstOfBase(marks, marks[b]);
    if x :| x != "" && LastOutside(marks, x) {
      LastOutsideIsOne(marks, x, LastSpecific(marks));
      if LastOutside(marks, mark) { LastOutsideIsOne(marks, x, mark); }
    } else if x :| FirstOfBase(marks, x) {
      FirstOfBaseIsOne(marks, x, FirstBase(marks));
      if FirstOfBase(marks, mark) { FirstOfBaseIsOne(marks, x, mark); }
    }
  }

  function SpecificMarks(marks: seq<string>): set<string> {
    set mark | mark in marks && IsSpecific(mark)
  }

  /** The loop's variables after these marks. */
  predicate Seen(marks: seq<string>, testMark: string, parentMarks: seq<string>) {
    && testMark == LastSpecific(marks)
    && FirstBase(marks) == (if parentMarks == [] then "" else parentMarks[0])
    && (parentMarks != [] ==> parentMarks[0] != "" && marks != [])
  }

  /** The marks it is filed under: its specific ones or, with only base ones, the last mark of the list. */
  function FiledMarks(m: Meta): set<string> {
    SpecificMarks(m.marks)
    + if LastSpecific(m.marks) == "" && FirstBase(m.marks) != "" then {m.marks[|m.marks| - 1]} else {}
  }

  function Filed(rev: TagMap, mark: string, parallel: bool, id: string): TagMap {
    var g := if mark in rev then rev[mark] else Groups({}, {});
    rev[mark := if parallel then g.(parallel := g.parallel + {id}) else g.(sequential := g.sequential + {id})]
  }

  ghost predicate InGroup(rev: TagMap, mark: string, parallel: bool, id: string) {
    mark in rev && id in (if parallel then rev[mark].parallel else rev[mark].sequential)
  }

  // ---- what the collection says ----------------------------------------------------------

  ghost predicate Files(m: Meta, mark: string, parallel: bool, id: string) {
    m.id != "" && m.id == id && IsParallel(m) == parallel && mark in FiledMarks(m)
  }

  /** The reverse map holds exactly what the tests are filed under. */
  ghost predicate RevSound(metas: seq<Meta>, rev: TagMap) {
    && (forall mark, par, id :: InGroup(rev, mark, par, id)
          <==> exists i :: 0 <= i < |metas| && Files(metas[i], mark, par, id))
    && NoEmptyTags(rev)
  }

  /** The last collected test with this id. */
  ghost predicate LastWith(metas: seq<Meta>, i: int, id: string) {
    0 <= i < |metas| && metas[i].id == id && forall j | i < j < |metas| :: metas[j].id != id
  }

  ghost predicate MapSound(metas: seq<Meta>, tests: TestMap) {
    && (forall id :: id in tests <==> exists i :: 0 <= i < |metas| && metas[i].id != "" && metas[i].id == id)
    && (forall id | id in tests :: exists i :: LastWith(metas, i, id) && tests[id] == InfoOf(metas[i]))
  }

  function InfoOf(m: Meta): Info { Info(OwnMark(m), m.nodeId, m.marks, None) }

  ghost predicate SkipSound(metas: seq<Meta>, skip: set<string>) {
    forall id :: id in skip <==> exists i :: 0 <= i < |metas| && metas[i].id != "" && metas[i].id == id && IsSkipped(metas[i])
  }

  class Planner {
    var testMap: TestMap
    var revTagMap: TagMap
    var skipTests: set<string>
    var selected: TagMap

    constructor ()
      ensures testMap == map[] && revTagMap == map[] && skipTests == {} && selected == map[]
    {
      testMap, revTagMap, skipTests, selected := map[], map[], {}, map[];
    }

    method UpdateRevTagMap(mark: string, parallel: bool, id: string)
      modifies this`revTagMap
      ensures revTagMap == Filed(old(revTagMap), mark, parallel, id)
    {
      if mark !in revTagMap {
        revTagMap := revTagMap[mark := Groups({}, {})];
      }
      var g := revTagMap[mark];
      if parallel {
        revTagMap := revTagMap[mark := g.(parallel := g.parallel + {id})];
      } else {
        revTagMap := revTagMap[mark := g.(sequential := g.sequential + {id})];
      }
    }

    /** The loop over the marks of one test: files it and finds its own mark. */
    method FileTest(m: Meta) returns (testMark: string)
      modifies this`revTagMap
      ensures testMark == OwnMark(m) && PlannedUnder(m.marks, testMark)
      ensures Extended(old(revTagMap), revTagMap, FiledMarks(m), IsParallel(m), m.id)
    {
      var parentMarks: seq<string>;
      OwnMarkExact(m, OwnMark(m));
      testMark, parentMarks := FileSpecific(m);
      if testMark == "" && parentMarks != [] {
        testMark := parentMarks[0];
        var mark := m.marks[|m.marks| - 1];
        ExtendedFurther(old(revTagMap), revTagMap, SpecificMarks(m.marks), IsParallel(m), m.id, mark);
        UpdateRevTagMap(mark, "parallel" in m.marks, m.id);
      } else {
        assert FiledMarks(m) == SpecificMarks(m.marks);
      }
    }

    method FileSpecific(m: Meta) returns (testMark: string, parentMarks: seq<string>)
      modifies this`revTagMap
      ensures Seen(m.marks, testMark, parentMarks)
      ensures Extended(old(revTagMap), revTagMap, SpecificMarks(m.marks), IsParallel(m), m.id)
    {
      var parallel := "parallel" in m.marks;
      testMark, parentMarks := "", [];
      for i := 0 to |m.marks|
        invariant Seen(m.marks[..i], testMark, parentMarks)
        invariant Extended(old(revTagMap), revTagMap, SpecificMarks(m.marks[..i]), parallel, m.id)
      {
        var mark := m.marks[i];
        assert m.marks[..i + 1] == m.marks[..i] + [mark];
        if mark in SKIP_MARKS || mark in INTERNAL_SKIP_MARKS {
        } else if mark in BASE_MARKS {
          parentMarks := parentMarks + [mark];
        } else {
          ExtendedFurther(old(revTagMap), revTagMap, SpecificMarks(m.marks[..i]), parallel, m.id, mark);
          UpdateRevTagMap(mark, parallel, m.id);
          testMark := mark;
        }
      }
      assert m.marks[..|m.marks|] == m.marks;
    }

    ghost predicate Collected(metas: seq<Meta>)
      reads this
    {
      RevSound(metas, revTagMap) && MapSound(metas, testMap) && SkipSound(metas, skipTests)
    }

    method CollectTest(m: Meta, ghost metas: seq<Meta>)
      requires Collected(metas)
      modifies this`testMap, this`revTagMap, this`skipTests
      ensures Collected(metas + [m])
    {
      MapSoundFurther(metas, m, testMap);
      SkipSoundFurther(metas, m, skipTests);
      if m.id == "" {
        RevSoundWithout(metas, m, revTagMap);
      } else {
        ghost var rev := revTagMap;
        if "skip" in m.marks { skipTests := skipTests + {m.id}; }
        var testMark := FileTest(m);
        testMap := testMap[m.id := Info(testMark, m.nodeId, m.marks, None)];
        RevSoundFurther(metas, m, rev, revTagMap);
      }
    }

    /** `create_test_map`: the reverse map, the test map and the skip list say what the collection says. */
    method CreateTestMap(metas: seq<Meta>)
      requires testMap == map[] && revTagMap == map[] && skipTests == {}
      modifies this`testMap, this`revTagMap, this`skipTests
      ensures RevSound(metas, revTagMap) && MapSound(metas, testMap) && SkipSound(metas, skipTests)
    {
      for i := 0 to |metas|
        invariant Collected(metas[..i])
      {
        assert metas[..i + 1] == metas[..i] + [metas[i]];
        CollectTest(metas[i], metas[..i]);
      }
      assert metas[..|metas|] == metas;
    }
  }

  lemma MapSoundFurther(metas: seq<Meta>, m: Meta, tests: TestMap)
    requires MapSound(metas, tests)
    ensures MapSound(metas + [m], if m.id == "" then tests else tests[m.id := InfoOf(m)])
  {
    var all, after := metas + [m], if m.id == "" then tests else tests[m.id := InfoOf(m)];
    assert all[|metas|] == m;
    forall id ensures id in after <==> exists i :: 0 <= i < |all| && all[i].id != "" && all[i].id == id {
      if id in tests {
        var i :| 0 <= i < |metas| && metas[i].id != "" && metas[i].id == id;
        assert all[i] == metas[i];
      }
      if i :| 0 <= i < |all| && all[i].id != "" && all[i].id == id {
        if i < |metas| { assert metas[i] == all[i]; }
      }
    }
    forall id | id in after ensures exists i :: LastWith(all, i, id) && after[id] == InfoOf(all[i]) {
      if id != m.id || m.id == "" {
        var i :| LastWith(metas, i, id) && tests[id] == InfoOf(metas[i]);
        assert LastWith(all, i, id) && all[i] == metas[i];
      } else {
        assert LastWith(all, |metas|, id);
      }
    }
  }

  lemma SkipSoundFurther(metas: seq<Meta>, m: Meta, skip: set<string>)
    requires SkipSound(metas, skip)
    ensures SkipSound(metas + [m], skip + if m.id != "" && IsSkipped(m) then {m.id} else {})
  {
    var all, after := metas + [m], skip + if m.id != "" && IsSkipped(m) then {m.id} else {};
    assert all[|metas|] == m;
    forall id
      ensures id in after <==> exists i :: 0 <= i < |all| && all[i].id != "" && all[i].id == id && IsSkipped(all[i])
    {
      if id in skip {
        var i :| 0 <= i < |metas| && metas[i].id != "" && metas[i].id == id && IsSkipped(metas[i]);
        assert all[i] == metas[i];
      }
      if i :| 0 <= i < |all| && all[i].id != "" && all[i].id == id && IsSkipped(all[i]) {
        if i < |metas| { assert metas[i] == all[i]; }
      }
    }
  }

  lemma RevSoundFurther(metas: seq<Meta>, m: Meta, before: TagMap, after: TagMap)
    requires RevSound(metas, before) && m.id != ""
    requires Extended(before, after, FiledMarks(m), IsParallel(m), m.id)
    ensures RevSound(metas + [m], after)
  {
    var all := metas + [m];
    forall mark, par, id
      ensures InGroup(after, mark, par, id) <==> exists i :: 0 <= i < |all| && Files(all[i], mark, par, id)
    {
      if InGroup(before, mark, par, id) {
        var i :| 0 <= i < |metas| && Files(metas[i], mark, par, id);
        assert Files(all[i], mark, par, id);
      } else if InGroup(after, mark, par, id) {
        assert Files(all[|metas|], mark, par, id);
      }
      if i :| 0 <= i < |all| && Files(all[i], mark, par, id) {
        if i < |metas| { assert Files(metas[i], mark, par, id); }
      }
    }
  }

  /** A test without an id files nothing. */
  lemma RevSoundWithout(metas: seq<Meta>, m: Meta, rev: TagMap)
    ensures m.id == "" && RevSound(metas, rev) ==> RevSound(metas + [m], rev)
  {
    if m.id == "" && RevSound(metas, rev) {
      var all := metas + [m];
      forall mark, par, id
        ensures InGroup(rev, mark, par, id) <==> exists i :: 0 <= i < |all| && Files(all[i], mark, par, id)
      {
        if InGroup(rev, mark, par, id) {
          var i :| 0 <= i < |metas| && Files(metas[i], mark, par, id);
          assert Files(all[i], mark, par, id);
        }
        if i :| 0 <= i < |all| && Files(all[i], mark, par, id) {
          assert Files(metas[i], mark, par, id);
        }
      }
    }
  }

  ghost predicate NoEmptyTags(rev: TagMap) {
    forall mark | mark in rev :: exists par, id :: InGroup(rev, mark, par, id)
  }

  /** `after` is `before` with the test filed under the given marks. */
  ghost predicate Extended(before: TagMap, after: TagMap, marks: set<string>, parallel: bool, id: string) {
    && (forall mark, par, x :: InGroup(after, mark, par, x)
          <==> InGroup(before, mark, par, x) || (mark in marks && par == parallel && x == id))
    && (NoEmptyTags(before) ==> NoEmptyTags(after))
  }

  lemma ExtendedFurther(before: TagMap, rev: TagMap, marks: set<string>, parallel: bool, id: string, mark: string)
    requires Extended(before, rev, marks, parallel, id)
    ensures Extended(before, Filed(rev, mark, parallel, id), marks + {mark}, parallel, id)
  {
    var rev' := Filed(rev, mark, parallel, id);
    forall k, par, x
      ensures InGroup(rev', k, par, x) <==> InGroup(rev, k, par, x) || (k == mark && par == parallel && x == id)
    {
    }
    if NoEmptyTags(before) {
      forall k | k in rev' ensures exists par, x :: InGroup(rev', k, par, x) {
        if k == mark {
          assert InGroup(rev', k, parallel, id);
        } else {
          var par, x :| InGroup(rev, k, par, x);
          assert InGroup(rev', k, par, x);
        }
      }
    }
  }
}
