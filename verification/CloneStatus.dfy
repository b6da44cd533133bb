/** Pacemaker status of a node: clone statuses merged over the nodes, and what counts as failed. */
module CloneStatus {
  import opened Wrappers
  import opened Text

  /** One element of a resource listing: running on a node, or stopped. */
  datatype Elem = Elem(running: bool, node: string, blocked: bool, role: string)

  datatype Clone = Clone(id: string, elems: seq<Elem>)

  datatype Resource = Resource(id: string, elem: Elem)

  type StatusMap = map<string, string>

  function OwnStatus(e: Elem): string {
    if e.running && e.blocked then "FAILED" else e.role
  }

  // ---- merging one clone -------------------------------------------------------------------

  ghost predicate RunsOn(elems: seq<Elem>, i: int, node: string) {
    0 <= i < |elems| && elems[i].running && elems[i].node == node
  }

  ghost predicate Occupied(elems: seq<Elem>, node: string) { exists i :: RunsOn(elems, i, node) }

  ghost predicate SomeStopped(elems: seq<Elem>) { exists i :: 0 <= i < |elems| && !elems[i].running }

  /** Each running element has a default node of its own. */
  ghost predicate OneEach(nodes: seq<string>, elems: seq<Elem>) {
    && (forall i | 0 <= i < |elems| && elems[i].running :: elems[i].node in nodes)
    && (forall i, j | 0 <= i < j < |elems| && elems[i].running && elems[j].running :: elems[i].node != elems[j].node)
  }

  ghost predicate LastStoppedAt(elems: seq<Elem>, i: int) {
    0 <= i < |elems| && !elems[i].running && forall j | i < j < |elems| :: elems[j].running
  }

  /** The status text is FAILED for a blocked element that runs, and otherwise the element's role. */
  ghost predicate Says(status: string, e: Elem) {
    (e.running && e.blocked ==> status == "FAILED") && (!e.running || !e.blocked ==> status == e.role)
  }

  /** A node that runs an element has that element's status; once one is stopped the others have the last stopped role. */
  ghost predicate Merged(nodes: seq<string>, elems: seq<Elem>, m: StatusMap) {
    && (forall node :: node in m <==> Occupied(elems, node) || (node in nodes && SomeStopped(elems)))
    && (forall i | 0 <= i < |elems| && elems[i].running && elems[i].node in m :: Says(m[elems[i].node], elems[i]))
    && (forall node, i | node in m && !Occupied(elems, node) && LastStoppedAt(elems, i) :: m[node] == elems[i].role)
  }

  /** `for node in temp_nodes: temp_dict[node] = role`. */
  method SetAll(m: StatusMap, nodes: seq<string>, role: string) returns (m': StatusMap)
    ensures forall n :: n in m' <==> n in m || n in nodes
    ensures forall n | n in m' :: m'[n] == if n in nodes then role else m[n]
  {
    m' := m;
    for i := 0 to |nodes|
      invariant forall n :: n in m' <==> n in m || n in nodes[..i]
      invariant forall n | n in m' :: m'[n] == if n in nodes[..i] then role else m[n]
    {
      m' := m'[nodes[i] := role];
      assert nodes[..i + 1] == nodes[..i] + [nodes[i]];
    }
    assert nodes[..|nodes|] == nodes;
  }

  /** The nodes still waiting for an element. */
  ghost predicate LeftOver(nodes: seq<string>, elems: seq<Elem>, left: seq<string>) {
    Distinct(left) && forall n :: n in left <==> n in nodes && !Occupied(elems, n)
  }

  lemma OccupiedLast(elems: seq<Elem>, e: Elem, node: string)
    ensures Occupied(elems + [e], node) <==> Occupied(elems, node) || (e.running && e.node == node)
    ensures SomeStopped(elems + [e]) <==> SomeStopped(elems) || !e.running
    ensures forall i :: LastStoppedAt(elems + [e], i) <==> if e.running then LastStoppedAt(elems, i) else i == |elems|
  {
    var all := elems + [e];
    assert all[..|elems|] == elems && all[|elems|] == e;
    if Occupied(elems, node) {
      var i :| RunsOn(elems, i, node);
      assert RunsOn(all, i, node);
    }
    if e.running && e.node == node { assert RunsOn(all, |elems|, node); }
    if Occupied(all, node) {
      var i :| RunsOn(all, i, node);
      if i < |elems| { assert RunsOn(elems, i, node); }
    }
    if SomeStopped(elems) {
      var i :| 0 <= i < |elems| && !elems[i].running;
      assert all[i] == elems[i];
    }
  }

  lemma TakesNode(nodes: seq<string>, elems: seq<Elem>, e: Elem, left: seq<string>)
    requires Distinct(nodes) && OneEach(nodes, elems) && LeftOver(nodes, elems, left)
    requires e.running && e.node in left
    ensures OneEach(nodes, elems + [e])
    ensures LeftOver(nodes, elems + [e], WithoutFirst(left, e.node))
    ensures forall n :: Occupied(elems + [e], n) <==> Occupied(elems, n) || n == e.node
  {
    var all := elems + [e];
    forall n ensures Occupied(all, n) <==> Occupied(elems, n) || n == e.node { OccupiedLast(elems, e, n); }
    WithoutFirstMembers(left, e.node);
    forall i | 0 <= i < |elems| && elems[i].running ensures elems[i].node != e.node {
      assert RunsOn(elems, i, elems[i].node);
    }
  }

  /** A running element takes its node off the list. */
  lemma MergeRunning(nodes: seq<string>, elems: seq<Elem>, e: Elem, m: StatusMap, left: seq<string>)
    requires Distinct(nodes) && OneEach(nodes, elems) && Merged(nodes, elems, m) && LeftOver(nodes, elems, left)
    requires e.running && e.node in left
    ensures OneEach(nodes, elems + [e])
    ensures Merged(nodes, elems + [e], m[e.node := OwnStatus(e)])
    ensures LeftOver(nodes, elems + [e], WithoutFirst(left, e.node))
  {
    var all, m' := elems + [e], m[e.node := OwnStatus(e)];
    TakesNode(nodes, elems, e, left);
    OccupiedLast(elems, e, e.node);
    forall i | 0 <= i < |all| && all[i].running ensures all[i].node in m' ==> Says(m'[all[i].node], all[i]) {
      assert i < |elems| ==> RunsOn(elems, i, elems[i].node);
    }
    assert forall i | LastStoppedAt(all, i) :: LastStoppedAt(elems, i) && all[i] == elems[i];
  }

  /** A stopped element sets the nodes still on the list. */
  lemma MergeStopped(nodes: seq<string>, elems: seq<Elem>, e: Elem, m: StatusMap, left: seq<string>, m': StatusMap)
    requires Distinct(nodes) && OneEach(nodes, elems) && Merged(nodes, elems, m) && LeftOver(nodes, elems, left)
    requires !e.running
    requires (forall n :: n in m' <==> n in m || n in left) && forall n | n in m' :: m'[n] == if n in left then e.role else m[n]
    ensures OneEach(nodes, elems + [e]) && Merged(nodes, elems + [e], m') && LeftOver(nodes, elems + [e], left)
  {
    var all := elems + [e];
    forall n ensures Occupied(all, n) <==> Occupied(elems, n) { OccupiedLast(elems, e, n); }
    OccupiedLast(elems, e, "");
    forall i | 0 <= i < |all| && all[i].running && all[i].node in m' ensures Says(m'[all[i].node], all[i]) {
      assert all[i] == elems[i] && RunsOn(elems, i, elems[i].node);
    }
  }

  /** The multi-node branch for one clone; None is the ValueError of removing a node that is not on the list. */
  method MergeClone(nodes: seq<string>, elems: seq<Elem>) returns (merged: Option<StatusMap>)
    requires Distinct(nodes)
    ensures merged.Some? <==> OneEach(nodes, elems)
    ensures merged.Some? ==> Merged(nodes, elems, merged.value)
  {
    var tempNodes, tempDict: StatusMap := nodes, map[];
    for k := 0 to |elems|
      invariant OneEach(nodes, elems[..k]) && Merged(nodes, elems[..k], tempDict) && LeftOver(nodes, elems[..k], tempNodes)
    {
      var e := elems[k];
      assert elems[..k + 1] == elems[..k] + [e];
      if e.running {
        if e.node !in tempNodes {
          return None;
        }
        MergeRunning(nodes, elems[..k], e, tempDict, tempNodes);
        tempDict := tempDict[e.node := OwnStatus(e)];
        tempNodes := WithoutFirst(tempNodes, e.node);
      } else {
        ghost var before := tempDict;
        tempDict := SetAll(tempDict, tempNodes, e.role);
        MergeStopped(nodes, elems[..k], e, before, tempNodes, tempDict);
      }
    }
    assert elems[..|elems|] == elems;
    merged := Some(tempDict);
  }

  // ---- what the merged map tells -------------------------------------------------------------

  ghost predicate StoppedAgree(elems: seq<Elem>) {
    forall e, f | e in elems && f in elems && !e.running && !f.running :: e.role == f.role
  }

  lemma {:induction false} SomeLastStopped(elems: seq<Elem>) returns (i: int)
    requires SomeStopped(elems)
    ensures LastStoppedAt(elems, i) && elems[i] in elems
    decreases |elems|
  {
    var n := |elems| - 1;
    if !elems[n].running {
      i := n;
    } else {
      var j :| 0 <= j < |elems| && !elems[j].running;
      assert elems[..n][j] == elems[j];
      i := SomeLastStopped(elems[..n]);
    }
  }

  lemma OccupiedByMember(elems: seq<Elem>, node: string)
    ensures Occupied(elems, node) <==> exists e :: e in elems && e.running && e.node == node
    ensures SomeStopped(elems) <==> exists e :: e in elems && !e.running
  {
    if e :| e in elems && e.running && e.node == node {
      var i :| 0 <= i < |elems| && elems[i] == e;
      assert RunsOn(elems, i, node);
    }
  }

  /** The order of the elements does not matter as long as the stopped ones agree. */
  lemma MergeIgnoresOrder(nodes: seq<string>, a: seq<Elem>, b: seq<Elem>, m: StatusMap, n: StatusMap)
    requires multiset(a) == multiset(b) && StoppedAgree(a)
    requires OneEach(nodes, a) && Merged(nodes, a, m) && Merged(nodes, b, n)
    ensures m == n
  {
    assert forall e :: e in a <==> e in multiset(a);
    assert forall e :: e in b <==> e in multiset(b);
    forall node ensures node in m <==> node in n {
      OccupiedByMember(a, node);
      OccupiedByMember(b, node);
    }
    forall node | node in m ensures m[node] == n[node] {
      OccupiedByMember(a, node);
      OccupiedByMember(b, node);
      if Occupied(a, node) {
        var i :| RunsOn(a, i, node);
        assert a[i] in b;
        var j :| 0 <= j < |b| && b[j] == a[i];
      } else {
        var i := SomeLastStopped(a);
        var j := SomeLastStopped(b);
      }
    }
  }

  predicate AllStarted(m: StatusMap) { forall node | node in m :: m[node] == "Started" }

  /** A status comes from the element that runs on the node, or from the last stopped one. */
  ghost predicate StatusFrom(nodes: seq<string>, elems: seq<Elem>, node: string, status: string) {
    || (exists e :: e in elems && e.running && Says(status, e))
    || (node in nodes && !Occupied(elems, node) && exists i :: LastStoppedAt(elems, i) && status == elems[i].role)
  }

  lemma StatusOn(nodes: seq<string>, elems: seq<Elem>, m: StatusMap, node: string)
    requires Merged(nodes, elems, m) && node in m
    ensures StatusFrom(nodes, elems, node, m[node])
  {
    if Occupied(elems, node) {
      var i :| RunsOn(elems, i, node);
      assert elems[i] in elems;
    } else {
      var i := SomeLastStopped(elems);
    }
  }

  /**
   A clone is fine exactly when each running element is started and unblocked and, should a default
   node run nothing while an element is stopped, the last stopped element's role says Started.
   */
  lemma CloneFineExactly(nodes: seq<string>, elems: seq<Elem>, m: StatusMap)
    requires Merged(nodes, elems, m)
    ensures AllStarted(m) <==>
      && (forall e | e in elems && e.running :: e.role == "Started" && !e.blocked)
      && ((exists node :: node in nodes && !Occupied(elems, node)) ==>
            forall i | LastStoppedAt(elems, i) :: elems[i].role == "Started")
  {
    forall e | e in elems && e.running ensures e.node in m && Says(m[e.node], e) {
      var i :| 0 <= i < |elems| && elems[i] == e;
      assert RunsOn(elems, i, e.node);
    }
    forall node | node in m ensures StatusFrom(nodes, elems, node, m[node]) { StatusOn(nodes, elems, m, node); }
    if node :| node in nodes && !Occupied(elems, node) {
      forall i | LastStoppedAt(elems, i) ensures node in m && m[node] == elems[i].role {
      }
    }
  }

  // ---- the node's verdict ------------------------------------------------------------------------

  ghost predicate LastListing(rs: seq<Resource>, i: int, id: string) {
    0 <= i < |rs| && rs[i].id == id && forall j | i < j < |rs| :: rs[j].id != id
  }

  /** `get_resource_status`, and `get_group_status` on the resources of all groups. */
  method ResourceStatus(rs: seq<Resource>) returns (m: StatusMap)
    ensures forall id :: id in m <==> exists i :: LastListing(rs, i, id)
    ensures forall id, i | id in m && LastListing(rs, i, id) :: Says(m[id], rs[i].elem)
  {
    m := map[];
    for k := 0 to |rs|
      invariant StatusesOf(rs[..k], m)
    {
      NextListing(rs[..k], rs[k], m);
      assert rs[..k + 1] == rs[..k] + [rs[k]];
      m := m[rs[k].id := OwnStatus(rs[k].elem)];
    }
    assert rs[..|rs|] == rs;
  }

  ghost predicate StatusesOf(rs: seq<Resource>, m: StatusMap) {
    && (forall id :: id in m <==> exists i :: LastListing(rs, i, id))
    && (forall id, i | id in m && LastListing(rs, i, id) :: Says(m[id], rs[i].elem))
  }

  lemma NextListing(rs: seq<Resource>, r: Resource, m: StatusMap)
    requires StatusesOf(rs, m)
    ensures StatusesOf(rs + [r], m[r.id := OwnStatus(r.elem)])
  {
    var all, m' := rs + [r], m[r.id := OwnStatus(r.elem)];
    assert all[|rs|] == r && forall j | 0 <= j < |rs| :: all[j] == rs[j];
    assert forall id, i | LastListing(rs, i, id) && id != r.id :: LastListing(all, i, id);
    forall id, i | LastListing(all, i, id) ensures if id == r.id then i == |rs| else LastListing(rs, i, id) {
      assert forall j | i < j < |rs| :: rs[j] == all[j];
    }
    forall id ensures id in m' <==> exists i :: LastListing(all, i, id) {
      if id == r.id {
        assert LastListing(all, |rs|, id);
      } else if id in m {
        var i :| LastListing(rs, i, id);
        assert LastListing(all, i, id);
      }
    }
  }

  // ---- the exemption of stonith clones ---------------------------------------------------------------

  predicate IsStonith(id: string) { Contains(id, "stonith") }

  /** `key.split("-")[2]` exists. */
  predicate HasThirdPart(id: string) { |Split(id, '-')| >= 3 }

  /** The node a stonith clone is allowed not to run on. */
  function ExemptNode(id: string): string
    requires HasThirdPart(id)
  {
    "srvnode-" + Split(id, '-')[2]
  }

  /** A status that makes the clone a failed one. */
  predicate Alarming(id: string, node: string, status: string)
    requires IsStonith(id) ==> HasThirdPart(id)
  {
    status != "Started" && !(IsStonith(id) && node == ExemptNode(id))
  }

  predicate RaisesAlarm(id: string, m: StatusMap) {
    (IsStonith(id) ==> HasThirdPart(id)) && exists node | node in m :: Alarming(id, node, m[node])
  }

  /** `srvnode-{n}.data.private`. */
  function DefaultNode(n: string): string { "srvnode-" + n + ".data.private" }

  /** A default node is exempt only under an id that has the whole of its name after the prefix in its third part. */
  lemma ExemptExactly(id: string, n: string)
    requires HasThirdPart(id)
    ensures ExemptNode(id) == DefaultNode(n) <==> Split(id, '-')[2] == n + ".data.private"
  {
    var prefix, third, rest := "srvnode-", Split(id, '-')[2], n + ".data.private";
    assert DefaultNode(n) == prefix + rest;
    assert (prefix + third)[|prefix|..] == third && (prefix + rest)[|prefix|..] == rest;
  }

  /** `stonith-srvnode-{k}-clone`. */
  function StonithId(k: string): string {
    "stonith" + ['-'] + ("srvnode" + ['-'] + (k + ['-'] + "clone"))
  }

  /** Ids of the form the framework uses exempt no default node, so their stonith clones are checked like any other. */
  lemma StonithIsNotExempt(k: string, m: StatusMap)
    requires '-' !in k && '.' !in k
    requires forall node | node in m :: exists n :: node == DefaultNode(n)
    ensures RaisesAlarm(StonithId(k), m) <==> !AllStarted(m)
  {
    SplitFour("stonith", "srvnode", k, "clone", '-');
    forall node | node in m ensures node != ExemptNode(StonithId(k)) {
      var n :| node == DefaultNode(n);
      ExemptExactly(StonithId(k), n);
      assert (n + ".data.private")[|n|] == '.';
    }
  }

  lemma SplitFour(a: string, b: string, c: string, d: string, sep: char)
    requires sep !in a && sep !in b && sep !in c && sep !in d
    ensures Split(a + [sep] + (b + [sep] + (c + [sep] + d)), sep) == [a, b, c, d]
  {
    SplitAppend(a, sep, b + [sep] + (c + [sep] + d));
    SplitAppend(b, sep, c + [sep] + d);
    SplitAppend(c, sep, d);
    SplitNone(a, sep);
    SplitNone(b, sep);
    SplitNone(c, sep);
    SplitNone(d, sep);
  }

  // ---- the failed ids --------------------------------------------------------------------------------

  ghost predicate ElemsFail(nodes: seq<string>, c: Clone) {
    exists m :: Merged(nodes, c.elems, m) && RaisesAlarm(c.id, m)
  }

  ghost predicate CloneFails(nodes: seq<string>, clones: seq<Clone>, id: string) {
    exists i :: 0 <= i < |clones| && clones[i].id == id && ElemsFail(nodes, clones[i])
  }

  /** No node gets a status. */
  ghost predicate NoStatus(nodes: seq<string>, elems: seq<Elem>) {
    forall node :: !Occupied(elems, node) && !(node in nodes && SomeStopped(elems))
  }

  /** Merging raises no ValueError and reading a stonith id no IndexError. */
  ghost predicate Checkable(nodes: seq<string>, c: Clone) {
    OneEach(nodes, c.elems) && (IsStonith(c.id) && !HasThirdPart(c.id) ==> NoStatus(nodes, c.elems))
  }

  /** The last listing of the id is of an element that is not started, or runs but is blocked. */
  ghost predicate ResourceFails(rs: seq<Resource>, id: string) {
    exists i :: LastListing(rs, i, id) && (rs[i].elem.role != "Started" || (rs[i].elem.running && rs[i].elem.blocked))
  }

  lemma FailsExactly(rs: seq<Resource>, m: StatusMap)
    requires StatusesOf(rs, m)
    ensures forall id :: id in m && m[id] != "Started" <==> ResourceFails(rs, id)
  {
    forall id ensures id in m && m[id] != "Started" <==> ResourceFails(rs, id) {
      if id in m {
        var i :| LastListing(rs, i, id);
        assert Says(m[id], rs[i].elem);
      }
    }
  }

  ghost predicate DistinctIds(clones: seq<Clone>) {
    forall i, j | 0 <= i < j < |clones| :: clones[i].id != clones[j].id
  }

  lemma MergedOnce(nodes: seq<string>, elems: seq<Elem>, m: StatusMap, n: StatusMap)
    requires OneEach(nodes, elems) && Merged(nodes, elems, m) && Merged(nodes, elems, n)
    ensures m == n
  {
    forall node | node in m ensures m[node] == n[node] {
      if Occupied(elems, node) {
        var i :| RunsOn(elems, i, node);
      } else {
        var i := SomeLastStopped(elems);
      }
    }
  }

  /** Merges one clone and looks for a status that is not Started on a node that is not exempt. */
  method CloneIsFailing(nodes: seq<string>, c: Clone) returns (failing: Option<bool>)
    requires Distinct(nodes)
    ensures failing.Some? <==> Checkable(nodes, c)
    ensures failing.Some? ==> (failing.value <==> ElemsFail(nodes, c))
  {
    var merged := MergeClone(nodes, c.elems);
    if merged.None? { return None; }
    if IsStonith(c.id) && !HasThirdPart(c.id) && merged.value != map[] { return None; }
    forall m | Merged(nodes, c.elems, m) ensures m == merged.value {
      MergedOnce(nodes, c.elems, m, merged.value);
    }
    failing := Some(RaisesAlarm(c.id, merged.value));
  }

  ghost predicate AllCheckable(nodes: seq<string>, clones: seq<Clone>) {
    forall c | c in clones :: Checkable(nodes, c)
  }

  method AddClone(nodes: seq<string>, ghost before: seq<Clone>, c: Clone, ids: set<string>)
    returns (ids': Option<set<string>>)
    requires Distinct(nodes) && Lists(ids, nodes, before)
    ensures ids'.Some? <==> Checkable(nodes, c)
    ensures ids'.Some? ==> Lists(ids'.value, nodes, before + [c])
  {
    var failing := CloneIsFailing(nodes, c);
    NextClone(nodes, before, c, ids);
    ids' := if failing.None? then None else Some(if failing.value then ids + {c.id} else ids);
  }

  /** The failed ids among the clones. */
  method FailedClones(nodes: seq<string>, clones: seq<Clone>) returns (failed: Option<set<string>>)
    requires Distinct(nodes) && DistinctIds(clones)
    ensures failed.Some? <==> AllCheckable(nodes, clones)
    ensures failed.Some? ==> Lists(failed.value, nodes, clones)
  {
    failed := Some({});
    for k := 0 to |clones|
      invariant failed.Some? && AllCheckable(nodes, clones[..k]) && Lists(failed.value, nodes, clones[..k])
    {
      failed := AddClone(nodes, clones[..k], clones[k], failed.value);
      if failed.None? { return; }
      assert clones[..k + 1] == clones[..k] + [clones[k]];
    }
    assert clones[..|clones|] == clones;
  }

  ghost predicate Lists(ids: set<string>, nodes: seq<string>, clones: seq<Clone>) {
    forall id :: id in ids <==> CloneFails(nodes, clones, id)
  }

  lemma NextClone(nodes: seq<string>, before: seq<Clone>, c: Clone, ids: set<string>)
    requires Lists(ids, nodes, before)
    ensures Lists(if ElemsFail(nodes, c) then ids + {c.id} else ids, nodes, before + [c])
  {
    var after := before + [c];
    assert after[|before|] == c;
    forall id ensures CloneFails(nodes, after, id)
                 <==> CloneFails(nodes, before, id) || (id == c.id && ElemsFail(nodes, c)) {
      if i :| 0 <= i < |before| && before[i].id == id && ElemsFail(nodes, before[i]) {
        assert after[i] == before[i];
      }
      if i :| 0 <= i < |after| && after[i].id == id && ElemsFail(nodes, after[i]) {
        assert i < |before| ==> before[i] == after[i];
      }
    }
  }

  /** Failed clones, resources and group members together; the node is healthy when there are none. */
  method CheckPcs(nodes: seq<string>, clones: seq<Clone>, resources: seq<Resource>, groups: seq<Resource>)
    returns (failed: Option<set<string>>)
    requires Distinct(nodes) && DistinctIds(clones)
    ensures failed.Some? <==> AllCheckable(nodes, clones)
    ensures failed.Some? ==> forall id :: id in failed.value <==>
              CloneFails(nodes, clones, id) || ResourceFails(resources, id) || ResourceFails(groups, id)
  {
    failed := FailedClones(nodes, clones);
    if failed.Some? {
      var r := ResourceStatus(resources);
      var g := ResourceStatus(groups);
      FailsExactly(resources, r);
      FailsExactly(groups, g);
      failed := Some(failed.value + (set id | id in r && r[id] != "Started") + (set id | id in g && g[id] != "Started"));
    }
  }
}
