/** `parse_xml_controller`: grouping a flat stream of properties into records. */
module XmlRecords {
  import opened Wrappers

  /** One PROPERTY element. */
  datatype Prop = Prop(name: string, text: string)

  type Record = map<string, string>

  // ---- what a stream means -----------------------------------------------------------------

  /** The properties with a requested name. */
  function Hits(props: seq<Prop>, fields: seq<string>): seq<Prop> {
    if props == [] then []
    else Hits(props[..|props| - 1], fields)
         + if props[|props| - 1].name in fields then [props[|props| - 1]] else []
  }

  function RecordOf(props: seq<Prop>): Record {
    if props == [] then map[]
    else RecordOf(props[..|props| - 1])[props[|props| - 1].name := props[|props| - 1].text]
  }

  /** How often the names of these properties are listed: once each, for a list of distinct fields. */
  function Weight(props: seq<Prop>, fields: seq<string>): nat {
    if props == [] then 0
    else Weight(props[..|props| - 1], fields) + multiset(fields)[props[|props| - 1].name]
  }

  /** Full records so far, and the properties of the one being filled. */
  datatype Grouped = Grouped(records: seq<Record>, partial: seq<Prop>)

  /** Hits are collected until they weigh as much as the field list: that is a record. */
  function Group(hits: seq<Prop>, fields: seq<string>): Grouped {
    if hits == [] then Grouped([], []) else Next(Group(hits[..|hits| - 1], fields), hits[|hits| - 1], fields)
  }

  function Next(g: Grouped, p: Prop, fields: seq<string>): Grouped {
    var filled := g.partial + [p];
    if Weight(filled, fields) == |fields| then Grouped(g.records + [RecordOf(filled)], [])
    else Grouped(g.records, filled)
  }

  function Numbered(records: seq<Record>): map<nat, Record> {
    map j: nat | j < |records| :: records[j]
  }

  function Blank(n: nat): seq<Record> {
    seq(n, _ => map[])
  }

  // ---- the parser ----------------------------------------------------------------------------

  /** The parser's variables; `slots[j]` stands for the key dict_j, `count` for the length of list_keys. */
  datatype Vars = Vars(slots: map<nat, Record>, i: nat, newD: Record, count: nat)

  /** The slots when the last child was a requested field, was not, or has not been read yet. */
  function SlotsOf(g: Grouped, lastHit: Option<bool>): map<nat, Record> {
    if lastHit == Some(false) then Numbered(g.records)[|g.records| := map[]]
    else if lastHit == Some(true) && g.partial != [] then Numbered(g.records)[|g.records| := RecordOf(g.partial)]
    else Numbered(g.records)
  }

  ghost predicate Holds(v: Vars, g: Grouped, fields: seq<string>, lastHit: Option<bool>) {
    && v.i == |g.records| && v.newD == RecordOf(g.partial)
    && v.count == Weight(g.partial, fields) != |fields|
    && v.slots == SlotsOf(g, lastHit)
  }

  /** The variables after one more child. */
  function Read(v: Vars, child: Prop, fields: seq<string>): Vars {
    Finished(Looked(v, child, multiset(fields)[child.name]), |fields|)
  }

  /** ... after comparing its name with fields of which `hits` are equal. */
  function Looked(v: Vars, child: Prop, hits: nat): Vars {
    if hits == 0 then v.(slots := v.slots[v.i := map[]])
    else
      var newD := v.newD[child.name := child.text];
      Vars(v.slots[v.i := newD], v.i, newD, v.count + hits)
  }

  function Finished(v: Vars, n: nat): Vars {
    if v.count == n then Vars(v.slots, v.i + 1, map[], 0) else v
  }

  /** One child: its slot is cleared, and filled again if the child is a requested field. */
  method ReadChild(child: Prop, fields: seq<string>, v: Vars) returns (v': Vars)
    ensures v' == Read(v, child, fields)
  {
    var slots: map<nat, Record>, newD, count := v.slots[v.i := map[]], v.newD, v.count;
    for f := 0 to |fields|
      invariant Vars(slots, v.i, newD, count) == Looked(v, child, multiset(fields[..f])[child.name])
    {
      assert fields[..f + 1] == fields[..f] + [fields[f]];
      if child.name == fields[f] {
        newD := newD[fields[f] := child.text];
        count := count + 1;
        slots := slots[v.i := newD];
        assert newD == v.newD[child.name := child.text];
        assert slots == v.slots[v.i := newD];
      }
    }
    assert fields[..|fields|] == fields;
    v' := if count == |fields| then Vars(slots, v.i + 1, map[], 0) else Vars(slots, v.i, newD, count);
  }

  lemma RecordLast(props: seq<Prop>, p: Prop)
    ensures RecordOf(props + [p]) == RecordOf(props)[p.name := p.text]
  {
    assert (props + [p])[..|props|] == props;
  }

  lemma WeightLast(props: seq<Prop>, p: Prop, fields: seq<string>)
    ensures Weight(props + [p], fields) == Weight(props, fields) + multiset(fields)[p.name]
  {
    assert (props + [p])[..|props|] == props;
  }

  lemma NumberedLast(records: seq<Record>, r: Record)
    ensures Numbered(records + [r]) == Numbered(records)[|records| := r]
  {
  }

  lemma MissHolds(v: Vars, g: Grouped, fields: seq<string>, lastHit: Option<bool>, child: Prop)
    requires Holds(v, g, fields, lastHit) && child.name !in fields
    ensures Holds(Read(v, child, fields), g, fields, Some(false))
  {
    assert v.slots[v.i := map[]] == Numbered(g.records)[|g.records| := map[]];
  }

  lemma SlotSet(g: Grouped, lastHit: Option<bool>, r: Record)
    ensures SlotsOf(g, lastHit)[|g.records| := r] == Numbered(g.records)[|g.records| := r]
  {
  }

  lemma HitHolds(v: Vars, g: Grouped, fields: seq<string>, lastHit: Option<bool>, child: Prop)
    requires Holds(v, g, fields, lastHit) && child.name in fields
    ensures Holds(Read(v, child, fields), Next(g, child, fields), fields, Some(true))
  {
    var r := RecordOf(g.partial + [child]);
    RecordLast(g.partial, child);
    WeightLast(g.partial, child, fields);
    NumberedLast(g.records, r);
    assert v.slots[v.i := r] == Numbered(g.records)[|g.records| := r] by { SlotSet(g, lastHit, r); }
  }

  lemma HitsLast(props: seq<Prop>, child: Prop, fields: seq<string>)
    ensures Hits(props + [child], fields) == Hits(props, fields) + if child.name in fields then [child] else []
  {
    assert (props + [child])[..|props|] == props;
  }

  lemma GroupLast(hits: seq<Prop>, p: Prop, fields: seq<string>)
    ensures Group(hits + [p], fields) == Next(Group(hits, fields), p, fields)
  {
    assert (hits + [p])[..|hits|] == hits;
  }

  /** Whether the stream ends with a requested property; None for an empty stream. */
  function LastHit(props: seq<Prop>, fields: seq<string>): Option<bool> {
    if props == [] then None else Some(props[|props| - 1].name in fields)
  }

  /** Where the variables stand after `props`: with no field requested, every child is a record of its own. */
  ghost predicate Reached(v: Vars, props: seq<Prop>, fields: seq<string>) {
    if fields == [] then v == Vars(Numbered(Blank(|props|)), |props|, map[], 0)
    else Holds(v, Group(Hits(props, fields), fields), fields, LastHit(props, fields))
  }

  lemma ReachedFurther(v: Vars, props: seq<Prop>, fields: seq<string>, child: Prop)
    requires Reached(v, props, fields)
    ensures Reached(Read(v, child, fields), props + [child], fields)
  {
    var hits := Hits(props, fields);
    HitsLast(props, child, fields);
    if fields == [] {
      NumberedLast(Blank(|props|), map[]);
      assert Blank(|props| + 1) == Blank(|props|) + [map[]];
    } else if child.name in fields {
      GroupLast(hits, child, fields);
      HitHolds(v, Group(hits, fields), fields, LastHit(props, fields), child);
    } else {
      assert Hits(props + [child], fields) == hits;
      MissHolds(v, Group(hits, fields), fields, LastHit(props, fields), child);
    }
  }

  /** The records of a stream; with no field requested they are all empty, and one is taken for the trailing slot. */
  function RecordsOf(props: seq<Prop>, fields: seq<string>): map<nat, Record> {
    if fields == [] then Numbered(Blank(|props|)) - {0}
    else Numbered(Group(Hits(props, fields), fields).records)
  }

  /** Where the clean-up stops: every slot before `gap` is full, and that one is empty or missing. */
  ghost predicate IsGap(gap: nat, slots: map<nat, Record>) {
    && (forall j: nat | j < gap :: j in slots && slots[j] != map[])
    && (gap in slots ==> slots[gap] == map[])
  }

  lemma FindGap(v: Vars, props: seq<Prop>, fields: seq<string>) returns (gap: nat)
    requires Reached(v, props, fields)
    ensures IsGap(gap, v.slots)
    ensures gap in v.slots <==> LastHit(props, fields) == Some(false)
    ensures gap in v.slots ==> v.slots - {gap} == RecordsOf(props, fields)
  {
    if fields == [] {
      gap := 0;
    } else {
      var hits := Hits(props, fields);
      var g := Group(hits, fields);
      RecordsAreFull(hits, fields);
      gap := SlotsGap(g, LastHit(props, fields));
    }
  }

  lemma SlotsGap(g: Grouped, lastHit: Option<bool>) returns (gap: nat)
    requires forall r | r in g.records :: r != map[]
    requires g.partial != [] ==> RecordOf(g.partial) != map[]
    ensures IsGap(gap, SlotsOf(g, lastHit))
    ensures gap in SlotsOf(g, lastHit) <==> lastHit == Some(false)
    ensures gap in SlotsOf(g, lastHit) ==> SlotsOf(g, lastHit) - {gap} == Numbered(g.records)
  {
    assert forall j: nat | j < |g.records| :: g.records[j] in g.records;
    gap := if lastHit == Some(true) && g.partial != [] then |g.records| + 1 else |g.records|;
  }

  /** The first loop: all children in turn. */
  method ReadChildren(props: seq<Prop>, fields: seq<string>) returns (v: Vars)
    ensures Reached(v, props, fields)
  {
    v := Vars(map[], 0, map[], 0);
    for c := 0 to |props|
      invariant Reached(v, props[..c], fields)
    {
      ReachedFurther(v, props[..c], fields, props[c]);
      assert props[..c + 1] == props[..c] + [props[c]];
      v := ReadChild(props[c], fields, v);
    }
    assert props[..|props|] == props;
  }

  /**
   For every stream and every list of fields the call succeeds exactly when the stream ends with a
   property that was not requested - otherwise the clean-up runs into a missing key (None) - and
   then returns exactly the records completed.
   */
  method ParseXml(props: seq<Prop>, fields: seq<string>) returns (data: Option<map<nat, Record>>)
    ensures data.Some? <==> LastHit(props, fields) == Some(false)
    ensures data.Some? ==> data.value == RecordsOf(props, fields)
  {
    var v := ReadChildren(props, fields);
    ghost var gap := FindGap(v, props, fields);
    data := RemoveEmpty(v.slots, gap);
  }

  /** The clean-up loop: walks dict_0, dict_1, ... to the first empty one and removes it. */
  method RemoveEmpty(slots: map<nat, Record>, ghost gap: nat) returns (data: Option<map<nat, Record>>)
    requires IsGap(gap, slots)
    ensures data == if gap in slots then Some(slots - {gap}) else None
  {
    var i: nat := 0;
    while true
      invariant i <= gap
      decreases gap - i
    {
      if i !in slots { return None; }
      if slots[i] == map[] { return Some(slots - {i}); }
      i := i + 1;
    }
  }

  lemma {:induction false} RecordsAreFull(hits: seq<Prop>, fields: seq<string>)
    ensures forall r | r in Group(hits, fields).records :: r != map[]
    ensures Group(hits, fields).partial != [] ==> RecordOf(Group(hits, fields).partial) != map[]
    decreases |hits|
  {
    if hits != [] {
      var last := hits[|hits| - 1];
      RecordsAreFull(hits[..|hits| - 1], fields);
      var filled := Group(hits[..|hits| - 1], fields).partial + [last];
      assert last.name in RecordOf(filled);
    }
  }

  // ---- what the records are, by position -----------------------------------------------------

  /** `at` holds the positions of the requested properties, in order, and `hits` what stands there. */
  ghost predicate Positions(at: seq<nat>, hits: seq<Prop>, props: seq<Prop>, fields: seq<string>) {
    && |at| == |hits| && (forall i, j | 0 <= i < j < |at| :: at[i] < at[j])
    && (forall i | 0 <= i < |at| :: at[i] < |props| && hits[i] == props[at[i]])
    && (forall k: nat | k < |props| :: props[k].name in fields <==> k in at)
  }

  lemma NextPosition(at: seq<nat>, hits: seq<Prop>, props: seq<Prop>, fields: seq<string>, p: Prop)
    requires Positions(at, hits, props, fields)
    ensures p.name in fields ==> Positions(at + [|props|], hits + [p], props + [p], fields)
    ensures p.name !in fields ==> Positions(at, hits, props + [p], fields)
  {
    var all, n := props + [p], |props|;
    assert forall k | 0 <= k < n :: all[k] == props[k];
    assert forall k | k in at :: k < n;
  }

  /** The requested properties, in their order, and all of them. */
  lemma {:induction false} HitsInOrder(props: seq<Prop>, fields: seq<string>) returns (at: seq<nat>)
    ensures Positions(at, Hits(props, fields), props, fields)
    decreases |props|
  {
    at := [];
    if props != [] {
      var n := |props| - 1;
      at := HitsInOrder(props[..n], fields);
      NextPosition(at, Hits(props[..n], fields), props[..n], fields, props[n]);
      assert props == props[..n] + [props[n]];
      if props[n].name in fields {
        at := at + [n];
      } else {
        assert Hits(props, fields) == Hits(props[..n], fields);
      }
    }
  }

  /** Position i has the last property with this name among those from `from` up to `to`. */
  ghost predicate LastNamed(props: seq<Prop>, from: int, to: int, i: int, name: string) {
    0 <= from <= i < to <= |props| && props[i].name == name && forall j | i < j < to :: props[j].name != name
  }

  /** A record has the names of its properties, each with the last text. */
  lemma {:induction false} RecordExact(props: seq<Prop>, name: string)
    ensures name in RecordOf(props) <==> exists i :: LastNamed(props, 0, |props|, i, name)
    ensures forall i | LastNamed(props, 0, |props|, i, name) :: name in RecordOf(props) && RecordOf(props)[name] == props[i].text
    decreases |props|
  {
    if props != [] {
      var n := |props| - 1;
      RecordExact(props[..n], name);
      assert forall k | 0 <= k < n :: props[..n][k] == props[k];
      if props[n].name == name {
        assert LastNamed(props, 0, |props|, n, name);
      } else {
        forall i ensures LastNamed(props, 0, |props|, i, name) <==> LastNamed(props[..n], 0, n, i, name) {
          if LastNamed(props[..n], 0, n, i, name) {
            assert forall j | i < j < n :: props[j].name == props[..n][j].name;
          }
        }
      }
    }
  }

  /** With distinct fields a record is as many requested properties in a row as there are fields. */
  ghost predicate InRows(hits: seq<Prop>, g: Grouped, n: nat) {
    && |g.partial| < n && |hits| == |g.records| * n + |g.partial| && g.partial == hits[|g.records| * n..]
    && forall j: nat | j < |g.records| :: IsRow(hits, j, n, g.records[j])
  }

  ghost predicate IsRow(hits: seq<Prop>, j: nat, n: nat, r: Record) {
    0 <= j * n <= (j + 1) * n <= |hits| && r == RecordOf(hits[j * n..(j + 1) * n])
  }

  lemma RowStays(hits: seq<Prop>, p: Prop, j: nat, n: nat, r: Record)
    requires IsRow(hits, j, n, r)
    ensures IsRow(hits + [p], j, n, r)
  {
    assert (hits + [p])[j * n..(j + 1) * n] == hits[j * n..(j + 1) * n];
  }

  lemma NextInRows(hits: seq<Prop>, g: Grouped, p: Prop, n: nat)
    requires InRows(hits, g, n)
    ensures var filled := g.partial + [p];
            InRows(hits + [p], if |filled| == n then Grouped(g.records + [RecordOf(filled)], []) else Grouped(g.records, filled), n)
  {
    var all, filled, k := hits + [p], g.partial + [p], |g.records|;
    assert filled == all[k * n..];
    assert (k + 1) * n == k * n + n;
    forall j: nat | j < k ensures IsRow(all, j, n, g.records[j]) {
      RowStays(hits, p, j, n, g.records[j]);
    }
    if |filled| == n {
      assert all[k * n..(k + 1) * n] == filled;
    }
  }

  lemma {:induction false} GroupExact(hits: seq<Prop>, fields: seq<string>)
    requires Distinct(fields) && fields != [] && forall p | p in hits :: p.name in fields
    ensures InRows(hits, Group(hits, fields), |fields|)
    ensures Weight(Group(hits, fields).partial, fields) == |Group(hits, fields).partial|
    decreases |hits|
  {
    if hits != [] {
      var front, p := hits[..|hits| - 1], hits[|hits| - 1];
      assert hits == front + [p] && p in hits;
      GroupExact(front, fields);
      var g := Group(front, fields);
      WeightStep(g.partial, p, fields);
      NextInRows(front, g, p, |fields|);
    }
  }

  lemma RowCount(hits: seq<Prop>, g: Grouped, n: nat, j: nat)
    requires InRows(hits, g, n)
    ensures j < |g.records| <==> (j + 1) * n <= |hits|
  {
    if j < |g.records| {
      assert IsRow(hits, j, n, g.records[j]);
    } else {
      MulKeepsOrder(n, |g.records| + 1, j + 1);
      assert n * (|g.records| + 1) == |g.records| * n + n;
    }
  }

  /** A record of a row holds each name of the row with the text last given there, and no other name. */
  ghost predicate HoldsRow(r: Record, hits: seq<Prop>, from: nat, to: nat) {
    && (forall name | name in r :: exists i :: LastNamed(hits, from, to, i, name))
    && (forall name, i | LastNamed(hits, from, to, i, name) :: name in r && r[name] == hits[i].text)
  }

  lemma RowHolds(hits: seq<Prop>, from: nat, to: nat)
    requires from <= to <= |hits|
    ensures HoldsRow(RecordOf(hits[from..to]), hits, from, to)
  {
    var row := hits[from..to];
    assert forall k | 0 <= k < |row| :: row[k] == hits[from + k];
    forall name | name in RecordOf(row) ensures exists i :: LastNamed(hits, from, to, i, name) {
      RecordExact(row, name);
      var k :| LastNamed(row, 0, |row|, k, name);
      assert forall j | from + k < j < to :: hits[j] == row[j - from];
      assert LastNamed(hits, from, to, from + k, name);
    }
    forall name, i | LastNamed(hits, from, to, i, name) ensures name in RecordOf(row) && RecordOf(row)[name] == hits[i].text {
      RecordExact(row, name);
      assert LastNamed(row, 0, |row|, i - from, name);
    }
  }

  /**
   For every stream and every list of distinct fields: record j is there if and only if the stream has all of
   the requested properties of row j, and then holds that row.
   */
  lemma RecordsExact(props: seq<Prop>, fields: seq<string>, j: nat)
    requires Distinct(fields) && fields != []
    ensures var hits, from, to := Hits(props, fields), j * |fields|, (j + 1) * |fields|;
            && (j in RecordsOf(props, fields) <==> to <= |hits|)
            && (j in RecordsOf(props, fields) ==> HoldsRow(RecordsOf(props, fields)[j], hits, from, to))
  {
    var hits, n := Hits(props, fields), |fields|;
    var records := Group(hits, fields).records;
    HitsMembers(props, fields);
    GroupExact(hits, fields);
    RowCount(hits, Group(hits, fields), n, j);
    if j < |records| {
      assert IsRow(hits, j, n, records[j]);
      RowHolds(hits, j * n, (j + 1) * n);
    }
  }

  // ---- printing and parsing again ----------------------------------------------------------

  /** The properties of one record: each requested field once, others in between. */
  ghost predicate IsBlock(props: seq<Prop>, fields: seq<string>) {
    && |Hits(props, fields)| == |fields|
    && forall i, j | 0 <= i < j < |fields| :: Hits(props, fields)[i].name != Hits(props, fields)[j].name
  }

  function Flat(blocks: seq<seq<Prop>>): seq<Prop> {
    if blocks == [] then [] else Flat(blocks[..|blocks| - 1]) + blocks[|blocks| - 1]
  }

  lemma {:induction false} HitsAppend(a: seq<Prop>, b: seq<Prop>, fields: seq<string>)
    ensures Hits(a + b, fields) == Hits(a, fields) + Hits(b, fields)
    decreases |b|
  {
    if b == [] {
      assert a + b == a;
    } else {
      assert (a + b)[..|a + b| - 1] == a + b[..|b| - 1];
      HitsAppend(a, b[..|b| - 1], fields);
    }
  }

  lemma {:induction false} NoHits(props: seq<Prop>, fields: seq<string>)
    requires forall p | p in props :: p.name !in fields
    ensures Hits(props, fields) == []
    decreases |props|
  {
    if props != [] {
      assert props[|props| - 1] in props;
      NoHits(props[..|props| - 1], fields);
    }
  }

  lemma {:induction false} OnceEach(fields: seq<string>, name: string)
    requires Distinct(fields)
    ensures multiset(fields)[name] == if name in fields then 1 else 0
    decreases |fields|
  {
    if fields != [] {
      var front, last := fields[..|fields| - 1], fields[|fields| - 1];
      OnceEach(front, name);
      assert fields == front + [last];
      assert last !in front;
    }
  }

  lemma GroupStep(hits: seq<Prop>, g: Grouped, p: Prop, fields: seq<string>)
    requires Group(hits, fields) == g
    ensures Group(hits + [p], fields)
            == if Weight(g.partial + [p], fields) == |fields| then Grouped(g.records + [RecordOf(g.partial + [p])], [])
               else Grouped(g.records, g.partial + [p])
  {
    GroupLast(hits, p, fields);
  }

  /** A requested property adds one to the weight. */
  lemma WeightStep(props: seq<Prop>, p: Prop, fields: seq<string>)
    requires Distinct(fields) && p.name in fields
    ensures Weight(props + [p], fields) == Weight(props, fields) + 1
  {
    WeightLast(props, p, fields);
    OnceEach(fields, p.name);
  }

  lemma {:induction false} GroupPart(hits: seq<Prop>, records: seq<Record>, part: seq<Prop>, fields: seq<string>)
    requires Group(hits, fields) == Grouped(records, []) && Distinct(fields) && |part| < |fields|
    requires forall p | p in part :: p.name in fields
    ensures Group(hits + part, fields) == Grouped(records, part)
    ensures Weight(part, fields) == |part|
    decreases |part|
  {
    if part == [] {
      assert hits + part == hits;
    } else {
      var front, p := part[..|part| - 1], part[|part| - 1];
      assert part == front + [p];
      var all := hits + front;
      assert hits + part == all + [p];
      GroupPart(hits, records, front, fields);
      WeightStep(front, p, fields);
      GroupStep(all, Grouped(records, front), p, fields);
    }
  }

  lemma GroupBlock(hits: seq<Prop>, records: seq<Record>, block: seq<Prop>, fields: seq<string>)
    requires Group(hits, fields) == Grouped(records, []) && Distinct(fields) && |block| == |fields| > 0
    requires forall p | p in block :: p.name in fields
    ensures Group(hits + block, fields) == Grouped(records + [RecordOf(block)], [])
  {
    var front, p := block[..|block| - 1], block[|block| - 1];
    assert block == front + [p];
    var all := hits + front;
    assert hits + block == all + [p];
    GroupPart(hits, records, front, fields);
    WeightStep(front, p, fields);
    GroupStep(all, Grouped(records, front), p, fields);
  }

  /** The record of a block has each of its fields with the text printed for it. */
  lemma {:induction false} RecordHolds(props: seq<Prop>)
    requires forall i, j | 0 <= i < j < |props| :: props[i].name != props[j].name
    ensures forall p | p in props :: p.name in RecordOf(props) && RecordOf(props)[p.name] == p.text
    ensures forall name | name in RecordOf(props) :: exists p :: p in props && p.name == name
    decreases |props|
  {
    if props != [] {
      var front, last := props[..|props| - 1], props[|props| - 1];
      RecordHolds(front);
      assert props == front + [last];
      assert last in props;
      assert forall p | p in front :: p.name != last.name;
    }
  }

  function BlockRecords(blocks: seq<seq<Prop>>, fields: seq<string>): seq<Record> {
    seq(|blocks|, i requires 0 <= i < |blocks| => RecordOf(Hits(blocks[i], fields)))
  }

  lemma BlockRecordsLast(blocks: seq<seq<Prop>>, block: seq<Prop>, fields: seq<string>)
    ensures BlockRecords(blocks + [block], fields) == BlockRecords(blocks, fields) + [RecordOf(Hits(block, fields))]
  {
  }

  lemma FlatLast(blocks: seq<seq<Prop>>, block: seq<Prop>)
    ensures Flat(blocks + [block]) == Flat(blocks) + block
  {
    assert (blocks + [block])[..|blocks|] == blocks;
  }

  lemma {:induction false} GroupsOfBlocks(blocks: seq<seq<Prop>>, fields: seq<string>)
    requires fields != [] && Distinct(fields) && forall b | b in blocks :: IsBlock(b, fields)
    ensures Group(Hits(Flat(blocks), fields), fields) == Grouped(BlockRecords(blocks, fields), [])
    decreases |blocks|
  {
    if blocks != [] {
      var front, last := blocks[..|blocks| - 1], blocks[|blocks| - 1];
      assert blocks == front + [last] && last in blocks;
      GroupsOfBlocks(front, fields);
      FlatLast(front, last);
      HitsAppend(Flat(front), last, fields);
      HitsMembers(last, fields);
      GroupBlock(Hits(Flat(front), fields), BlockRecords(front, fields), Hits(last, fields), fields);
      BlockRecordsLast(front, last, fields);
    }
  }

  lemma PrintedGroups(blocks: seq<seq<Prop>>, tail: seq<Prop>, fields: seq<string>)
    requires fields != [] && Distinct(fields) && forall b | b in blocks :: IsBlock(b, fields)
    requires tail != [] && forall p | p in tail :: p.name !in fields
    ensures LastHit(Flat(blocks) + tail, fields) == Some(false)
    ensures RecordsOf(Flat(blocks) + tail, fields) == Numbered(BlockRecords(blocks, fields))
  {
    HitsAppend(Flat(blocks), tail, fields);
    NoHits(tail, fields);
    assert Hits(Flat(blocks) + tail, fields) == Hits(Flat(blocks), fields);
    GroupsOfBlocks(blocks, fields);
    assert tail[|tail| - 1] in tail;
  }

  /** Parsing undoes printing: k blocks and a trailing unrequested property give back the k records, in order. */
  method ParsePrinted(blocks: seq<seq<Prop>>, tail: seq<Prop>, fields: seq<string>) returns (data: Option<map<nat, Record>>)
    requires fields != [] && Distinct(fields)
    requires forall b | b in blocks :: IsBlock(b, fields)
    requires tail != [] && forall p | p in tail :: p.name !in fields
    ensures data == Some(Numbered(BlockRecords(blocks, fields)))
  {
    PrintedGroups(blocks, tail, fields);
    data := ParseXml(Flat(blocks) + tail, fields);
  }

  /** The record of a block has each requested field, with the text printed for it, and nothing else. */
  lemma BlockRecordExact(block: seq<Prop>, fields: seq<string>)
    requires Distinct(fields) && IsBlock(block, fields)
    ensures var r := RecordOf(Hits(block, fields));
            && (forall p | p in block && p.name in fields :: p.name in r && r[p.name] == p.text)
            && r.Keys == set f | f in fields
  {
    var hits := Hits(block, fields);
    RecordHolds(hits);
    HitsMembers(block, fields);
    var r, wanted := RecordOf(hits), set f | f in fields;
    NamesCount(hits);
    FieldsCount(fields);
    assert r.Keys == set p | p in hits :: p.name;
    assert r.Keys <= wanted;
    SubsetSameSize(r.Keys, wanted);
  }

  lemma {:induction false} HitsMembers(props: seq<Prop>, fields: seq<string>)
    ensures forall p :: p in Hits(props, fields) <==> p in props && p.name in fields
    decreases |props|
  {
    if props != [] {
      HitsMembers(props[..|props| - 1], fields);
      assert props == props[..|props| - 1] + [props[|props| - 1]];
    }
  }

  lemma {:induction false} NamesCount(props: seq<Prop>)
    requires forall i, j | 0 <= i < j < |props| :: props[i].name != props[j].name
    ensures |set p | p in props :: p.name| == |props|
    decreases |props|
  {
    if props != [] {
      var front, last := props[..|props| - 1], props[|props| - 1];
      NamesCount(front);
      assert props == front + [last];
      assert (set p | p in props :: p.name) == (set p | p in front :: p.name) + {last.name};
      assert last.name !in set p | p in front :: p.name;
    }
  }

  lemma {:induction false} FieldsCount(fields: seq<string>)
    requires Distinct(fields)
    ensures |set f | f in fields| == |fields|
    decreases |fields|
  {
    if fields != [] {
      var front, last := fields[..|fields| - 1], fields[|fields| - 1];
      FieldsCount(front);
      assert fields == front + [last];
      assert (set f | f in fields) == (set f | f in front) + {last};
      assert last !in front;
    }
  }

  lemma SubsetSameSize<T>(a: set<T>, b: set<T>)
    requires a <= b && |a| == |b|
    ensures a == b
  {
    assert |b - a| == |b| - |a|;
    assert b - a == {};
  }
}
