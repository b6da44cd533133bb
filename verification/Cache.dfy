/** The in-memory cache: a deque of keys beside a dictionary, against a bounded insertion-order map. */
module Cache {
  import opened Wrappers

  // ---- the simple map ------------------------------------------------------------------

  // Pairs, in the order their keys were stored.

  function Find<K(==), V>(s: seq<(K, V)>, key: K): Option<V> {
    if s == [] then None else if s[0].0 == key then Some(s[0].1) else Find(s[1..], key)
  }

  function Removed<K(==), V>(s: seq<(K, V)>, key: K): seq<(K, V)> {
    if s == [] then [] else if s[0].0 == key then s[1..] else [s[0]] + Removed(s[1..], key)
  }

  function Replaced<K(==), V>(s: seq<(K, V)>, key: K, value: V): seq<(K, V)> {
    if s == [] then [] else if s[0].0 == key then [(key, value)] + s[1..] else [s[0]] + Replaced(s[1..], key, value)
  }

  /** A known key keeps its place; a new one goes to the end and may push the oldest out. */
  function Stored<K(==), V>(s: seq<(K, V)>, maxsize: nat, key: K, value: V): seq<(K, V)> {
    if Find(s, key).Some? then Replaced(s, key, value)
    else
      var longer := s + [(key, value)];
      if |longer| > maxsize then longer[1..] else longer
  }

  datatype Op<K, V> = Store(key: K, value: V) | Lookup(key: K) | Delete(key: K) | PopOne(key: K)

  /** The effect of an operation on the simple map. */
  function Applied<K(==), V>(s: seq<(K, V)>, maxsize: nat, op: Op<K, V>): seq<(K, V)> {
    match op
    case Store(key, value) => Stored(s, maxsize, key, value)
    case Lookup(_) => s
    case Delete(key) => Removed(s, key)
    case PopOne(key) => Removed(s, key)
  }

  // ---- deque and dictionary --------------------------------------------------------------

  datatype Tables<K, V> = Tables(fifo: seq<K>, table: map<K, V>)

  /** The effect of an operation on the two tables; pop_one leaves the key in the deque. */
  function Worked<K(==), V>(t: Tables<K, V>, maxsize: nat, op: Op<K, V>): Tables<K, V> {
    match op
    case Store(key, value) =>
      var fifo := if key in t.table then t.fifo else t.fifo + [key];
      var table := t.table[key := value];
      if |fifo| > maxsize then Tables(fifo[1..], table - {fifo[0]}) else Tables(fifo, table)
    case Lookup(_) => t
    case Delete(key) => Tables(WithoutFirst(t.fifo, key), t.table - {key})
    case PopOne(key) => Tables(t.fifo, t.table - {key})
  }

  /** The deque lists every key of the dictionary once and no other. */
  ghost predicate Agrees<K, V>(t: Tables<K, V>, maxsize: nat) {
    && (forall i, j | 0 <= i < j < |t.fifo| :: t.fifo[i] != t.fifo[j])
    && (forall k | k in t.fifo :: k in t.table)
    && (forall k | k in t.table :: k in t.fifo)
    && |t.fifo| <= maxsize
  }

  /** With pop_one: every key of the dictionary is still in the deque. */
  ghost predicate Covers<K, V>(t: Tables<K, V>, maxsize: nat) {
    (forall k | k in t.table :: k in t.fifo) && |t.fifo| <= maxsize
  }

  ghost function PairsOf<K, V>(fifo: seq<K>, table: map<K, V>): seq<(K, V)>
    requires forall k | k in fifo :: k in table
  {
    seq(|fifo|, i requires 0 <= i < |fifo| => assert fifo[i] in fifo; (fifo[i], table[fifo[i]]))
  }

  lemma {:induction false} FindPairs<K, V>(fifo: seq<K>, table: map<K, V>, key: K)
    requires forall k | k in fifo :: k in table
    ensures Find(PairsOf(fifo, table), key) == if key in fifo then Some(table[key]) else None
  {
    if fifo != [] {
      assert fifo[0] in fifo;
      assert PairsOf(fifo, table)[1..] == PairsOf(fifo[1..], table);
      FindPairs(fifo[1..], table, key);
    }
  }

  lemma PairsCons<K, V>(fifo: seq<K>, table: map<K, V>)
    requires fifo != [] && forall k | k in fifo :: k in table
    ensures fifo[0] in table && PairsOf(fifo, table) == [(fifo[0], table[fifo[0]])] + PairsOf(fifo[1..], table)
  {
    assert fifo[0] in fifo;
  }

  lemma {:induction false} RemovePairs<K, V>(fifo: seq<K>, table: map<K, V>, key: K)
    requires forall k | k in fifo :: k in table
    requires forall i, j | 0 <= i < j < |fifo| :: fifo[i] != fifo[j]
    ensures forall k | k in WithoutFirst(fifo, key) :: k in table - {key}
    ensures Removed(PairsOf(fifo, table), key) == PairsOf(WithoutFirst(fifo, key), table - {key})
  {
    WithoutFirstMembers(fifo, key);
    if fifo != [] {
      var rest := fifo[1..];
      PairsCons(fifo, table);
      assert fifo[0] !in rest;
      if fifo[0] != key {
        var kept := WithoutFirst(rest, key);
        RemovePairs(rest, table, key);
        assert ([fifo[0]] + kept)[1..] == kept;
        PairsCons([fifo[0]] + kept, table - {key});
      }
    }
  }

  lemma {:induction false} ReplacePairs<K, V>(fifo: seq<K>, table: map<K, V>, key: K, value: V)
    requires forall k | k in fifo :: k in table
    requires forall i, j | 0 <= i < j < |fifo| :: fifo[i] != fifo[j]
    ensures Replaced(PairsOf(fifo, table), key, value) == PairsOf(fifo, table[key := value])
  {
    if fifo != [] {
      var rest := fifo[1..];
      assert fifo[0] in fifo;
      assert PairsOf(fifo, table)[1..] == PairsOf(rest, table);
      assert PairsOf(fifo, table[key := value]) == [(fifo[0], table[key := value][fifo[0]])] + PairsOf(rest, table[key := value]);
      if fifo[0] == key {
        assert key !in rest;
        assert PairsOf(rest, table) == PairsOf(rest, table[key := value]);
      } else {
        ReplacePairs(rest, table, key, value);
      }
    }
  }

  lemma DeleteRefines<K, V>(t: Tables<K, V>, maxsize: nat, key: K)
    requires Agrees(t, maxsize)
    ensures var t' := Worked(t, maxsize, Op.Delete(key));
            Agrees(t', maxsize) && PairsOf(t'.fifo, t'.table) == Removed(PairsOf(t.fifo, t.table), key)
  {
    WithoutFirstMembers(t.fifo, key);
    RemovePairs(t.fifo, t.table, key);
    WithoutFirstKeeps(t.fifo, key);
  }

  lemma StoreRefines<K, V>(t: Tables<K, V>, maxsize: nat, key: K, value: V)
    requires Agrees(t, maxsize)
    ensures var t' := Worked(t, maxsize, Op.Store(key, value));
            Agrees(t', maxsize) && PairsOf(t'.fifo, t'.table) == Stored(PairsOf(t.fifo, t.table), maxsize, key, value)
  {
    FindPairs(t.fifo, t.table, key);
    if key in t.table {
      ReplacePairs(t.fifo, t.table, key, value);
    } else {
      var fifo, table := t.fifo + [key], t.table[key := value];
      assert forall k | k in fifo :: k in table;
      assert PairsOf(fifo, table) == PairsOf(t.fifo, t.table) + [(key, value)];
      assert forall k | k in table :: k in fifo;
      if |fifo| > maxsize { EvictOldest(Tables(fifo, table)); }
    }
  }

  lemma EvictOldest<K, V>(t: Tables<K, V>)
    requires Agrees(t, |t.fifo|) && t.fifo != []
    ensures Agrees(Tables(t.fifo[1..], t.table - {t.fifo[0]}), |t.fifo| - 1)
    ensures PairsOf(t.fifo[1..], t.table - {t.fifo[0]}) == PairsOf(t.fifo, t.table)[1..]
  {
    var first, rest := t.fifo[0], t.fifo[1..];
    assert first !in rest;
    assert forall k :: k in t.fifo <==> k == first || k in rest;
    PairsCons(t.fifo, t.table);
  }

  /** The two tables behave as the simple map. */
  lemma WorkedRefines<K, V>(t: Tables<K, V>, maxsize: nat, op: Op<K, V>)
    requires Agrees(t, maxsize) && !op.PopOne?
    ensures Agrees(Worked(t, maxsize, op), maxsize)
    ensures PairsOf(Worked(t, maxsize, op).fifo, Worked(t, maxsize, op).table)
         == Applied(PairsOf(t.fifo, t.table), maxsize, op)
  {
    match op
    case Lookup(_) =>
    case Delete(key) => DeleteRefines(t, maxsize, key);
    case Store(key, value) => StoreRefines(t, maxsize, key, value);
  }

  /** Whatever the operations, the dictionary's keys stay in the deque, which never outgrows its bound. */
  lemma WorkedCovers<K, V>(t: Tables<K, V>, maxsize: nat, op: Op<K, V>)
    requires Covers(t, maxsize)
    ensures Covers(Worked(t, maxsize, op), maxsize)
    ensures |Worked(t, maxsize, op).table| <= maxsize
  {
    var t' := Worked(t, maxsize, op);
    match op {
      case Lookup(_) =>
      case PopOne(_) =>
      case Delete(key) => WithoutFirstKeeps(t.fifo, key);
      case Store(key, value) =>
        var fifo := if key in t.table then t.fifo else t.fifo + [key];
        assert forall k | k in fifo && k != fifo[0] :: k in fifo[1..];
    }
    CoveredSize(t'.fifo, t'.table);
  }

  lemma {:induction false} WithoutFirstKeeps<K>(fifo: seq<K>, key: K)
    ensures |WithoutFirst(fifo, key)| <= |fifo|
    ensures forall k | k in fifo && k != key :: k in WithoutFirst(fifo, key)
  {
    if fifo != [] { WithoutFirstKeeps(fifo[1..], key); }
  }

  lemma {:induction false} CoveredSize<K, V>(fifo: seq<K>, table: map<K, V>)
    requires forall k | k in table :: k in fifo
    ensures |table| <= |fifo|
    decreases |fifo|
  {
    if fifo == [] {
      assert table.Keys == {};
    } else {
      var rest := table - {fifo[0]};
      CoveredSize(fifo[1..], rest);
      assert rest.Keys == table.Keys - {fifo[0]};
      assert |table.Keys| <= |rest.Keys| + 1;
    }
  }

  function WorkedAll<K(==), V>(t: Tables<K, V>, maxsize: nat, ops: seq<Op<K, V>>): Tables<K, V> {
    if ops == [] then t else Worked(WorkedAll(t, maxsize, ops[..|ops| - 1]), maxsize, ops[|ops| - 1])
  }

  function AppliedAll<K(==), V>(s: seq<(K, V)>, maxsize: nat, ops: seq<Op<K, V>>): seq<(K, V)> {
    if ops == [] then s else Applied(AppliedAll(s, maxsize, ops[..|ops| - 1]), maxsize, ops[|ops| - 1])
  }

  /** Any sequence of store, lookup and delete on a new cache leaves what it leaves in the simple map. */
  lemma {:induction false} CacheRefinesMap<K, V>(maxsize: nat, ops: seq<Op<K, V>>)
    requires forall op | op in ops :: !op.PopOne?
    ensures var t := WorkedAll(Tables([], map[]), maxsize, ops);
            && Agrees(t, maxsize)
            && PairsOf(t.fifo, t.table) == AppliedAll([], maxsize, ops)
    decreases |ops|
  {
    if ops == [] {
      assert PairsOf<K, V>([], map[]) == [];
    } else {
      var front, last := ops[..|ops| - 1], ops[|ops| - 1];
      assert last in ops;
      CacheRefinesMap(maxsize, front);
      WorkedRefines(WorkedAll(Tables([], map[]), maxsize, front), maxsize, last);
    }
  }

  /** With pop_one among the operations the bound still holds. */
  lemma {:induction false} CacheStaysBounded<K, V>(maxsize: nat, ops: seq<Op<K, V>>)
    ensures var t := WorkedAll(Tables([], map[]), maxsize, ops);
            Covers(t, maxsize) && |t.table| <= maxsize
    decreases |ops|
  {
    if ops != [] {
      var front := ops[..|ops| - 1];
      CacheStaysBounded(maxsize, front);
      WorkedCovers(WorkedAll(Tables([], map[]), maxsize, front), maxsize, ops[|ops| - 1]);
    }
  }

  /**
   A stored value can be looked up at once exactly when the bound is positive and the key is not
   the dead head of a full deque: pop_one leaves its key behind, and storing that key again
   evicts the left-over together with the new value.
   */
  lemma StoredIsFound<K, V>(t: Tables<K, V>, maxsize: nat, key: K, value: V)
    requires Covers(t, maxsize)
    ensures var t' := Worked(t, maxsize, Store(key, value));
            && (key in t'.table ==> t'.table[key] == value)
            && (key in t'.table
               <==> maxsize > 0 && !(key !in t.table && |t.fifo| == maxsize && t.fifo[0] == key))
  {
  }

  /** Without pop_one every stored value is found, if there is room for any. */
  lemma StoredIsFoundWithoutPops<K, V>(t: Tables<K, V>, maxsize: nat, key: K, value: V)
    requires Agrees(t, maxsize) && maxsize > 0
    ensures var t' := Worked(t, maxsize, Store(key, value));
            key in t'.table && t'.table[key] == value
  {
    assert t.fifo != [] ==> t.fifo[0] in t.fifo;
    StoredIsFound(t, maxsize, key, value);
  }

  // ---- deleting what was popped ----------------------------------------------------------------

  /** `after` is the list without the first occurrence of the key, if it has one, and otherwise as it was. */
  ghost predicate FirstGone<K>(before: seq<K>, key: K, after: seq<K>) {
    if key in before then
      exists i :: 0 <= i < |before| && before[i] == key && key !in before[..i] && after == before[..i] + before[i + 1..]
    else after == before
  }

  lemma FirstGoneIs<K>(before: seq<K>, key: K)
    ensures FirstGone(before, key, WithoutFirst(before, key))
  {
    if key in before {
      var i := FirstIndex(before, key);
      assert key !in before[..i];
      FirstAt(before, key, i);
    } else {
      assert before[..|before|] == before;
      FirstAt(before, key, |before|);
    }
  }

  lemma OneApart<K>(a: seq<K>, key: K, b: seq<K>)
    ensures multiset(a + b) == multiset(a + [key] + b) - multiset{key}
  {
    assert multiset(a + [key] + b) == multiset(a) + multiset{key} + multiset(b);
  }

  lemma FirstGoneCounts<K>(before: seq<K>, key: K, after: seq<K>)
    requires FirstGone(before, key, after)
    ensures multiset(after) == multiset(before) - multiset{key}
  {
    if key in before {
      var i :| 0 <= i < |before| && before[i] == key && after == before[..i] + before[i + 1..];
      OneApart(before[..i], key, before[i + 1..]);
      assert before == before[..i] + [key] + before[i + 1..];
    } else {
      assert key !in multiset(before);
    }
  }

  /** One occurrence less in the deque, the others in their order; the dictionary loses the key and no other. */
  lemma DeleteExact<K, V>(t: Tables<K, V>, maxsize: nat, key: K)
    ensures var t' := Worked(t, maxsize, Op.Delete(key));
            && FirstGone(t.fifo, key, t'.fifo) && multiset(t'.fifo) == multiset(t.fifo) - multiset{key}
            && t'.table.Keys == t.table.Keys - {key}
            && forall k | k in t'.table :: t'.table[k] == t.table[k]
  {
    FirstGoneIs(t.fifo, key);
    FirstGoneCounts(t.fifo, key, WithoutFirst(t.fifo, key));
  }

  /** Each pop is at once followed by the deletion of the popped key. */
  predicate PopsDeleted<K(==), V(==)>(ops: seq<Op<K, V>>) {
    forall i | 0 <= i < |ops| && ops[i].PopOne? :: i + 1 < |ops| && ops[i + 1] == Op.Delete(ops[i].key)
  }

  /** Deleting after the pop is deleting at once. */
  lemma PopThenDelete<K, V>(t: Tables<K, V>, maxsize: nat, key: K)
    ensures Worked(Worked(t, maxsize, Op.PopOne(key)), maxsize, Op.Delete(key)) == Worked(t, maxsize, Op.Delete(key))
  {
    assert t.table - {key} - {key} == t.table - {key};
  }

  lemma {:induction false} RemovedAbsent<K, V>(s: seq<(K, V)>, key: K)
    requires Find(s, key).None?
    ensures Removed(s, key) == s
  {
    if s != [] {
      RemovedAbsent(s[1..], key);
    }
  }

  /** Removing a key twice from pairs with distinct keys is removing it once. */
  lemma RemovedTwice<K, V>(t: Tables<K, V>, maxsize: nat, key: K)
    requires Agrees(t, maxsize)
    ensures Removed(Removed(PairsOf(t.fifo, t.table), key), key) == Removed(PairsOf(t.fifo, t.table), key)
  {
    DeleteRefines(t, maxsize, key);
    var t' := Worked(t, maxsize, Op.Delete(key));
    FindPairs(t'.fifo, t'.table, key);
    RemovedAbsent(PairsOf(t'.fifo, t'.table), key);
  }

  lemma PairRefines<K, V>(t: Tables<K, V>, maxsize: nat, key: K)
    requires Agrees(t, maxsize)
    ensures var pop, del := Op<K, V>.PopOne(key), Op<K, V>.Delete(key);
            var t' := Worked(Worked(t, maxsize, pop), maxsize, del);
            && Agrees(t', maxsize)
            && PairsOf(t'.fifo, t'.table) == Applied(Applied(PairsOf(t.fifo, t.table), maxsize, pop), maxsize, del)
  {
    PopThenDelete(t, maxsize, key);
    DeleteRefines(t, maxsize, key);
    RemovedTwice(t, maxsize, key);
  }

  /**
   The repository's own use: any history in which each popped key is at once deleted leaves agreeing tables
   and the contents of the simple map, from which both the pop and the deletion remove the key.
   */
  lemma {:induction false} PoppedAndDeleted<K, V>(maxsize: nat, ops: seq<Op<K, V>>)
    requires PopsDeleted(ops)
    ensures var t := WorkedAll(Tables([], map[]), maxsize, ops);
            && Agrees(t, maxsize)
            && PairsOf(t.fifo, t.table) == AppliedAll([], maxsize, ops)
    decreases |ops|
  {
    if ops == [] {
      assert PairsOf<K, V>([], map[]) == [];
    } else {
      var n := |ops| - 1;
      var front, last := ops[..n], ops[n];
      assert !last.PopOne?;
      if n > 0 && ops[n - 1].PopOne? {
        LastTwo(ops);
        assert n > 1 ==> !ops[n - 2].PopOne?;
        PopsDeletedPart(ops, n - 1);
        PoppedAndDeleted(maxsize, ops[..n - 1]);
        PairRefines(WorkedAll(Tables([], map[]), maxsize, ops[..n - 1]), maxsize, last.key);
      } else {
        PopsDeletedPart(ops, n);
        PoppedAndDeleted(maxsize, front);
        WorkedRefines(WorkedAll(Tables([], map[]), maxsize, front), maxsize, last);
      }
    }
  }

  lemma LastTwo<T>(xs: seq<T>)
    requires |xs| >= 2
    ensures xs[..|xs| - 1][..|xs| - 2] == xs[..|xs| - 2] && xs[..|xs| - 1][|xs| - 2] == xs[|xs| - 2]
  {
  }

  lemma PopsDeletedPart<K, V>(ops: seq<Op<K, V>>, n: nat)
    requires PopsDeleted(ops) && n <= |ops| && (n > 0 ==> !ops[n - 1].PopOne?)
    ensures PopsDeleted(ops[..n])
  {
  }

  // ---- how long a key survives ----------------------------------------------------------------

  function FirstIndex<K(==)>(fifo: seq<K>, key: K): (i: nat)
    requires key in fifo
    ensures i < |fifo| && fifo[i] == key && forall j | 0 <= j < i :: fifo[j] != key
  {
    if fifo[0] == key then 0 else 1 + FirstIndex(fifo[1..], key)
  }

  /** How many more keys fit in before this one is pushed out: its first place in the deque counts, dead or not. */
  function Slack<K(==), V>(t: Tables<K, V>, maxsize: nat, key: K): int
    requires key in t.fifo
  {
    maxsize - |t.fifo| + FirstIndex(t.fifo, key)
  }

  predicate IsNewStore<K(==), V>(t: Tables<K, V>, op: Op<K, V>) {
    op.Store? && op.key !in t.table
  }

  /** The stores of these operations that bring a key the dictionary does not hold. */
  function NewStores<K(==), V>(t: Tables<K, V>, maxsize: nat, ops: seq<Op<K, V>>): nat {
    if ops == [] then 0
    else
      var front := ops[..|ops| - 1];
      NewStores(t, maxsize, front) + if IsNewStore(WorkedAll(t, maxsize, front), ops[|ops| - 1]) then 1 else 0
  }

  /** The deque with one more key, and its head dropped if that is too many. */
  lemma PlaceAfterNew<K>(fifo: seq<K>, key: K, more: K)
    requires key in fifo && more != key
    ensures key in fifo + [more] && FirstIndex(fifo + [more], key) == FirstIndex(fifo, key)
    ensures FirstIndex(fifo, key) > 0 ==>
              && key in (fifo + [more])[1..]
              && FirstIndex((fifo + [more])[1..], key) == FirstIndex(fifo, key) - 1
  {
    var i, all := FirstIndex(fifo, key), fifo + [more];
    if i > 0 {
      assert all[1..][i - 1] == key && forall j | 0 <= j < i - 1 :: all[1..][j] == fifo[j + 1];
    }
  }

  /** One operation that neither names the key nor deletes: the key goes exactly when the slack is used up. */
  lemma SlackStep<K, V>(t: Tables<K, V>, maxsize: nat, key: K, op: Op<K, V>)
    requires Covers(t, maxsize) && key in t.table && op.key != key && !op.Delete?
    ensures Slack(t, maxsize, key) >= 0
    ensures var t' := Worked(t, maxsize, op);
            && Covers(t', maxsize)
            && (key in t'.table <==> !(IsNewStore(t, op) && Slack(t, maxsize, key) == 0))
            && (key in t'.table ==>
                  t'.table[key] == t.table[key]
                  && Slack(t', maxsize, key) == Slack(t, maxsize, key) - if IsNewStore(t, op) then 1 else 0)
  {
    WorkedCovers(t, maxsize, op);
    if IsNewStore(t, op) { PlaceAfterNew(t.fifo, key, op.key); }
  }

  /**
   How long a key survives, pops of other keys or not: while it is not named and nothing is deleted it is
   there, with its value, if and only if no more new keys have been stored than its slack.
   */
  lemma {:induction false} SurvivesExactly<K, V>(t: Tables<K, V>, maxsize: nat, key: K, ops: seq<Op<K, V>>)
    requires Covers(t, maxsize) && key in t.table
    requires forall op | op in ops :: op.key != key && !op.Delete?
    ensures var t' := WorkedAll(t, maxsize, ops);
            && Covers(t', maxsize)
            && (key in t'.table <==> NewStores(t, maxsize, ops) <= Slack(t, maxsize, key))
            && (key in t'.table ==>
                  t'.table[key] == t.table[key]
                  && Slack(t', maxsize, key) == Slack(t, maxsize, key) - NewStores(t, maxsize, ops))
    decreases |ops|
  {
    if ops == [] {
      assert Slack(t, maxsize, key) >= 0;
    } else {
      var front, last := ops[..|ops| - 1], ops[|ops| - 1];
      assert last in ops && forall op | op in front :: op in ops;
      SurvivesExactly(t, maxsize, key, front);
      var mid := WorkedAll(t, maxsize, front);
      if key in mid.table {
        SlackStep(mid, maxsize, key, last);
      } else {
        WorkedCovers(mid, maxsize, last);
      }
    }
  }

  lemma {:induction false} FirstIndexWithout<K>(fifo: seq<K>, key: K, other: K)
    requires key in fifo && other != key
    ensures key in WithoutFirst(fifo, other)
    ensures FirstIndex(WithoutFirst(fifo, other), key) - |WithoutFirst(fifo, other)| >= FirstIndex(fifo, key) - |fifo|
  {
    if fifo[0] != other && fifo[0] != key {
      FirstIndexWithout(fifo[1..], key, other);
      var rest := WithoutFirst(fifo[1..], other);
      assert ([fifo[0]] + rest)[1..] == rest;
    } else if fifo[0] == key {
      WithoutFirstKeeps(fifo, other);
    }
  }

  /** Deletions of other keys only make it last longer: so many new keys can always be stored. */
  lemma {:induction false} SurvivesAtLeast<K, V>(t: Tables<K, V>, maxsize: nat, key: K, ops: seq<Op<K, V>>)
    requires Covers(t, maxsize) && key in t.table
    requires forall op | op in ops :: op.key != key
    requires NewStores(t, maxsize, ops) <= Slack(t, maxsize, key)
    ensures var t' := WorkedAll(t, maxsize, ops);
            && Covers(t', maxsize) && key in t'.table && t'.table[key] == t.table[key]
            && Slack(t', maxsize, key) >= Slack(t, maxsize, key) - NewStores(t, maxsize, ops)
    decreases |ops|
  {
    if ops != [] {
      var front, last := ops[..|ops| - 1], ops[|ops| - 1];
      assert last in ops && forall op | op in front :: op in ops;
      SurvivesAtLeast(t, maxsize, key, front);
      var mid := WorkedAll(t, maxsize, front);
      if last.Delete? {
        WorkedCovers(mid, maxsize, last);
        FirstIndexWithout(mid.fifo, key, last.key);
      } else {
        SlackStep(mid, maxsize, key, last);
      }
    }
  }

  /** A key new to agreeing tables - nothing was ever popped - outlives all but maxsize - 1 new keys. */
  lemma FreshSlack<K, V>(t: Tables<K, V>, maxsize: nat, key: K, value: V)
    requires Agrees(t, maxsize) && maxsize > 0 && key !in t.table
    ensures var t' := Worked(t, maxsize, Op.Store(key, value));
            key in t'.table && key in t'.fifo && Slack(t', maxsize, key) == maxsize - 1
  {
    StoredIsFoundWithoutPops(t, maxsize, key, value);
    var t' := Worked(t, maxsize, Op.Store(key, value));
    assert forall j | 0 <= j < |t.fifo| :: t.fifo[j] in t.fifo;
    assert t'.fifo[|t'.fifo| - 1] == key;
  }

  lemma WorkedLast<K, V>(t: Tables<K, V>, maxsize: nat, ops: seq<Op<K, V>>, op: Op<K, V>)
    ensures WorkedAll(t, maxsize, ops + [op]) == Worked(WorkedAll(t, maxsize, ops), maxsize, op)
  {
    assert (ops + [op])[..|ops|] == ops;
  }

  /** From an empty cache of one entry: store, pop and store the same key, and it is gone. */
  lemma StoredAgainAfterPop(key: string, v: int, w: int)
    ensures var ops := [Op.Store(key, v), Op.PopOne(key), Op.Store(key, w)];
            key !in WorkedAll(Tables([], map[]), 1, ops).table
  {
    var t0: Tables<string, int> := Tables([], map[]);
    var a, b, c := Op.Store(key, v), Op<string, int>.PopOne(key), Op.Store(key, w);
    WorkedLast(t0, 1, [], a);
    WorkedLast(t0, 1, [a], b);
    WorkedLast(t0, 1, [a, b], c);
    assert [] + [a] == [a] && [a] + [b] == [a, b] && [a, b] + [c] == [a, b, c];
    assert Worked(t0, 1, a).fifo == [key];
  }

  /** From an empty cache of two entries: the place left by a pop makes a live key the first to go. */
  lemma EvictedEarlyAfterPop(key: string, other: string, v: int)
    requires other != key
    ensures var ops := [Op.Store(key, v), Op.PopOne(key), Op.Store(key, v)] + [Op.Store(other, v)];
            WorkedAll(Tables([], map[]), 2, ops).table == map[other := v]
  {
    TwiceInDeque(key, v);
    WorkedLast(Tables([], map[]), 2, [Op.Store(key, v), Op.PopOne(key), Op.Store(key, v)], Op.Store(other, v));
    assert Worked(Tables([key, key], map[key := v]), 2, Op.Store(other, v)).table == map[other := v];
  }

  lemma TwiceInDeque(key: string, v: int)
    ensures WorkedAll(Tables([], map[]), 2, [Op.Store(key, v), Op.PopOne(key), Op.Store(key, v)])
            == Tables([key, key], map[key := v])
  {
    var t0: Tables<string, int> := Tables([], map[]);
    var a, b := Op.Store(key, v), Op<string, int>.PopOne(key);
    WorkedLast(t0, 2, [], a);
    WorkedLast(t0, 2, [a], b);
    WorkedLast(t0, 2, [a, b], a);
    assert [] + [a] == [a] && [a] + [b] == [a, b] && [a, b] + [a] == [a, b, a];
    assert Worked(t0, 2, a) == Tables([key], map[key := v]);
    assert Worked(Tables([key], map[key := v]), 2, b) == Tables([key], map[]);
  }

  lemma {:induction false} FirstAt<K>(keys: seq<K>, key: K, i: nat)
    requires i <= |keys| && key !in keys[..i] && (i < |keys| ==> keys[i] == key)
    ensures WithoutFirst(keys, key) == keys[..i] + if i < |keys| then keys[i + 1..] else []
  {
    if i > 0 {
      assert keys[0] == keys[..i][0];
      assert keys[1..][..i - 1] == keys[..i][1..];
      FirstAt(keys[1..], key, i - 1);
    }
  }

  // ---- the classes -------------------------------------------------------------------------

  /** LRUCache, with InMemoryDB's pop_one; each method runs under the cache's lock. */
  class InMemoryDB<K(==), V> {
    const maxsize: nat
    var fifo: seq<K>
    var table: map<K, V>

    function View(): Tables<K, V> reads this { Tables(fifo, table) }

    constructor (size: nat)
      ensures maxsize == size && View() == Tables([], map[])
    {
      maxsize, fifo, table := size, [], map[];
    }

    method Store(key: K, value: V)
      modifies this
      ensures View() == Worked(old(View()), maxsize, Op.Store(key, value))
      ensures key in old(table) && |old(fifo)| <= maxsize ==>
                fifo == old(fifo) && table == old(table)[key := value]
      ensures key !in old(table) && |old(fifo)| < maxsize ==>
                fifo == old(fifo) + [key] && table == old(table)[key := value]
      ensures key !in old(table) && |old(fifo)| >= maxsize ==>
                fifo == (old(fifo) + [key])[1..] && table == old(table)[key := value] - {(old(fifo) + [key])[0]}
    {
      if key !in table { fifo := fifo + [key]; }
      table := table[key := value];
      if |fifo| > maxsize && fifo != [] {
        var delKey := fifo[0];
        fifo := fifo[1..];
        table := table - {delKey};
      }
    }

    /** None is the KeyError. */
    method Lookup(key: K) returns (value: Option<V>)
      ensures value == if key in table then Some(table[key]) else None
      ensures Agrees(View(), maxsize) ==> value == Find(PairsOf(fifo, table), key)
    {
      value := if key in table then Some(table[key]) else None;
      if Agrees(View(), maxsize) { FindPairs(fifo, table, key); }
    }

    method Delete(key: K)
      modifies this
      ensures View() == Worked(old(View()), maxsize, Op.Delete(key))
      ensures table == old(table) - {key} && FirstGone(old(fifo), key, fifo)
    {
      FirstGoneIs(fifo, key);
      table := table - {key};
      fifo := RemoveFirst(fifo, key);
    }

    /** deque.remove: a search for the first occurrence. */
    method RemoveFirst(keys: seq<K>, key: K) returns (left: seq<K>)
      ensures left == WithoutFirst(keys, key)
    {
      var i := 0;
      while i < |keys| && keys[i] != key
        invariant i <= |keys| && key !in keys[..i]
      {
        i := i + 1;
      }
      left := keys[..i] + if i < |keys| then keys[i + 1..] else [];
      FirstAt(keys, key, i);
    }

    /** Any live entry; nothing when the table is empty. */
    method PopOne() returns (popped: Option<(K, V)>)
      modifies this
      ensures popped.None? <==> old(table) == map[]
      ensures popped.None? ==> View() == old(View())
      ensures popped.Some? ==> popped.value.0 in old(table) && popped.value.1 == old(table)[popped.value.0]
                               && View() == Worked(old(View()), maxsize, Op.PopOne(popped.value.0))
                               && fifo == old(fifo) && table == old(table) - {popped.value.0}
    {
      if table == map[] { return None; }
      var key :| key in table;
      popped := Some((key, table[key]));
      table := table - {key};
    }
  }
}
