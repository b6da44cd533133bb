/** `decrypt_all_passwd` in place: nested dictionaries as objects, rewritten entry by entry. */
module ConfigDict {
  import opened Wrappers
  import opened ConfigTree
  import Text

  /** An item of a dictionary object: a plain value or a reference to a nested dictionary. */
  datatype Slot = Leaf(key: string, value: Value) | Sub(key: string, dict: Dict)

  class Dict {
    var slots: seq<Slot>
    ghost var repr: set<Dict>

    /** A tree of dictionaries: each is reached along one path only. */
    ghost predicate Valid()
      reads this, repr
      decreases repr
    {
      && this in repr
      && (forall i | 0 <= i < |slots| :: SlotValid(slots[i]))
      && (forall i, j | 0 <= i < j < |slots| && slots[i].Sub? && slots[j].Sub? ::
            slots[i].dict.repr !! slots[j].dict.repr)
    }

    ghost predicate SlotValid(s: Slot)
      requires this in repr
      reads this, repr
      decreases repr, 0
    {
      match s
      case Leaf(_, v) => !v.Tree?
      case Sub(_, d) => d in repr && d.repr <= repr - {this} && d.Valid()
    }

    /** The entry a slot stands for. */
    ghost function EntryOf(s: Slot): Entry
      requires this in repr && SlotValid(s)
      reads this, repr
      decreases repr, 0
    {
      match s
      case Leaf(key, v) => Entry(key, v)
      case Sub(key, d) => Entry(key, Tree(d.Contents()))
    }

    ghost function Contents(): (c: seq<Entry>)
      requires Valid()
      reads this, repr
      decreases repr, 1
    {
      seq(|slots|, i requires 0 <= i < |slots| && Valid() reads this, repr => EntryOf(slots[i]))
    }

    /** A nested dictionary: the call changes its entry and no other. */
    method DecryptSub(dec: Decoder, i: nat) returns (ok: bool)
      requires Valid() && i < |slots| && slots[i].Sub?
      modifies slots[i].dict.repr
      ensures Valid() && repr == old(repr) && slots == old(slots)
      ensures ok <==> Passed(dec, old(Contents())[i]).Some?
      ensures ok ==> Contents() == old(Contents())[i := Passed(dec, old(Contents())[i]).value]
      decreases repr, 0
    {
      var d := slots[i].dict;
      assert SlotValid(slots[i]);
      forall j | 0 <= j < |slots| && j != i && slots[j].Sub?
        ensures slots[j].dict !in d.repr && slots[j].dict.repr !! d.repr
      {
        assert SlotValid(slots[j]) && slots[j].dict.Valid();
        if j < i { assert slots[j].dict.repr !! slots[i].dict.repr; }
      }
      label before:
      ok := d.DecryptAll(dec);
      forall j | 0 <= j < |slots|
        ensures SlotValid(slots[j])
        ensures slots[j].Sub? ==> slots[j].dict.repr == old@before(slots[j].dict.repr)
        ensures j != i ==> EntryOf(slots[j]) == old@before(EntryOf(slots[j]))
      {
        assert old@before(SlotValid(slots[j]));
      }
    }

    /** `new_val`: the elements decrypted in turn. */
    static method DecryptList(dec: Decoder, items: seq<Value>) returns (r: Option<seq<Value>>)
      ensures r == DecryptItems(dec, items)
    {
      var newVal: seq<Value> := [];
      for k := 0 to |items|
        invariant DecryptItems(dec, items[..k]) == Some(newVal)
        invariant DecryptItems(dec, items).Some? ==> DecryptItems(dec, items[..k]).Some?
      {
        assert items[..k + 1][..k] == items[..k];
        var v := DecryptOne(dec, items[k]);
        if v.None? {
          ItemsRaise(dec, items, k + 1);
          return None;
        }
        newVal := newVal + [v.value];
      }
      assert items[..|items|] == items;
      r := Some(newVal);
    }

    /** Any other value: replaced if its key is listed. */
    method DecryptSlot(dec: Decoder, i: nat) returns (ok: bool)
      requires Valid() && i < |slots| && slots[i].Leaf?
      modifies this`slots
      ensures Valid()
      ensures ok <==> Passed(dec, old(Contents())[i]).Some?
      ensures ok ==> Contents() == old(Contents())[i := Passed(dec, old(Contents())[i]).value]
    {
      var s := slots[i];
      assert SlotValid(s) && EntryOf(s) == Entry(s.key, s.value);
      ok := true;
      if IsPassword(s.key) {
        var v: Option<Value>;
        if s.value.Many? {
          var items := DecryptList(dec, s.value.items);
          v := if items.None? then None else Some(Many(items.value));
        } else {
          v := DecryptOne(dec, s.value);
        }
        if v.None? { return false; }
        Replace(i, Leaf(s.key, v.value));
      }
    }

    method Replace(i: nat, s: Slot)
      requires Valid() && i < |slots| && s.Leaf? && !s.value.Tree?
      modifies this`slots
      ensures Valid() && Contents() == old(Contents())[i := Entry(s.key, s.value)]
    {
      slots := slots[i := s];
      forall j | 0 <= j < |slots|
        ensures SlotValid(slots[j])
        ensures j != i ==> EntryOf(slots[j]) == old(EntryOf(slots[j]))
      {
        if j != i { assert slots[j] == old(slots[j]) && old(SlotValid(slots[j])); }
      }
    }

    method Remove(i: nat)
      requires Valid() && i < |slots|
      modifies this`slots
      ensures Valid() && Contents() == old(Contents())[..i] + old(Contents())[i + 1..]
    {
      ghost var was := slots;
      assert forall j | 0 <= j < |was| :: SlotValid(was[j]);
      label before:
      slots := slots[..i] + slots[i + 1..];
      forall j | 0 <= j < |was|
        ensures SlotValid(was[j]) && EntryOf(was[j]) == old@before(EntryOf(was[j]))
      {
        assert old@before(SlotValid(was[j]));
      }
      assert forall j | 0 <= j < |slots| :: slots[j] == was[if j < i then j else j + 1];
    }

    /** Decrypts the listed passwords of this dictionary and of those nested in it; false is an exception. */
    method DecryptAll(dec: Decoder) returns (ok: bool)
      requires Valid()
      modifies repr
      ensures Valid() && repr == old(repr)
      ensures ok <==> Decrypted(dec, old(Contents())).Some?
      ensures ok ==> Contents() == Decrypted(dec, old(Contents())).value
      decreases repr, 1
    {
      ghost var before := Contents();
      var i := 0;
      assert Passing(dec, before, 0, before) by {
        if Decrypted(dec, before).Some? { assert [] + Decrypted(dec, before).value == Decrypted(dec, before).value; }
      }
      while i < |slots|
        invariant Valid() && repr == old(repr) && i <= |slots| == |before|
        invariant Passing(dec, before, i, Contents())
        decreases |before| - i
      {
        var s := slots[i];
        assert SlotValid(s) && EntryOf(s) == before[i];
        PassingFurther(dec, before, i, Contents());
        if s.Sub? {
          ok := DecryptSub(dec, i);
        } else {
          ok := DecryptSlot(dec, i);
        }
        if !ok { return; }
        if s.Leaf? && s.key == "end" && s.value == Str("end") {
          Remove(i);
          return;
        }
        i := i + 1;
      }
      ok := true;
    }

    /** `data['end'] = 'end'`: in place when there is such a key. */
    method SetEnd()
      requires Valid()
      modifies this`slots
      ensures Valid() && Contents() == SetKey(old(Contents()), SENTINEL)
    {
      var i := 0;
      while i < |slots| && slots[i].key != "end"
        invariant i <= |slots| && forall j | 0 <= j < i :: slots[j].key != "end"
      {
        i := i + 1;
      }
      assert forall j | 0 <= j < |slots| :: Contents()[j].key == slots[j].key;
      SetAt(Contents(), i, SENTINEL);
      if i < |slots| {
        Replace(i, Leaf("end", Str("end")));
      } else {
        Append(Leaf("end", Str("end")));
      }
    }

    method Append(s: Slot)
      requires Valid() && s.Leaf? && !s.value.Tree?
      modifies this`slots
      ensures Valid() && Contents() == old(Contents()) + [Entry(s.key, s.value)]
    {
      var n := |slots|;
      slots := slots + [s];
      forall j | 0 <= j < n
        ensures SlotValid(slots[j]) && EntryOf(slots[j]) == old(EntryOf(slots[j]))
      {
        assert slots[j] == old(slots[j]) && old(SlotValid(slots[j]));
      }
    }

    /** `get_config_yaml` on the dictionary that was read. */
    method LoadConfig(dec: Decoder) returns (ok: bool)
      requires Valid()
      modifies repr
      ensures Valid()
      ensures ok <==> Load(dec, old(Contents())).Some?
      ensures ok ==> Contents() == Load(dec, old(Contents())).value
    {
      SetEnd();
      ok := DecryptAll(dec);
    }
  }

  lemma {:induction false} SetAt(entries: seq<Entry>, i: nat, e: Entry)
    requires i <= |entries| && forall j | 0 <= j < i :: entries[j].key != e.key
    requires i < |entries| ==> entries[i].key == e.key
    ensures SetKey(entries, e) == if i < |entries| then entries[i := e] else entries + [e]
  {
    if i > 0 {
      SetAt(entries[1..], i - 1, e);
    }
  }

  /** The loop at entry i: the entries before it have been passed, the others are as they were. */
  ghost predicate Passing(dec: Decoder, before: seq<Entry>, i: nat, now: seq<Entry>) {
    && i <= |now| == |before|
    && now[i..] == before[i..]
    && Decrypted(dec, before) == Joined(now[..i], Decrypted(dec, before[i..]))
  }

  /** What one round makes of it: an exception, an entry passed, or the end. */
  lemma PassingFurther(dec: Decoder, before: seq<Entry>, i: nat, now: seq<Entry>)
    requires Passing(dec, before, i, now) && i < |now|
    ensures now[i] == before[i]
    ensures Passed(dec, now[i]).None? ==> Decrypted(dec, before).None?
    ensures Passed(dec, now[i]).Some? ==>
              var then' := now[i := Passed(dec, now[i]).value];
              if IsSentinel(now[i]) then Decrypted(dec, before) == Some(then'[..i] + then'[i + 1..])
              else Passing(dec, before, i + 1, then')
  {
    assert now[i] == now[i..][0] == before[i..][0];
    assert before[i..][1..] == before[i + 1..] && now[i..][1..] == now[i + 1..];
    EndIsNoPassword();
    if Passed(dec, now[i]).Some? {
      var e := Passed(dec, now[i]).value;
      var then' := now[i := e];
      assert then'[..i + 1] == now[..i] + [e] && then'[..i] == now[..i] && then'[i + 1..] == now[i + 1..];
      var rest := Decrypted(dec, before[i + 1..]);
      if !IsSentinel(now[i]) && rest.Some? {
        assert now[..i] + ([e] + rest.value) == (now[..i] + [e]) + rest.value;
      }
    }
  }

  lemma EndIsNoPassword()
    ensures !IsPassword("end")
  {
    assert |Text.Lower("end")| == 3;
    assert forall key | key in LISTED :: |key| > 3;
  }

  function Joined(done: seq<Entry>, rest: Option<seq<Entry>>): Option<seq<Entry>> {
    if rest.None? then None else Some(done + rest.value)
  }

  lemma {:induction false} ItemsRaise(dec: Decoder, items: seq<Value>, k: nat)
    requires k <= |items| && DecryptItems(dec, items[..k]).None?
    ensures DecryptItems(dec, items).None?
    decreases |items|
  {
    if k < |items| {
      assert items[..|items| - 1][..k] == items[..k];
      ItemsRaise(dec, items[..|items| - 1], k);
    } else {
      assert items[..k] == items;
    }
  }
}
