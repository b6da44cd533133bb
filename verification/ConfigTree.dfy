/** `decrypt_all_passwd` and `get_config_yaml`: decrypting the listed passwords of a configuration. */
module ConfigTree {
  import opened Wrappers
  import Secrets
  import Text

  /** A configuration value; Scalar stands for a number, a boolean or null. */
  datatype Value = Str(s: string) | Scalar(n: int) | Many(items: seq<Value>) | Tree(entries: seq<Entry>)

  /** One item of an ordered dictionary. */
  datatype Entry = Entry(key: string, value: Value)

  /** Decrypting one string; None is an exception. */
  type Decoder = string -> Option<string>

  const LISTED: set<string> := {
    "password", "new_password", "current_password", "list_of_passwords", "list_special_invalid_char",
    "special_char_pwd", "list_special_char_pwd", "invalid_password", "user_password", "account_password",
    "root_pwd", "new_pwd", "test_s3account_password", "test_csmuser_password", "s3_acc_passwd", "passwd"
  }

  predicate IsPassword(key: string) {
    Text.Lower(key) in LISTED
  }

  predicate IsSentinel(e: Entry) {
    e.key == "end" && e.value == Str("end")
  }

  // ---- what the recursion computes ----------------------------------------------------------

  function DecryptItems(dec: Decoder, items: seq<Value>): Option<seq<Value>> {
    if items == [] then Some([])
    else
      var front := DecryptItems(dec, items[..|items| - 1]);
      var last := DecryptOne(dec, items[|items| - 1]);
      if front.None? || last.None? then None else Some(front.value + [last.value])
  }

  /** Only strings can be decrypted. */
  function DecryptOne(dec: Decoder, v: Value): Option<Value> {
    if !v.Str? then None
    else
      var s := dec(v.s);
      if s.None? then None else Some(Str(s.value))
  }

  /** The value under a password key: a list is decrypted element by element. */
  function DecryptLeaf(dec: Decoder, v: Value): Option<Value> {
    if v.Many? then
      var items := DecryptItems(dec, v.items);
      if items.None? then None else Some(Many(items.value))
    else DecryptOne(dec, v)
  }

  /** One entry that the loop passes. */
  function Passed(dec: Decoder, e: Entry): Option<Entry>
    decreases e
  {
    if e.value.Tree? then
      var sub := Decrypted(dec, e.value.entries);
      if sub.None? then None else Some(Entry(e.key, Tree(sub.value)))
    else if IsPassword(e.key) then
      var v := DecryptLeaf(dec, e.value);
      if v.None? then None else Some(Entry(e.key, v.value))
    else Some(e)
  }

  /** The dictionary after the call: it stops at an `end: end` entry and drops it, in every dictionary. */
  function Decrypted(dec: Decoder, entries: seq<Entry>): Option<seq<Entry>>
    decreases entries
  {
    if entries == [] then Some([])
    else if IsSentinel(entries[0]) then Some(entries[1..])
    else
      var first := Passed(dec, entries[0]);
      if first.None? then None
      else
        var rest := Decrypted(dec, entries[1..]);
        if rest.None? then None else Some([first.value] + rest.value)
  }

  // ---- what is meant: every listed password, whatever its depth, and nothing else ----------------

  function AllOf(dec: Decoder, entries: seq<Entry>): Option<seq<Entry>>
    decreases entries
  {
    if entries == [] then Some([])
    else
      var first := AllOfEntry(dec, entries[0]);
      var rest := AllOf(dec, entries[1..]);
      if first.None? || rest.None? then None else Some([first.value] + rest.value)
  }

  function AllOfEntry(dec: Decoder, e: Entry): Option<Entry>
    decreases e
  {
    if e.value.Tree? then
      var sub := AllOf(dec, e.value.entries);
      if sub.None? then None else Some(Entry(e.key, Tree(sub.value)))
    else if IsPassword(e.key) then
      var v := DecryptLeaf(dec, e.value);
      if v.None? then None else Some(Entry(e.key, v.value))
    else Some(e)
  }

  /** The entry at a position: an index into every dictionary on the way down. */
  function At(entries: seq<Entry>, path: seq<nat>): Option<Entry>
    decreases entries
  {
    if path == [] || path[0] >= |entries| then None
    else if |path| == 1 then Some(entries[path[0]])
    else if entries[path[0]].value.Tree? then At(entries[path[0]].value.entries, path[1..])
    else None
  }

  predicate TextFrom(dec: Decoder, v: Value, plain: Value) {
    v.Str? && plain.Str? && dec(v.s) == Some(plain.s)
  }

  /** A password or a list of them, each decrypted in its place. */
  predicate LeafFrom(dec: Decoder, v: Value, plain: Value) {
    if v.Many? then
      plain.Many? && |plain.items| == |v.items| && forall i | 0 <= i < |v.items| :: TextFrom(dec, v.items[i], plain.items[i])
    else TextFrom(dec, v, plain)
  }

  lemma {:induction false} ItemsExact(dec: Decoder, items: seq<Value>, plain: seq<Value>)
    ensures DecryptItems(dec, items) == Some(plain)
            <==> |plain| == |items| && forall i | 0 <= i < |items| :: TextFrom(dec, items[i], plain[i])
    decreases |items|
  {
    if items != [] && plain != [] {
      var n, k := |items| - 1, |plain| - 1;
      ItemsExact(dec, items[..n], plain[..k]);
      assert plain == plain[..k] + [plain[k]];
      if n == k {
        assert forall i | 0 <= i < n :: items[..n][i] == items[i] && plain[..n][i] == plain[i];
      }
      if DecryptItems(dec, items) == Some(plain) {
        assert plain[..k] == DecryptItems(dec, items[..n]).value;
      }
    }
  }

  lemma LeafExact(dec: Decoder, v: Value, plain: Value)
    ensures DecryptLeaf(dec, v) == Some(plain) <==> LeafFrom(dec, v, plain)
  {
    if v.Many? && plain.Many? {
      ItemsExact(dec, v.items, plain.items);
    }
  }

  /** Before and after, at one position: same key; a password decrypted once, anything else that is not a dictionary equal. */
  predicate Matches(dec: Decoder, before: Option<Entry>, after: Option<Entry>) {
    && (before.Some? <==> after.Some?)
    && (before.Some? ==>
      && before.value.key == after.value.key
      && (before.value.value.Tree? <==> after.value.value.Tree?)
      && (!before.value.value.Tree? ==>
        if IsPassword(before.value.key) then LeafFrom(dec, before.value.value, after.value.value)
        else before.value.value == after.value.value))
  }

  lemma {:induction false} AllOfLength(dec: Decoder, entries: seq<Entry>)
    requires AllOf(dec, entries).Some?
    ensures |AllOf(dec, entries).value| == |entries|
    ensures forall i | 0 <= i < |entries| :: AllOfEntry(dec, entries[i]) == Some(AllOf(dec, entries).value[i])
    decreases entries
  {
    if entries != [] {
      AllOfLength(dec, entries[1..]);
    }
  }

  lemma {:induction false} AllOfAt(dec: Decoder, entries: seq<Entry>, path: seq<nat>)
    requires AllOf(dec, entries).Some?
    ensures Matches(dec, At(entries, path), At(AllOf(dec, entries).value, path))
    decreases |path|
  {
    AllOfLength(dec, entries);
    if path != [] && path[0] < |entries| {
      var e := entries[path[0]];
      assert AllOfEntry(dec, e).Some?;
      if e.value.Tree? {
        AllOfAt(dec, e.value.entries, path[1..]);
      } else if IsPassword(e.key) {
        LeafExact(dec, e.value, DecryptLeaf(dec, e.value).value);
      }
    }
  }

  /** At this position is a listed password, or a list of them, that does not decrypt. */
  ghost predicate Fails(dec: Decoder, entries: seq<Entry>, path: seq<nat>) {
    var e := At(entries, path);
    && e.Some? && !e.value.value.Tree? && IsPassword(e.value.key)
    && forall plain :: !LeafFrom(dec, e.value.value, plain)
  }

  lemma {:induction false} FailingPath(dec: Decoder, entries: seq<Entry>) returns (path: seq<nat>)
    requires AllOf(dec, entries).None?
    ensures Fails(dec, entries, path)
    decreases entries
  {
    var e := entries[0];
    if AllOfEntry(dec, e).Some? {
      var rest := FailingPath(dec, entries[1..]);
      path := [rest[0] + 1] + rest[1..];
      assert entries[1..][rest[0]] == entries[path[0]];
    } else if e.value.Tree? {
      var inside := FailingPath(dec, e.value.entries);
      path := [0] + inside;
      assert path[1..] == inside && inside != [];
    } else {
      path := [0];
      forall plain ensures !LeafFrom(dec, e.value, plain) { LeafExact(dec, e.value, plain); }
    }
  }

  /** An exception is raised exactly when some listed password, at whatever depth, does not decrypt. */
  lemma AllOfRaises(dec: Decoder, entries: seq<Entry>)
    ensures AllOf(dec, entries).None? <==> exists path :: Fails(dec, entries, path)
  {
    if AllOf(dec, entries).None? {
      var path := FailingPath(dec, entries);
    } else {
      forall path ensures !Fails(dec, entries, path) { AllOfAt(dec, entries, path); }
    }
  }

  // ---- when the two agree ------------------------------------------------------------------------

  /** No `end: end` entry in any dictionary. */
  predicate Unmarked(entries: seq<Entry>)
    decreases entries
  {
    entries == []
    || (!IsSentinel(entries[0]) && UnmarkedValue(entries[0].value) && Unmarked(entries[1..]))
  }

  predicate UnmarkedValue(v: Value)
    decreases v
  {
    v.Tree? ==> Unmarked(v.entries)
  }

  function Size(entries: seq<Entry>): nat
    decreases entries
  {
    if entries == [] then 0 else 1 + SizeOf(entries[0].value) + Size(entries[1..])
  }

  function SizeOf(v: Value): nat
    decreases v
  {
    if v.Tree? then Size(v.entries) else 0
  }

  /** With no `end: end` anywhere the recursion passes every entry. */
  lemma {:induction false} UnmarkedAgrees(dec: Decoder, entries: seq<Entry>)
    requires Unmarked(entries)
    ensures Decrypted(dec, entries) == AllOf(dec, entries)
    decreases entries
  {
    if entries != [] {
      UnmarkedAgrees(dec, entries[1..]);
      if entries[0].value.Tree? {
        UnmarkedAgrees(dec, entries[0].value.entries);
      }
    }
  }

  predicate NoSentinel(entries: seq<Entry>) {
    forall e | e in entries :: !IsSentinel(e)
  }

  /** What follows the first sentinel of a dictionary is left as it is. */
  lemma {:induction false} StopsAt(dec: Decoder, a: seq<Entry>, s: Entry, b: seq<Entry>)
    requires NoSentinel(a) && IsSentinel(s)
    ensures Decrypted(dec, a + [s] + b)
            == if Decrypted(dec, a).None? then None else Some(Decrypted(dec, a).value + b)
    decreases |a|
  {
    var all := a + [s] + b;
    if a == [] {
      assert all[1..] == b && all[0] == s;
      assert [] + b == b;
    } else {
      assert all[1..] == a[1..] + [s] + b && all[0] == a[0] && a[0] in a;
      StopsAt(dec, a[1..], s, b);
      if Decrypted(dec, a).Some? {
        var first, rest := Passed(dec, a[0]).value, Decrypted(dec, a[1..]).value;
        assert ([first] + rest) + b == [first] + (rest + b);
      }
    }
  }

  lemma {:induction false} AllOfSize(dec: Decoder, entries: seq<Entry>)
    requires AllOf(dec, entries).Some?
    ensures Size(AllOf(dec, entries).value) == Size(entries)
    decreases entries
  {
    if entries != [] {
      var first, rest := AllOfEntry(dec, entries[0]).value, AllOf(dec, entries[1..]).value;
      AllOfSize(dec, entries[1..]);
      assert ([first] + rest)[1..] == rest;
      if entries[0].value.Tree? {
        AllOfSize(dec, entries[0].value.entries);
      }
      assert SizeOf(first.value) == SizeOf(entries[0].value);
    }
  }

  /** Entries are only ever lost, and one is lost exactly when there is an `end: end`. */
  lemma {:induction false} DecryptedSize(dec: Decoder, entries: seq<Entry>)
    requires Decrypted(dec, entries).Some?
    ensures Size(Decrypted(dec, entries).value) <= Size(entries)
    ensures Size(Decrypted(dec, entries).value) == Size(entries) <==> Unmarked(entries)
    decreases entries
  {
    if entries != [] && !IsSentinel(entries[0]) {
      var first, rest := Passed(dec, entries[0]).value, Decrypted(dec, entries[1..]).value;
      DecryptedSize(dec, entries[1..]);
      assert ([first] + rest)[1..] == rest;
      if entries[0].value.Tree? {
        DecryptedSize(dec, entries[0].value.entries);
      }
    }
  }

  // ---- loading a configuration file ------------------------------------------------------------

  const SENTINEL := Entry("end", Str("end"))

  predicate HasKey(entries: seq<Entry>, key: string) {
    exists i | 0 <= i < |entries| :: entries[i].key == key
  }

  /** `data[key] = value`: in place when the key is there, else at the end. */
  function SetKey(entries: seq<Entry>, e: Entry): seq<Entry> {
    if entries == [] then [e]
    else if entries[0].key == e.key then [e] + entries[1..]
    else [entries[0]] + SetKey(entries[1..], e)
  }

  function Load(dec: Decoder, entries: seq<Entry>): Option<seq<Entry>> {
    Decrypted(dec, SetKey(entries, SENTINEL))
  }

  lemma {:induction false} SetNewKey(entries: seq<Entry>, e: Entry)
    requires !HasKey(entries, e.key)
    ensures SetKey(entries, e) == entries + [e]
  {
    if entries != [] {
      assert entries[0].key != e.key;
      forall i | 0 <= i < |entries[1..]| ensures entries[1..][i].key != e.key {
        assert entries[1..][i] == entries[i + 1];
      }
      SetNewKey(entries[1..], e);
    }
  }

  lemma {:induction false} SetOldKey(entries: seq<Entry>)
    requires HasKey(entries, "end")
    ensures Size(SetKey(entries, SENTINEL)) <= Size(entries) && !Unmarked(SetKey(entries, SENTINEL))
  {
    var rest := entries[1..];
    if entries[0].key == "end" {
      assert ([SENTINEL] + rest)[1..] == rest;
    } else {
      var i :| 0 <= i < |entries| && entries[i].key == "end";
      assert rest[i - 1] == entries[i];
      SetOldKey(rest);
      assert ([entries[0]] + SetKey(rest, SENTINEL))[1..] == SetKey(rest, SENTINEL);
    }
  }

  /**
   Loading a file whose passwords all decrypt gives every one of them decrypted once and everything
   else unchanged exactly when the file has no key `end` of its own and no nested dictionary holds
   `end: end`.
   */
  lemma LoadExact(dec: Decoder, entries: seq<Entry>)
    requires AllOf(dec, entries).Some?
    ensures Load(dec, entries) == AllOf(dec, entries) <==> !HasKey(entries, "end") && Unmarked(entries)
  {
    AllOfSize(dec, entries);
    if HasKey(entries, "end") {
      SetOldKey(entries);
      if Load(dec, entries).Some? {
        DecryptedSize(dec, SetKey(entries, SENTINEL));
      }
    } else {
      LoadAppends(dec, entries);
      if Unmarked(entries) {
        UnmarkedAgrees(dec, entries);
      } else if Load(dec, entries).Some? {
        DecryptedSize(dec, entries);
      }
    }
  }

  lemma LoadAppends(dec: Decoder, entries: seq<Entry>)
    requires !HasKey(entries, "end")
    ensures Load(dec, entries) == Decrypted(dec, entries)
  {
    SetNewKey(entries, SENTINEL);
    StopsAt(dec, entries, SENTINEL, []);
    assert entries + [SENTINEL] + [] == entries + [SENTINEL];
    if Decrypted(dec, entries).Some? {
      assert Decrypted(dec, entries).value + [] == Decrypted(dec, entries).value;
    }
  }

  /** Without those two cases, an exception is raised exactly when some listed password does not decrypt. */
  lemma LoadRaises(dec: Decoder, entries: seq<Entry>)
    requires !HasKey(entries, "end") && Unmarked(entries)
    ensures Load(dec, entries) == AllOf(dec, entries)
  {
    LoadAppends(dec, entries);
    UnmarkedAgrees(dec, entries);
  }

  /** A file with a key `end` before a password: the password stays encrypted and the key is gone. */
  lemma EarlyEnd(dec: Decoder, cipher: string, end: Value)
    ensures Load(dec, [Entry("end", end), Entry("password", Str(cipher))]) == Some([Entry("password", Str(cipher))])
  {
    var entries := [Entry("end", end), Entry("password", Str(cipher))];
    assert SetKey(entries, SENTINEL) == [SENTINEL] + entries[1..];
    assert ([SENTINEL] + entries[1..])[1..] == [Entry("password", Str(cipher))];
  }

  // ---- encrypting a configuration and loading it again -------------------------------------------

  function DecoderOf(c: Secrets.Cipher): Decoder {
    s => match Secrets.Decrypt(c, s) case Ok(plain) => Some(plain) case Err(_) => None
  }

  /** One secret as it may be stored: encrypted under some vector. */
  ghost predicate StoredText(c: Secrets.Cipher, plain: Value, stored: Value) {
    plain.Str? && exists iv: Secrets.Block :: stored == Str(Secrets.Encrypt(c, iv, plain.s))
  }

  ghost predicate StoredLeaf(c: Secrets.Cipher, plain: Value, stored: Value) {
    if plain.Many? then
      && stored.Many? && |stored.items| == |plain.items|
      && forall i | 0 <= i < |plain.items| :: StoredText(c, plain.items[i], stored.items[i])
    else StoredText(c, plain, stored)
  }

  ghost predicate StoredEntry(c: Secrets.Cipher, plain: Entry, stored: Entry)
    decreases plain
  {
    && plain.key == stored.key
    && if plain.value.Tree? then stored.value.Tree? && StoredAll(c, plain.value.entries, stored.value.entries)
       else if IsPassword(plain.key) then StoredLeaf(c, plain.value, stored.value)
       else plain == stored
  }

  ghost predicate StoredAll(c: Secrets.Cipher, plain: seq<Entry>, stored: seq<Entry>)
    decreases plain
  {
    if plain == [] then stored == []
    else stored != [] && StoredEntry(c, plain[0], stored[0]) && StoredAll(c, plain[1..], stored[1..])
  }

  lemma StoredTextDecrypts(c: Secrets.Cipher, plain: Value, stored: Value)
    requires Secrets.Sound(c) && StoredText(c, plain, stored)
    ensures DecryptOne(DecoderOf(c), stored) == Some(plain)
  {
    var iv: Secrets.Block :| stored == Str(Secrets.Encrypt(c, iv, plain.s));
    Secrets.SecretRoundTrip(c, iv, plain.s);
  }

  lemma {:induction false} ItemsDecrypt(dec: Decoder, plain: seq<Value>, stored: seq<Value>)
    requires |stored| == |plain|
    requires forall i | 0 <= i < |plain| :: DecryptOne(dec, stored[i]) == Some(plain[i])
    ensures DecryptItems(dec, stored) == Some(plain)
    decreases |plain|
  {
    if plain != [] {
      var n := |plain| - 1;
      ItemsDecrypt(dec, plain[..n], stored[..n]);
      assert plain == plain[..n] + [plain[n]] && stored == stored[..n] + [stored[n]];
    }
  }

  lemma StoredLeafDecrypts(c: Secrets.Cipher, plain: Value, stored: Value)
    requires Secrets.Sound(c) && StoredLeaf(c, plain, stored)
    ensures DecryptLeaf(DecoderOf(c), stored) == Some(plain) && !stored.Tree?
  {
    if plain.Many? {
      forall i | 0 <= i < |plain.items| ensures DecryptOne(DecoderOf(c), stored.items[i]) == Some(plain.items[i]) {
        StoredTextDecrypts(c, plain.items[i], stored.items[i]);
      }
      ItemsDecrypt(DecoderOf(c), plain.items, stored.items);
    } else {
      StoredTextDecrypts(c, plain, stored);
    }
  }

  lemma {:induction false} StoredDecrypts(c: Secrets.Cipher, plain: seq<Entry>, stored: seq<Entry>)
    requires Secrets.Sound(c) && StoredAll(c, plain, stored)
    ensures AllOf(DecoderOf(c), stored) == Some(plain)
    decreases plain
  {
    if plain != [] {
      StoredDecrypts(c, plain[1..], stored[1..]);
      if plain[0].value.Tree? {
        StoredDecrypts(c, plain[0].value.entries, stored[0].value.entries);
      } else if IsPassword(plain[0].key) {
        StoredLeafDecrypts(c, plain[0].value, stored[0].value);
      }
      assert AllOfEntry(DecoderOf(c), stored[0]) == Some(plain[0]);
      assert plain == [plain[0]] + plain[1..];
    }
  }

  /** A configuration stored with its listed passwords encrypted loads as the configuration itself. */
  lemma LoadRoundTrip(c: Secrets.Cipher, plain: seq<Entry>, stored: seq<Entry>)
    requires Secrets.Sound(c) && StoredAll(c, plain, stored)
    requires !HasKey(stored, "end") && Unmarked(stored)
    ensures Load(DecoderOf(c), stored) == Some(plain)
  {
    StoredDecrypts(c, plain, stored);
    LoadRaises(DecoderOf(c), stored);
  }
}
