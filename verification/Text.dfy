/** The Python string operations the other modules need, on `seq<char>`. */
module Text {

  predicate OccursAt(s: string, sub: string, i: nat) {
    i + |sub| <= |s| && s[i..i + |sub|] == sub
  }

  /** `sub in s`. */
  predicate Contains(s: string, sub: string) {
    exists i: nat | i <= |s| :: OccursAt(s, sub, i)
  }

  function LowerChar(c: char): char {
    if 'A' <= c <= 'Z' then (c as int + 32) as char else c
  }

  /** `s.lower()` on ASCII letters. */
  function Lower(s: string): string {
    seq(|s|, i requires 0 <= i < |s| => LowerChar(s[i]))
  }

  predicate IsCapital(c: char) { 'A' <= c <= 'Z' }

  /** The same but for case: the letters A to Z and a to z lie 32 apart. */
  predicate SameIgnoringCase(s: string, t: string) {
    |s| == |t| && forall i | 0 <= i < |s| ::
      s[i] == t[i] || (IsCapital(s[i]) && t[i] as int == s[i] as int + 32) || (IsCapital(t[i]) && s[i] as int == t[i] as int + 32)
  }

  /** The one string without capitals that is the same but for case. */
  lemma LowerExact(s: string, t: string)
    ensures t == Lower(s) <==> SameIgnoringCase(s, t) && forall i | 0 <= i < |t| :: !IsCapital(t[i])
  {
    forall i | 0 <= i < |s| ensures !IsCapital(Lower(s)[i]) {
      assert IsCapital(s[i]) ==> Lower(s)[i] as int == s[i] as int + 32;
    }
  }

  /** `s.split(sep)`: the pieces between separators, empty ones included. */
  function Split(s: string, sep: char): (pieces: seq<string>)
    ensures |pieces| > 0
    ensures forall p | p in pieces :: sep !in p
  {
    if s == "" then [""]
    else
      var rest := Split(s[1..], sep);
      if s[0] == sep then [""] + rest else [[s[0]] + rest[0]] + rest[1..]
  }

  lemma {:induction false} SplitAppend(a: string, sep: char, b: string)
    ensures Split(a + [sep] + b, sep) == Split(a, sep) + Split(b, sep)
  {
    if a == "" {
      assert a + [sep] + b == [sep] + b;
      assert ([sep] + b)[1..] == b;
    } else {
      assert (a + [sep] + b)[1..] == a[1..] + [sep] + b;
      SplitAppend(a[1..], sep, b);
    }
  }

  lemma {:induction false} SplitNone(s: string, sep: char)
    requires sep !in s
    ensures Split(s, sep) == [s]
  {
    if s != "" {
      assert s[0] in s;
      SplitNone(s[1..], sep);
      assert [s[0]] + s[1..] == s;
    }
  }
}
