/**
 The `setup_in_useby` field of a lock record.  The names of the clients that share a
 target are kept in one string: a client joins by appending " " + name and leaves
 by `clients.replace(client, "").strip()`; membership is Python's `client in clients`.
 */
module HolderString {
  import opened Text

  predicate IsSpace(c: char) {
    c in {' ', '\t', '\n', '\r', '\U{0B}', '\U{0C}'}
  }

  /** A client name: nonempty and free of white space. */
  predicate IsName(s: string) {
    s != "" && forall c | c in s :: !IsSpace(c)
  }

  predicate OnlyBlanks(s: string) {
    forall c | c in s && IsSpace(c) :: c == ' '
  }

  /** `s.replace(sub, "")`: every occurrence goes, leftmost first, none overlapping. */
  function RemoveAll(s: string, sub: string): string
    requires sub != ""
  {
    if |s| < |sub| then s
    else if s[..|sub|] == sub then RemoveAll(s[|sub|..], sub)
    else [s[0]] + RemoveAll(s[1..], sub)
  }

  /** `s.strip()`. */
  function Strip(s: string): string {
    if s != "" && IsSpace(s[0]) then Strip(s[1..])
    else if s != "" && IsSpace(s[|s| - 1]) then Strip(s[..|s| - 1])
    else s
  }

  function Join(pieces: seq<string>): string
    requires |pieces| > 0
  {
    if |pieces| == 1 then pieces[0] else pieces[0] + " " + Join(pieces[1..])
  }

  function NonEmpty(pieces: seq<string>): seq<string> {
    if pieces == [] then []
    else (if pieces[0] == "" then [] else [pieces[0]]) + NonEmpty(pieces[1..])
  }

  /** The names written in a `setup_in_useby` string. */
  function Tokens(s: string): seq<string> {
    NonEmpty(Split(s, ' '))
  }

  function Without(names: seq<string>, name: string): seq<string> {
    if names == [] then []
    else (if names[0] == name then [] else [names[0]]) + Without(names[1..], name)
  }

  function RemoveFromEach(pieces: seq<string>, sub: string): seq<string>
    requires sub != ""
  {
    if pieces == [] then [] else [RemoveAll(pieces[0], sub)] + RemoveFromEach(pieces[1..], sub)
  }

  function Joined(clients: string, client: string): string { clients + " " + client }

  function Departed(clients: string, client: string): string
    requires client != ""
  {
    Strip(RemoveAll(clients, client))
  }

  // ---- splitting -------------------------------------------------------------------

  lemma {:induction false} JoinSplit(s: string)
    ensures Join(Split(s, ' ')) == s
  {
    if s != "" {
      JoinSplit(s[1..]);
      var rest := Split(s[1..], ' ');
      if s[0] == ' ' {
        assert ([""] + rest)[1..] == rest;
      } else {
        var all := [[s[0]] + rest[0]] + rest[1..];
        assert all[1..] == rest[1..];
      }
    }
  }

  lemma {:induction false} NonEmptyAppend(a: seq<string>, b: seq<string>)
    ensures NonEmpty(a + b) == NonEmpty(a) + NonEmpty(b)
  {
    if a == [] {
      assert a + b == b;
    } else {
      assert (a + b)[1..] == a[1..] + b;
      NonEmptyAppend(a[1..], b);
    }
  }

  lemma {:induction false} NonEmptyMembers(pieces: seq<string>)
    ensures forall p :: p in NonEmpty(pieces) <==> p in pieces && p != ""
  {
    if pieces != [] { NonEmptyMembers(pieces[1..]); }
  }

  /** What goes is white space at the two ends, and none is left there. */
  lemma {:induction false} StripExact(s: string) returns (front: string, back: string)
    ensures s == front + Strip(s) + back
    ensures forall c | c in front || c in back :: IsSpace(c)
    ensures Strip(s) != "" ==> !IsSpace(Strip(s)[0]) && !IsSpace(Strip(s)[|Strip(s)| - 1])
    decreases |s|
  {
    front, back := "", "";
    if s != "" && IsSpace(s[0]) {
      front, back := StripExact(s[1..]);
      front := [s[0]] + front;
    } else if s != "" && IsSpace(s[|s| - 1]) {
      front, back := StripExact(s[..|s| - 1]);
      back := back + [s[|s| - 1]];
    }
  }

  lemma {:induction false} StripTokens(s: string)
    requires OnlyBlanks(s)
    ensures Tokens(Strip(s)) == Tokens(s)
    ensures OnlyBlanks(Strip(s))
    decreases |s|
  {
    if s != "" && IsSpace(s[0]) {
      assert s[0] in s;
      StripTokens(s[1..]);
    } else if s != "" && IsSpace(s[|s| - 1]) {
      assert s[|s| - 1] in s;
      var front := s[..|s| - 1];
      StripTokens(front);
      assert s == front + " " + "";
      SplitAppend(front, ' ', "");
      NonEmptyAppend(Split(front, ' '), [""]);
    }
  }

  // ---- joining ---------------------------------------------------------------------

  /** Joining adds exactly one name, at the end. */
  lemma JoinAddsName(clients: string, client: string)
    requires IsName(client)
    ensures Tokens(Joined(clients, client)) == Tokens(clients) + [client]
    ensures OnlyBlanks(clients) ==> OnlyBlanks(Joined(clients, client))
  {
    assert ' ' !in client by { assert IsSpace(' '); }
    SplitAppend(clients, ' ', client);
    SplitNone(client, ' ');
    NonEmptyAppend(Split(clients, ' '), [client]);
  }

  // ---- membership ------------------------------------------------------------------

  lemma OccursInTail(s: string, k: nat, sub: string, i: nat)
    requires k <= |s|
    ensures OccursAt(s[k..], sub, i) <==> OccursAt(s, sub, k + i)
  {
    if k + i + |sub| <= |s| {
      assert s[k..][i..i + |sub|] == s[k + i..k + i + |sub|];
    }
  }

  /** A name does not run across the blank. */
  lemma OnOneSide(a: string, b: string, name: string, i: nat)
    requires IsName(name) && OccursAt(a + " " + b, name, i)
    ensures i + |name| <= |a| || i > |a|
  {
    var s := a + " " + b;
    assert s[|a|] == ' ';
    forall j | i <= j < i + |name| ensures s[j] != ' ' {
      assert s[j] == s[i..i + |name|][j - i];
      assert name[j - i] in name && IsSpace(' ');
    }
  }

  lemma ContainsAppend(a: string, b: string, name: string)
    requires IsName(name)
    ensures Contains(a + " " + b, name) <==> Contains(a, name) || Contains(b, name)
  {
    var s := a + " " + b;
    assert s[|a| + 1..] == b;
    if Contains(a, name) {
      var i: nat :| i <= |a| && OccursAt(a, name, i);
      assert s[i..i + |name|] == a[i..i + |name|];
      assert OccursAt(s, name, i);
    }
    if Contains(b, name) {
      var i: nat :| i <= |b| && OccursAt(b, name, i);
      OccursInTail(s, |a| + 1, name, i);
    }
    if Contains(s, name) {
      var i: nat :| i <= |s| && OccursAt(s, name, i);
      OnOneSide(a, b, name, i);
      if i + |name| <= |a| {
        assert OccursAt(a, name, i);
      } else {
        OccursInTail(s, |a| + 1, name, i - |a| - 1);
      }
    }
  }

  lemma {:induction false} ContainsPiece(pieces: seq<string>, name: string)
    requires |pieces| > 0 && IsName(name)
    ensures Contains(Join(pieces), name) <==> exists p :: p in pieces && Contains(p, name)
  {
    if |pieces| > 1 {
      ContainsAppend(pieces[0], Join(pieces[1..]), name);
      ContainsPiece(pieces[1..], name);
      assert forall p :: p in pieces <==> p == pieces[0] || p in pieces[1..];
    }
  }

  lemma ContainsToken(clients: string, name: string)
    requires IsName(name)
    ensures Contains(clients, name) <==> exists t :: t in Tokens(clients) && Contains(t, name)
  {
    JoinSplit(clients);
    ContainsPiece(Split(clients, ' '), name);
    NonEmptyMembers(Split(clients, ' '));
    assert !Contains("", name);
  }

  lemma ContainsItself(name: string)
    ensures Contains(name, name)
  {
    assert OccursAt(name, name, 0);
  }

  /**
   `client in clients` finds exactly the listed clients precisely when the name is not
   a proper part of some listed name while being unlisted itself.
   */
  lemma MembershipExact(clients: string, client: string)
    requires IsName(client)
    ensures (Contains(clients, client) <==> client in Tokens(clients))
        <==> client in Tokens(clients) || forall t | t in Tokens(clients) :: !Contains(t, client)
  {
    ContainsToken(clients, client);
    ContainsItself(client);
  }

  // ---- leaving ---------------------------------------------------------------------

  lemma {:induction false} RemoveShort(s: string, sub: string)
    requires sub != "" && !Contains(s, sub)
    ensures RemoveAll(s, sub) == s
  {
    if |s| >= |sub| {
      assert !OccursAt(s, sub, 0);
      if Contains(s[1..], sub) {
        var i: nat :| i <= |s[1..]| && OccursAt(s[1..], sub, i);
        OccursInTail(s, 1, sub, i);
      }
      RemoveShort(s[1..], sub);
    }
  }

  lemma RemoveStep(s: string, sub: string, k: nat)
    requires sub != "" && k + |sub| <= |s|
    ensures OccursAt(s, sub, k) ==> RemoveAll(s[k..], sub) == RemoveAll(s[k + |sub|..], sub)
    ensures !OccursAt(s, sub, k) ==> RemoveAll(s[k..], sub) == [s[k]] + RemoveAll(s[k + 1..], sub)
  {
    var t := s[k..];
    assert t[..|sub|] == s[k..k + |sub|] && t[|sub|..] == s[k + |sub|..] && t[0] == s[k] && t[1..] == s[k + 1..];
  }

  lemma {:induction false} RemoveBefore(s: string, sub: string, k: nat)
    requires sub != "" && k + |sub| <= |s| && forall j: nat | j < k :: !OccursAt(s, sub, j)
    ensures RemoveAll(s, sub) == s[..k] + RemoveAll(s[k..], sub)
    decreases k
  {
    if k == 0 {
      assert s[0..] == s && s[..0] + RemoveAll(s, sub) == RemoveAll(s, sub);
    } else {
      RemoveBefore(s, sub, k - 1);
      RemoveStep(s, sub, k - 1);
      assert s[..k] == s[..k - 1] + [s[k - 1]];
    }
  }

  /** The first occurrence goes, and what follows it is gone through in the same way. */
  lemma RemoveExact(s: string, sub: string, i: nat)
    requires sub != "" && OccursAt(s, sub, i) && forall j: nat | j < i :: !OccursAt(s, sub, j)
    ensures RemoveAll(s, sub) == s[..i] + RemoveAll(s[i + |sub|..], sub)
  {
    RemoveBefore(s, sub, i);
    RemoveStep(s, sub, i);
  }

  lemma {:induction false} RemoveShrinks(s: string, sub: string)
    requires sub != ""
    ensures |RemoveAll(s, sub)| <= |s|
    ensures Contains(s, sub) ==> |RemoveAll(s, sub)| < |s|
    ensures forall c | c in RemoveAll(s, sub) :: c in s
  {
    if |s| >= |sub| {
      if s[..|sub|] == sub {
        RemoveShrinks(s[|sub|..], sub);
      } else {
        RemoveShrinks(s[1..], sub);
        if Contains(s, sub) {
          var i: nat :| i <= |s| && OccursAt(s, sub, i);
          OccursInTail(s, 1, sub, i - 1);
        }
      }
    }
  }

  lemma {:induction false} RemoveAppend(a: string, b: string, name: string)
    requires IsName(name)
    ensures RemoveAll(a + " " + b, name) == RemoveAll(a, name) + " " + RemoveAll(b, name)
  {
    var s := a + " " + b;
    if |a| < |name| {
      RemoveAcross(a, b, name);
    } else if a[..|name|] == name {
      assert s[..|name|] == name;
      assert s[|name|..] == a[|name|..] + " " + b;
      RemoveAppend(a[|name|..], b, name);
    } else {
      assert s[..|name|] == a[..|name|];
      assert s[1..] == a[1..] + " " + b;
      RemoveAppend(a[1..], b, name);
    }
  }

  lemma BlankBreaksName(a: string, b: string, name: string)
    requires IsName(name) && |a| < |name| <= |a| + 1 + |b|
    ensures (a + " " + b)[..|name|] != name
  {
    var s := a + " " + b;
    assert s[..|name|][|a|] == ' ';
    assert IsSpace(' ') && !IsSpace(name[|a|]);
  }

  /** The piece before the blank is too short to hold the name, so it stays. */
  lemma {:induction false} RemoveAcross(a: string, b: string, name: string)
    requires IsName(name) && |a| < |name|
    ensures RemoveAll(a + " " + b, name) == a + " " + RemoveAll(b, name)
  {
    var s := a + " " + b;
    if |s| >= |name| {
      BlankBreaksName(a, b, name);
      if a == "" {
        assert s[0] == ' ' && s[1..] == b;
      } else {
        var rest := a[1..] + " " + b;
        assert s[0] == a[0] && s[1..] == rest;
        RemoveAcross(a[1..], b, name);
        assert [a[0]] + a[1..] == a;
      }
    }
  }

  lemma {:induction false} RemoveFromJoin(pieces: seq<string>, name: string)
    requires |pieces| > 0 && IsName(name)
    requires forall p | p in pieces :: ' ' !in p
    ensures Split(RemoveAll(Join(pieces), name), ' ') == RemoveFromEach(pieces, name)
  {
    RemoveShrinks(pieces[0], name);
    SplitNone(RemoveAll(pieces[0], name), ' ');
    if |pieces| > 1 {
      RemoveAppend(pieces[0], Join(pieces[1..]), name);
      RemoveFromJoin(pieces[1..], name);
      SplitAppend(RemoveAll(pieces[0], name), ' ', RemoveAll(Join(pieces[1..]), name));
    }
  }

  function TotalLength(names: seq<string>): nat {
    if names == [] then 0 else |names[0]| + TotalLength(names[1..])
  }

  /** Piece by piece: what is left is the other names, unless one of them contains `name`. */
  lemma {:induction false} RemoveTokens(pieces: seq<string>, name: string)
    requires name != ""
    ensures var left, want := NonEmpty(RemoveFromEach(pieces, name)), Without(NonEmpty(pieces), name);
            && TotalLength(left) <= TotalLength(want)
            && (if exists p :: p in pieces && p != name && Contains(p, name)
                then TotalLength(left) < TotalLength(want)
                else left == want)
  {
    if pieces != [] {
      var p, rest := pieces[0], pieces[1..];
      RemoveTokens(rest, name);
      assert forall q :: q in pieces <==> q == p || q in rest;
      var left, want := NonEmpty(RemoveFromEach(rest, name)), Without(NonEmpty(rest), name);
      var each := RemoveFromEach(pieces, name);
      assert each[0] == RemoveAll(p, name) && each[1..] == RemoveFromEach(rest, name);
      assert NonEmpty(each) == (if each[0] == "" then [] else [each[0]]) + left;
      assert each[0] != "" ==> ([each[0]] + left)[1..] == left;
      assert each[0] == "" ==> NonEmpty(each) == left;
      var tokens := NonEmpty(pieces);
      assert if p == "" then tokens == NonEmpty(rest) else tokens[0] == p && tokens[1..] == NonEmpty(rest);
      assert p != "" && p != name ==> ([p] + want)[1..] == want;
      assert p == "" || p == name ==> Without(tokens, name) == want;
      RemoveShrinks(p, name);
      ContainsItself(name);
      if !Contains(p, name) { RemoveShort(p, name); }
      if p == name { assert p[..|name|] == name && p[|name|..] == ""; }
    }
  }

  lemma DepartedTokens(clients: string, client: string)
    requires IsName(client) && OnlyBlanks(clients)
    ensures Tokens(Departed(clients, client)) == NonEmpty(RemoveFromEach(Split(clients, ' '), client))
    ensures OnlyBlanks(Departed(clients, client))
  {
    JoinSplit(clients);
    RemoveFromJoin(Split(clients, ' '), client);
    RemoveShrinks(clients, client);
    StripTokens(RemoveAll(clients, client));
  }

  /**
   `replace` + `strip` takes exactly this client's name out of the list - however many
   blanks are left inside the string - precisely when no other listed name contains it.
   */
  lemma LeaveExact(clients: string, client: string)
    requires IsName(client) && OnlyBlanks(clients)
    ensures Tokens(Departed(clients, client)) == Without(Tokens(clients), client)
        <==> forall t | t in Tokens(clients) && t != client :: !Contains(t, client)
  {
    DepartedTokens(clients, client);
    RemoveTokens(Split(clients, ' '), client);
    NonEmptyMembers(Split(clients, ' '));
    assert !Contains("", client);
  }

  /** Two hosts whose names differ in a leading character: the shorter name is lost in the longer. */
  lemma PartOfAnotherName()
    ensures Contains("ab", "b") && "b" !in Tokens("ab")
    ensures Tokens(Departed("ab b", "b")) == ["a"]
  {
    assert OccursAt("ab", "b", 1);
    SplitNone("ab", ' ');
    assert RemoveAll("ab b", "b") == "a " by {
      assert "ab b"[1..] == "b b" && "b b"[1..] == " b" && " b"[1..] == "b" && "b"[1..] == "";
      assert "ab b"[..1] == "a" && "b b"[..1] == "b" && " b"[..1] == " " && "b"[..1] == "b";
    }
    assert Strip("a ") == "a" by { assert "a "[..1] == "a"; }
    SplitNone("a", ' ');
  }
}
