/** Types, a list operation and facts of arithmetic that several modules use. */
module Wrappers {

  datatype Option<T> = None | Some(value: T)

  type Byte = b: int | 0 <= b < 256

  type Bytes = seq<Byte>

  ghost predicate Distinct<T>(xs: seq<T>) {
    forall i, j | 0 <= i < j < |xs| :: xs[i] != xs[j]
  }

  /** `remove` of a list or a deque: the first occurrence goes. */
  function WithoutFirst<T(==)>(xs: seq<T>, x: T): seq<T> {
    if xs == [] then [] else if xs[0] == x then xs[1..] else [xs[0]] + WithoutFirst(xs[1..], x)
  }

  /** What is left of a list of distinct elements: the others, still distinct. */
  lemma {:induction false} WithoutFirstMembers<T>(xs: seq<T>, x: T)
    requires Distinct(xs)
    ensures forall y :: y in WithoutFirst(xs, x) <==> y in xs && y != x
    ensures Distinct(WithoutFirst(xs, x))
  {
    if xs != [] {
      WithoutFirstMembers(xs[1..], x);
      assert xs[0] !in xs[1..];
      assert forall y :: y in xs <==> y == xs[0] || y in xs[1..];
    }
  }

  lemma MulKeepsOrder(a: nat, x: int, y: int)
    requires x <= y
    ensures a * x <= a * y
  {
  }

  lemma CancelLess(a: nat, x: int, y: int)
    requires a * x < a * y
    ensures x < y
  {
    if x >= y { MulKeepsOrder(a, y, x); }
  }

  lemma DivisionBounds(x: nat, d: nat)
    requires d > 0
    ensures d * (x / d) <= x < d * (x / d + 1)
  {
    assert d * (x / d + 1) == d * (x / d) + d;
  }
}
