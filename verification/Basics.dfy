/** Small things that several models use. */
module Basics {

  /** A value that may be missing. */
  datatype Option<+T> = None | Some(value: T)

  type Byte = x: nat | x < 256

  function Min(a: int, b: int): int {
    if a < b then a else b
  }

  function Max(a: int, b: int): int {
    if a < b then b else a
  }

  lemma SubsetSize<T>(a: set<T>, b: set<T>)
    requires a <= b
    ensures |a| <= |b|
  {
    assert b == a + (b - a);
  }

  /** What is added on both sides does not matter to an exchange. */
  lemma Exchange<T>(a: multiset<T>, b: multiset<T>, x: multiset<T>, y: multiset<T>, c: multiset<T>)
    requires b + x == a + y
    ensures (b + c) + x == (a + c) + y
  {
    assert (b + c) + x == (b + x) + c;
    assert (a + c) + y == (a + y) + c;
  }
}
