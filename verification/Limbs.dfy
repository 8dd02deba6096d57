/** Numbers as sequences of 32-bit limbs, least significant first. */
module Limbs {
  import opened Powers

  const BASE := 0x1_0000_0000

  type Limb = x: nat | x < BASE

  /** BASE to the power `i`. */
  function Place(i: nat): (p: nat)
    ensures 0 < p
  {
    if i == 0 then 1 else BASE * Place(i - 1)
  }

  /** The value of the lowest `n` limbs. */
  function Value(s: seq<Limb>, n: nat): nat
    requires n <= |s|
  {
    if n == 0 then 0 else Value(s, n - 1) + s[n - 1] * Place(n - 1)
  }

  lemma ValueNext(s: seq<Limb>, n: nat)
    requires n < |s|
    ensures Value(s, n + 1) == Value(s, n) + s[n] * Place(n)
  {
  }

  lemma EmptyValue(s: seq<Limb>)
    ensures Value(s, 0) == 0 && Place(0) == 1
  {
  }

  lemma PlaceNext(i: nat)
    ensures Place(i + 1) == BASE * Place(i)
  {
  }

  lemma {:induction false} PlaceIsPow2(i: nat)
    ensures Place(i) == Pow2(32 * i)
  {
    if i != 0 {
      PlaceIsPow2(i - 1);
      Pow2Add(32, 32 * (i - 1));
      Pow2Small();
    }
  }

  lemma {:induction false} PlaceAdd(i: nat, j: nat)
    ensures Place(i + j) == Place(i) * Place(j)
  {
    if i != 0 {
      PlaceAdd(i - 1, j);
      Associate(BASE, Place(i - 1), Place(j));
    }
  }

  lemma {:induction false} ValueBound(s: seq<Limb>, n: nat)
    requires n <= |s|
    ensures Value(s, n) < Place(n)
  {
    if n != 0 {
      ValueBound(s, n - 1);
      MulGrows(s[n - 1], BASE - 1, Place(n - 1));
      assert (BASE - 1) * Place(n - 1) == BASE * Place(n - 1) - Place(n - 1);
    }
  }

  lemma {:induction false} ValueSame(s: seq<Limb>, t: seq<Limb>, n: nat)
    requires n <= |s| && n <= |t| && forall i :: 0 <= i < n ==> s[i] == t[i]
    ensures Value(s, n) == Value(t, n)
  {
    if n != 0 {
      ValueSame(s, t, n - 1);
    }
  }

  /** Replacing one limb. */
  lemma {:induction false} ValueUpdate(s: seq<Limb>, i: nat, x: Limb, n: nat)
    requires i < n <= |s|
    ensures Value(s[i := x], n) == Value(s, n) + (x - s[i]) * Place(i)
  {
    if i == n - 1 {
      ValueSame(s, s[i := x], n - 1);
      assert (x - s[i]) * Place(i) == x * Place(i) - s[i] * Place(i);
    } else {
      ValueUpdate(s, i, x, n - 1);
    }
  }

  lemma {:induction false} ValueZero(s: seq<Limb>, n: nat)
    requires n <= |s|
    ensures Value(s, n) == 0 <==> forall i :: 0 <= i < n ==> s[i] == 0
  {
    if n != 0 {
      ValueZero(s, n - 1);
      if s[n - 1] != 0 {
        MulGrows(1, s[n - 1], Place(n - 1));
      }
    }
  }

  /** Comparing from the top: the highest limb that differs decides. */
  lemma {:induction false} ValueCompare(s: seq<Limb>, t: seq<Limb>, i: nat, n: nat)
    requires i < n <= |s| && n <= |t| && s[i] < t[i] && forall j :: i < j < n ==> s[j] == t[j]
    ensures Value(s, n) < Value(t, n)
    decreases n
  {
    if i == n - 1 {
      ValueBound(s, i);
      MulGrows(s[i] + 1, t[i], Place(i));
      assert (s[i] + 1) * Place(i) == s[i] * Place(i) + Place(i);
    } else {
      ValueCompare(s, t, i, n - 1);
    }
  }

  /** Splitting a sum of two limbs and a carry, weighted with its place. */
  lemma CarryStep(n: nat, lo: nat, hi: nat, i: nat)
    requires n == lo + hi * BASE
    ensures n * Place(i) == lo * Place(i) + hi * Place(i + 1)
  {
    assert (lo + hi * BASE) * Place(i) == lo * Place(i) + (hi * BASE) * Place(i);
    Associate(hi, BASE, Place(i));
  }

  /** The part of a value above its lowest `m` limbs. */
  function High(s: seq<Limb>, m: nat, n: nat): nat
    requires m <= n <= |s|
  {
    if m == n then 0 else High(s, m, n - 1) + s[n - 1] * Place(n - 1 - m)
  }

  lemma {:induction false} ValueSplit(s: seq<Limb>, m: nat, n: nat)
    requires m <= n <= |s|
    ensures Value(s, n) == Value(s, m) + High(s, m, n) * Place(m)
    decreases n
  {
    if m != n {
      ValueSplit(s, m, n - 1);
      PlaceAdd(n - 1 - m, m);
      Distribute(High(s, m, n - 1), s[n - 1] * Place(n - 1 - m), Place(m));
      Associate(s[n - 1], Place(n - 1 - m), Place(m));
    }
  }

  /** All limbs inverted. */
  function Inverted(s: seq<Limb>): (t: seq<Limb>)
    ensures |t| == |s|
  {
    seq(|s|, i requires 0 <= i < |s| => BASE - 1 - s[i])
  }

  lemma {:induction false} InvertedValue(s: seq<Limb>, n: nat)
    requires n <= |s|
    ensures Value(Inverted(s), n) + Value(s, n) + 1 == Place(n)
  {
    hide Value;
    hide Place;
    if n == 0 {
      EmptyValue(s);
      EmptyValue(Inverted(s));
    } else {
      InvertedValue(s, n - 1);
      ValueNext(s, n - 1);
      ValueNext(Inverted(s), n - 1);
      PlaceNext(n - 1);
      Distribute(BASE - 1 - s[n - 1], s[n - 1], Place(n - 1));
      Distribute(BASE - 1, 1, Place(n - 1));
    }
  }
}
