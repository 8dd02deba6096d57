/** Numbers written in any base, most significant digit first. */
module Positional {
  import opened Powers

  function Pow(b: nat, n: nat): nat {
    if n == 0 then 1 else Times(b, Pow(b, n - 1))
  }

  lemma {:induction false} PowPositive(b: nat, n: nat)
    requires 0 < b
    ensures 0 < Pow(b, n)
  {
    if n != 0 {
      PowPositive(b, n - 1);
      Multiples(b, Pow(b, n - 1));
    }
  }

  lemma {:induction false} PowAdd(b: nat, m: nat, n: nat)
    ensures Pow(b, m + n) == Times(Pow(b, m), Pow(b, n))
  {
    if m != 0 {
      PowAdd(b, m - 1, n);
      Associate(b, Pow(b, m - 1), Pow(b, n));
    }
  }

  lemma {:induction false} PowMul(b: nat, m: nat, n: nat)
    ensures Pow(b, Times(m, n)) == Pow(Pow(b, m), n)
  {
    if n == 0 {
      assert Times(m, 0) == 0;
    } else {
      PowMul(b, m, n - 1);
      Distribute(n - 1, 1, m);
      assert Times(m, n) == m + Times(m, n - 1);
      PowAdd(b, m, Times(m, n - 1));
    }
  }

  lemma {:induction false} PowGrows(a: nat, b: nat, n: nat)
    requires a <= b
    ensures Pow(a, n) <= Pow(b, n)
  {
    if n != 0 {
      PowGrows(a, b, n - 1);
      MulGrows(a, b, Pow(a, n - 1));
      MulGrows(Pow(a, n - 1), Pow(b, n - 1), b);
    }
  }

  lemma {:induction false} PowGrowsStrictly(a: nat, b: nat, n: nat)
    requires a < b && 0 < n
    ensures Pow(a, n) < Pow(b, n)
  {
    PowPositive(b, n - 1);
    PowGrows(a, b, n - 1);
    MulGrows(Pow(a, n - 1), Pow(b, n - 1), a);
    MulGrows(a + 1, b, Pow(b, n - 1));
    Distribute(a, 1, Pow(b, n - 1));
  }

  lemma {:induction false} PowLonger(b: nat, m: nat, n: nat)
    requires 0 < b && m <= n
    ensures Pow(b, m) <= Pow(b, n)
  {
    if m != n {
      PowLonger(b, m, n - 1);
      Multiples(b, Pow(b, n - 1));
    }
  }

  /** The value of a sequence of digits. */
  function Value(s: seq<nat>, base: nat): nat {
    if s == [] then 0 else Times(Value(s[..|s| - 1], base), base) + s[|s| - 1]
  }

  ghost predicate AreDigits(s: seq<nat>, base: nat) {
    forall i :: 0 <= i < |s| ==> s[i] < base
  }

  /** The digits of a number, without leading zeroes. */
  function Digits(n: nat, base: nat): (s: seq<nat>)
    requires 2 <= base
    ensures AreDigits(s, base)
    ensures s != [] ==> s[0] != 0
    decreases n
  {
    if n == 0 then [] else
    SmallerQuotient(n, base);
    RestBelow(n, base);
    Digits(Quotient(n, base), base) + [n - Times(Quotient(n, base), base)]
  }

  lemma SmallerQuotient(n: nat, base: nat)
    requires 2 <= base && 0 < n
    ensures Quotient(n, base) < n
  {
    var q := Quotient(n, base);
    Multiples(q, base);
    MulGrows(2, base, q);
  }

  lemma RestBelow(n: nat, base: nat)
    requires 2 <= base
    ensures 0 <= n - Times(Quotient(n, base), base) < base
    ensures 0 < n && Quotient(n, base) == 0 ==> 0 < n - Times(Quotient(n, base), base)
  {
  }

  lemma {:induction false} ValueOfDigits(n: nat, base: nat)
    requires 2 <= base
    ensures Value(Digits(n, base), base) == n
    decreases n
  {
    hide Times;
    hide Quotient;
    if n != 0 {
      SmallerQuotient(n, base);
      RestBelow(n, base);
      var q := Quotient(n, base);
      ValueOfDigits(q, base);
      var r := n - Times(q, base);
      assert (Digits(q, base) + [r])[..|Digits(q, base)|] == Digits(q, base);
    }
  }

  /** A value without leading zero is positive. */
  lemma {:induction false} ValuePositive(s: seq<nat>, base: nat)
    requires 2 <= base && s != [] && s[0] != 0
    ensures 0 < Value(s, base)
  {
    if |s| != 1 {
      ValuePositive(s[..|s| - 1], base);
      Multiples(Value(s[..|s| - 1], base), base);
    }
  }

  lemma DigitsNext(n: nat, base: nat)
    requires 2 <= base && 0 < n
    ensures 0 <= n - Times(Quotient(n, base), base)
    ensures Digits(n, base) == Digits(Quotient(n, base), base) + [n - Times(Quotient(n, base), base)]
  {
    hide Times;
    hide Quotient;
    RestBelow(n, base);
  }

  /** Digits without leading zeroes are the digits of their value. */
  lemma {:induction false} DigitsOfValue(s: seq<nat>, base: nat)
    requires 2 <= base && AreDigits(s, base) && (s != [] ==> s[0] != 0)
    ensures Digits(Value(s, base), base) == s
    decreases |s|
  {
    hide Times;
    hide Quotient;
    hide Digits;
    if s == [] {
      NoDigits(base);
    } else {
      var l := |s| - 1;
      DigitsOfValue(s[..l], base);
      ValuePositive(s, base);
      SplitLast(Value(s[..l], base), s[l], base);
      DigitsNext(Value(s, base), base);
      assert s == s[..l] + [s[l]];
    }
  }

  lemma NoDigits(base: nat)
    requires 2 <= base
    ensures Value([], base) == 0 && Digits(0, base) == []
  {
  }

  lemma SplitLast(v: nat, d: nat, base: nat)
    requires 2 <= base && d < base
    ensures Quotient(Times(v, base) + d, base) == v
  {
    DivUnique(Times(v, base) + d, base, v, d);
  }

  lemma {:induction false} ValueBound(s: seq<nat>, base: nat)
    requires AreDigits(s, base)
    ensures Value(s, base) < Pow(base, |s|)
  {
    if s != [] {
      var front := s[..|s| - 1];
      ValueBound(front, base);
      MulGrows(Value(front, base) + 1, Pow(base, |s| - 1), base);
      Distribute(Value(front, base), 1, base);
    }
  }

  /** Leading zeroes do not count. */
  lemma {:induction false} LeadingZeroes(z: nat, s: seq<nat>, base: nat)
    ensures Value(seq(z, i => 0) + s, base) == Value(s, base)
    decreases |s|, z
  {
    var zs := seq(z, i => 0);
    if s == [] {
      assert zs + s == zs;
      AllZero(zs, base);
    } else {
      LeadingZeroes(z, s[..|s| - 1], base);
      assert (zs + s)[..|zs + s| - 1] == zs + s[..|s| - 1];
    }
  }

  lemma {:induction false} AllZero(s: seq<nat>, base: nat)
    requires forall i :: 0 <= i < |s| ==> s[i] == 0
    ensures Value(s, base) == 0
  {
    if s != [] {
      AllZero(s[..|s| - 1], base);
    }
  }
}
