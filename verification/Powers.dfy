/** Powers of two, and the facts about products and remainders that go with them. */
module Powers {

  function Pow2(n: nat): (p: nat)
    ensures 0 < p
  {
    if n == 0 then 1 else 2 * Pow2(n - 1)
  }

  lemma {:induction false} Pow2Add(m: nat, n: nat)
    ensures Pow2(m + n) == Pow2(m) * Pow2(n)
  {
    if m != 0 {
      Pow2Add(m - 1, n);
      Associate(2, Pow2(m - 1), Pow2(n));
    }
  }

  lemma Associate(a: int, b: int, c: int)
    ensures (a * b) * c == a * (b * c)
  {
  }

  lemma Distribute(a: int, b: int, c: int)
    ensures (a + b) * c == a * c + b * c && c * (a + b) == c * a + c * b
  {
  }

  lemma {:induction false} Pow2Grows(m: nat, n: nat)
    requires m <= n
    ensures Pow2(m) <= Pow2(n)
  {
    if m != n {
      Pow2Grows(m, n - 1);
    }
  }

  lemma Pow2Small()
    ensures Pow2(8) == 256 && Pow2(16) == 0x1_0000 && Pow2(24) == 0x100_0000 && Pow2(32) == 0x1_0000_0000
  {
    assert Pow2(4) == 16;
    Pow2Add(4, 4);
    Pow2Add(8, 8);
    Pow2Add(8, 16);
    Pow2Add(16, 16);
  }

  /** Products are monotone in each factor. */
  lemma MulGrows(a: nat, b: nat, c: nat)
    requires a <= b
    ensures a * c <= b * c && c * a <= c * b
  {
  }

  /** A quotient and remainder within range are the quotient and remainder. */
  lemma DivUnique(a: int, d: int, q: int, r: int)
    requires a == q * d + r && 0 <= r < d
    ensures a / d == q && a % d == r
  {
    var q', r' := a / d, a % d;
    assert a == q' * d + r';
    assert (q - q') * d == r' - r;
    Multiples(q - q', d);
  }

  /** A multiple other than zero is at least as far from zero. */
  lemma Multiples(k: int, d: int)
    requires 0 <= d
    ensures 1 <= k ==> d <= k * d
    ensures k <= -1 ==> k * d <= -d
  {
  }

  /** Adding multiples of the modulus changes no remainder. */
  lemma ModPlus(a: int, k: int, d: nat)
    requires 0 < d
    ensures (a + k * d) % d == a % d
  {
    var q, r := a / d, a % d;
    assert a == q * d + r;
    assert (q + k) * d == q * d + k * d;
    DivUnique(a + k * d, d, q + k, r);
  }

  lemma ModSmall(a: int, d: nat)
    requires 0 <= a < d
    ensures a % d == a
  {
  }

  /** Halving twice is dividing by the product. */
  lemma DivDiv(a: nat, b: nat, c: nat)
    requires 0 < b && 0 < c
    ensures 0 < b * c && a / (b * c) == a / b / c
  {
    var q1, r1 := a / b, a % b;
    var q2, r2 := q1 / c, q1 % c;
    assert a == q1 * b + r1;
    assert q1 == q2 * c + r2;
    assert q1 * b == q2 * c * b + r2 * b;
    Associate(q2, c, b);
    MulGrows(r2, c - 1, b);
    assert (c - 1) * b == c * b - b;
    DivUnique(a, b * c, q2, r2 * b + r1);
  }

  /** Division of natural numbers. */
  function Quotient(a: nat, b: nat): (q: nat)
    requires 0 < b
    ensures q <= a && q * b <= a < q * b + b
  {
    QuotientRange(a, b);
    a / b
  }

  lemma QuotientRange(a: nat, b: nat)
    requires 0 < b
    ensures 0 <= a / b <= a && (a / b) * b <= a < (a / b) * b + b
  {
    var q := a / b;
    assert a == q * b + a % b;
    Multiples(q, b);
    AtLeastOnce(q, b);
  }

  lemma AtLeastOnce(q: int, b: nat)
    requires 0 < b && 0 <= q
    ensures q <= q * b
  {
  }

  /** Products of natural numbers are natural numbers. */
  function Times(a: nat, b: nat): nat {
    a * b
  }

  lemma MulGrowsStrictly(a: nat, b: nat, c: nat)
    requires a < b && 0 < c
    ensures a * c < b * c
  {
    MulGrows(a + 1, b, c);
    Distribute(a, 1, c);
  }

  lemma QuotientAtLeast(a: nat, b: nat, q: nat)
    requires 0 < b && q * b <= a
    ensures q <= Quotient(a, b)
  {
    var r := Quotient(a, b);
    if r < q {
      MulGrows(r + 1, q, b);
      Distribute(r, 1, b);
    }
  }
}
