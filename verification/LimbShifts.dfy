/** Shifting a number limb by limb. */
module LimbShifts {
  import opened Powers
  import opened Limbs

  // ----- or on numbers with no bit in common

  /** Bitwise or. */
  function Or(x: nat, y: nat): nat
    decreases x + y
  {
    if x == 0 && y == 0 then 0 else
    2 * Or(x / 2, y / 2) + if x % 2 == 1 || y % 2 == 1 then 1 else 0
  }

  lemma {:induction false} OrZero(x: nat)
    ensures Or(0, x) == x
  {
    if x != 0 {
      OrZero(x / 2);
    }
  }

  /** Bits below position `s` and bits from `s` on do not meet. */
  lemma {:induction false} OrDisjoint(x: nat, y: nat, s: nat)
    requires x < Pow2(s)
    ensures Or(x, y * Pow2(s)) == x + y * Pow2(s)
  {
    if s == 0 {
      OrZero(y);
    } else {
      var p := Pow2(s - 1);
      assert y * (2 * p) == 2 * (y * p);
      OrDisjoint(x / 2, y, s - 1);
      HalfOfDouble(y * p);
    }
  }

  lemma HalfOfDouble(z: nat)
    ensures (2 * z) / 2 == z && (2 * z) % 2 == 0
  {
  }

  // ----- the two parts of a shifted limb

  /** What stays in the limb, and what goes to the next, on a shift to the left. */
  function StaysUp(x: Limb, s: nat): (r: Limb)
    requires s < 32
  {
    x * Pow2(s) % BASE
  }

  function GoesUp(x: Limb, s: nat): nat
    requires s < 32
  {
    Quotient(x, Pow2(32 - s))
  }

  lemma ShiftUp(x: Limb, s: nat)
    requires s < 32
    ensures x * Pow2(s) == StaysUp(x, s) + GoesUp(x, s) * BASE
    ensures StaysUp(x, s) == (x % Pow2(32 - s)) * Pow2(s) && GoesUp(x, s) < Pow2(s)
    ensures StaysUp(x, s) + Pow2(s) <= BASE
  {
    hide Pow2;
    var p, q := Pow2(s), Pow2(32 - s);
    var h, l := x / q, x % q;
    Pow2Small();
    Pow2Add(32 - s, s);
    assert x == h * q + l;
    Distribute(h * q, l, p);
    Associate(h, q, p);
    MulGrows(l + 1, q, p);
    Distribute(l, 1, p);
    DivUnique(x * p, BASE, h, l * p);
    DivBelow(x, q, p);
  }

  lemma DivBelow(x: nat, q: nat, p: nat)
    requires 0 < q && x < p * q
    ensures x / q < p
  {
    var h := x / q;
    assert x == h * q + x % q;
    BelowMultiple(h, p, q);
  }

  lemma BelowMultiple(h: nat, p: nat, q: nat)
    requires h * q < p * q
    ensures h < p
  {
  }

  /** What comes down into a limb from the next one on a shift to the right. */
  function ComesDown(x: Limb, s: nat): nat
    requires s < 32
  {
    (x % Pow2(s)) * Pow2(32 - s)
  }

  /** The 32-bit shift to the left by 32 - s drops all but the lowest `s` bits. */
  lemma ShiftDown(x: Limb, s: nat)
    requires 0 < s < 32
    ensures x * Pow2(32 - s) % BASE == ComesDown(x, s)
    ensures ComesDown(x, s) + Pow2(32 - s) <= BASE && x / Pow2(s) < Pow2(32 - s)
  {
    hide Pow2;
    var p, q := Pow2(32 - s), Pow2(s);
    var h, l := x / q, x % q;
    Pow2Small();
    Pow2Add(s, 32 - s);
    assert x == h * q + l;
    Distribute(h * q, l, p);
    Associate(h, q, p);
    MulGrows(l + 1, q, p);
    Distribute(l, 1, p);
    DivUnique(x * p, BASE, h, l * p);
    DivBelow(x, q, p);
  }

  // ----- shifting to the left by `k` limbs and `s` bits

  function UpCarry(a: seq<Limb>, k: nat, s: nat, m: nat): nat
    requires s < 32 && m <= |a|
  {
    if m <= k then 0 else GoesUp(a[m - k - 1], s)
  }

  function UpLimb(a: seq<Limb>, k: nat, s: nat, m: nat): (r: Limb)
    requires s < 32 && m < |a|
  {
    if m < k then 0 else
    ShiftUp(a[m - k], s);
    UpCarrySmall(a, k, s, m);
    StaysUp(a[m - k], s) + UpCarry(a, k, s, m)
  }

  lemma UpCarrySmall(a: seq<Limb>, k: nat, s: nat, m: nat)
    requires s < 32 && m <= |a|
    ensures UpCarry(a, k, s, m) < Pow2(s)
  {
    if k < m {
      ShiftUp(a[m - k - 1], s);
    }
  }

  function ShiftedUp(a: seq<Limb>, k: nat, s: nat): (r: seq<Limb>)
    requires s < 32
    ensures |r| == |a|
  {
    seq(|a|, m requires 0 <= m < |a| => UpLimb(a, k, s, m))
  }

  lemma {:induction false} UpZeros(a: seq<Limb>, k: nat, s: nat, m: nat)
    requires s < 32 && m <= |a| && m <= k
    ensures Value(ShiftedUp(a, k, s), m) == 0
  {
    if m != 0 {
      UpZeros(a, k, s, m - 1);
    }
  }

  /** One more limb: the carry comes in, and the next one goes out. */
  lemma UpStep(v: nat, low: nat, carry: nat, x: Limb, s: nat, p: nat, q: nat, k: nat, i: nat)
    requires s < 32 && p == Place(i) && q == Place(k)
    requires v + carry * Place(i + k) == (Pow2(s) * low) * q
    ensures v + (StaysUp(x, s) + carry) * Place(i + k) + GoesUp(x, s) * Place(i + k + 1)
         == (Pow2(s) * (low + x * p)) * q
  {
    hide Pow2;
    hide Place;
    hide StaysUp;
    hide GoesUp;
    var z := Pow2(s);
    var w := Place(i + k);
    ShiftUp(x, s);
    CarryStep(x * z, StaysUp(x, s), GoesUp(x, s), i + k);
    Distribute(StaysUp(x, s), carry, w);
    PlaceAdd(i, k);
    Distribute(low, x * p, z);
    Distribute(z * low, z * (x * p), q);
    Regroup(x, z, p, q);
  }

  lemma Regroup(x: nat, z: nat, p: nat, q: nat)
    ensures (x * z) * (p * q) == (z * (x * p)) * q
  {
    assert x * z == z * x;
    Associate(z, x, p * q);
    Associate(x, p, q);
    Associate(z, x * p, q);
  }

  lemma {:induction false} UpValue(a: seq<Limb>, k: nat, s: nat, m: nat)
    requires s < 32 && k <= m <= |a|
    ensures Value(ShiftedUp(a, k, s), m) + UpCarry(a, k, s, m) * Place(m) == (Pow2(s) * Value(a, m - k)) * Place(k)
    decreases m
  {
    hide Pow2;
    hide Place;
    hide Value;
    if m == k {
      UpZeros(a, k, s, m);
      EmptyValue(a);
    } else {
      UpValue(a, k, s, m - 1);
      var i, r := m - 1 - k, ShiftedUp(a, k, s);
      ValueNext(r, m - 1);
      ValueNext(a, i);
      UpStep(Value(r, m - 1), Value(a, i), UpCarry(a, k, s, m - 1), a[i], s, Place(i), Place(k), k, i);
    }
  }

  /** Everything runs over the top. */
  lemma AllOver(v: nat, z: nat, k: nat, n: nat)
    requires n <= k
    ensures (v * (z * Place(k))) % Place(n) == 0
  {
    hide Place;
    var q := Place(k - n);
    PlaceAdd(k - n, n);
    Associate(z, q, Place(n));
    Associate(v, z * q, Place(n));
    DivUnique(v * (z * Place(k)), Place(n), v * (z * q), 0);
  }

  /** What runs over the top is a multiple of the modulus. */
  lemma PartlyOver(a: seq<Limb>, z: nat, k: nat, carry: nat, r: nat)
    requires k <= |a| && r < Place(|a|)
    requires r + carry * Place(|a|) == (z * Value(a, |a| - k)) * Place(k)
    ensures (Value(a, |a|) * (z * Place(k))) % Place(|a|) == r
  {
    hide Place;
    hide Value;
    hide High;
    var n := |a|;
    var low, high := Value(a, n - k), High(a, n - k, n);
    ValueSplit(a, n - k, n);
    PlaceAdd(n - k, k);
    Distribute(low, high * Place(n - k), z * Place(k));
    UpTop(low, high, z, Place(k), Place(n - k));
    Distribute(carry, z * high, Place(n));
    DivUnique(Value(a, n) * (z * Place(k)), Place(n), carry + z * high, r);
  }

  /** The shifted limbs are the number times a power of two, without what runs over the top. */
  lemma ShiftedUpValue(a: seq<Limb>, shift: nat)
    ensures var n := |a|;
      Value(ShiftedUp(a, shift / 32, shift % 32), n) == (Value(a, n) * Pow2(shift)) % Place(n)
  {
    hide Pow2;
    hide Place;
    hide Value;
    hide ShiftedUp;
    hide UpCarry;
    var n, k, s := |a|, shift / 32, shift % 32;
    Pow2Add(s, 32 * k);
    PlaceIsPow2(k);
    if n <= k {
      UpZeros(a, k, s, n);
      AllOver(Value(a, n), Pow2(s), k, n);
    } else {
      UpValue(a, k, s, n);
      ValueBound(ShiftedUp(a, k, s), n);
      PartlyOver(a, Pow2(s), k, UpCarry(a, k, s, n), Value(ShiftedUp(a, k, s), n));
    }
  }

  lemma UpTop(low: nat, high: nat, z: nat, q: nat, p: nat)
    ensures low * (z * q) == (z * low) * q
    ensures (high * p) * (z * q) == (z * high) * (p * q)
  {
    Associate(low, z, q);
    Associate(high, p, z * q);
    Associate(p, z, q);
    Associate(z, p, q);
    Associate(high, z, p * q);
    assert high * z == z * high && low * z == z * low && p * z == z * p;
  }

  // ----- shifting to the right by `k` limbs and `s` bits

  /** The limb at a place, or zero above the top. */
  function LimbAt(a: seq<Limb>, j: nat): Limb {
    if j < |a| then a[j] else 0
  }

  function DownLimb(a: seq<Limb>, k: nat, s: nat, m: nat): (r: Limb)
    requires s < 32
  {
    DownSmall(LimbAt(a, m + k), LimbAt(a, m + k + 1), s);
    LimbAt(a, m + k) / Pow2(s) + ComesDown(LimbAt(a, m + k + 1), s)
  }

  lemma DownSmall(x: Limb, y: Limb, s: nat)
    requires s < 32
    ensures 0 <= x / Pow2(s) + ComesDown(y, s) < BASE
  {
    hide Pow2;
    if s == 0 {
      NoShift(x, y);
    } else {
      ShiftDown(x, s);
      ShiftDown(y, s);
    }
  }

  lemma NoShift(x: Limb, y: Limb)
    ensures x / Pow2(0) == x && ComesDown(y, 0) == 0
  {
    assert Pow2(0) == 1;
    assert y % 1 == 0;
  }

  function ShiftedDown(a: seq<Limb>, k: nat, s: nat): (r: seq<Limb>)
    requires s < 32
    ensures |r| == |a|
  {
    seq(|a|, m requires 0 <= m < |a| => DownLimb(a, k, s, m))
  }

  /** Whole limbs dropped. */
  function DroppedLimbs(a: seq<Limb>, k: nat): (r: seq<Limb>)
    ensures |r| == |a|
  {
    seq<Limb>(|a|, m requires 0 <= m < |a| => LimbAt(a, m + k))
  }

  lemma DownStep(v: nat, w: nat, x: Limb, y: Limb, r: nat, s: nat, m: nat)
    requires s < 32 && Pow2(s) * v + r == w + (x % Pow2(s)) * Place(m)
    ensures Pow2(s) * (v + (x / Pow2(s) + ComesDown(y, s)) * Place(m)) + r
         == w + x * Place(m) + (y % Pow2(s)) * Place(m + 1)
  {
    hide Pow2;
    hide Place;
    var z, p, h, l, c := Pow2(s), Place(m), x / Pow2(s), x % Pow2(s), ComesDown(y, s);
    Pow2Add(s, 32 - s);
    Pow2Small();
    PlaceNext(m);
    assert x == h * z + l;
    Distribute(v, (h + c) * p, z);
    Associate(z, h + c, p);
    Distribute(h, c, z);
    Distribute(z * h, z * c, p);
    Distribute(h * z, l, p);
    Associate(y % z, Pow2(32 - s), z);
    Associate(y % z, BASE, p);
  }

  lemma {:induction false} DownValue(a: seq<Limb>, k: nat, s: nat, m: nat)
    requires s < 32 && m <= |a|
    ensures Pow2(s) * Value(ShiftedDown(a, k, s), m) + LimbAt(a, k) % Pow2(s)
         == Value(DroppedLimbs(a, k), m) + (LimbAt(a, m + k) % Pow2(s)) * Place(m)
  {
    hide Pow2;
    hide Place;
    hide Value;
    hide ComesDown;
    hide LimbAt;
    if m == 0 {
      EmptyValue(ShiftedDown(a, k, s));
      EmptyValue(DroppedLimbs(a, k));
    } else {
      DownValue(a, k, s, m - 1);
      ValueNext(ShiftedDown(a, k, s), m - 1);
      ValueNext(DroppedLimbs(a, k), m - 1);
      DownStep(Value(ShiftedDown(a, k, s), m - 1), Value(DroppedLimbs(a, k), m - 1),
               LimbAt(a, m - 1 + k), LimbAt(a, m + k), LimbAt(a, k) % Pow2(s), s, m - 1);
    }
  }

  lemma {:induction false} DroppedValue(a: seq<Limb>, k: nat, m: nat)
    requires m <= |a|
    ensures k <= |a| ==>
      Value(DroppedLimbs(a, k), m) == High(a, k, if m + k <= |a| then m + k else |a|)
    ensures |a| <= k ==> Value(DroppedLimbs(a, k), m) == 0
  {
    hide Place;
    hide Value;
    if m == 0 {
      EmptyValue(DroppedLimbs(a, k));
    } else {
      DroppedValue(a, k, m - 1);
      ValueNext(DroppedLimbs(a, k), m - 1);
      var x: int := DroppedLimbs(a, k)[m - 1];
      assert x == LimbAt(a, m - 1 + k);
      if |a| <= m - 1 + k {
        assert x == 0;
        assert x * Place(m - 1) == 0;
      } else {
        assert High(a, k, m + k) == High(a, k, m - 1 + k) + a[m - 1 + k] * Place(m - 1);
      }
    }
  }

  lemma DroppedIsQuotient(a: seq<Limb>, k: nat)
    ensures Value(DroppedLimbs(a, k), |a|) == Value(a, |a|) / Place(k)
  {
    hide Place;
    hide Value;
    hide High;
    var n := |a|;
    DroppedValue(a, k, n);
    if k <= n {
      ValueSplit(a, k, n);
      ValueBound(a, k);
      DivUnique(Value(a, n), Place(k), High(a, k, n), Value(a, k));
    } else {
      ValueBound(a, n);
      PlaceGrows(n, k);
      DivUnique(Value(a, n), Place(k), 0, Value(a, n));
    }
  }

  lemma {:induction false} PlaceGrows(i: nat, j: nat)
    requires i <= j
    ensures Place(i) <= Place(j)
  {
    if i != j {
      PlaceGrows(i, j - 1);
    }
  }

  /** The shifted limbs are the quotient by a power of two. */
  lemma ShiftedDownValue(a: seq<Limb>, shift: nat)
    ensures Value(ShiftedDown(a, shift / 32, shift % 32), |a|) == Value(a, |a|) / Pow2(shift)
  {
    hide Pow2;
    hide Place;
    hide Value;
    hide ShiftedDown;
    hide DroppedLimbs;
    hide LimbAt;
    var n, k, s := |a|, shift / 32, shift % 32;
    DownValue(a, k, s, n);
    AboveTop(a, n + k);
    DroppedIsQuotient(a, k);
    Pow2Add(32 * k, s);
    PlaceIsPow2(k);
    QuotientIs(Value(DroppedLimbs(a, k), n), Pow2(s), Value(ShiftedDown(a, k, s), n), LimbAt(a, k) % Pow2(s), Place(n));
    DivDiv(Value(a, n), Place(k), Pow2(s));
  }

  lemma AboveTop(a: seq<Limb>, j: nat)
    requires |a| <= j
    ensures LimbAt(a, j) == 0
  {
  }

  lemma QuotientIs(v: nat, z: nat, q: nat, r: nat, p: nat)
    requires 0 < z && z * q + r == v + (0 % z) * p && r < z
    ensures v / z == q
  {
    ModZero(z);
    DivUnique(v, z, q, r);
  }

  lemma ModZero(d: nat)
    requires 0 < d
    ensures 0 % d == 0
  {
  }

  // ----- a number that is shifted limb after limb

  /** What a limb holds on the way of a shift to the left, when `i` limbs are dealt with. */
  function UpSoFar(a: seq<Limb>, k: nat, s: nat, i: nat, m: nat): Limb
    requires s < 32 && i <= |a| && m < |a|
  {
    if m < i + k then UpLimb(a, k, s, m) else
    if m == i + k then
      UpCarrySmall(a, k, s, m);
      Pow2Below(s);
      UpCarry(a, k, s, m)
    else 0
  }

  lemma Pow2Below(s: nat)
    requires s < 32
    ensures Pow2(s) <= BASE
  {
    Pow2Grows(s, 32);
    Pow2Small();
  }

  /** The low part of the next limb meets the carry from the one before. */
  lemma JoinUp(a: seq<Limb>, k: nat, s: nat, i: nat)
    requires s < 32 && i < |a| && i + k < |a|
    ensures Or(UpSoFar(a, k, s, i, i + k), StaysUp(a[i], s)) == UpLimb(a, k, s, i + k)
  {
    hide Pow2;
    UpCarrySmall(a, k, s, i + k);
    ShiftUp(a[i], s);
    OrDisjoint(UpCarry(a, k, s, i + k), a[i] % Pow2(32 - s), s);
  }

  /** What a limb holds on the way of a shift to the right, when `i` limbs are dealt with. */
  function DownSoFar(a: seq<Limb>, k: nat, s: nat, i: nat, m: nat): Limb
    requires s < 32 && i <= |a|
  {
    if m + k + 1 < i then DownLimb(a, k, s, m) else
    if m + k + 1 == i then
      QuotientSmall(a[i - 1], Pow2(s));
      a[i - 1] / Pow2(s)
    else 0
  }

  lemma QuotientSmall(x: Limb, d: nat)
    requires 0 < d
    ensures 0 <= x / d < BASE
  {
    assert x / d <= x;
  }

  /** The bits of the next limb that come down meet the shifted limb. */
  lemma JoinDown(a: seq<Limb>, k: nat, s: nat, i: nat)
    requires 0 < s < 32 && k + 1 <= i < |a|
    ensures Or(DownSoFar(a, k, s, i, i - k - 1), a[i] * Pow2(32 - s) % BASE) == DownLimb(a, k, s, i - k - 1)
  {
    hide Pow2;
    ShiftDown(a[i - 1], s);
    ShiftDown(a[i], s);
    OrDisjoint(a[i - 1] / Pow2(s), a[i] % Pow2(s), 32 - s);
  }

  lemma UpStart(a: seq<Limb>, k: nat, s: nat, m: nat)
    requires s < 32 && m < |a|
    ensures UpSoFar(a, k, s, 0, m) == 0
    ensures UpSoFar(a, k, s, |a|, m) == UpLimb(a, k, s, m)
  {
  }

  lemma UpAdvance(a: seq<Limb>, k: nat, s: nat, i: nat, m: nat)
    requires s < 32 && i < |a| && m < |a|
    ensures UpSoFar(a, k, s, i + 1, m) ==
            if m == i + k then UpLimb(a, k, s, m) else if m == i + k + 1 then GoesUp(a[i], s)
            else UpSoFar(a, k, s, i, m)
    ensures m == i + k + 1 ==> UpSoFar(a, k, s, i, m) == 0
  {
    hide Pow2;
    hide UpLimb;
    hide GoesUp;
  }

  lemma GoesUpSmall(x: Limb, s: nat)
    requires s < 32
    ensures GoesUp(x, s) < BASE && (s == 0 ==> GoesUp(x, s) == 0)
  {
    hide Pow2;
    ShiftUp(x, s);
    Pow2Below(s);
    Pow2Small();
  }

  lemma DownStart(a: seq<Limb>, k: nat, s: nat, m: nat)
    requires s < 32 && m < |a|
    ensures DownSoFar(a, k, s, 0, m) == 0
    ensures DownSoFar(a, k, s, |a|, m) == DownLimb(a, k, s, m)
  {
    hide Pow2;
    NothingDown(s);
  }

  lemma NothingDown(s: nat)
    requires s < 32
    ensures 0 / Pow2(s) == 0 && ComesDown(0, s) == 0
  {
    ModZero(Pow2(s));
    DivUnique(0, Pow2(s), 0, 0);
  }

  lemma DownAdvance(a: seq<Limb>, k: nat, s: nat, i: nat, m: nat)
    requires s < 32 && i < |a|
    ensures DownSoFar(a, k, s, i + 1, m) ==
            if m + k + 1 == i then DownLimb(a, k, s, m) else if m + k == i then a[i] / Pow2(s)
            else DownSoFar(a, k, s, i, m)
    ensures m + k == i ==> DownSoFar(a, k, s, i, m) == 0
    ensures m + k + 1 == i && s == 0 ==> DownSoFar(a, k, s, i, m) == DownLimb(a, k, s, m)
  {
    hide Pow2;
    hide DownLimb;
    if m + k + 1 == i && s == 0 {
      NoShiftDown(a, k, m);
    }
  }

  lemma NoShiftDown(a: seq<Limb>, k: nat, m: nat)
    requires m + k + 1 < |a|
    ensures DownLimb(a, k, 0, m) == a[m + k] / Pow2(0)
  {
    NoShift(a[m + k], a[m + k + 1]);
  }
}
