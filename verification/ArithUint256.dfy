/** 256-bit numbers on eight limbs, changed in place. */
module ArithUint256s {
  import opened Powers
  import opened Limbs
  import opened LimbShifts

  const WIDTH := 8

  /** Two to the power 256. */
  ghost function Modulus(): nat {
    Place(WIDTH)
  }

  lemma ModulusIsPow2()
    ensures Modulus() == Pow2(256)
  {
    PlaceIsPow2(8);
  }

  // ----- one limb of a carry loop

  lemma AddStep(before: seq<Limb>, a: seq<Limb>, b: seq<Limb>, i: nat, carry: nat, lo: Limb, hi: nat)
    requires i < |before| == |a| == |b| && carry + a[i] + b[i] == lo + hi * BASE
    requires Value(before, i) + carry * Place(i) == Value(a, i) + Value(b, i)
    ensures Value(before[i := lo], i + 1) + hi * Place(i + 1) == Value(a, i + 1) + Value(b, i + 1)
  {
    hide Place;
    hide Value;
    ValueSame(before, before[i := lo], i);
    ValueNext(before[i := lo], i);
    ValueNext(a, i);
    ValueNext(b, i);
    CarryStep(carry + a[i] + b[i], lo, hi, i);
    Distribute(carry + a[i], b[i], Place(i));
    Distribute(carry, a[i], Place(i));
  }

  lemma ScaleStep(before: seq<Limb>, a: seq<Limb>, b: nat, i: nat, carry: nat, lo: Limb, hi: nat)
    requires i < |before| == |a| && carry + b * a[i] == lo + hi * BASE
    requires Value(before, i) + carry * Place(i) == b * Value(a, i)
    ensures Value(before[i := lo], i + 1) + hi * Place(i + 1) == b * Value(a, i + 1)
  {
    hide Place;
    hide Value;
    ValueSame(before, before[i := lo], i);
    ValueNext(before[i := lo], i);
    ValueNext(a, i);
    CarryStep(carry + b * a[i], lo, hi, i);
    Distribute(carry, b * a[i], Place(i));
    Associate(b, a[i], Place(i));
    Distribute(Value(a, i), a[i] * Place(i), b);
  }

  /** What is left of a sum when the last carry is dropped. */
  lemma DropCarry(v: nat, carry: nat, total: nat)
    requires v + carry * Modulus() == total && v < Modulus()
    ensures v == total % Modulus()
  {
    hide Place;
    DivUnique(total, Modulus(), carry, v);
  }

  class ArithUint256 {
    const pn: array<Limb>

    ghost predicate Valid() {
      pn.Length == WIDTH
    }

    ghost function Val(): (v: nat)
      requires Valid()
      reads pn
      ensures v < Modulus()
    {
      ValueBound(pn[..], WIDTH);
      Value(pn[..], WIDTH)
    }

    constructor (b: nat)
      requires b < BASE * BASE
      ensures Valid() && fresh(pn) && Val() == b
    {
      pn := new Limb[WIDTH](i => 0);
      new;
      pn[0], pn[1] := b % BASE, b / BASE;
      ghost var s := pn[..];
      ValueZero(s[0 := 0][1 := 0], WIDTH);
      ValueUpdate(s[0 := 0][1 := 0], 0, s[0], WIDTH);
      ValueUpdate(s[0 := 0][1 := 0][0 := s[0]], 1, s[1], WIDTH);
      assert s == s[0 := 0][1 := 0][0 := s[0]][1 := s[1]];
      assert Place(1) == BASE * Place(0);
    }

    constructor Copy(b: ArithUint256)
      requires b.Valid()
      ensures Valid() && fresh(pn) && pn[..] == b.pn[..]
    {
      pn := new Limb[WIDTH](i requires 0 <= i < WIDTH reads b.pn => b.pn[i]);
    }

    /** `*this = b` for another number. */
    method Assign(b: ArithUint256)
      requires Valid() && b.Valid()
      modifies pn
      ensures pn[..] == old(b.pn[..])
    {
      for i := 0 to WIDTH
        invariant forall j :: 0 <= j < i ==> pn[j] == old(b.pn[j])
        invariant forall j :: i <= j < WIDTH ==> b.pn[j] == old(b.pn[j])
      {
        pn[i] := b.pn[i];
      }
    }

    method SetZero()
      requires Valid()
      modifies pn
      ensures Val() == 0 && forall i :: 0 <= i < WIDTH ==> pn[i] == 0
    {
      for i := 0 to WIDTH
        invariant forall j :: 0 <= j < i ==> pn[j] == 0
      {
        pn[i] := 0;
      }
      ValueZero(pn[..], WIDTH);
    }

    /** `*this = b` for a 64-bit number. */
    method AssignWord(b: nat)
      requires Valid() && b < BASE * BASE
      modifies pn
      ensures Val() == b
    {
      var c := new ArithUint256(b);
      Assign(c);
    }

    /** `~` of another number is written here. */
    method Invert(b: ArithUint256)
      requires Valid() && b.Valid()
      modifies pn
      ensures Val() == Modulus() - 1 - old(b.Val())
    {
      hide Value;
      hide Place;
      ghost var b0 := b.pn[..];
      for i := 0 to WIDTH
        invariant forall j :: 0 <= j < i ==> pn[j] == BASE - 1 - b0[j]
        invariant forall j :: i <= j < WIDTH ==> b.pn[j] == b0[j]
      {
        pn[i] := BASE - 1 - b.pn[i];
      }
      assert pn[..] == Inverted(b0);
      InvertedValue(b0, WIDTH);
    }

    /** `GetLow64` of a number that has no more. */
    method Low64() returns (r: nat)
      requires Valid()
      ensures Val() < BASE * BASE ==> r == Val()
    {
      hide Value;
      r := pn[0] + pn[1] * BASE;
      TwoLimbs(pn[..]);
    }

    /** `+=`, also when a number is added to itself. */
    method AddAssign(b: ArithUint256)
      requires Valid() && b.Valid()
      modifies pn
      ensures Val() == (old(Val()) + old(b.Val())) % Modulus()
    {
      hide Value;
      hide Place;
      ghost var a0, b0 := pn[..], b.pn[..];
      var carry := 0;
      ValueStart(pn[..], a0, b0);
      for i := 0 to WIDTH
        invariant 0 <= carry <= 1
        invariant forall j :: i <= j < WIDTH ==> pn[j] == a0[j] && b.pn[j] == b0[j]
        invariant Value(pn[..], i) + carry * Place(i) == Value(a0, i) + Value(b0, i)
      {
        var n := carry + pn[i] + b.pn[i];
        var lo: Limb := n % BASE;
        AddStep(pn[..], a0, b0, i, carry, lo, n / BASE);
        ghost var before := pn[..];
        pn[i] := lo;
        carry := n / BASE;
        assert pn[..] == before[i := lo];
      }
      ValueBound(pn[..], WIDTH);
      DropCarry(Value(pn[..], WIDTH), carry, Value(a0, WIDTH) + Value(b0, WIDTH));
    }

    /** `*=` with a 32-bit number. */
    method ScaleAssign(b32: Limb)
      requires Valid()
      modifies pn
      ensures Val() == (b32 * old(Val())) % Modulus()
    {
      hide Value;
      hide Place;
      ghost var a0 := pn[..];
      var carry := 0;
      ValueStart(pn[..], a0, a0);
      for i := 0 to WIDTH
        invariant 0 <= carry < BASE
        invariant forall j :: i <= j < WIDTH ==> pn[j] == a0[j]
        invariant Value(pn[..], i) + carry * Place(i) == b32 * Value(a0, i)
      {
        var n := carry + b32 * pn[i];
        FitsIn64(carry, 0, b32, pn[i]);
        var lo: Limb := n % BASE;
        ScaleStep(pn[..], a0, b32, i, carry, lo, n / BASE);
        ghost var before := pn[..];
        pn[i] := lo;
        carry := n / BASE;
        assert pn[..] == before[i := lo];
      }
      ValueBound(pn[..], WIDTH);
      DropCarry(Value(pn[..], WIDTH), carry, b32 * Value(a0, WIDTH));
    }

    /** `++`. */
    method Increment()
      requires Valid()
      modifies pn
      ensures Val() == (old(Val()) + 1) % Modulus()
    {
      hide Value;
      hide Place;
      EmptyValue(pn[..]);
      var i := 0;
      ghost var v := Val();
      while i < WIDTH
        invariant i <= WIDTH && Val() == v + 1 - Place(i)
      {
        ghost var before := pn[..];
        ValueUpdate(before, i, (before[i] + 1) % BASE, WIDTH);
        pn[i] := (pn[i] + 1) % BASE;
        assert pn[..] == before[i := (before[i] + 1) % BASE];
        StepUp(before[i], i);
        if pn[i] != 0 {
          DropCarry(Val(), 0, v + 1);
          return;
        }
        i := i + 1;
      }
      DropCarry(Val(), 1, v + 1);
    }

    /** `--`. */
    method Decrement()
      requires Valid()
      modifies pn
      ensures Val() == (old(Val()) - 1) % Modulus()
    {
      hide Value;
      hide Place;
      EmptyValue(pn[..]);
      var i := 0;
      ghost var v := Val();
      while i < WIDTH
        invariant i <= WIDTH && Val() == v - 1 + Place(i)
      {
        ghost var before := pn[..];
        ValueUpdate(before, i, (before[i] - 1) % BASE, WIDTH);
        pn[i] := (pn[i] - 1) % BASE;
        assert pn[..] == before[i := (before[i] - 1) % BASE];
        StepDown(before[i], i);
        if pn[i] != BASE - 1 {
          DropCarry(Val(), 0, v - 1);
          return;
        }
        i := i + 1;
      }
      DivUnique(v - 1, Modulus(), -1, Val());
    }

    /** The two's complement of `b` is written here. */
    method Negate(b: ArithUint256)
      requires Valid() && b.Valid()
      modifies pn
      ensures Val() == (0 - old(b.Val())) % Modulus()
    {
      hide Value;
      hide Place;
      ghost var w: int := b.Val();
      Invert(b);
      Increment();
      ModPlus(0 - w, 1, Modulus());
    }

    /** `-=`. */
    method SubAssign(b: ArithUint256)
      requires Valid() && b.Valid()
      modifies pn
      ensures Val() == (old(Val()) - old(b.Val())) % Modulus()
    {
      hide Value;
      hide Place;
      ghost var v: int, w: int := Val(), b.Val();
      var minus := new ArithUint256(0);
      minus.Negate(b);
      AddAssign(minus);
      ModAdd(v, 0 - w, Modulus());
    }

    /** `*=`. The number is first set to zero, so the product is right unless a number is multiplied by itself
        in place; then it comes out as zero. */
    method MulAssign(b: ArithUint256)
      requires Valid() && b.Valid()
      modifies pn
      ensures b.pn != pn ==> Val() == (old(Val()) * old(b.Val())) % Modulus()
      ensures b.pn == pn ==> Val() == 0
    {
      hide Value;
      hide Place;
      var a := new ArithUint256.Copy(this);
      ghost var a0, b0 := pn[..], b.pn[..];
      SetZero();
      if b.pn == pn {
        MulSelf(a);
        return;
      }
      ghost var q := 0;
      EmptyValue(a0);
      for j := 0 to WIDTH
        invariant a.pn[..] == a0 && b.pn[..] == b0
        invariant 0 <= q && Val() + q * Modulus() == Value(a0, j) * Value(b0, WIDTH)
      {
        ghost var w := Val();
        ghost var carry := AddRow(a.pn[j], b, j);
        q := RowStep(w, Val(), carry, q, a0, b0, j);
      }
      DropCarry(Val(), q, Value(a0, WIDTH) * Value(b0, WIDTH));
    }

    /** One row of the product: limb `aj`, which stands at place `j`, times `b`. */
    method AddRow(aj: Limb, b: ArithUint256, j: nat) returns (ghost lost: nat)
      requires Valid() && b.Valid() && j < WIDTH && b.pn != pn
      modifies pn
      ensures Val() + lost * Modulus() == old(Val()) + (aj * Place(j)) * Value(b.pn[..], WIDTH - j)
    {
      hide Value;
      hide Place;
      ghost var w, b0 := Val(), b.pn[..];
      EmptyValue(b0);
      var carry := 0;
      for i := 0 to WIDTH - j
        invariant 0 <= carry < BASE && b.pn[..] == b0
        invariant Val() + carry * Place(i + j) == w + (aj * Place(j)) * Value(b0, i)
      {
        var n := carry + pn[i + j] + aj * b.pn[i];
        FitsIn64(carry, pn[i + j], aj, b.pn[i]);
        var lo: Limb := n % BASE;
        ghost var before := pn[..];
        CellStep(before, aj, b0, i, j, carry, lo, n / BASE);
        pn[i + j] := lo;
        carry := n / BASE;
        assert pn[..] == before[i + j := lo];
      }
      lost := carry;
    }

    /** Multiplying in place by the number itself: every product is with a limb that is zero already. */
    method MulSelf(a: ArithUint256)
      requires Valid() && a.Valid() && a.pn != pn && forall i :: 0 <= i < WIDTH ==> pn[i] == 0
      modifies pn
      ensures Val() == 0
    {
      for j := 0 to WIDTH
        invariant forall i :: 0 <= i < WIDTH ==> pn[i] == 0
      {
        var carry := 0;
        for i := 0 to WIDTH - j
          invariant carry == 0 && forall i :: 0 <= i < WIDTH ==> pn[i] == 0
        {
          var n := carry + pn[i + j] + a.pn[j] * pn[i];
          pn[i + j] := n % BASE;
          carry := n / BASE;
        }
      }
      ValueZero(pn[..], WIDTH);
    }

    /** `CompareTo`: the sign of the difference. */
    method CompareTo(b: ArithUint256) returns (r: int)
      requires Valid() && b.Valid()
      ensures r == if Val() < b.Val() then -1 else if Val() > b.Val() then 1 else 0
    {
      hide Value;
      ghost var s, t := pn[..], b.pn[..];
      for i := WIDTH downto 0
        invariant forall j :: i <= j < WIDTH ==> pn[j] == b.pn[j]
      {
        if pn[i] < b.pn[i] {
          ValueCompare(s, t, i, WIDTH);
          return -1;
        }
        if pn[i] > b.pn[i] {
          ValueCompare(t, s, i, WIDTH);
          return 1;
        }
      }
      ValueSame(s, t, WIDTH);
      return 0;
    }

    /** `bits`: the position of the highest bit set plus one, or zero. */
    method Bits() returns (n: nat)
      requires Valid()
      ensures n <= 256 && Val() < Pow2(n)
      ensures n != 0 ==> Pow2(n - 1) <= Val()
    {
      hide Value;
      hide Pow2;
      ghost var s := pn[..];
      for pos := WIDTH downto 0
        invariant forall j :: pos <= j < WIDTH ==> pn[j] == 0
      {
        if pn[pos] != 0 {
          Pow2Small();
          for nbits := 32 downto 1
            invariant pn[pos] < Pow2(nbits)
          {
            HighestBit(pn[pos], nbits);
            if (pn[pos] / Pow2(nbits)) % 2 == 1 {
              TopLimb(s, pos, nbits + 1);
              return 32 * pos + nbits + 1;
            }
          }
          SmallestBit();
          TopLimb(s, pos, 1);
          return 32 * pos + 1;
        }
      }
      ValueZero(s, WIDTH);
      SmallestBit();
      n := 0;
    }

    /** One limb of a shift to the left, into two limbs of the result. */
    method PutUp(x: Limb, i: nat, k: nat, s: nat)
      requires Valid() && s < 32 && i < WIDTH && (i + k + 1 < WIDTH ==> pn[i + k + 1] == 0)
      requires i + k < WIDTH ==> Or(pn[i + k], StaysUp(x, s)) < BASE
      modifies pn
      ensures forall m :: 0 <= m < WIDTH && m != i + k && m != i + k + 1 ==> pn[m] == old(pn[m])
      ensures i + k < WIDTH ==> pn[i + k] == Or(old(pn[i + k]), StaysUp(x, s))
      ensures i + k + 1 < WIDTH ==> pn[i + k + 1] == GoesUp(x, s)
    {
      hide Or;
      hide Pow2;
      GoesUpSmall(x, s);
      if i + k + 1 < WIDTH && s != 0 {
        OrZero(GoesUp(x, s));
        pn[i + k + 1] := Or(pn[i + k + 1], x / Pow2(32 - s));
      }
      if i + k < WIDTH {
        pn[i + k] := Or(pn[i + k], x * Pow2(s) % BASE);
      }
    }

    /** `<<=`. */
    method ShiftLeft(shift: nat)
      requires Valid()
      modifies pn
      ensures Val() == (old(Val()) * Pow2(shift)) % Modulus()
    {
      hide Value;
      hide Place;
      hide Or;
      hide Pow2;
      hide UpLimb;
      hide UpSoFar;
      hide StaysUp;
      hide GoesUp;
      var a := new ArithUint256.Copy(this);
      ghost var a0 := pn[..];
      SetZero();
      var k, s := shift / 32, shift % 32;
      forall m | 0 <= m < WIDTH ensures pn[m] == UpSoFar(a0, k, s, 0, m) { UpStart(a0, k, s, m); }
      for i := 0 to WIDTH
        invariant a.pn[..] == a0
        invariant forall m :: 0 <= m < WIDTH ==> pn[m] == UpSoFar(a0, k, s, i, m)
      {
        if i + k < WIDTH {
          JoinUp(a0, k, s, i);
        }
        forall m | 0 <= m < WIDTH
          ensures UpSoFar(a0, k, s, i + 1, m) ==
                  if m == i + k then UpLimb(a0, k, s, m) else if m == i + k + 1 then GoesUp(a0[i], s)
                  else UpSoFar(a0, k, s, i, m)
          ensures m == i + k + 1 ==> UpSoFar(a0, k, s, i, m) == 0
        {
          UpAdvance(a0, k, s, i, m);
        }
        PutUp(a.pn[i], i, k, s);
      }
      forall m | 0 <= m < WIDTH ensures pn[m] == UpLimb(a0, k, s, m) { UpStart(a0, k, s, m); }
      assert pn[..] == ShiftedUp(a0, k, s);
      ShiftedUpValue(a0, shift);
    }

    /** One limb of a shift to the right, into two limbs of the result. */
    method PutDown(x: Limb, i: nat, k: nat, s: nat)
      requires Valid() && s < 32 && i < WIDTH && (k <= i ==> pn[i - k] == 0)
      requires k + 1 <= i && s != 0 ==> Or(pn[i - k - 1], x * Pow2(32 - s) % BASE) < BASE
      modifies pn
      ensures forall m :: 0 <= m < WIDTH && m + k != i && m + k + 1 != i ==> pn[m] == old(pn[m])
      ensures k + 1 <= i ==>
        pn[i - k - 1] == if s == 0 then old(pn[i - k - 1]) else Or(old(pn[i - k - 1]), x * Pow2(32 - s) % BASE)
      ensures k <= i ==> pn[i - k] == x / Pow2(s)
    {
      hide Or;
      hide Pow2;
      QuotientSmall(x, Pow2(s));
      if i - k - 1 >= 0 && s != 0 {
        pn[i - k - 1] := Or(pn[i - k - 1], x * Pow2(32 - s) % BASE);
      }
      if i - k >= 0 {
        OrZero(x / Pow2(s));
        pn[i - k] := Or(pn[i - k], x / Pow2(s));
      }
    }

    /** `>>=`. */
    method ShiftRight(shift: nat)
      requires Valid()
      modifies pn
      ensures Val() == old(Val()) / Pow2(shift)
    {
      hide Value;
      hide Place;
      hide Or;
      hide Pow2;
      hide DownLimb;
      hide DownSoFar;
      var a := new ArithUint256.Copy(this);
      ghost var a0 := pn[..];
      SetZero();
      var k, s := shift / 32, shift % 32;
      forall m | 0 <= m < WIDTH ensures pn[m] == DownSoFar(a0, k, s, 0, m) { DownStart(a0, k, s, m); }
      for i := 0 to WIDTH
        invariant a.pn[..] == a0
        invariant forall m :: 0 <= m < WIDTH ==> pn[m] == DownSoFar(a0, k, s, i, m)
      {
        if k + 1 <= i && s != 0 {
          JoinDown(a0, k, s, i);
        }
        forall m | 0 <= m < WIDTH
          ensures DownSoFar(a0, k, s, i + 1, m) ==
                  if m + k + 1 == i then DownLimb(a0, k, s, m) else if m + k == i then a0[i] / Pow2(s)
                  else DownSoFar(a0, k, s, i, m)
          ensures m + k == i ==> DownSoFar(a0, k, s, i, m) == 0
          ensures m + k + 1 == i && s == 0 ==> DownSoFar(a0, k, s, i, m) == DownLimb(a0, k, s, m)
        {
          DownAdvance(a0, k, s, i, m);
        }
        PutDown(a.pn[i], i, k, s);
      }
      forall m | 0 <= m < WIDTH ensures pn[m] == DownLimb(a0, k, s, m) { DownStart(a0, k, s, m); }
      assert pn[..] == ShiftedDown(a0, k, s);
      ShiftedDownValue(a0, shift);
    }

    /** Sets a bit of a quotient that has none set up to there. */
    method SetBit(shift: nat)
      requires Valid() && shift < 256 && ClearUpTo(pn[..], shift)
      modifies pn
      ensures Val() == old(Val()) + Pow2(shift)
      ensures 0 < shift ==> ClearUpTo(pn[..], shift - 1)
    {
      hide Value;
      hide Place;
      hide Or;
      hide Pow2;
      ghost var before := pn[..];
      var q, t := shift / 32, shift % 32;
      SetBitInLimb(pn[q], t);
      pn[q] := Or(Pow2(t), pn[q]);
      assert pn[..] == before[q := before[q] + Pow2(t)];
      ValueUpdate(before, q, before[q] + Pow2(t), WIDTH);
      PlaceIsPow2(q);
      Pow2Add(t, 32 * q);
      if 0 < shift {
        StillClear(before, pn[..], shift);
      }
    }

    /** `/=`: a quotient bit by bit. A result of false stands for the exception on a zero divisor. */
    method DivAssign(b: ArithUint256) returns (ok: bool, ghost rem: nat)
      requires Valid() && b.Valid()
      modifies pn
      ensures ok <==> old(b.Val()) != 0
      ensures ok ==> Val() == old(Val()) / old(b.Val()) && rem == old(Val()) % old(b.Val())
      ensures !ok ==> Val() == 0
    {
      hide Value;
      hide Place;
      hide Pow2;
      hide ClearUpTo;
      hide Scaled;
      hide Dividing;
      ghost var x, y := Val(), b.Val();
      var div := new ArithUint256.Copy(b);
      var num := new ArithUint256.Copy(this);
      SetZero();
      rem := x;
      var numBits := num.Bits();
      var divBits := div.Bits();
      if divBits == 0 {
        SmallestBit();
        return false, rem;
      }
      ok := true;
      if divBits > numBits {
        Pow2Grows(numBits, divBits - 1);
        DivUnique(x, y, 0, x);
        return;
      }
      var shift: int := numBits - divBits;
      Aligned(x, y, numBits, divBits);
      div.ShiftLeft(shift);
      AllClear(pn[..], shift);
      DivideStart(x, y, shift);
      while shift >= 0
        invariant -1 <= shift < 256
        invariant num.Valid() && div.Valid() && fresh(num.pn) && fresh(div.pn) && num.pn != div.pn
        invariant Dividing(x, y, Val(), num.Val(), shift + 1)
        invariant 0 <= shift ==> div.Val() == Scaled(y, shift) && ClearUpTo(pn[..], shift)
        decreases shift
      {
        ghost var n, d, v := num.Val(), div.Val(), Val();
        DivideStep(x, y, v, n, shift);
        var c := num.CompareTo(div);
        if c >= 0 {
          num.SubAssign(div);
          ModSmall(n - d, Modulus());
          SetBit(shift);
        } else {
          ClearBelow(pn[..], shift);
        }
        div.ShiftRight(1);
        shift := shift - 1;
      }
      rem := num.Val();
      DivideEnd(x, y, Val(), rem);
    }
  }

  ghost function Scaled(y: nat, shift: nat): nat {
    y * Pow2(shift)
  }

  /** The quotient so far accounts for all but `n`, which is less than the divisor shifted by `shift`. */
  ghost predicate Dividing(x: nat, y: nat, q: nat, n: nat, shift: nat) {
    x == q * y + n && n < Scaled(y, shift)
  }

  lemma DivideStart(x: nat, y: nat, shift: nat)
    requires x < y * Pow2(shift + 1)
    ensures Dividing(x, y, 0, x, shift + 1)
    ensures y * Pow2(shift) == Scaled(y, shift)
  {
  }

  lemma DivideStep(x: nat, y: nat, q: nat, n: nat, shift: nat)
    requires Dividing(x, y, q, n, shift + 1)
    ensures var d := Scaled(y, shift);
      if d <= n then Dividing(x, y, q + Pow2(shift), n - d, shift) else Dividing(x, y, q, n, shift)
    ensures 0 < shift ==> Scaled(y, shift) / Pow2(1) == Scaled(y, shift - 1)
  {
    hide Pow2;
    Halved(y, shift);
    Distribute(q, Pow2(shift), y);
  }

  lemma DivideEnd(x: nat, y: nat, q: nat, n: nat)
    requires 0 < y && Dividing(x, y, q, n, 0)
    ensures q == x / y && n == x % y
  {
    SmallestBit();
    DivUnique(x, y, q, n);
  }

  /** No bit is set up to and including position `shift`. */
  ghost predicate ClearUpTo(s: seq<Limb>, shift: nat)
    requires |s| == WIDTH && shift < 256
  {
    && (forall m :: 0 <= m < shift / 32 ==> s[m] == 0)
    && s[shift / 32] % Pow2(shift % 32 + 1) == 0
  }

  lemma AllClear(s: seq<Limb>, shift: nat)
    requires |s| == WIDTH && shift < 256 && forall i :: 0 <= i < WIDTH ==> s[i] == 0
    ensures ClearUpTo(s, shift)
  {
    ModZero(Pow2(shift % 32 + 1));
  }

  lemma EvenMultiple(x: nat, p: nat)
    requires 0 < p && x % (2 * p) == 0
    ensures x % p == 0 && (x + p) % p == 0 && x == (x / (2 * p)) * (2 * p)
  {
    var h := x / (2 * p);
    assert x == h * (2 * p);
    Associate(h, 2, p);
    DivUnique(x, p, h * 2, 0);
    Distribute(h * 2, 1, p);
    DivUnique(x + p, p, h * 2 + 1, 0);
  }

  lemma ClearBelow(s: seq<Limb>, shift: nat)
    requires |s| == WIDTH && shift < 256 && ClearUpTo(s, shift)
    ensures 0 < shift ==> ClearUpTo(s, shift - 1)
  {
    if 0 < shift {
      StillClear(s, s, shift);
    }
  }

  lemma StillClear(s: seq<Limb>, t: seq<Limb>, shift: nat)
    requires |s| == |t| == WIDTH && 0 < shift < 256 && ClearUpTo(s, shift)
    requires forall m :: 0 <= m < WIDTH && m != shift / 32 ==> t[m] == s[m]
    requires t[shift / 32] == s[shift / 32] || t[shift / 32] == s[shift / 32] + Pow2(shift % 32)
    ensures ClearUpTo(t, shift - 1)
  {
    var q, b := shift / 32, shift % 32;
    if b == 0 {
      DivUnique(shift - 1, 32, q - 1, 31);
      ModZero(Pow2(32));
    } else {
      DivUnique(shift - 1, 32, q, b - 1);
      EvenMultiple(s[q], Pow2(b));
    }
  }

  lemma SetBitInLimb(x: Limb, t: nat)
    requires t < 32 && x % Pow2(t + 1) == 0
    ensures Or(Pow2(t), x) == x + Pow2(t) < BASE
  {
    hide Or;
    var p := Pow2(t);
    EvenMultiple(x, p);
    OrDisjoint(p, x / (2 * p), t + 1);
    Pow2Add(31 - t, t + 1);
    Pow2Small();
    RoomForBit(x / (2 * p), 2 * p, Pow2(31 - t));
  }

  lemma RoomForBit(h: nat, p: nat, q: nat)
    requires h * p < q * p
    ensures h * p + p <= q * p
  {
    BelowMultiple(h, q, p);
    MulGrows(h + 1, q, p);
    Distribute(h, 1, p);
  }

  /** Shifted by the difference in length, the divisor is as long as the number. */
  lemma Aligned(x: nat, y: nat, n: nat, m: nat)
    requires 1 <= m <= n <= 256 && Pow2(m - 1) <= y < Pow2(m) && Pow2(n - 1) <= x < Pow2(n)
    ensures (y * Pow2(n - m)) % Modulus() == y * Pow2(n - m)
    ensures x < y * Pow2(n - m + 1)
  {
    hide Pow2;
    hide Place;
    ModulusIsPow2();
    Pow2Add(m, n - m);
    Pow2Grows(n, 256);
    MulGrowsStrictly(y, Pow2(m), Pow2(n - m));
    ModSmall(y * Pow2(n - m), Modulus());
    Pow2Add(m - 1, n - m + 1);
    MulGrows(Pow2(m - 1), y, Pow2(n - m + 1));
  }

  lemma Halved(y: nat, shift: nat)
    ensures y * Pow2(shift + 1) == 2 * (y * Pow2(shift))
    ensures 0 < shift ==> (y * Pow2(shift)) / Pow2(1) == y * Pow2(shift - 1)
  {
    var p := Pow2(shift);
    Associate(y, 2, p);
    assert y * (2 * p) == 2 * (y * p);
    if 0 < shift {
      var h := Pow2(shift - 1);
      assert y * (2 * h) == (y * h) * 2;
      assert Pow2(1) == 2;
      DivUnique(y * p, 2, y * h, 0);
    }
  }

  lemma TwoLimbs(s: seq<Limb>)
    requires |s| == WIDTH
    ensures Value(s, WIDTH) < BASE * BASE ==> Value(s, WIDTH) == s[0] + s[1] * BASE
  {
    hide Value;
    hide Place;
    hide High;
    ValueSplit(s, 2, WIDTH);
    EmptyValue(s);
    ValueNext(s, 0);
    ValueNext(s, 1);
    PlaceNext(0);
    PlaceNext(1);
    var h := High(s, 2, WIDTH);
    Multiples(h, Place(2));
  }

  lemma HighestBit(x: nat, n: nat)
    requires x < Pow2(n + 1)
    ensures (x / Pow2(n)) % 2 == 1 <==> Pow2(n) <= x
  {
    var p := Pow2(n);
    if p <= x {
      DivUnique(x, p, 1, x - p);
    } else {
      DivUnique(x, p, 0, x);
    }
  }

  lemma SmallestBit()
    ensures Pow2(0) == 1 && Pow2(1) == 2
  {
  }

  lemma {:induction false} ValueOfLow(s: seq<Limb>, m: nat, n: nat)
    requires m <= n <= |s| && forall j :: m <= j < n ==> s[j] == 0
    ensures Value(s, n) == Value(s, m)
    decreases n
  {
    if m != n {
      ValueOfLow(s, m, n - 1);
    }
  }

  /** The highest limb tells the range of the value. */
  lemma TopLimb(s: seq<Limb>, pos: nat, n: nat)
    requires |s| == WIDTH && pos < WIDTH && 1 <= n && Pow2(n - 1) <= s[pos] < Pow2(n)
    requires forall j :: pos < j < WIDTH ==> s[j] == 0
    ensures Pow2(32 * pos + n - 1) <= Value(s, WIDTH) < Pow2(32 * pos + n)
  {
    hide Value;
    hide Place;
    hide Pow2;
    var p := Place(pos);
    ValueOfLow(s, pos + 1, WIDTH);
    ValueNext(s, pos);
    ValueBound(s, pos);
    PlaceIsPow2(pos);
    Pow2Add(n - 1, 32 * pos);
    Pow2Add(n, 32 * pos);
    var x: int := s[pos];
    MulGrows(Pow2(n - 1), x, p);
    MulGrows(x + 1, Pow2(n), p);
    Distribute(x, 1, p);
  }

  lemma StepUp(x: Limb, i: nat)
    ensures ((x + 1) % BASE - x) * Place(i) == if (x + 1) % BASE != 0 then Place(i) else Place(i) - Place(i + 1)
  {
    if (x + 1) % BASE == 0 {
      assert x == BASE - 1;
      Distribute(1, 0 - BASE, Place(i));
    }
  }

  lemma StepDown(x: Limb, i: nat)
    ensures ((x - 1) % BASE - x) * Place(i) ==
      if (x - 1) % BASE != BASE - 1 then 0 - Place(i) else Place(i + 1) - Place(i)
  {
    if (x - 1) % BASE == BASE - 1 {
      assert x == 0;
      Distribute(BASE, 0 - 1, Place(i));
    }
  }

  /** One limb of a row of the product. */
  lemma CellStep(before: seq<Limb>, aj: Limb, b: seq<Limb>, i: nat, j: nat, carry: nat, lo: Limb, hi: nat)
    requires |before| == |b| == WIDTH && i + j < WIDTH && carry + before[i + j] + aj * b[i] == lo + hi * BASE
    ensures Value(before[i + j := lo], WIDTH) + hi * Place(i + j + 1) + (aj * Place(j)) * Value(b, i)
         == Value(before, WIDTH) + carry * Place(i + j) + (aj * Place(j)) * Value(b, i + 1)
  {
    hide Value;
    hide Place;
    var p := Place(i + j);
    ValueUpdate(before, i + j, lo, WIDTH);
    CarryStep(carry + before[i + j] + aj * b[i], lo, hi, i + j);
    Distribute(carry + before[i + j], aj * b[i], p);
    Distribute(carry, before[i + j], p);
    Distribute(lo - before[i + j], before[i + j], p);
    ValueNext(b, i);
    Distribute(Value(b, i), b[i] * Place(i), aj * Place(j));
    PlaceAdd(j, i);
    Rearrange(aj, b[i], Place(i), Place(j));
  }

  lemma Rearrange(a: nat, b: nat, p: nat, q: nat)
    ensures (a * b) * (q * p) == (a * q) * (b * p)
  {
    Associate(a, b, q * p);
    Associate(a, q, b * p);
    Associate(b, q, p);
    Associate(q, b, p);
  }

  /** A whole row of the product: what runs over the top is a multiple of the modulus. */
  lemma RowStep(w: nat, v: nat, carry: nat, q: nat, a: seq<Limb>, b: seq<Limb>, j: nat) returns (q': nat)
    requires |a| == |b| == WIDTH && j < WIDTH
    requires w + q * Modulus() == Value(a, j) * Value(b, WIDTH)
    requires v + carry * Modulus() == w + (a[j] * Place(j)) * Value(b, WIDTH - j)
    ensures v + q' * Modulus() == Value(a, j + 1) * Value(b, WIDTH)
  {
    hide Value;
    hide Place;
    hide High;
    var h := High(b, WIDTH - j, WIDTH);
    q' := q + carry + a[j] * h;
    ValueSplit(b, WIDTH - j, WIDTH);
    PlaceAdd(j, WIDTH - j);
    Rearrange(a[j], h, Place(WIDTH - j), Place(j));
    Distribute(Value(b, WIDTH - j), h * Place(WIDTH - j), a[j] * Place(j));
    ValueNext(a, j);
    Distribute(Value(a, j), a[j] * Place(j), Value(b, WIDTH));
    Distribute(q + carry, a[j] * h, Modulus());
    Distribute(q, carry, Modulus());
  }

  lemma FitsIn64(carry: nat, x: nat, a: nat, b: nat)
    requires carry < BASE && x < BASE && a < BASE && b < BASE
    ensures 0 <= carry + x + a * b < BASE * BASE && (carry + x + a * b) / BASE < BASE
  {
    hide Times;
    Squared(a, b, BASE - 1);
    var p := Times(a, b);
    assert p <= 0xFFFF_FFFE_0000_0001;
    Carries(carry + x + p);
    assert Times(a, b) == a * b by {
      Product(a, b);
    }
  }

  lemma Product(a: nat, b: nat)
    ensures Times(a, b) == a * b
  {
  }

  lemma Squared(a: nat, b: nat, m: nat)
    requires a <= m && b <= m
    ensures Times(a, b) <= m * m
  {
    MulGrows(a, m, b);
    MulGrows(b, m, m);
  }

  lemma Carries(s: nat)
    requires s < 0x1_0000_0000_0000_0000
    ensures s < BASE * BASE && s / BASE < BASE
  {
  }

  /** Reducing one summand first changes no remainder. */
  lemma ModAdd(a: int, b: int, d: nat)
    requires 0 < d
    ensures (a + b % d) % d == (a + b) % d
  {
    assert b == (b / d) * d + b % d;
    ModPlus(a + b % d, b / d, d);
  }

  lemma ValueStart(s: seq<Limb>, a: seq<Limb>, b: seq<Limb>)
    ensures Value(s, 0) + 0 * Place(0) == Value(a, 0) + Value(b, 0)
    ensures forall k: nat :: Value(s, 0) + 0 * Place(0) == k * Value(a, 0)
  {
  }
}
