/** The compact format and the work of a target, on 256-bit numbers. */
module CompactArith {
  import opened Powers
  import opened Limbs
  import opened Compact
  import opened ArithUint256s

  method SetCompact(a: ArithUint256, nCompact: nat) returns (negative: bool, overflow: bool)
    requires a.Valid() && nCompact < TWO32
    modifies a.pn
    ensures a.Val() == Magnitude(nCompact) % Modulus()
    ensures negative == Negative(nCompact) && overflow == Overflow(nCompact)
  {
    hide Bytes;
    hide Place;
    hide Pow2;
    var nSize := nCompact / TWO24;
    var nWord := nCompact % TWO23;
    WordSmall(nCompact);
    if nSize <= 3 {
      nWord := Quotient(nWord, Bytes(3 - nSize));
      a.AssignWord(nWord);
      BelowModulus();
      ModSmall(nWord, Modulus());
    } else {
      a.AssignWord(nWord);
      a.ShiftLeft(8 * (nSize - 3));
      BytesArePow2(nSize - 3);
    }
    negative := nWord != 0 && (nCompact / TWO23) % 2 == 1;
    overflow := nWord != 0 && (nSize > 34 || (nWord > 0xff && nSize > 33) || (nWord > 0xffff && nSize > 32));
  }

  lemma BelowModulus()
    ensures TWO24 <= BASE * BASE <= Modulus()
  {
    assert Place(2) == BASE * BASE;
    PlaceAdd(2, 6);
    Multiples(Place(6), Place(2));
  }

  lemma BytesArePow2(k: nat)
    ensures Bytes(k) == Pow2(8 * k)
  {
  }

  method GetCompact(a: ArithUint256, negative: bool) returns (nCompact: nat)
    requires a.Valid()
    ensures nCompact == Encoded(a.Val(), negative)
  {
    hide Bytes;
    hide Place;
    hide Pow2;
    hide BitLength;
    ghost var v := a.Val();
    var bits := a.Bits();
    BitLengthIs(v, bits);
    var nSize := (bits + 7) / 8;
    BytesArePow2(if nSize <= 3 then 3 - nSize else nSize - 3);
    BelowModulus();
    FrontSmall(v);
    var m;
    if nSize <= 3 {
      m := a.Low64();
      SmallNumber(v);
      m := m * Bytes(3 - nSize);
    } else {
      var bn := new ArithUint256.Copy(a);
      bn.ShiftRight(8 * (nSize - 3));
      m := bn.Low64();
    }
    assert m == Front(v, nSize);
    if m >= TWO23 {
      m, nSize := m / 256, nSize + 1;
    }
    nCompact := nSize * TWO24 + m + if negative && m != 0 then TWO23 else 0;
  }

  lemma FrontSmall(v: nat)
    ensures Front(v, ByteLength(v)) < TWO24
  {
    if v != 0 {
      FrontRange(v);
    } else {
      assert Front(0, 0) == 0 * Bytes(3);
    }
  }

  lemma SmallNumber(v: nat)
    ensures ByteLength(v) <= 3 ==> v < TWO24
  {
    ByteRange(v);
    BytesSmall();
    if ByteLength(v) <= 3 {
      BytesGrow(ByteLength(v), 3);
    }
  }

  /** `GetBlockProof`. */
  method GetBlockProof(nBits: nat) returns (work: ArithUint256)
    requires nBits < TWO32
    ensures work.Valid() && work.Val() == Work(nBits)
  {
    hide Place;
    hide Pow2;
    hide Magnitude;
    hide Bytes;
    hide Quotient;
    var bnTarget := new ArithUint256(0);
    var fNegative, fOverflow := SetCompact(bnTarget, nBits);
    OverflowExact(nBits);
    ModulusIsPow2();
    if fOverflow {
      work := new ArithUint256(0);
      return;
    }
    ModSmall(Magnitude(nBits), Modulus());
    var zero := new ArithUint256(0);
    var c := bnTarget.CompareTo(zero);
    if fNegative || c == 0 {
      work := zero;
      return;
    }
    NoWrap(nBits);
    work := Inverse(bnTarget);
  }

  /** The work is computed without the number 2^256, which does not fit. */
  method Inverse(bnTarget: ArithUint256) returns (work: ArithUint256)
    requires bnTarget.Valid() && 0 < bnTarget.Val() && bnTarget.Val() + 1 < Modulus()
    ensures work.Valid() && work.Val() == Quotient(Modulus(), bnTarget.Val() + 1)
  {
    hide Place;
    hide Quotient;
    ghost var t := bnTarget.Val();
    var next := new ArithUint256.Copy(bnTarget);
    next.Increment();
    ModSmall(t + 1, Modulus());
    work := new ArithUint256(0);
    work.Invert(bnTarget);
    var ok, rem := work.DivAssign(next);
    InverseFits(t, Modulus(), work.Val());
    work.Increment();
  }

  lemma InverseFits(t: nat, modulus: nat, q: nat)
    requires 0 < t && t + 1 < modulus && q == (modulus - 1 - t) / (t + 1)
    ensures (q + 1) % modulus == Quotient(modulus, t + 1)
  {
    assert q == Quotient(modulus - 1 - t, t + 1);
    WorkFormula(t, modulus);
    WorkFits(t, modulus);
  }

  lemma WorkFits(t: nat, modulus: nat)
    requires 0 < t && t + 1 < modulus
    ensures Quotient(modulus, t + 1) < modulus
    ensures Quotient(modulus, t + 1) % modulus == Quotient(modulus, t + 1)
  {
    hide Quotient;
    var q := Quotient(modulus, t + 1);
    MulGrows(2, t + 1, q);
    ModSmall(q, modulus);
  }
}
