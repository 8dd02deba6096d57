/** The compact format of targets: a 23-bit mantissa, a sign bit and a byte count. */
module Compact {
  import opened Powers

  const TWO15 := 0x8000
  const TWO16 := 0x1_0000
  const TWO23 := 0x80_0000
  const TWO24 := 0x100_0000
  const TWO32 := 0x1_0000_0000

  /** A compact number taken apart: byte count, sign bit, mantissa. */
  function Size(n: nat): nat {
    n / TWO24
  }

  predicate Sign(n: nat) {
    (n / TWO23) % 2 == 1
  }

  function Mantissa(n: nat): nat {
    n % TWO23
  }

  /** 256 to the power `k`. */
  function Bytes(k: nat): (b: nat)
    ensures 0 < b
  {
    Pow2(8 * k)
  }

  /** The mantissa as far as it is used: small byte counts drop its low bytes. */
  function Word(n: nat): nat {
    if Size(n) <= 3 then Quotient(Mantissa(n), Bytes(3 - Size(n))) else Mantissa(n)
  }

  /** The magnitude that a compact number stands for, of any size. */
  function Magnitude(n: nat): nat {
    if Size(n) <= 3 then Word(n) else Word(n) * Bytes(Size(n) - 3)
  }

  /** The flags of `SetCompact`. */
  predicate Negative(n: nat) {
    Word(n) != 0 && Sign(n)
  }

  predicate Overflow(n: nat) {
    Word(n) != 0 && (Size(n) > 34 || (Word(n) > 0xff && Size(n) > 33) || (Word(n) > 0xffff && Size(n) > 32))
  }

  // ----- overflow

  lemma BytesAdd(j: nat, k: nat)
    ensures Bytes(j + k) == Bytes(j) * Bytes(k) && 0 < Bytes(j) && 0 < Bytes(k)
  {
    Pow2Add(8 * j, 8 * k);
  }

  lemma BytesSmall()
    ensures Bytes(0) == 1 && Bytes(1) == 256 && Bytes(2) == TWO16 && Bytes(3) == TWO24 && Bytes(32) == Pow2(256)
  {
    Pow2Small();
  }

  lemma BytesGrow(j: nat, k: nat)
    requires j <= k
    ensures 0 < Bytes(j) <= Bytes(k)
  {
    Pow2Grows(8 * j, 8 * k);
  }

  /** A word with `s` bytes fits just when its `k` lowest bytes are zero above. */
  lemma Reaches(w: nat, k: nat, room: nat)
    ensures k <= room ==> (w * Bytes(k) >= Bytes(room) <==> w >= Bytes(room - k))
    ensures room <= k && w != 0 ==> w * Bytes(k) >= Bytes(room)
  {
    if k <= room {
      BytesAdd(room - k, k);
      if w >= Bytes(room - k) {
        MulGrows(Bytes(room - k), w, Bytes(k));
      } else {
        MulGrows(w + 1, Bytes(room - k), Bytes(k));
        Distribute(w, 1, Bytes(k));
      }
    }
    if room <= k && w != 0 {
      BytesGrow(room, k);
      MulGrows(1, w, Bytes(k));
    }
  }

  /** The overflow flag says just whether the magnitude does not fit in 256 bits. */
  lemma OverflowExact(n: nat)
    ensures Overflow(n) <==> Magnitude(n) >= Pow2(256)
  {
    hide Pow2;
    hide Bytes;
    BytesSmall();
    var s, w := Size(n), Word(n);
    if s <= 3 {
      BytesGrow(3, 32);
      WordSmall(n);
    } else {
      Reaches(w, s - 3, 32);
      if s == 34 {
        assert 32 - (s - 3) == 1;
      } else if s == 33 {
        assert 32 - (s - 3) == 2;
      } else if s <= 32 {
        BytesGrow(3, 32 - (s - 3));
        WordSmall(n);
      }
    }
  }

  lemma WordSmall(n: nat)
    ensures Word(n) < TWO23
  {
    hide Bytes;
    hide Quotient;
  }

  // ----- encoding

  function BitLength(v: nat): nat {
    if v == 0 then 0 else 1 + BitLength(v / 2)
  }

  lemma {:induction false} BitRange(v: nat)
    ensures v < Pow2(BitLength(v)) && (v != 0 ==> Pow2(BitLength(v) - 1) <= v)
  {
    if v != 0 {
      BitRange(v / 2);
    }
  }

  /** The length is the only one with that range. */
  lemma BitLengthIs(v: nat, b: nat)
    requires v < Pow2(b) && (b != 0 ==> Pow2(b - 1) <= v)
    ensures BitLength(v) == b
  {
    hide Pow2;
    BitRange(v);
    var l := BitLength(v);
    if l < b {
      Pow2Grows(l, b - 1);
    } else if b < l {
      ZeroBits(v, b);
      Pow2Grows(b, l - 1);
    }
  }

  lemma ZeroBits(v: nat, b: nat)
    requires v < Pow2(b)
    ensures v == 0 ==> BitLength(v) == 0
  {
  }

  function ByteLength(v: nat): nat {
    (BitLength(v) + 7) / 8
  }

  lemma ByteRange(v: nat)
    ensures v < Bytes(ByteLength(v))
    ensures v != 0 ==> 1 <= ByteLength(v) && Bytes(ByteLength(v) - 1) <= v
  {
    BitRange(v);
    var b, s := BitLength(v), ByteLength(v);
    Pow2Grows(b, 8 * s);
    if v != 0 {
      Pow2Grows(8 * (s - 1), b - 1);
    }
  }

  lemma ByteLengthIs(v: nat, s: nat)
    requires 1 <= s && Bytes(s - 1) <= v < Bytes(s)
    ensures ByteLength(v) == s
  {
    hide Pow2;
    ByteRange(v);
    var l := ByteLength(v);
    if l < s {
      BytesGrow(l, s - 1);
    } else if s < l {
      BytesGrow(s, l - 1);
    }
  }

  /** The three highest bytes of a number, or all of them in front. */
  function Front(v: nat, s: nat): nat {
    if s <= 3 then v * Bytes(3 - s) else Quotient(v, Bytes(s - 3))
  }

  datatype Code = Code(size: nat, word: nat)

  /** Byte count and mantissa: a mantissa that would reach the sign bit gives up its lowest byte. */
  function CodeOf(v: nat): Code {
    var s := ByteLength(v);
    var m := Front(v, s);
    if m >= TWO23 then Code(s + 1, m / 256) else Code(s, m)
  }

  /** `GetCompact`. */
  function Encoded(v: nat, negative: bool): nat {
    var c := CodeOf(v);
    c.size * TWO24 + c.word + if negative && c.word != 0 then TWO23 else 0
  }

  lemma FrontRange(v: nat)
    requires v != 0
    ensures TWO16 <= Front(v, ByteLength(v)) < TWO24
  {
    hide Pow2;
    hide Bytes;
    hide ByteLength;
    var s := ByteLength(v);
    ByteRange(v);
    BytesSmall();
    if s <= 3 {
      BytesAdd(s - 1, 3 - s);
      BytesAdd(s, 3 - s);
      MulGrows(Bytes(s - 1), v, Bytes(3 - s));
      MulGrows(v + 1, Bytes(s), Bytes(3 - s));
      Distribute(v, 1, Bytes(3 - s));
    } else {
      BytesAdd(2, s - 3);
      BytesAdd(3, s - 3);
      QuotientBetween(v, Bytes(s - 3), Bytes(2), Bytes(3));
    }
  }

  lemma QuotientBetween(v: nat, d: nat, lo: nat, hi: nat)
    requires 0 < d && lo * d <= v < hi * d
    ensures lo <= Quotient(v, d) < hi
  {
    var q := Quotient(v, d);
    if q < lo {
      MulGrows(q + 1, lo, d);
      Distribute(q, 1, d);
    }
    if hi <= q {
      MulGrows(hi, q, d);
    }
  }

  lemma CodeRange(v: nat)
    ensures var c := CodeOf(v);
      && c.word < TWO23 && (v != 0 ==> TWO15 <= c.word) && (v == 0 ==> c == Code(0, 0))
      && c.size <= ByteLength(v) + 1
  {
    hide Pow2;
    hide Bytes;
    if v != 0 {
      FrontRange(v);
    } else {
      assert Front(0, 0) == 0 * Bytes(3);
    }
  }

  /** The parts of an encoded number are those it was made of. */
  lemma EncodedParts(v: nat, negative: bool)
    ensures var n, c := Encoded(v, negative), CodeOf(v);
      && Size(n) == c.size && Mantissa(n) == c.word && (Sign(n) <==> negative && c.word != 0)
  {
    hide CodeOf;
    CodeRange(v);
    var c := CodeOf(v);
    Parts(c.size, c.word, negative && c.word != 0);
  }

  lemma Parts(size: nat, word: nat, sign: bool)
    requires word < TWO23
    ensures var n := size * TWO24 + word + if sign then TWO23 else 0;
      Size(n) == size && Mantissa(n) == word && (Sign(n) <==> sign)
  {
    var n := size * TWO24 + word + if sign then TWO23 else 0;
    DivUnique(n, TWO24, size, word + if sign then TWO23 else 0);
    DivUnique(n, TWO23, 2 * size + (if sign then 1 else 0), word);
  }

  // ----- decoding what was encoded

  /** What one unit of the mantissa stands for. */
  function Unit(size: nat): (u: nat)
    ensures 0 < u
  {
    if size <= 3 then 1 else Bytes(size - 3)
  }

  function Decoded(c: Code): nat {
    if c.size <= 3 then Quotient(c.word, Bytes(3 - c.size)) else c.word * Bytes(c.size - 3)
  }

  lemma QuotientIs(v: nat, d: nat, q: nat)
    requires 0 < d && q * d <= v < q * d + d
    ensures Quotient(v, d) == q
  {
    DivUnique(v, d, q, v - q * d);
  }

  /** Numbers of up to three bytes whose mantissa is clear of the sign bit. */
  lemma SmallDecodes(v: nat, s: nat)
    requires s <= 3
    ensures Decoded(Code(s, Front(v, s))) == v
    ensures s <= 2 ==> Decoded(Code(s + 1, Front(v, s) / 256)) == v
  {
    hide Pow2;
    hide Bytes;
    BytesSmall();
    QuotientIs(v * Bytes(3 - s), Bytes(3 - s), v);
    if s <= 2 {
      BytesAdd(2 - s, 1);
      Associate(v, Bytes(2 - s), 256);
      DivUnique(v * Bytes(3 - s), 256, v * Bytes(2 - s), 0);
      QuotientIs(v * Bytes(2 - s), Bytes(2 - s), v);
    }
  }

  lemma ByteDropped(v: nat, s: nat)
    requires 3 <= s
    ensures Front(v, s) / 256 == Quotient(v, Bytes(s - 2))
  {
    hide Pow2;
    hide Bytes;
    BytesSmall();
    BytesAdd(s - 3, 1);
    if s == 3 {
      assert Front(v, s) == v * 1;
    } else {
      DivDiv(v, Bytes(s - 3), 256);
    }
  }

  /** Encoding keeps the whole units of a number and drops the rest. */
  lemma CodeDecodes(v: nat)
    ensures var c := CodeOf(v); Decoded(c) == Quotient(v, Unit(c.size)) * Unit(c.size)
  {
    hide Pow2;
    hide Bytes;
    hide ByteLength;
    hide Quotient;
    var s := ByteLength(v);
    var m := Front(v, s);
    QuotientIs(v, 1, v);
    if s <= 3 {
      SmallDecodes(v, s);
    }
    if 3 <= s {
      ByteDropped(v, s);
    }
  }

  /** What `GetCompact` writes, `SetCompact` reads without a flag, as a value that is at most the original and
      less than one unit of the mantissa below it. */
  lemma RoundDown(v: nat)
    requires v < Pow2(256)
    ensures var n := Encoded(v, false);
      && !Negative(n) && !Overflow(n)
      && Magnitude(n) <= v < Magnitude(n) + Unit(Size(n))
      && Magnitude(n) == Decoded(CodeOf(v))
  {
    hide Pow2;
    hide Bytes;
    hide CodeOf;
    hide Quotient;
    hide Encoded;
    var n, c := Encoded(v, false), CodeOf(v);
    EncodedParts(v, false);
    CodeDecodes(v);
    assert Magnitude(n) == Decoded(c);
    WholeUnits(v, Unit(c.size));
    OverflowExact(n);
  }

  lemma WholeUnits(v: nat, u: nat)
    requires 0 < u
    ensures Quotient(v, u) * u <= v < Quotient(v, u) * u + u
  {
  }

  // ----- encoding again changes nothing

  /** Dropping less than a unit drops nothing from the front. */
  lemma SameLength(v: nat)
    requires v != 0
    ensures var c, s := CodeOf(v), ByteLength(v);
      Bytes(s - 1) <= Decoded(c) < Bytes(s)
  {
    hide Pow2;
    hide Bytes;
    hide ByteLength;
    hide Quotient;
    var c, s := CodeOf(v), ByteLength(v);
    var u := Unit(c.size);
    ByteRange(v);
    CodeDecodes(v);
    WholeUnits(v, u);
    BytesSmall();
    if 4 <= c.size {
      var k := s - 1 - (c.size - 3);
      BytesAdd(k, c.size - 3);
      QuotientAtLeast(v, u, Bytes(k));
      MulGrows(Bytes(k), Quotient(v, u), u);
    } else {
      QuotientIs(v, 1, v);
    }
  }

  /** The mantissa of the decoded value is the same. */
  lemma SameCode(v: nat)
    requires v != 0
    ensures CodeOf(Decoded(CodeOf(v))) == CodeOf(v)
  {
    hide Pow2;
    hide Bytes;
    hide ByteLength;
    hide Quotient;
    hide Decoded;
    hide Front;
    var c, s := CodeOf(v), ByteLength(v);
    ByteRange(v);
    SameLength(v);
    ByteLengthIs(Decoded(c), s);
    CodeDecodes(v);
    QuotientIs(v, 1, v);
    if 4 <= c.size {
      SameFront(v, s, c.size - s);
      if c.size == s {
        FrontIsQuotient(v, s);
      } else {
        ByteDropped(v, s);
      }
    }
  }

  lemma FrontIsQuotient(v: nat, s: nat)
    requires 4 <= s
    ensures Front(v, s) == Quotient(v, Bytes(s - 3))
  {
  }

  /** The front of a number is that of its whole units, or ends in a zero byte when one was dropped. */
  lemma SameFront(v: nat, s: nat, dropped: nat)
    requires dropped <= 1 && 4 <= s + dropped
    ensures var q := Quotient(v, Bytes(s + dropped - 3));
      Front(q * Bytes(s + dropped - 3), s) == if dropped == 0 then q else q * 256
  {
    hide Pow2;
    hide Bytes;
    var u := Bytes(s + dropped - 3);
    var q := Quotient(v, u);
    BytesSmall();
    if dropped == 0 {
      QuotientIs(q * u, u, q);
    } else if s == 3 {
      assert u == 256;
    } else {
      BytesAdd(1, s - 3);
      Associate(q, 256, Bytes(s - 3));
      QuotientIs(q * u, Bytes(s - 3), q * 256);
    }
  }

  lemma ReEncode(v: nat)
    requires v < Pow2(256)
    ensures Encoded(Magnitude(Encoded(v, false)), false) == Encoded(v, false)
  {
    hide Pow2;
    hide Bytes;
    hide CodeOf;
    hide Decoded;
    RoundDown(v);
    if v == 0 {
      CodeRange(v);
      CodeDecodes(0);
      NothingDecodes();
    } else {
      SameCode(v);
    }
  }

  lemma NothingDecodes()
    ensures Decoded(Code(0, 0)) == 0
  {
    QuotientIs(0, Bytes(3), 0);
  }

  // ----- the work behind a target

  /** Whether a compact number can be used as a target. */
  predicate IsTarget(n: nat) {
    !Negative(n) && !Overflow(n) && Magnitude(n) != 0
  }

  /** The work that a target stands for: the expected number of tries. */
  function Work(n: nat): nat {
    if IsTarget(n) then Quotient(Pow2(256), Magnitude(n) + 1) else 0
  }

  /** One more than a target still fits in 256 bits. */
  lemma NoWrap(n: nat)
    requires !Overflow(n)
    ensures Magnitude(n) + 1 < Pow2(256)
  {
    hide Pow2;
    hide Bytes;
    OverflowExact(n);
    BytesSmall();
    if Size(n) <= 3 {
      WordSmall(n);
      BytesGrow(3, 32);
    } else {
      var k := Size(n) - 3;
      BytesAdd(k - 1, 1);
      BytesAdd(31, 1);
      Associate(Word(n), Bytes(k - 1), 256);
      GapOf256(Word(n) * Bytes(k - 1), Bytes(31));
    }
  }

  lemma GapOf256(a: nat, b: nat)
    requires a * 256 < b * 256
    ensures a * 256 + 1 < b * 256
  {
  }

  /** Dividing the complement of the target and adding one is dividing 2^256. */
  lemma WorkFormula(t: nat, modulus: nat)
    requires t + 1 < modulus
    ensures Quotient(modulus - 1 - t, t + 1) + 1 == Quotient(modulus, t + 1)
  {
    var d := t + 1;
    var q := Quotient(modulus - d, d);
    Distribute(q, 1, d);
    QuotientIs(modulus, d, q + 1);
  }

  /** Some compact numbers and what they stand for: the mantissa with zero bytes behind it, or without its last bytes;
      the sign is that of what is left. */
  lemma Examples()
    ensures Magnitude(0x05009234) == 0x92340000 && !Negative(0x05009234) && !Overflow(0x05009234)
    ensures Magnitude(0x04923456) == 0x12345600 && Negative(0x04923456)
    ensures Magnitude(0x01123456) == 0x12 && !Negative(0x01123456)
    ensures Magnitude(0x01fedcba) == 0x7e && Negative(0x01fedcba)
    ensures Magnitude(0x00123456) == 0 && Overflow(0xff123456)
  {
    BytesSmall();
    DivUnique(0x05009234, TWO24, 5, 0x9234);
    DivUnique(0x04923456, TWO24, 4, 0x923456);
    DivUnique(0x123456, TWO16, 0x12, 0x3456);
    DivUnique(0x7edcba, TWO16, 0x7e, 0xdcba);
    DivUnique(0x123456, TWO24, 0, 0x123456);
  }
}
