/** The conversions of base58.cpp, digit buffers and carries included. */
module Base58Coding {
  import opened Base58
  import opened Basics
  import opened Positional
  import opened Powers

  lemma Digit(x: nat, base: nat)
    ensures Value([x], base) == Times(x, Pow(base, 0)) == x
  {
    assert [x][..0] == [];
  }

  lemma Shifted(x: nat, p: nat, v: nat, base: nat)
    ensures Times(Times(x, p) + v, base) == Times(x, Times(base, p)) + Times(v, base)
  {
    Distribute(Times(x, p), v, base);
    Associate(x, p, base);
  }

  /** The value of digits with one more digit in front. */
  lemma {:induction false} ValueInFront(x: nat, s: seq<nat>, base: nat)
    ensures Value([x] + s, base) == Times(x, Pow(base, |s|)) + Value(s, base)
  {
    hide Times;
    if s == [] {
      Digit(x, base);
      assert [x] + s == [x];
    } else {
      var l := |s| - 1;
      ValueInFront(x, s[..l], base);
      assert ([x] + s)[..|s|] == [x] + s[..l];
      Shifted(x, Pow(base, l), Value(s[..l], base), base);
    }
  }

  function Remainder(a: nat, b: nat): (r: nat)
    requires 0 < b
    ensures r < b && a == Times(Quotient(a, b), b) + r
  {
    a % b
  }

  /** One step of the carry, p being the weight of the digit. */
  lemma CarryStep(p: nat, base: nat, factor: nat, digit: nat, carry: nat, done: nat, was: nat, add: nat)
    requires 0 < base
    requires done + Times(carry, p) == Times(was, factor) + add
    ensures
      var c := carry + Times(factor, digit);
      Times(Remainder(c, base), p) + done + Times(Quotient(c, base), Times(base, p)) ==
      Times(Times(digit, p) + was, factor) + add
  {
    var c := carry + factor * digit;
    var q, r := Quotient(c, base), Remainder(c, base);
    Distribute(q * base, r, p);
    Associate(q, base, p);
    Distribute(carry, factor * digit, p);
    Associate(factor, digit, p);
    Distribute(Times(digit, p), was, factor);
  }

  /** The carry stays below the factor. */
  lemma CarryBound(base: nat, factor: nat, digit: nat, carry: nat)
    requires digit < base && carry < factor
    ensures Quotient(carry + Times(factor, digit), base) < factor
  {
    var c := carry + factor * digit;
    MulGrows(digit, base - 1, factor);
    Distribute(base - 1, 1, factor);
    assert c < base * factor;
    var q := Quotient(c, base);
    if factor <= q {
      MulGrows(factor, q, base);
    }
  }

  /** The last i digits of d, with the carry, are the last i digits of o times the factor; the others are those of o. */
  ghost predicate Carried(o: seq<nat>, d: seq<nat>, base: nat, factor: nat, add: nat, carry: nat, i: nat) {
    && |d| == |o| && i <= |o| && carry < factor && AreDigits(d, base)
    && d[..|d| - i] == o[..|o| - i]
    && Value(d[|d| - i..], base) + Times(carry, Pow(base, i)) == Times(Value(o[|o| - i..], base), factor) + add
  }

  lemma CarriedStart(o: seq<nat>, base: nat, factor: nat, add: nat)
    requires add < factor && AreDigits(o, base)
    ensures Carried(o, o, base, factor, add, add, 0)
  {
    assert o[|o|..] == [];
  }

  lemma CarriedNext(o: seq<nat>, d: seq<nat>, base: nat, factor: nat, add: nat, carry: nat, i: nat)
    requires 0 < base && Carried(o, d, base, factor, add, carry, i) && i < |o|
    ensures
      var k := |o| - 1 - i;
      var c := carry + Times(factor, d[k]);
      Carried(o, d[k := Remainder(c, base)], base, factor, add, Quotient(c, base), i + 1)
  {
    hide Times;
    hide Quotient;
    hide Remainder;
    hide Value;
    hide Pow;
    var k := |o| - 1 - i;
    var done, rest := d[k + 1..], o[k + 1..];
    assert d[k] == o[k] by {
      assert d[k] == d[..k + 1][k];
    }
    var c := carry + Times(factor, d[k]);
    CarryStep(Pow(base, i), base, factor, o[k], carry, Value(done, base), Value(rest, base), add);
    CarryBound(base, factor, o[k], carry);
    var r := Remainder(c, base);
    var e := d[k := r];
    assert e[..k] == d[..k + 1][..k] && o[..k] == o[..k + 1][..k];
    assert e[k..] == [r] + done;
    assert o[k..] == [o[k]] + rest;
    ValueInFront(r, done, base);
    ValueInFront(o[k], rest, base);
    PowNext(base, i);
  }

  /** Multiplies the number in the buffer by a factor and adds to it; the buffer must have room for the result. */
  method Apply(d: array<nat>, base: nat, factor: nat, add: nat, length: nat) returns (newLength: nat)
    requires 0 < base && add < factor && length <= d.Length
    requires AreDigits(d[..], base)
    requires forall k :: 0 <= k < d.Length - length ==> d[k] == 0
    requires Times(Value(d[..], base), factor) + add < Pow(base, d.Length)
    modifies d
    ensures AreDigits(d[..], base)
    ensures Value(d[..], base) == Times(old(Value(d[..], base)), factor) + add
    ensures newLength <= d.Length
    ensures forall k :: 0 <= k < d.Length - newLength ==> d[k] == 0
  {
    hide Value;
    hide Pow;
    hide Carried;
    hide Times;
    hide Quotient;
    hide Remainder;
    ghost var o := d[..];
    var carry: nat := add;
    var i := 0;
    CarriedStart(o, base, factor, add);
    while (carry != 0 || i < length) && i < d.Length
      invariant 0 <= i <= d.Length
      invariant Carried(o, d[..], base, factor, add, carry, i)
    {
      CarriedNext(o, d[..], base, factor, add, carry, i);
      ghost var was := d[..];
      var k := d.Length - 1 - i;
      carry := carry + Times(factor, d[k]);
      d[k] := Remainder(carry, base);
      assert d[..] == was[k := d[k]];
      carry := Quotient(carry, base);
      i := i + 1;
    }
    Settled(o, d[..], base, factor, add, carry, i, length);
    assert carry == 0;
    newLength := i;
  }

  lemma PowNext(base: nat, i: nat)
    ensures Pow(base, i + 1) == Times(base, Pow(base, i))
  {
  }

  /** When the loop stops the carry is spent and the digits it did not reach are zero. */
  lemma Settled(o: seq<nat>, d: seq<nat>, base: nat, factor: nat, add: nat, carry: nat, i: nat, length: nat)
    requires 0 < base && length <= |o|
    requires forall k :: 0 <= k < |o| - length ==> o[k] == 0
    requires Carried(o, d, base, factor, add, carry, i)
    requires (carry == 0 && length <= i) || i == |o|
    requires Times(Value(o, base), factor) + add < Pow(base, |o|)
    ensures AreDigits(d, base) && carry == 0 && Value(d, base) == Times(Value(o, base), factor) + add
    ensures forall k :: 0 <= k < |d| - i ==> d[k] == 0
  {
    hide Value;
    hide Pow;
    hide Times;
    NoCarry(Value(d[|d| - i..], base), carry, Pow(base, i));
    if i == |o| {
      assert o[0..] == o && d[0..] == d;
    } else {
      forall k | 0 <= k < |d| - i
        ensures d[k] == 0 && o[k] == 0
      {
        assert d[k] == d[..|d| - i][k];
      }
      ZeroesInFront(d, |d| - i, base);
      ZeroesInFront(o, |o| - i, base);
    }
  }

  lemma NoCarry(v: nat, carry: nat, p: nat)
    ensures v + Times(carry, p) < p ==> carry == 0
    ensures carry == 0 ==> Times(carry, p) == 0
  {
    Multiples(carry, p);
  }

  lemma ZeroesInFront(s: seq<nat>, z: nat, base: nat)
    requires z <= |s| && forall k :: 0 <= k < z ==> s[k] == 0
    ensures Value(s, base) == Value(s[z..], base)
  {
    LeadingZeroes(z, s[z..], base);
    assert s == seq(z, i => 0) + s[z..];
  }

  /** The significant digits in the buffer. */
  method Significant(d: array<nat>, base: nat, length: nat) returns (s: seq<nat>)
    requires 2 <= base && length <= d.Length && AreDigits(d[..], base)
    requires forall k :: 0 <= k < d.Length - length ==> d[k] == 0
    ensures s == Digits(Value(d[..], base), base)
  {
    var k := d.Length - length;
    while k < d.Length && d[k] == 0
      invariant d.Length - length <= k <= d.Length
      invariant forall j :: 0 <= j < k ==> d[j] == 0
    {
      k := k + 1;
    }
    s := d[k..];
    ZeroesInFront(d[..], k, base);
    assert d[..][k..] == s;
    DigitsOfValue(s, base);
  }

  /** A longer number of digits is read one digit at a time. */
  lemma ReadOn(s: seq<nat>, i: nat, base: nat)
    requires i < |s|
    ensures Value(s[..i + 1], base) == Times(Value(s[..i], base), base) + s[i]
  {
    assert s[..i + 1][..i] == s[..i];
  }

  lemma PrefixFits(s: seq<nat>, i: nat, base: nat, room: nat)
    requires i <= |s| && 0 < base && AreDigits(s, base) && Pow(base, |s|) <= room
    ensures Value(s[..i], base) < room
  {
    ValueBound(s[..i], base);
    PowLonger(base, i, |s|);
  }

  method Zeroes(size: nat, ghost base: nat) returns (d: array<nat>)
    requires 0 < base
    ensures fresh(d) && d.Length == size && AreDigits(d[..], base) && Value(d[..], base) == 0
    ensures forall k :: 0 <= k < size ==> d[k] == 0
  {
    d := new nat[size](_ => 0);
    AllZero(d[..], base);
  }

  /** Reads the digits of one base into a buffer of the other base, which always has the room. */
  method Convert(s: seq<nat>, from: nat, to: nat, size: nat) returns (r: seq<nat>)
    requires 2 <= from && 2 <= to && AreDigits(s, from) && Pow(from, |s|) <= Pow(to, size)
    ensures r == Digits(Value(s, from), to)
  {
    hide Value;
    hide Pow;
    hide Digits;
    var d := Zeroes(size, to);
    var length: nat := 0;
    var i := 0;
    AllZero(s[..0], from);
    while i < |s|
      invariant 0 <= i <= |s| && length <= d.Length
      invariant AreDigits(d[..], to)
      invariant forall k :: 0 <= k < d.Length - length ==> d[k] == 0
      invariant Value(d[..], to) == Value(s[..i], from)
    {
      ReadOn(s, i, from);
      PrefixFits(s, i + 1, from, Pow(to, size));
      length := Apply(d, to, from, s[i], length);
      i := i + 1;
    }
    assert s[..|s|] == s;
    r := Significant(d, to, length);
  }

  /** Text of a byte string. */
  method EncodeBase58(b: seq<Byte>) returns (str: string)
    ensures str == Encoded(b)
  {
    hide Value;
    hide Digits;
    var zeroes := 0;
    while zeroes < |b| && b[zeroes] == 0
      invariant 0 <= zeroes <= |b|
      invariant forall k :: 0 <= k < zeroes ==> b[k] == 0
    {
      zeroes := zeroes + 1;
    }
    LeadingIs(b, 0, zeroes);
    var rest := b[zeroes..];
    EncodeFits(|rest|);
    var digits := Convert(rest, 256, 58, EncodedRoom(|rest|));
    str := Repeated(zeroes, '1') + Letters(digits);
  }

  /** What the buffer holds once a piece of a word is read. */
  ghost predicate Holding(w: string, d: seq<nat>, length: nat) {
    && InAlphabet(w) && length <= |d| && AreDigits(d, 256)
    && (forall k :: 0 <= k < |d| - length ==> d[k] == 0)
    && Value(d, 256) == Value(DigitsOf(w), 58)
  }

  lemma HoldingStart(d: seq<nat>)
    requires forall k :: 0 <= k < |d| ==> d[k] == 0
    ensures Holding([], d, 0)
  {
    AllZero(d, 256);
  }

  lemma LetterInAlphabet(w: string, c: char)
    requires InAlphabet(w) && 0 <= IndexIn(Alphabet(), c)
    ensures InAlphabet(w + [c])
  {
    hide Alphabet;
  }

  lemma ReadLetter(w: string, c: char)
    requires InAlphabet(w) && 0 <= IndexIn(Alphabet(), c)
    ensures IndexIn(Alphabet(), c) < 58
    ensures InAlphabet(w + [c])
    ensures Value(DigitsOf(w + [c]), 58) == Times(Value(DigitsOf(w), 58), 58) + IndexIn(Alphabet(), c)
    ensures Value(DigitsOf(w + [c]), 58) < Pow(58, |w| + 1)
  {
    hide Alphabet;
    hide IndexIn;
    hide Times;
    hide Pow;
    hide Value;
    LettersCount();
    LetterInAlphabet(w, c);
    var all := DigitsOf(w + [c]);
    ReadOn(all, |w|, 58);
    assert all[..|w|] == DigitsOf(w) && all[..|w| + 1] == all;
    ValueBound(all, 58);
  }

  /** Takes one more letter into the buffer. */
  method TakeLetter(ghost w: string, c: char, d: array<nat>, length: nat) returns (newLength: nat)
    requires Holding(w, d[..], length) && 0 <= IndexIn(Alphabet(), c)
    requires Pow(58, |w| + 1) <= Pow(256, d.Length)
    modifies d
    ensures Holding(w + [c], d[..], newLength)
  {
    hide Value;
    hide Pow;
    hide DigitsOf;
    hide InAlphabet;
    hide Alphabet;
    ReadLetter(w, c);
    newLength := Apply(d, 256, 58, IndexIn(Alphabet(), c), length);
  }

  lemma LetterFits(read: nat, left: nat, size: nat)
    requires read < left && size == DecodedRoom(left)
    ensures Pow(58, read + 1) <= Pow(256, size)
  {
    PowLonger(58, read + 1, left);
    DecodeFits(left);
  }

  lemma Held(w: string, d: seq<nat>, length: nat)
    requires Holding(w, d, length)
    ensures InAlphabet(w) && length <= |d| && AreDigits(d, 256) && Value(d, 256) == Value(DigitsOf(w), 58)
    ensures forall k :: 0 <= k < |d| - length ==> d[k] == 0
  {
  }

  /** Where the reader is: spaces up to start, ones up to first, then no space up to p. */
  ghost predicate At(s: string, start: nat, first: nat, p: nat) {
    && start <= first <= p <= |s|
    && (forall k :: 0 <= k < start ==> IsSpace(s[k])) && (start < |s| ==> !IsSpace(s[start]))
    && (forall k :: start <= k < first ==> s[k] == '1') && (first < |s| ==> s[first] != '1')
    && (forall k :: first <= k < p ==> !IsSpace(s[k]))
  }

  lemma TrimmedIs(s: string, start: nat, first: nat, p: nat)
    requires At(s, start, first, p)
    ensures Trimmed(s) == s[start..]
    ensures p < |s| && !IsSpace(s[p]) ==> p - start < |Word(s)| && Word(s)[p - start] == s[p]
    ensures p == |s| || IsSpace(s[p]) ==> Word(s) == s[start..p] && Tail(s) == s[p..]
  {
    hide IsSpace;
    SpacesBeforeIs(s, start);
    var t := s[start..];
    var n := p - start;
    assert forall k :: 0 <= k < n ==> t[k] == s[start + k];
    assert p < |s| ==> t[n] == s[p];
    if p == |s| || IsSpace(s[p]) {
      WordLengthIs(t, n);
    }
  }

  lemma Unknown(s: string, start: nat, first: nat, p: nat)
    requires At(s, start, first, p) && p < |s| && !IsSpace(s[p]) && IndexIn(Alphabet(), s[p]) < 0
    ensures Decoded(s) == None
  {
    TrimmedIs(s, start, first, p);
    hide Word;
    hide Alphabet;
    assert IndexIn(Alphabet(), Word(s)[p - start]) < 0;
  }

  lemma Trailing(s: string, start: nat, first: nat, p: nat, end: nat)
    requires At(s, start, first, p) && p <= end < |s| && IsSpace(s[p]) && !IsSpace(s[end])
    ensures Decoded(s) == None
  {
    hide Word;
    hide Tail;
    TrimmedIs(s, start, first, p);
    assert Tail(s)[end - p] == s[end];
  }

  lemma Understood(s: string, start: nat, first: nat, p: nat)
    requires At(s, start, first, p) && InAlphabet(s[first..p])
    requires forall k :: p <= k < |s| ==> IsSpace(s[k])
    ensures Decoded(s) == Some(Repeated(first - start, 0) + Digits(Value(DigitsOf(s[first..p]), 58), 256))
  {
    hide Word;
    hide Tail;
    hide DigitsOf;
    hide InAlphabet;
    hide Alphabet;
    hide Digits;
    hide Value;
    TrimmedIs(s, start, first, p);
    var z := first - start;
    var w := s[start..p];
    assert w == Repeated(z, '1') + s[first..p];
    OnesInAlphabet(z);
    JoinInAlphabet(Repeated(z, '1'), s[first..p]);
    LeadingIs(w, '1', z);
    assert w[z..] == s[first..p];
  }

  /** The bytes of a C string; nothing unless it is one word of the alphabet, with or without spaces around it. */
  method DecodeBase58(s: string) returns (r: Option<seq<Byte>>)
    requires '\0' !in s
    ensures r == Decoded(s)
  {
    hide Decoded;
    hide Holding;
    hide InAlphabet;
    hide Alphabet;
    hide Pow;
    hide Value;
    hide Digits;
    var start := SkipSpaces(s, 0);
    var p := start;
    while p < |s| && s[p] == '1'
      invariant start <= p <= |s|
      invariant forall k :: start <= k < p ==> s[k] == '1'
    {
      p := p + 1;
    }
    var first := p;
    var size := DecodedRoom(|s| - p);
    var d := Zeroes(size, 256);
    HoldingStart(d[..]);
    assert s[first..p] == [];
    var length: nat := 0;
    while p < |s| && !IsSpace(s[p])
      invariant first <= p <= |s| && d.Length == size
      invariant At(s, start, first, p)
      invariant Holding(s[first..p], d[..], length)
    {
      if IndexIn(Alphabet(), s[p]) < 0 {
        Unknown(s, start, first, p);
        return None;
      }
      LetterFits(p - first, |s| - first, size);
      length := TakeLetter(s[first..p], s[p], d, length);
      assert s[first..p + 1] == s[first..p] + [s[p]];
      p := p + 1;
    }
    var end := SkipSpaces(s, p);
    if end != |s| {
      Trailing(s, start, first, p, end);
      return None;
    }
    Held(s[first..p], d[..], length);
    var bytes := Significant(d, 256, length);
    Understood(s, start, first, p);
    r := Some(Repeated(first - start, 0) + bytes);
  }

  method SkipSpaces(s: string, from: nat) returns (p: nat)
    requires from <= |s|
    ensures from <= p <= |s|
    ensures forall k :: from <= k < p ==> IsSpace(s[k])
    ensures p < |s| ==> !IsSpace(s[p])
  {
    p := from;
    while p < |s| && IsSpace(s[p])
      invariant from <= p <= |s|
      invariant forall k :: from <= k < p ==> IsSpace(s[k])
    {
      p := p + 1;
    }
  }

  /** The bytes of a string, which is read as a C string. */
  method DecodeString(s: string) returns (r: Option<seq<Byte>>)
    ensures r == Decoded(CString(s))
  {
    r := DecodeBase58(CString(s));
  }
}
