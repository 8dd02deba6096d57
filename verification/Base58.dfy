/**
 * Base58, the text form of addresses and keys: what a string and a byte string say to each other,
 * and that the two are inverse.
 */
module Base58 {
  import opened Basics
  import opened Positional
  import opened Powers

  // All alphanumeric characters except "0", "I", "O" and "l".
  const NUMERALS: string := "123456789"
  const UPPER_A_TO_N: string := "ABCDEFGHJKLMN"
  const UPPER_P_TO_Z: string := "PQRSTUVWXYZ"
  const LOWER_A_TO_K: string := "abcdefghijk"
  const LOWER_M_TO_Z: string := "mnopqrstuvwxyz"

  function Alphabet(): string {
    NUMERALS + UPPER_A_TO_N + UPPER_P_TO_Z + LOWER_A_TO_K + LOWER_M_TO_Z
  }

  /** The alphabet is in the order of the character codes. */
  ghost predicate Rising(s: string) {
    forall i, j :: 0 <= i < j < |s| ==> s[i] < s[j]
  }

  lemma UpperPiecesRise()
    ensures Rising(NUMERALS) && Rising(UPPER_A_TO_N) && Rising(UPPER_P_TO_Z)
  {
  }

  lemma LowerPiecesRise()
    ensures Rising(LOWER_A_TO_K) && Rising(LOWER_M_TO_Z)
  {
  }

  lemma JoinRises(s: string, t: string)
    requires Rising(s) && Rising(t) && s != [] && t != [] && s[|s| - 1] < t[0]
    ensures Rising(s + t)
  {
    forall i, j | 0 <= i < j < |s + t|
      ensures (s + t)[i] < (s + t)[j]
    {
      if i < |s| <= j {
        assert s[i] <= s[|s| - 1] && t[0] <= t[j - |s|];
      }
    }
  }

  lemma AlphabetRises()
    ensures Rising(Alphabet()) && |Alphabet()| == 58 && Alphabet()[0] == '1'
  {
    UpperPiecesRise();
    LowerPiecesRise();
    var a := NUMERALS + UPPER_A_TO_N;
    var b := a + UPPER_P_TO_Z;
    var c := b + LOWER_A_TO_K;
    JoinRises(NUMERALS, UPPER_A_TO_N);
    assert a[|a| - 1] == 'N';
    JoinRises(a, UPPER_P_TO_Z);
    assert b[|b| - 1] == 'Z';
    JoinRises(b, LOWER_A_TO_K);
    assert c[|c| - 1] == 'k';
    JoinRises(c, LOWER_M_TO_Z);
  }

  /** Where `strchr` finds the character, -1 if it does not. */
  function IndexIn(s: string, c: char): (i: int)
    ensures -1 <= i < |s|
    ensures 0 <= i ==> s[i] == c
    ensures i < 0 ==> c !in s
  {
    if s == [] then -1
    else if s[|s| - 1] == c then |s| - 1
    else IndexIn(s[..|s| - 1], c)
  }

  predicate InAlphabet(s: string) {
    forall i :: 0 <= i < |s| ==> 0 <= IndexIn(Alphabet(), s[i])
  }

  lemma IndexOfLetter(d: nat)
    requires d < |Alphabet()|
    ensures IndexIn(Alphabet(), Alphabet()[d]) == d
  {
    AlphabetRises();
    hide Alphabet;
    var i := IndexIn(Alphabet(), Alphabet()[d]);
    assert Alphabet()[i] == Alphabet()[d];
  }

  /** What `isspace` accepts in the C locale. */
  predicate IsSpace(c: char) {
    c == ' ' || '\U{0009}' <= c <= '\U{000D}'
  }

  ghost predicate AllSpaces(s: string) {
    forall i :: 0 <= i < |s| ==> IsSpace(s[i])
  }

  lemma LettersAreNoSpaces(c: char)
    requires 0 <= IndexIn(Alphabet(), c)
    ensures !IsSpace(c)
  {
    AlphabetRises();
    hide Alphabet;
    var i := IndexIn(Alphabet(), c);
    assert Alphabet()[0] <= Alphabet()[i];
  }

  // ----- What a word of the alphabet means -----

  /** The digits a word is made of. */
  function DigitsOf(w: string): (s: seq<nat>)
    requires InAlphabet(w)
    ensures |s| == |w| && AreDigits(s, 58)
  {
    LettersCount();
    seq(|w|, i requires 0 <= i < |w| => IndexIn(Alphabet(), w[i]))
  }

  lemma LettersCount()
    ensures |Alphabet()| == 58
  {
    AlphabetRises();
  }

  function Letters(s: seq<nat>): (w: string)
    requires AreDigits(s, 58)
    ensures |w| == |s| && InAlphabet(w) && DigitsOf(w) == s
  {
    LettersCount();
    var w := seq(|s|, i requires 0 <= i < |s| => Alphabet()[s[i]]);
    LettersRead(s, w);
    w
  }

  lemma LettersRead(s: seq<nat>, w: string)
    requires AreDigits(s, 58) && |w| == |s| && |Alphabet()| == 58
    requires forall i :: 0 <= i < |s| ==> w[i] == Alphabet()[s[i]]
    ensures InAlphabet(w) && DigitsOf(w) == s
  {
    hide Alphabet;
    forall i | 0 <= i < |s|
      ensures IndexIn(Alphabet(), w[i]) == s[i]
    {
      IndexOfLetter(s[i]);
    }
  }

  lemma ReadLetters(w: string)
    requires InAlphabet(w)
    ensures Letters(DigitsOf(w)) == w
  {
    hide Alphabet;
    LettersCount();
    var s := DigitsOf(w);
    forall i | 0 <= i < |w|
      ensures Letters(s)[i] == w[i]
    {
      assert IndexIn(Alphabet(), w[i]) == s[i];
    }
  }

  /** How many times the sequence starts with x. */
  function Leading<T(==)>(s: seq<T>, x: T): (n: nat)
    ensures n <= |s|
    ensures forall i :: 0 <= i < n ==> s[i] == x
    ensures n < |s| ==> s[n] != x
  {
    if s == [] || s[0] != x then 0 else 1 + Leading(s[1..], x)
  }

  lemma LeadingIs<T>(s: seq<T>, x: T, n: nat)
    requires n <= |s| && (forall i :: 0 <= i < n ==> s[i] == x) && (n < |s| ==> s[n] != x)
    ensures Leading(s, x) == n
  {
  }

  function Repeated<T>(n: nat, x: T): (s: seq<T>)
    ensures |s| == n && forall i :: 0 <= i < n ==> s[i] == x
  {
    seq(n, i => x)
  }

  /** The base 58 form of a byte string: a '1' for each leading zero byte, then the number. */
  function Encoded(b: seq<Byte>): (w: string)
    ensures InAlphabet(w)
  {
    var z := Leading(b, 0);
    OnesInAlphabet(z);
    JoinInAlphabet(Repeated(z, '1'), Letters(Digits(Value(b[z..], 256), 58)));
    Repeated(z, '1') + Letters(Digits(Value(b[z..], 256), 58))
  }

  lemma OnesInAlphabet(z: nat)
    ensures InAlphabet(Repeated(z, '1'))
    ensures IndexIn(Alphabet(), '1') == 0
  {
    AlphabetRises();
    hide Alphabet;
    IndexOfLetter(0);
  }

  lemma JoinInAlphabet(v: string, w: string)
    requires InAlphabet(v) && InAlphabet(w)
    ensures InAlphabet(v + w)
  {
  }

  lemma PartInAlphabet(w: string, i: nat, j: nat)
    requires InAlphabet(w) && i <= j <= |w|
    ensures InAlphabet(w[i..j])
  {
  }

  /** The byte string of a word of the alphabet: a zero byte for each leading '1', then the number. */
  function Bytes(w: string): (b: seq<Byte>)
    requires InAlphabet(w)
  {
    var z := Leading(w, '1');
    PartInAlphabet(w, z, |w|);
    Repeated(z, 0) + Digits(Value(DigitsOf(w[z..]), 58), 256)
  }

  /** Decoding what was encoded gives the bytes back, leading zeroes included. */
  lemma DecodeEncode(b: seq<Byte>)
    ensures Bytes(Encoded(b)) == b
  {
    hide InAlphabet;
    hide Value;
    hide Digits;
    hide Letters;
    hide DigitsOf;
    var z := Leading(b, 0);
    var n := Value(b[z..], 256);
    var d := Digits(n, 58);
    var w := Encoded(b);
    StartsWithLetter(d);
    LeadingIs(w, '1', z);
    assert w[z..] == Letters(d);
    ValueOfDigits(n, 58);
    DigitsOfValue(b[z..], 256);
    assert b == Repeated(z, 0) + b[z..];
  }

  lemma StartsWithLetter(d: seq<nat>)
    requires AreDigits(d, 58)
    ensures d != [] && d[0] != 0 ==> Letters(d)[0] != '1'
  {
    OnesInAlphabet(0);
    hide Alphabet;
    if d != [] {
      assert DigitsOf(Letters(d))[0] == d[0];
    }
  }

  /** Encoding what was decoded gives the word back. */
  lemma EncodeDecode(w: string)
    requires InAlphabet(w)
    ensures Encoded(Bytes(w)) == w
  {
    hide InAlphabet;
    hide Value;
    hide Digits;
    hide DigitsOf;
    hide Letters;
    var z := Leading(w, '1');
    var rest := w[z..];
    PartInAlphabet(w, z, |w|);
    assert rest == w[z..|w|];
    var s := DigitsOf(rest);
    StartsWithDigit(rest);
    var n := Value(s, 58);
    var b := Bytes(w);
    LeadingIs(b, 0, z);
    assert b[z..] == Digits(n, 256);
    ValueOfDigits(n, 256);
    DigitsOfValue(s, 58);
    ReadLetters(rest);
    assert w == Repeated(z, '1') + rest;
  }

  lemma StartsWithDigit(w: string)
    requires InAlphabet(w)
    ensures w != [] && w[0] != '1' ==> DigitsOf(w)[0] != 0
  {
    AlphabetRises();
    hide Alphabet;
    if w != [] {
      assert Alphabet()[IndexIn(Alphabet(), w[0])] == w[0];
    }
  }

  // ----- Strings around words -----

  /** How many spaces the string starts with. */
  function SpacesBefore(s: string): (n: nat)
    ensures n <= |s|
    ensures forall i :: 0 <= i < n ==> IsSpace(s[i])
    ensures n < |s| ==> !IsSpace(s[n])
  {
    if s == [] || !IsSpace(s[0]) then 0 else 1 + SpacesBefore(s[1..])
  }

  ghost predicate NoSpaces(s: string) {
    forall i :: 0 <= i < |s| ==> !IsSpace(s[i])
  }

  /** How many characters come before the first space. */
  function WordLength(s: string): (n: nat)
    ensures n <= |s|
    ensures forall i :: 0 <= i < n ==> !IsSpace(s[i])
    ensures n < |s| ==> IsSpace(s[n])
  {
    if s == [] || IsSpace(s[0]) then 0 else 1 + WordLength(s[1..])
  }

  lemma SpacesBeforeIs(s: string, n: nat)
    requires n <= |s| && (forall i :: 0 <= i < n ==> IsSpace(s[i])) && (n < |s| ==> !IsSpace(s[n]))
    ensures SpacesBefore(s) == n
  {
  }

  lemma WordLengthIs(s: string, n: nat)
    requires n <= |s| && (forall i :: 0 <= i < n ==> !IsSpace(s[i])) && (n < |s| ==> IsSpace(s[n]))
    ensures WordLength(s) == n
  {
  }

  /** The word and what follows it, once leading spaces are skipped. */
  function Trimmed(s: string): string {
    s[SpacesBefore(s)..]
  }

  function Word(s: string): string {
    Trimmed(s)[..WordLength(Trimmed(s))]
  }

  function Tail(s: string): string {
    Trimmed(s)[WordLength(Trimmed(s))..]
  }

  /** What decoding a string gives: the bytes of its only word, nothing if it is not one word of the alphabet. */
  ghost function Decoded(s: string): Option<seq<Byte>> {
    if InAlphabet(Word(s)) && AllSpaces(Tail(s)) then Some(Bytes(Word(s))) else None
  }

  /** Spaces around a word do not matter. */
  lemma Surrounded(before: string, w: string, after: string)
    requires AllSpaces(before) && InAlphabet(w) && AllSpaces(after)
    ensures Decoded(before + w + after) == Some(Bytes(w))
  {
    hide Bytes;
    hide InAlphabet;
    hide IsSpace;
    var s := before + w + after;
    WordsHaveNoSpaces(w);
    if w == [] {
      assert s == before + after;
      SpacesBeforeIs(s, |s|);
      assert Word(s) == w && Tail(s) == [];
    } else {
      assert s[..|before|] == before && s[|before|] == w[0] && s[|before|..] == w + after;
      assert !IsSpace(w[0]);
      SpacesBeforeIs(s, |before|);
      assert (w + after)[..|w|] == w && (w + after)[|w|..] == after;
      WordLengthIs(w + after, |w|);
    }
  }

  lemma WordsHaveNoSpaces(w: string)
    requires InAlphabet(w)
    ensures NoSpaces(w)
  {
    forall i | 0 <= i < |w|
      ensures !IsSpace(w[i])
    {
      LettersAreNoSpaces(w[i]);
    }
  }

  /** Nothing else is accepted. */
  lemma OnlySurrounded(s: string)
    returns (before: string, w: string, after: string)
    ensures s == before + w + after
    ensures Decoded(s).Some? ==> AllSpaces(before) && InAlphabet(w) && AllSpaces(after) && Decoded(s).value == Bytes(w)
  {
    hide Bytes;
    before, w, after := s[..SpacesBefore(s)], Word(s), Tail(s);
    assert Trimmed(s) == w + after;
  }

  /** Encoding and decoding as the program does them are inverse. */
  lemma RoundTrip(b: seq<Byte>)
    ensures Decoded(Encoded(b)) == Some(b)
  {
    hide Decoded;
    hide Encoded;
    var w := Encoded(b);
    Surrounded([], w, []);
    assert [] + w + [] == w;
    DecodeEncode(b);
  }

  lemma WordRoundTrip(w: string)
    requires InAlphabet(w)
    ensures Decoded(w).Some? && Encoded(Decoded(w).value) == w
  {
    hide Decoded;
    hide Encoded;
    hide InAlphabet;
    Surrounded([], w, []);
    assert [] + w + [] == w;
    EncodeDecode(w);
  }

  /** What a C string keeps of a string: everything before the first NUL. */
  function CString(s: string): (t: string)
    ensures t <= s && '\0' !in t
    ensures t == s || s[|t|] == '\0'
  {
    if s == [] || s[0] == '\0' then []
    else
      var t := CString(s[1..]);
      [s[0]] + t
  }

  /** Encoding and decoding through a C string are inverse all the same: no letter is NUL. */
  lemma CStringRoundTrip(b: seq<Byte>)
    ensures CString(Encoded(b)) == Encoded(b) && Decoded(CString(Encoded(b))) == Some(b)
  {
    hide Decoded;
    hide Encoded;
    hide CString;
    var w, t := Encoded(b), CString(Encoded(b));
    if t != w {
      assert w[|t|] == '\0' && 0 <= IndexIn(Alphabet(), w[|t|]);
      LettersAreVisible(w[|t|]);
    }
    RoundTrip(b);
  }

  lemma LettersAreVisible(c: char)
    requires 0 <= IndexIn(Alphabet(), c)
    ensures c != '\0'
  {
    AlphabetRises();
    hide Alphabet;
    var i := IndexIn(Alphabet(), c);
    assert Alphabet()[0] <= Alphabet()[i];
  }

  /** A string is accepted exactly if what comes before its first NUL is one word with spaces around it. */
  lemma AcceptedStrings(s: string)
    ensures Decoded(CString(s)).Some? <==>
      exists before, w, after ::
        CString(s) == before + w + after && AllSpaces(before) && InAlphabet(w) && AllSpaces(after)
  {
    hide Decoded;
    hide CString;
    hide Bytes;
    var t := CString(s);
    if Decoded(t).Some? {
      var before, w, after := OnlySurrounded(t);
    }
    forall before, w, after | t == before + w + after && AllSpaces(before) && InAlphabet(w) && AllSpaces(after)
      ensures Decoded(t).Some?
    {
      Surrounded(before, w, after);
    }
  }

  // ----- The buffers -----

  /** Whole blocks of exponents and a rest. */
  lemma Blocks(b: nat, size: nat, count: nat, rest: nat)
    ensures Pow(b, size * count + rest) == Times(Pow(Pow(b, size), count), Pow(b, rest))
  {
    PowMul(b, size, count);
    PowAdd(b, size * count, rest);
  }

  lemma TimesGrows(a: nat, b: nat, c: nat, d: nat)
    requires a <= b && c <= d
    ensures Times(a, c) <= Times(b, d)
  {
    MulGrows(a, b, c);
    MulGrows(c, d, b);
  }

  lemma Pow58Seven()
    ensures Pow(58, 5) == 656356768 && Pow(58, 7) == 2207984167552
  {
    assert Pow(58, 3) == 195112;
    assert Pow(58, 5) == 656356768;
  }

  lemma Pow2Seven()
    ensures Pow(2, 29) == 536870912 && Pow(2, 41) == 2199023255552
  {
    assert Pow(2, 6) == 64;
    PowAdd(2, 6, 6);
    PowAdd(2, 12, 12);
    assert Pow(2, 5) == 32;
    PowAdd(2, 24, 5);
    PowAdd(2, 29, 12);
  }

  /** 58^138 exceeds 2^808, by 58^7 > 2^41 and 58^5 > 2^29. */
  lemma Enough()
    ensures Pow(256, 100) <= Pow(58, 138)
  {
    Pow58Seven();
    Pow2Seven();
    Blocks(58, 7, 19, 5);
    Blocks(2, 41, 19, 29);
    PowGrows(Pow(2, 41), Pow(58, 7), 19);
    TimesGrows(Pow(Pow(2, 41), 19), Pow(Pow(58, 7), 19), Pow(2, 29), Pow(58, 5));
    Bytewise(100);
    PowLonger(2, 800, 808);
  }

  lemma Bytewise(n: nat)
    ensures Pow(256, n) == Pow(2, 8 * n)
  {
    assert Pow(2, 4) == 16;
    PowAdd(2, 4, 4);
    PowMul(2, 8, n);
  }

  lemma Squared(b: nat, n: nat, p: nat)
    requires Pow(b, n) == p
    ensures Pow(b, 2 * n) == p * p
  {
    PowAdd(b, n, n);
  }

  lemma Pow58TwentyNine()
    ensures Pow(58, 14) == 4875194084160298409672704
    ensures Pow(58, 29) == 1378516006777431104836763434029972462511887354953728
  {
    Pow58Seven();
    Squared(58, 7, 2207984167552);
    Squared(58, 14, 4875194084160298409672704);
    assert Pow(58, 29) == Times(58, Pow(58, 28));
  }

  lemma Pow2TwentyNine()
    ensures Pow(2, 83) == 9671406556917033397649408
    ensures Pow(2, 170) == 1496577676626844588240573268701473812127674924007424
  {
    Pow2Seven();
    Squared(2, 41, 2199023255552);
    assert Pow(2, 83) == Times(2, Pow(2, 82));
    Squared(2, 83, 9671406556917033397649408);
    assert Pow(2, 4) == 16;
    PowAdd(2, 166, 4);
  }

  /** 58^1000 is below 2^5863, by 58^29 < 2^170 and 58^14 < 2^83. */
  lemma Tight()
    ensures Pow(58, 1000) <= Pow(256, 733)
  {
    hide Pow;
    Pow58TwentyNine();
    Pow2TwentyNine();
    Blocks(58, 29, 34, 14);
    Blocks(2, 170, 34, 83);
    PowGrows(Pow(58, 29), Pow(2, 170), 34);
    TimesGrows(Pow(Pow(58, 29), 34), Pow(Pow(2, 170), 34), Pow(58, 14), Pow(2, 83));
    Bytewise(733);
    PowLonger(2, 5863, 5864);
  }

  lemma Root(a: nat, b: nat, n: nat)
    requires 0 < n && Pow(a, n) <= Pow(b, n)
    ensures a <= b
  {
    if b < a {
      PowGrowsStrictly(b, a, n);
    }
  }

  /** An estimate of digits needed that is right for one block of digits is right for all lengths. */
  lemma EstimateCarries(from: nat, to: nat, num: nat, den: nat, m: nat)
    requires 0 < to && 0 < den && Pow(from, den) <= Pow(to, num)
    ensures Pow(from, m) <= Pow(to, Quotient(Times(m, num), den) + 1)
  {
    hide Pow;
    var k := Quotient(Times(m, num), den) + 1;
    assert Times(num, m) <= Times(k, den) by {
      Distribute(k - 1, 1, den);
    }
    PowMul(to, k, den);
    PowLonger(to, Times(num, m), Times(k, den));
    PowMul(to, num, m);
    PowGrows(Pow(from, den), Pow(to, num), m);
    PowMul(from, den, m);
    PowMul(from, m, den);
    assert Times(den, m) == Times(m, den);
    Root(Pow(from, m), Pow(to, k), den);
  }

  function EncodedRoom(n: nat): nat {
    n * 138 / 100 + 1
  }

  function DecodedRoom(n: nat): nat {
    n * 733 / 1000 + 1
  }

  /** The buffer for base 58 digits holds every number of n bytes. */
  lemma EncodeFits(n: nat)
    ensures Pow(256, n) <= Pow(58, EncodedRoom(n))
  {
    Enough();
    EstimateCarries(256, 58, 138, 100, n);
  }

  /** The buffer for bytes holds every number of n base 58 digits. */
  lemma DecodeFits(n: nat)
    ensures Pow(58, n) <= Pow(256, DecodedRoom(n))
  {
    Tight();
    EstimateCarries(58, 256, 733, 1000, n);
  }

  // ----- which letters, and two byte strings

  /** The letters are among the 58 characters that are left of the digits and letters of ASCII without the four that
      look alike; with `AlphabetRises` this says which digit each of them is. */
  lemma LettersAre(i: nat)
    requires i < |Alphabet()|
    ensures var c := Alphabet()[i];
      && ('0' <= c <= '9' || 'A' <= c <= 'Z' || 'a' <= c <= 'z')
      && c != '0' && c != 'O' && c != 'I' && c != 'l'
  {
    PiecesAre();
    var a := NUMERALS + UPPER_A_TO_N;
    var b := a + UPPER_P_TO_Z;
    var d := b + LOWER_A_TO_K;
    assert Alphabet()[i] in NUMERALS || Alphabet()[i] in UPPER_A_TO_N || Alphabet()[i] in UPPER_P_TO_Z ||
           Alphabet()[i] in LOWER_A_TO_K || Alphabet()[i] in LOWER_M_TO_Z;
  }

  lemma PiecesAre()
    ensures forall c :: c in NUMERALS ==> '1' <= c <= '9'
    ensures forall c :: c in UPPER_A_TO_N ==> 'A' <= c <= 'N' && c != 'I'
    ensures forall c :: c in UPPER_P_TO_Z ==> 'P' <= c <= 'Z'
    ensures forall c :: c in LOWER_A_TO_K ==> 'a' <= c <= 'k'
    ensures forall c :: c in LOWER_M_TO_Z ==> 'm' <= c <= 'z'
  {
  }

  /** The byte 0x61 is "2g", as in the examples for the format; a zero byte before it is a "1". */
  lemma Examples()
    ensures Encoded([0x61]) == "2g" && Encoded([0, 0x61]) == "12g"
  {
    hide Alphabet;
    hide Digits;
    hide Value;
    hide Letters;
    DigitsOf97();
    LettersOf97();
    assert Leading([0x61], 0) == 0 && Leading([0, 0x61], 0) == 1;
    assert [0, 0x61][1..] == [0x61];
    ValueOf97();
    assert [0x61][0..] == [0x61];
    assert Repeated(0, '1') == "" && Repeated(1, '1') == "1";
    var w := Letters([1, 39]);
    assert "" + w == w && "1" + w == "12g";
  }

  lemma ValueOf97()
    ensures Value([0x61], 256) == 97
  {
    assert [0x61][..0] == [];
    assert Value([0x61][..0], 256) == 0;
  }

  lemma DigitsOf97()
    ensures Digits(97, 58) == [1, 39]
  {
    DivUnique(97, 58, 1, 39);
    DivUnique(1, 58, 0, 1);
    assert Digits(0, 58) == [];
    assert Digits(1, 58) == [1];
  }

  lemma LettersOf97()
    ensures Letters([1, 39]) == "2g"
  {
    assert Alphabet()[1] == '2' && Alphabet()[39] == 'g';
  }
}
