/** The rolling Bloom filter on its data words. */
module RollingBloomFilters {
  import opened Words
  import opened RollingBloom

  /** A cell as a number from 0 to 3. */
  function Code(data: seq<Word>, c: Cell): nat
    requires 2 * c.pair + 1 < |data|
  {
    (if Bit(data[2 * c.pair], c.bit) then 1 else 0) + if Bit(data[2 * c.pair + 1], c.bit) then 2 else 0
  }

  /** The two bits of a generation number. */
  predicate Low(g: nat) {
    g % 2 == 1
  }

  predicate High(g: nat) {
    g / 2 == 1
  }

  /** A pair of words with the cells of generation `g` wiped. */
  function Wiped(data: seq<Word>, pair: nat, g: nat): seq<Word>
    requires 2 * pair + 1 < |data|
  {
    var mask := WipeMask(data[2 * pair], data[2 * pair + 1], Low(g), High(g));
    data[2 * pair := And(data[2 * pair], mask)][2 * pair + 1 := And(data[2 * pair + 1], mask)]
  }

  lemma WipedCode(data: seq<Word>, pair: nat, g: nat, c: Cell)
    requires 2 * pair + 1 < |data| && 2 * c.pair + 1 < |data| && 1 <= g <= 3
    ensures Code(Wiped(data, pair, g), c) ==
            if c.pair == pair && Code(data, c) == g then 0 else Code(data, c)
  {
    hide Bit;
    hide WipeMask;
    hide And;
    WipeBit(data[2 * pair], data[2 * pair + 1], Low(g), High(g), c.bit);
  }

  /** One cell set to generation `g`. */
  function Marked(data: seq<Word>, d: Cell, g: nat): seq<Word>
    requires 2 * d.pair + 1 < |data|
  {
    data[2 * d.pair := Put(data[2 * d.pair], d.bit, Low(g))]
        [2 * d.pair + 1 := Put(data[2 * d.pair + 1], d.bit, High(g))]
  }

  lemma MarkedCode(data: seq<Word>, d: Cell, g: nat, c: Cell)
    requires 2 * d.pair + 1 < |data| && 2 * c.pair + 1 < |data| && 1 <= g <= 3
    ensures Code(Marked(data, d, g), c) == if c == d then g else Code(data, c)
  {
    hide Bit;
    hide Put;
    PutBit(data[2 * d.pair], d.bit, Low(g), c.bit);
    PutBit(data[2 * d.pair + 1], d.bit, High(g), c.bit);
  }

  lemma OrSet(data: seq<Word>, c: Cell)
    requires 2 * c.pair + 1 < |data|
    ensures Bit(Or(data[2 * c.pair], data[2 * c.pair + 1]), c.bit) <==> Code(data, c) != 0
  {
    hide Bit;
    hide Or;
    OrBit(data[2 * c.pair], data[2 * c.pair + 1], c.bit);
  }

  class RollingBloomFilter {
    const murmur: (nat, Key) -> bv32
    const nHashFuncs: nat
    const nEntriesPerGeneration: nat
    const data: array<Word>
    /** How many keys the filter was made to keep track of. */
    ghost const elements: nat

    var nEntriesThisGeneration: nat
    var nGeneration: nat
    var nTweak: nat

    /** The keys inserted since the last reset. */
    ghost var hist: seq<Key>

    /** The tweak is mixed into the seed of every hash function. */
    function Setup(): Setting
      reads `nTweak
    {
      var t := nTweak;
      var m := murmur;
      Setting((n: nat, key: Key) => m((n * 0xFBA4C795 + t) % 0x1_0000_0000, key),
              nHashFuncs, data.Length, nEntriesPerGeneration)
    }

    ghost function Now(): Clock
      reads `hist
    {
      ClockAfter(nEntriesPerGeneration, |hist|)
    }

    /** The cells read as the history tells, in generation `cur`. */
    ghost predicate Reads(cur: nat)
      requires Setup().Usable()
      reads this, data
    {
      forall c: Cell :: c.pair < data.Length / 2 ==> Code(data[..], c) == Expected(Setup(), hist, cur, c)
    }

    /** The sizes are as the constructor chose them. */
    ghost predicate Sized() {
      nEntriesPerGeneration == (elements + 1) / 2 && data.Length % 2 == 0
    }

    ghost predicate Valid()
      reads this, data
    {
      && Setup().Usable() && Sized() && Reads(Now().gen)
      && nGeneration == Number(Now().gen) && nEntriesThisGeneration == Now().entries
    }

    /** The number of hash functions and the number of filter bits come from floating-point formulas. A filter
        for no elements, or without bits, can be made but not used. */
    constructor (murmur: (nat, Key) -> bv32, nElements: nat, hashFuncs: nat, filterBits: nat, tweak: nat)
      ensures Sized() && (Setup().Usable() <==> 0 < nElements && 0 < filterBits)
      ensures (Setup().Usable() ==> Valid()) && hist == [] && elements == nElements
      ensures nHashFuncs == hashFuncs && filterBits <= 32 * data.Length < filterBits + 64
    {
      this.murmur, nHashFuncs, elements := murmur, hashFuncs, nElements;
      nEntriesPerGeneration := (nElements + 1) / 2;
      data := new Word[(filterBits + 63) / 64 * 2](i => Word(0));
      nEntriesThisGeneration, nGeneration, nTweak := 0, 1, tweak;
      hist := [];
      new;
      if Setup().Usable() {
        forall c: Cell | c.pair < data.Length / 2 ensures Code(data[..], c) == Expected(Setup(), hist, 0, c) {
          ZeroBit(c.bit);
        }
      }
    }

    method Reset(tweak: nat)
      requires Sized()
      modifies this, data
      ensures (Setup().Usable() ==> Valid()) && hist == [] && nTweak == tweak
    {
      nTweak, nEntriesThisGeneration, nGeneration, hist := tweak, 0, 1, [];
      for i := 0 to data.Length
        modifies data
        invariant forall j :: 0 <= j < i ==> data[j] == Word(0)
      {
        data[i] := Word(0);
      }
      if Setup().Usable() {
        forall c: Cell | c.pair < data.Length / 2 ensures Code(data[..], c) == Expected(Setup(), hist, 0, c) {
          ZeroBit(c.bit);
        }
      }
    }

    /** Wipes the entries of the generation whose number is about to be used again. */
    method Wipe()
      requires data.Length % 2 == 0 && 1 <= nGeneration <= 3
      modifies data
      ensures forall c: Cell :: c.pair < data.Length / 2 ==>
        Code(data[..], c) == if Code(old(data[..]), c) == nGeneration then 0 else Code(old(data[..]), c)
    {
      hide Code;
      hide WipeMask;
      hide And;
      for q := 0 to data.Length / 2
        invariant forall c: Cell :: c.pair < data.Length / 2 ==>
          Code(data[..], c) ==
          if c.pair < q && Code(old(data[..]), c) == nGeneration then 0 else Code(old(data[..]), c)
      {
        ghost var before := data[..];
        var mask := WipeMask(data[2 * q], data[2 * q + 1], Low(nGeneration), High(nGeneration));
        data[2 * q], data[2 * q + 1] := And(data[2 * q], mask), And(data[2 * q + 1], mask);
        assert data[..] == Wiped(before, q, nGeneration);
        forall c: Cell | c.pair < data.Length / 2
          ensures Code(data[..], c) == if c.pair == q && Code(before, c) == nGeneration then 0 else Code(before, c)
        {
          WipedCode(before, q, nGeneration, c);
        }
      }
    }

    /** Sets the cells of a key to the current generation. */
    method Mark(key: Key)
      requires Setup().Usable() && 1 <= nGeneration <= 3
      modifies data
      ensures forall c: Cell :: c.pair < data.Length / 2 ==>
        Code(data[..], c) == if Writes(Setup(), key, c) then nGeneration else Code(old(data[..]), c)
    {
      hide Code;
      hide Put;
      hide CellOf;
      hide Low;
      hide High;
      ghost var p := Setup();
      for n := 0 to nHashFuncs
        invariant forall c: Cell :: c.pair < data.Length / 2 ==>
          Code(data[..], c) ==
          if exists m :: 0 <= m < n && CellOf(p, key, m) == c then nGeneration else Code(old(data[..]), c)
      {
        ghost var before := data[..];
        var d := CellOf(Setup(), key, n);
        data[2 * d.pair] := Put(data[2 * d.pair], d.bit, Low(nGeneration));
        data[2 * d.pair + 1] := Put(data[2 * d.pair + 1], d.bit, High(nGeneration));
        assert data[..] == Marked(before, d, nGeneration);
        forall c: Cell | c.pair < data.Length / 2
          ensures Code(data[..], c) == if c == d then nGeneration else Code(before, c)
        {
          MarkedCode(before, d, nGeneration, c);
        }
      }
    }

    /** Starts a new generation. */
    method Turn()
      requires Valid() && nEntriesThisGeneration == nEntriesPerGeneration
      modifies `nEntriesThisGeneration, `nGeneration, data
      ensures Reads(Now().gen + 1) && nGeneration == Number(Now().gen + 1) && nEntriesThisGeneration == 0
    {
      hide Code;
      hide Expected;
      hide ClockAfter;
      hide Number;
      NextNumber(Now().gen);
      nEntriesThisGeneration := 0;
      nGeneration := nGeneration + 1;
      if nGeneration == 4 {
        nGeneration := 1;
      }
      Wipe();
      forall c: Cell | c.pair < data.Length / 2
        ensures Code(data[..], c) == Expected(Setup(), hist, Now().gen + 1, c)
      {
        NextGeneration(Setup(), hist, c);
      }
    }

    method Insert(key: Key)
      requires Valid()
      modifies this, data
      ensures Valid() && hist == old(hist) + [key] && nTweak == old(nTweak)
    {
      hide Code;
      hide Expected;
      if nEntriesThisGeneration == nEntriesPerGeneration {
        Turn();
      }
      nEntriesThisGeneration := nEntriesThisGeneration + 1;
      Record(key);
    }

    /** Sets the cells of a key and adds it to the history. */
    method Record(key: Key)
      requires Setup().Usable() && Reads(GenOf(Setup(), |hist|))
      requires nGeneration == Number(GenOf(Setup(), |hist|))
      modifies `hist, data
      ensures hist == old(hist) + [key] && Reads(Now().gen)
    {
      hide Code;
      hide Expected;
      hide ClockAfter;
      ghost var cur := GenOf(Setup(), |hist|);
      Mark(key);
      forall c: Cell | c.pair < data.Length / 2
        ensures Code(data[..], c) == Expected(Setup(), hist + [key], cur, c)
      {
        NextEntry(Setup(), hist, key, c);
      }
      hist := hist + [key];
    }

    method Contains(key: Key) returns (found: bool)
      requires Valid()
      ensures found <==>
        forall n :: 0 <= n < nHashFuncs ==> StillWritten(Setup(), hist, CellOf(Setup(), key, n))
      ensures Recent(key) ==> found
    {
      hide Code;
      hide Expected;
      hide CellOf;
      hide Bit;
      hide Or;
      hide StillWritten;
      ghost var p := Setup();
      FoundExactly(p, hist, key);
      for n := 0 to nHashFuncs
        invariant forall m :: 0 <= m < n ==> Expected(p, hist, Now().gen, CellOf(p, key, m)) != 0
      {
        var d := CellOf(Setup(), key, n);
        OrSet(data[..], d);
        if !Bit(Or(data[2 * d.pair], data[2 * d.pair + 1]), d.bit) {
          MissedIsOld(key);
          return false;
        }
      }
      return true;
    }

    /** The key is among the last ones the filter was made to keep track of. */
    ghost predicate Recent(key: Key)
      reads this
    {
      exists i :: 0 <= i < |hist| <= i + elements && hist[i] == key
    }

    lemma MissedIsOld(key: Key)
      requires Valid() && !Found(Setup(), hist, key)
      ensures !Recent(key)
    {
      hide Found;
      hide Reads;
      forall i | 0 <= i < |hist| <= i + elements
        ensures hist[i] != key
      {
        LastElementsAreFound(Setup(), elements, hist, i);
      }
    }
  }
}
