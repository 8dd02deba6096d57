/** 64-bit words bit by bit. */
module Words {
  datatype Word = Word(bits: bv64)

  function And(x: Word, y: Word): Word {
    Word(x.bits & y.bits)
  }

  function Or(x: Word, y: Word): Word {
    Word(x.bits | y.bits)
  }

  function Xor(x: Word, y: Word): Word {
    Word(x.bits ^ y.bits)
  }

  function Not(x: Word): Word {
    Word(!x.bits)
  }

  predicate Bit(x: Word, b: bv6) {
    (x.bits >> b) & 1 == 1
  }

  /** A single bit shifted into place. */
  function At(v: bool, b: bv6): Word {
    Word((if v then 1 else 0 as bv64) << b)
  }

  /** A single bit repeated 64 times, as the negation of a 0 or 1. */
  function Spread(v: bool): Word {
    Word(0 - (if v then 1 else 0 as bv64))
  }

  /** A word with one bit replaced. */
  function Put(x: Word, b: bv6, v: bool): Word {
    Or(And(x, Not(At(true, b))), At(v, b))
  }

  lemma AndBit(x: Word, y: Word, b: bv6)
    ensures Bit(And(x, y), b) == (Bit(x, b) && Bit(y, b))
  {
  }

  lemma OrBit(x: Word, y: Word, b: bv6)
    ensures Bit(Or(x, y), b) == (Bit(x, b) || Bit(y, b))
  {
  }

  lemma XorBit(x: Word, y: Word, b: bv6)
    ensures Bit(Xor(x, y), b) == (Bit(x, b) != Bit(y, b))
  {
  }

  lemma NotBit(x: Word, b: bv6)
    ensures Bit(Not(x), b) == !Bit(x, b)
  {
  }

  lemma SpreadBit(v: bool, b: bv6)
    ensures Bit(Spread(v), b) == v
  {
  }

  lemma AtBit(v: bool, b: bv6, c: bv6)
    ensures Bit(At(v, b), c) == (v && b == c)
  {
  }

  lemma ZeroBit(b: bv6)
    ensures !Bit(Word(0), b)
  {
  }

  lemma PutBit(x: Word, b: bv6, v: bool, c: bv6)
    ensures Bit(Put(x, b, v), c) == if b == c then v else Bit(x, c)
  {
    hide Bit;
    hide At;
    hide And;
    hide Or;
    hide Not;
    OrBit(And(x, Not(At(true, b))), At(v, b), c);
    AndBit(x, Not(At(true, b)), c);
    NotBit(At(true, b), c);
    AtBit(true, b, c);
    AtBit(v, b, c);
  }

  /** The mask that clears, in two words, just the positions where they read as the given pair of bits. */
  function WipeMask(p1: Word, p2: Word, g1: bool, g2: bool): Word {
    Or(Xor(p1, Spread(g1)), Xor(p2, Spread(g2)))
  }

  lemma WipeBit(p1: Word, p2: Word, g1: bool, g2: bool, b: bv6)
    ensures var wiped := Bit(p1, b) == g1 && Bit(p2, b) == g2;
      var mask := WipeMask(p1, p2, g1, g2);
      && (Bit(And(p1, mask), b) <==> Bit(p1, b) && !wiped)
      && (Bit(And(p2, mask), b) <==> Bit(p2, b) && !wiped)
  {
    hide Bit;
    hide Spread;
    hide And;
    hide Or;
    hide Xor;
    var mask := WipeMask(p1, p2, g1, g2);
    AndBit(p1, mask, b);
    AndBit(p2, mask, b);
    OrBit(Xor(p1, Spread(g1)), Xor(p2, Spread(g2)), b);
    XorBit(p1, Spread(g1), b);
    XorBit(p2, Spread(g2), b);
    SpreadBit(g1, b);
    SpreadBit(g2, b);
  }
}

/** The rolling Bloom filter: what each two-bit cell reads is told by the history of insertions. */
module RollingBloom {
  import opened Words

  type Key = seq<nat>

  /** What a filter is set up with: the hash functions, their number, the number of data words and of entries
      per generation. The filter is usable when it has cells and its generations hold something. */
  datatype Setting = Setting(hash: (nat, Key) -> bv32, hashFuncs: nat, size: nat, perGen: nat) {
    predicate Usable() {
      0 < size && size % 2 == 0 && 0 < perGen
    }
  }

  /** A two-bit cell: bit `bit` of the words 2 * `pair` and 2 * `pair` + 1. */
  datatype Cell = Cell(pair: nat, bit: bv6)

  /** The cell that the `n`-th hash function points to. */
  function CellOf(p: Setting, key: Key, n: nat): (c: Cell)
    requires p.Usable()
    ensures c.pair < p.size / 2
  {
    var h := p.hash(n, key);
    Cell(((h >> 6) as nat % p.size) / 2, (h & 0x3F) as bv6)
  }

  predicate Writes(p: Setting, key: Key, c: Cell)
    requires p.Usable()
  {
    exists n :: 0 <= n < p.hashFuncs && CellOf(p, key, n) == c
  }

  /** The last insertion that wrote a cell, or -1. */
  function LastWriter(p: Setting, hist: seq<Key>, c: Cell): (j: int)
    requires p.Usable()
    ensures -1 <= j < |hist|
    ensures j != -1 ==> Writes(p, hist[j], c)
    ensures forall i :: j < i < |hist| ==> !Writes(p, hist[i], c)
  {
    if hist == [] then -1 else
    var l := |hist| - 1;
    if Writes(p, hist[l], c) then l else LastWriter(p, hist[..l], c)
  }

  // ----- generations

  /** The generation, counted from 0 without wrapping, and the entries in it. */
  datatype Clock = Clock(gen: nat, entries: nat)

  function ClockAfter(perGen: nat, n: nat): Clock {
    if n == 0 then Clock(0, 0) else
    var c := ClockAfter(perGen, n - 1);
    if c.entries == perGen then Clock(c.gen + 1, 1) else Clock(c.gen, c.entries + 1)
  }

  lemma {:induction false} ClockCounts(perGen: nat, n: nat)
    requires 0 < perGen
    ensures var c := ClockAfter(perGen, n);
      n == c.gen * perGen + c.entries && c.entries <= perGen && (0 < n ==> 1 <= c.entries)
  {
    if n != 0 {
      ClockCounts(perGen, n - 1);
      var c := ClockAfter(perGen, n - 1);
      assert (c.gen + 1) * perGen == c.gen * perGen + perGen;
    }
  }

  lemma {:induction false} ClockGrows(perGen: nat, m: nat, n: nat)
    requires m <= n
    ensures ClockAfter(perGen, m).gen <= ClockAfter(perGen, n).gen
    decreases n
  {
    if m != n {
      ClockGrows(perGen, m, n - 1);
    }
  }

  /** The generation of insertion `j`. */
  function GenOf(p: Setting, j: nat): nat {
    ClockAfter(p.perGen, j + 1).gen
  }

  lemma ProductGrows(a: nat, b: nat, k: nat)
    ensures a <= b ==> a * k <= b * k
  {
  }

  /** How many of the last insertions the cells can still tell from no insertion, when there were `n` in all:
      those of two full generations and of the one that insertion `n` is in. */
  function Window(perGen: nat, n: nat): nat
    requires 0 < perGen
  {
    if n == 0 then 0 else 2 * perGen + (n - 1) % perGen + 1
  }

  /** An insertion is at most two generations old just when it is in the window. */
  lemma InWindow(p: Setting, j: nat, n: nat)
    requires p.Usable() && j < n
    ensures ClockAfter(p.perGen, n).gen <= GenOf(p, j) + 2 <==> n <= j + Window(p.perGen, n)
  {
    hide ClockAfter;
    var c, d := ClockAfter(p.perGen, j + 1), ClockAfter(p.perGen, n);
    ClockCounts(p.perGen, j + 1);
    ClockCounts(p.perGen, n);
    RemainderIs(n - 1, p.perGen, d.gen, d.entries - 1);
    Distances(c.gen, d.gen, p.perGen);
  }

  lemma RemainderIs(n: nat, k: nat, q: nat, r: nat)
    requires n == q * k + r && r < k
    ensures n % k == r
  {
    if n / k < q {
      ProductGrows(n / k + 1, q, k);
    } else {
      ProductGrows(q, n / k, k);
      ProductGrows(q + 1, n / k, k);
    }
  }

  lemma Distances(a: nat, b: nat, k: nat)
    ensures b <= a + 2 ==> b * k <= a * k + 2 * k
    ensures a + 3 <= b ==> a * k + 3 * k <= b * k
  {
    ProductGrows(b, a + 2, k);
    ProductGrows(a + 3, b, k);
  }

  /** The number a generation goes by: 1 to 3, over and over. */
  function Number(gen: nat): (g: nat)
    ensures 1 <= g <= 3
  {
    gen % 3 + 1
  }

  /** Counting up and going back to 1 from 4 numbers the generations. */
  lemma NextNumber(gen: nat)
    ensures Number(gen + 1) == if Number(gen) + 1 == 4 then 1 else Number(gen) + 1
  {
  }

  /** What a cell reads when the current generation is `cur`: the number, 1 to 3, of the generation that wrote
      it last, or 0 if nobody did in this generation and the two before. */
  function Expected(p: Setting, hist: seq<Key>, cur: nat, c: Cell): nat
    requires p.Usable()
  {
    var j := LastWriter(p, hist, c);
    if 0 <= j && cur < GenOf(p, j) + 3 then Number(GenOf(p, j)) else 0
  }

  /** Wiping the cells that read as the next generation's number brings the cells to the next generation. */
  lemma NextGeneration(p: Setting, hist: seq<Key>, c: Cell)
    requires p.Usable()
    ensures var cur := ClockAfter(p.perGen, |hist|).gen;
      Expected(p, hist, cur + 1, c) ==
      if Expected(p, hist, cur, c) == Number(cur + 1) then 0 else Expected(p, hist, cur, c)
  {
    hide LastWriter;
    hide ClockAfter;
    hide Number;
    var j := LastWriter(p, hist, c);
    if 0 <= j {
      ClockGrows(p.perGen, j + 1, |hist|);
      SameNumber(GenOf(p, j), ClockAfter(p.perGen, |hist|).gen);
    }
  }

  /** Of three generations in a row, only the first shares its number with the one after them. */
  lemma SameNumber(gen: nat, cur: nat)
    ensures gen <= cur < gen + 3 ==> (Number(gen) == Number(cur + 1) <==> cur + 1 == gen + 3)
  {
  }

  /** An insertion writes its cells with the current generation. */
  lemma NextEntry(p: Setting, hist: seq<Key>, key: Key, c: Cell)
    requires p.Usable()
    ensures var cur := GenOf(p, |hist|);
      Expected(p, hist + [key], cur, c) ==
      if Writes(p, key, c) then Number(cur) else Expected(p, hist, cur, c)
  {
    assert (hist + [key])[..|hist|] == hist;
  }

  /** Whether all cells of a key read as set. */
  ghost predicate Found(p: Setting, hist: seq<Key>, key: Key)
    requires p.Usable()
  {
    forall n :: 0 <= n < p.hashFuncs ==>
      Expected(p, hist, ClockAfter(p.perGen, |hist|).gen, CellOf(p, key, n)) != 0
  }

  /** Each of the last two generations' worth of keys is found. */
  lemma RecentIsFound(p: Setting, hist: seq<Key>, i: nat)
    requires p.Usable() && i < |hist| <= i + 2 * p.perGen
    ensures Found(p, hist, hist[i])
  {
    forall n | 0 <= n < p.hashFuncs
      ensures Expected(p, hist, ClockAfter(p.perGen, |hist|).gen, CellOf(p, hist[i], n)) != 0
    {
      var c := CellOf(p, hist[i], n);
      var j := LastWriter(p, hist, c);
      assert Writes(p, hist[i], c);
      InWindow(p, j, |hist|);
    }
  }

  /** With N elements to keep track of, a generation has (N + 1) / 2 entries: the last N keys are found. */
  lemma LastElementsAreFound(p: Setting, nElements: nat, hist: seq<Key>, i: nat)
    requires p.Usable() && p.perGen == (nElements + 1) / 2 && i < |hist| <= i + nElements
    ensures Found(p, hist, hist[i])
  {
    RecentIsFound(p, hist, i);
  }

  /** The cell was written by one of the insertions in the window. */
  ghost predicate StillWritten(p: Setting, hist: seq<Key>, c: Cell)
    requires p.Usable()
  {
    exists i :: 0 <= i < |hist| <= i + Window(p.perGen, |hist|) && Writes(p, hist[i], c)
  }

  /** A key is found just when each of its cells was written by one of the insertions in the window: by that
      key's own, or by those of other keys. */
  lemma FoundExactly(p: Setting, hist: seq<Key>, key: Key)
    requires p.Usable()
    ensures Found(p, hist, key) <==>
      forall n :: 0 <= n < p.hashFuncs ==> StillWritten(p, hist, CellOf(p, key, n))
  {
    hide Window;
    hide CellOf;
    hide Writes;
    hide LastWriter;
    hide Expected;
    hide StillWritten;
    forall n | 0 <= n < p.hashFuncs
      ensures Expected(p, hist, ClockAfter(p.perGen, |hist|).gen, CellOf(p, key, n)) != 0 <==>
        StillWritten(p, hist, CellOf(p, key, n))
    {
      ReadsAsWritten(p, hist, CellOf(p, key, n));
    }
  }

  lemma ReadsAsWritten(p: Setting, hist: seq<Key>, c: Cell)
    requires p.Usable()
    ensures Expected(p, hist, ClockAfter(p.perGen, |hist|).gen, c) != 0 <==> StillWritten(p, hist, c)
  {
    hide Window;
    hide Writes;
    hide LastWriter;
    hide ClockAfter;
    hide Number;
    var j := LastWriter(p, hist, c);
    if 0 <= j {
      InWindow(p, j, |hist|);
    }
  }
}
