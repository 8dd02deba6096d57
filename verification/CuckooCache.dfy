/** The cuckoo cache changing its table and flags in place. */
module CuckooCaches {
  import opened Basics
  import opened CuckooStore
  import opened ByteBits

  /** `bit_packed_atomic_flags`. */
  class BitPackedFlags {
    const mem: array<bv8>

    ghost predicate Bit(i: nat)
      requires i / 8 < mem.Length
      reads mem
    {
      Has(mem[i / 8], i % 8)
    }

    /** The first `n` flags. */
    ghost function Bits(n: nat): (r: seq<bool>)
      requires n <= 8 * mem.Length
      reads mem
      ensures |r| == n && forall i :: 0 <= i < n ==> r[i] == Bit(i)
    {
      seq(n, i requires 0 <= i < n reads mem => Bit(i))
    }

    constructor (size: nat)
      ensures fresh(mem) && size <= 8 * mem.Length
      ensures forall i :: 0 <= i < size ==> Bit(i)
    {
      mem := new bv8[(size + 7) / 8](i => 0xFF);
      new;
      forall i | 0 <= i < size ensures Bit(i) {
        WithHas(0xFF, i % 8, i % 8);
      }
    }

    method BitSet(s: nat, ghost n: nat)
      requires s < n <= 8 * mem.Length
      modifies mem
      ensures Bits(n) == old(Bits(n))[s := true]
    {
      hide With;
      hide Has;
      mem[s / 8] := With(mem[s / 8], s % 8);
      forall i | 0 <= i < n ensures Bit(i) == (i == s || old(Bit(i))) {
        WithHas(old(mem[s / 8]), s % 8, i % 8);
      }
    }

    method BitUnset(s: nat, ghost n: nat)
      requires s < n <= 8 * mem.Length
      modifies mem
      ensures Bits(n) == old(Bits(n))[s := false]
    {
      hide Without;
      hide Has;
      mem[s / 8] := Without(mem[s / 8], s % 8);
      forall i | 0 <= i < n ensures Bit(i) == (i != s && old(Bit(i))) {
        WithHas(old(mem[s / 8]), s % 8, i % 8);
      }
    }

    method BitIsSet(s: nat) returns (r: bool)
      requires s / 8 < mem.Length
      ensures r == Bit(s)
    {
      r := Has(mem[s / 8], s % 8);
    }
  }

  /** `cache`, once it is set up. */
  class CuckooCache {
    const hash: Hasher
    const size: nat
    const table: array<Element>
    const collectionFlags: BitPackedFlags
    const epochFlags: array<bool>
    const epochSize: nat
    const depthLimit: nat

    var epochHeuristicCounter: nat

    ghost predicate Valid()
      reads this
    {
      && 0 < size == table.Length == epochFlags.Length
      && size <= 8 * collectionFlags.mem.Length
      && (table as object) != epochFlags && (table as object) != collectionFlags.mem
      && (epochFlags as object) != collectionFlags.mem
    }

    ghost function Contents(): (s: Store)
      requires Valid()
      reads this, table, epochFlags, collectionFlags.mem
      ensures s.Shaped() && |s.table| == size
    {
      Store(table[..], collectionFlags.Bits(size), epochFlags[..])
    }

    ghost function State(): (c: Cache)
      requires Valid()
      reads this, table, epochFlags, collectionFlags.mem
      ensures c.store == Contents()
    {
      Cache(Contents(), epochHeuristicCounter, epochSize, depthLimit)
    }

    /** The constructor with `setup`; the depth limit comes from a floating-point logarithm. */
    constructor (hash: Hasher, newSize: nat, depth: nat)
      ensures Valid() && this.hash == hash && State() == SetUp(newSize, depth)
      ensures Inv(hash, State()) && Live(Contents()) == multiset{}
    {
      this.hash := hash;
      depthLimit := depth;
      var n := if newSize < 2 then 2 else newSize;
      size := n;
      table := new Element[n](i => Element(0));
      collectionFlags := new BitPackedFlags(n);
      epochFlags := new bool[n](i => false);
      var share := (45 * n) % TWO32 / 100;
      var share1 := if share < 1 then 1 else share;
      epochSize := share1;
      epochHeuristicCounter := share1;
      new;
      assert table[..] == SetUp(newSize, depth).store.table;
      assert collectionFlags.Bits(size) == SetUp(newSize, depth).store.dead;
      assert epochFlags[..] == SetUp(newSize, depth).store.recent;
      SetUpInv(hash, newSize, depth);
    }

    /** `e` goes into a slot and is to be kept. */
    method Place(loc: nat, e: Element, epoch: bool)
      requires Valid() && loc < size
      modifies table, epochFlags, collectionFlags.mem
      ensures Contents() == Placed(old(Contents()), loc, e, epoch)
    {
      table[loc] := e;
      collectionFlags.BitUnset(loc, size);
      epochFlags[loc] := epoch;
      assert table[..] == old(table[..])[loc := e];
      assert epochFlags[..] == old(epochFlags[..])[loc := epoch];
    }

    /** `e` changes places with the element of a slot. */
    method Swap(loc: nat, e: Element, epoch: bool) returns (f: Element, was: bool)
      requires Valid() && loc < size
      modifies table, epochFlags
      ensures Contents() == Swapped(old(Contents()), loc, e, epoch)
      ensures f == old(table[loc]) && was == old(epochFlags[loc])
    {
      f, was := table[loc], epochFlags[loc];
      table[loc], epochFlags[loc] := e, epoch;
      assert table[..] == old(table[..])[loc := e];
      assert epochFlags[..] == old(epochFlags[..])[loc := epoch];
    }

    /** The first of the slots that holds `e`. */
    method FindElement(locs: seq<nat>, e: Element) returns (k: nat)
      requires Valid() && forall i :: 0 <= i < |locs| ==> locs[i] < size
      ensures k == Holding(Contents(), locs, e, 0)
    {
      k := 0;
      while k < |locs| && table[locs[k]] != e
        invariant k <= |locs| && Holding(Contents(), locs, e, 0) == Holding(Contents(), locs, e, k)
      {
        k := k + 1;
      }
    }

    /** The first of the slots that may be overwritten. */
    method FindFree(locs: seq<nat>) returns (k: nat)
      requires Valid() && forall i :: 0 <= i < |locs| ==> locs[i] < size
      ensures k == Free(Contents(), locs, 0)
    {
      k := 0;
      while k < |locs|
        invariant k <= |locs| && Free(Contents(), locs, 0) == Free(Contents(), locs, k)
      {
        var isSet := collectionFlags.BitIsSet(locs[k]);
        if isSet {
          return;
        }
        k := k + 1;
      }
    }

    /** Counts the live elements of the current epoch. */
    method CountRecent() returns (n: nat)
      requires Valid()
      ensures n == Count(Contents(), true)
    {
      n := 0;
      for i := 0 to size
        invariant n == CountUpTo(Contents(), true, i)
      {
        var isSet := collectionFlags.BitIsSet(i);
        if epochFlags[i] && !isSet {
          n := n + 1;
        }
      }
    }

    /** Gives up the old epoch and demotes the current one. */
    method Age()
      requires Valid()
      modifies epochFlags, collectionFlags.mem
      ensures Contents() == Aged(old(Contents()))
    {
      ghost var s := Contents();
      for i := 0 to size
        invariant forall j :: 0 <= j < size ==> epochFlags[j] == (i <= j && s.recent[j])
        invariant forall j :: 0 <= j < size ==>
          collectionFlags.Bits(size)[j] == (s.dead[j] || (j < i && !s.recent[j]))
      {
        if epochFlags[i] {
          epochFlags[i] := false;
        } else {
          collectionFlags.BitSet(i, size);
        }
      }
      assert epochFlags[..] == Aged(s).recent;
      assert collectionFlags.Bits(size) == Aged(s).dead;
    }

    method EpochCheck()
      requires Valid()
      modifies this, epochFlags, collectionFlags.mem
      ensures State() == Checked(old(State()))
    {
      if epochHeuristicCounter != 0 {
        epochHeuristicCounter := epochHeuristicCounter - 1;
        return;
      }
      var epochUnusedCount := CountRecent();
      if epochUnusedCount >= epochSize {
        Age();
        epochHeuristicCounter := epochSize;
      } else {
        epochHeuristicCounter := Max(1, Max(epochSize / 16, epochSize - epochUnusedCount));
      }
    }

    /** Pushes elements on until a slot is free or the depth limit is reached. */
    method Push(x: Element)
      requires Valid()
      modifies table, epochFlags, collectionFlags.mem
      ensures Contents() == Pushed(hash, old(Contents()), x, true, -1, depthLimit).store
    {
      hide Locations;
      hide Placed;
      hide Swapped;
      hide Victim;
      hide Contents;
      var e, lastEpoch := x, true;
      var lastLoc: int := -1;
      var locs := Locations(hash, size, e);
      ghost var s := Contents();
      var depth := 0;
      while depth < depthLimit
        invariant depth <= depthLimit && locs == Locations(hash, size, e)
        invariant Pushed(hash, s, x, true, -1, depthLimit)
               == Pushed(hash, Contents(), e, lastEpoch, lastLoc, depthLimit - depth)
      {
        var k := FindFree(locs);
        if k < 8 {
          Place(locs[k], e, lastEpoch);
          return;
        }
        VictimIs(locs, lastLoc);
        var loc := Victim(locs, lastLoc);
        Showing(loc);
        e, lastEpoch := Swap(loc, e, lastEpoch);
        lastLoc := loc;
        locs := Locations(hash, size, e);
        depth := depth + 1;
      }
    }

    lemma Showing(loc: nat)
      requires Valid() && loc < size
      ensures Contents().table[loc] == table[loc] && Contents().recent[loc] == epochFlags[loc]
    {
    }

    method Insert(x: Element)
      requires Valid()
      modifies this, table, epochFlags, collectionFlags.mem
      ensures State() == Done(hash, old(State()), Op.Insert(x))
    {
      hide Locations;
      hide Placed;
      hide Pushed;
      hide Checked;
      CheckedDepth(State());
      EpochCheck();
      var locs := Locations(hash, size, x);
      var k := FindElement(locs, x);
      if k < 8 {
        Place(locs[k], x, true);
      } else {
        Push(x);
      }
    }

    method Contains(e: Element, erase: bool) returns (found: bool)
      requires Valid()
      modifies collectionFlags.mem
      ensures found == CuckooStore.Contains(hash, old(Contents()), e)
      ensures State() == if erase then Done(hash, old(State()), Op.Erase(e)) else old(State())
    {
      var locs := Locations(hash, size, e);
      var k := FindElement(locs, e);
      found := k < 8;
      if found && erase {
        collectionFlags.BitSet(locs[k], size);
      }
    }
  }
}
