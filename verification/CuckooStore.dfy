/** The cuckoo cache as a value: a table of elements with a "discardable" and a "recent" flag for each slot. */
module CuckooStore {
  import opened Basics

  datatype Element = Element(id: nat)

  /** The eight 32-bit hashes of an element. */
  type Hasher = (Element, nat) -> nat

  const TWO32 := 0x1_0000_0000

  /** The `i`-th slot of an element: its hash as a fraction of 2^32, scaled to the table. */
  function Location(h: Hasher, size: nat, e: Element, i: nat): (loc: nat)
    requires 0 < size
    ensures loc < size
  {
    ScaleInRange(h(e, i) % TWO32, size);
    (h(e, i) % TWO32) * size / TWO32
  }

  lemma ScaleInRange(x: nat, size: nat)
    requires x < TWO32 && 0 < size
    ensures x * size / TWO32 < size
  {
    assert x * size < TWO32 * size;
  }

  /** `compute_hashes`. */
  function Locations(h: Hasher, size: nat, e: Element): (locs: seq<nat>)
    requires 0 < size
    ensures |locs| == 8 && forall i :: 0 <= i < 8 ==> locs[i] < size
  {
    seq(8, i requires 0 <= i < 8 => Location(h, size, e, i))
  }

  datatype Store = Store(table: seq<Element>, dead: seq<bool>, recent: seq<bool>) {
    predicate Shaped() {
      0 < |table| && |dead| == |table| && |recent| == |table|
    }
  }

  /** An element with its epoch. */
  datatype Tagged = Tagged(e: Element, recent: bool)

  /** What one slot contributes. */
  ghost function Slot(s: Store, i: nat): multiset<Tagged>
    requires s.Shaped() && i < |s.table|
  {
    if s.dead[i] then multiset{} else multiset{Tagged(s.table[i], s.recent[i])}
  }

  /** The live elements in the first `n` slots, with their epochs. */
  ghost function LiveUpTo(s: Store, n: nat): multiset<Tagged>
    requires s.Shaped() && n <= |s.table|
  {
    if n == 0 then multiset{} else
    LiveUpTo(s, n - 1) + Slot(s, n - 1)
  }

  ghost function Live(s: Store): multiset<Tagged>
    requires s.Shaped()
  {
    LiveUpTo(s, |s.table|)
  }

  /** How many live elements of one epoch are in the first `n` slots. */
  function CountUpTo(s: Store, epoch: bool, n: nat): nat
    requires s.Shaped() && n <= |s.table|
  {
    if n == 0 then 0 else
    CountUpTo(s, epoch, n - 1) + if !s.dead[n - 1] && s.recent[n - 1] == epoch then 1 else 0
  }

  function Count(s: Store, epoch: bool): nat
    requires s.Shaped()
  {
    CountUpTo(s, epoch, |s.table|)
  }

  function One(s: Store, epoch: bool, i: nat): nat
    requires s.Shaped() && i < |s.table|
  {
    if !s.dead[i] && s.recent[i] == epoch then 1 else 0
  }

  /** Two stores that differ in one slot at most. */
  ghost predicate DifferAt(s: Store, t: Store, i: nat) {
    && s.Shaped() && t.Shaped() && |s.table| == |t.table| && i < |s.table|
    && forall j :: 0 <= j < |s.table| && j != i ==>
         s.table[j] == t.table[j] && s.dead[j] == t.dead[j] && s.recent[j] == t.recent[j]
  }

  lemma SlotSame(s: Store, t: Store, i: nat, j: nat)
    requires DifferAt(s, t, i) && j < |s.table| && j != i
    ensures Slot(t, j) == Slot(s, j)
  {
  }

  lemma {:induction false} LiveDiffers(s: Store, t: Store, i: nat, n: nat)
    requires DifferAt(s, t, i) && n <= |s.table|
    ensures if i < n then LiveUpTo(t, n) + Slot(s, i) == LiveUpTo(s, n) + Slot(t, i)
            else LiveUpTo(t, n) == LiveUpTo(s, n)
  {
    hide Slot;
    if n != 0 {
      LiveDiffers(s, t, i, n - 1);
      if i == n - 1 {
        Exchange(multiset{}, multiset{}, Slot(s, i), Slot(s, i), Slot(t, i));
        assert LiveUpTo(s, n - 1) + Slot(t, i) + Slot(s, i) == LiveUpTo(s, n - 1) + Slot(s, i) + Slot(t, i);
      } else {
        SlotSame(s, t, i, n - 1);
        if i < n - 1 {
          Exchange(LiveUpTo(s, n - 1), LiveUpTo(t, n - 1), Slot(s, i), Slot(t, i), Slot(s, n - 1));
        }
      }
    }
  }

  lemma {:induction false} CountDiffers(s: Store, t: Store, epoch: bool, i: nat, n: nat)
    requires DifferAt(s, t, i) && n <= |s.table|
    ensures CountUpTo(t, epoch, n) == CountUpTo(s, epoch, n) + if i < n then One(t, epoch, i) - One(s, epoch, i) else 0
  {
    if n != 0 {
      CountDiffers(s, t, epoch, i, n - 1);
    }
  }

  /** Live elements are where they are looked for. */
  ghost predicate AtHome(h: Hasher, s: Store) {
    s.Shaped() && forall i :: 0 <= i < |s.table| && !s.dead[i] ==> i in Locations(h, |s.table|, s.table[i])
  }

  // ----- insertion

  /** The first of the given slots that holds `e`. */
  function Holding(s: Store, locs: seq<nat>, e: Element, n: nat): (k: nat)
    requires n <= |locs| && forall i :: 0 <= i < |locs| ==> locs[i] < |s.table|
    ensures n <= k <= |locs| && (k < |locs| ==> s.table[locs[k]] == e)
    ensures forall i :: n <= i < k ==> s.table[locs[i]] != e
    decreases |locs| - n
  {
    if n == |locs| || s.table[locs[n]] == e then n else Holding(s, locs, e, n + 1)
  }

  /** The first of the given slots that may be overwritten. */
  function Free(s: Store, locs: seq<nat>, n: nat): (k: nat)
    requires n <= |locs| && s.Shaped() && forall i :: 0 <= i < |locs| ==> locs[i] < |s.table|
    ensures n <= k <= |locs| && (k < |locs| ==> s.dead[locs[k]])
    ensures forall i :: n <= i < k ==> !s.dead[locs[i]]
    decreases |locs| - n
  {
    if n == |locs| || s.dead[locs[n]] then n else Free(s, locs, n + 1)
  }

  /** Where a slot number is found among the eight; 8 if nowhere. */
  function Find(locs: seq<nat>, loc: int, n: nat): (k: nat)
    requires n <= |locs|
    ensures n <= k <= |locs| && (k < |locs| ==> locs[k] == loc)
    ensures forall i :: n <= i < k ==> locs[i] != loc
    decreases |locs| - n
  {
    if n == |locs| || locs[n] == loc then n else Find(locs, loc, n + 1)
  }

  /** The slot to push an element out of: the one after the last looked at. */
  function Victim(locs: seq<nat>, lastLoc: int): nat
    requires |locs| == 8
  {
    locs[(1 + Find(locs, lastLoc, 0)) % 8]
  }

  /** The first one is the second location: no location is the marker for none, and one is added to where the
      search for it ends. */
  lemma FirstVictim(locs: seq<nat>)
    requires |locs| == 8
    ensures Victim(locs, -1) == locs[1]
  {
    NotFound(locs, 0);
  }

  lemma {:induction false} NotFound(locs: seq<nat>, i: nat)
    requires i <= |locs| == 8
    ensures Find(locs, -1, i) == 8
    decreases 8 - i
  {
    if i < 8 {
      NotFound(locs, i + 1);
    }
  }

  /** `e` is put into a slot and kept. */
  function Placed(s: Store, loc: nat, e: Element, epoch: bool): Store
    requires s.Shaped() && loc < |s.table|
  {
    Store(s.table[loc := e], s.dead[loc := false], s.recent[loc := epoch])
  }

  /** `e` takes the place of another element, whose flags stay as they are but for the epoch. */
  function Swapped(s: Store, loc: nat, e: Element, epoch: bool): Store
    requires s.Shaped() && loc < |s.table|
  {
    s.(table := s.table[loc := e], recent := s.recent[loc := epoch])
  }

  datatype Outcome = Stored(store: Store) | Dropped(store: Store, out: Tagged)

  /** The loop of `insert`, with `e` in hand and `depth` rounds to go. */
  function Pushed(h: Hasher, s: Store, e: Element, epoch: bool, lastLoc: int, depth: nat): Outcome
    requires s.Shaped()
    decreases depth
  {
    if depth == 0 then Dropped(s, Tagged(e, epoch)) else
    var locs := Locations(h, |s.table|, e);
    var k := Free(s, locs, 0);
    if k < 8 then Stored(Placed(s, locs[k], e, epoch)) else
    var loc := Victim(locs, lastLoc);
    Pushed(h, Swapped(s, loc, e, epoch), s.table[loc], s.recent[loc], loc, depth - 1)
  }

  /** `insert` after `epoch_check`. */
  function Inserted(h: Hasher, s: Store, e: Element, depth: nat): Outcome
    requires s.Shaped()
  {
    var locs := Locations(h, |s.table|, e);
    var k := Holding(s, locs, e, 0);
    if k < 8 then Stored(Placed(s, locs[k], e, true)) else Pushed(h, s, e, true, -1, depth)
  }

  /** What comes in must come out: the live elements with the one in hand, before and after. */
  ghost predicate Conserves(s: Store, extra: multiset<Tagged>, r: Outcome) {
    && s.Shaped() && r.store.Shaped() && |r.store.table| == |s.table|
    && Live(r.store) + (if r.Dropped? then multiset{r.out} else multiset{}) == Live(s) + extra
  }

  /** The counts by epoch follow. */
  ghost predicate CountsOne(s: Store, extra: Tagged, r: Outcome) {
    && s.Shaped() && r.store.Shaped()
    && forall b :: Count(r.store, b) + (if r.Dropped? && r.out.recent == b then 1 else 0)
                   == Count(s, b) + (if extra.recent == b then 1 else 0)
  }

  lemma PlacedFree(h: Hasher, s: Store, k: nat, e: Element, epoch: bool)
    requires AtHome(h, s) && k < 8
    requires var locs := Locations(h, |s.table|, e); s.dead[locs[k]]
    ensures var r := Stored(Placed(s, Locations(h, |s.table|, e)[k], e, epoch));
      AtHome(h, r.store) && Conserves(s, multiset{Tagged(e, epoch)}, r) && CountsOne(s, Tagged(e, epoch), r)
  {
    var loc := Locations(h, |s.table|, e)[k];
    var t := Placed(s, loc, e, epoch);
    LiveDiffers(s, t, loc, |s.table|);
    CountDiffers(s, t, true, loc, |s.table|);
    CountDiffers(s, t, false, loc, |s.table|);
  }

  lemma SwappedMoves(h: Hasher, s: Store, k: nat, e: Element, epoch: bool)
    requires AtHome(h, s) && k < 8
    requires var locs := Locations(h, |s.table|, e); !s.dead[locs[k]]
    ensures var loc := Locations(h, |s.table|, e)[k];
      var t := Swapped(s, loc, e, epoch);
      && AtHome(h, t)
      && Live(t) + multiset{Tagged(s.table[loc], s.recent[loc])} == Live(s) + multiset{Tagged(e, epoch)}
      && forall b :: Count(t, b) + (if s.recent[loc] == b then 1 else 0) == Count(s, b) + if epoch == b then 1 else 0
  {
    var loc := Locations(h, |s.table|, e)[k];
    var t := Swapped(s, loc, e, epoch);
    LiveDiffers(s, t, loc, |s.table|);
    CountDiffers(s, t, true, loc, |s.table|);
    CountDiffers(s, t, false, loc, |s.table|);
  }

  lemma ChainConserves(s: Store, t: Store, x: Tagged, y: Tagged, r: Outcome)
    requires s.Shaped() && t.Shaped() && |t.table| == |s.table|
    requires Live(t) + multiset{y} == Live(s) + multiset{x}
    requires forall b :: Count(t, b) + (if y.recent == b then 1 else 0) == Count(s, b) + if x.recent == b then 1 else 0
    requires Conserves(t, multiset{y}, r) && CountsOne(t, y, r)
    ensures Conserves(s, multiset{x}, r) && CountsOne(s, x, r)
  {
    hide Live;
    hide Count;
  }

  lemma NothingPushed(s: Store, x: Tagged)
    requires s.Shaped()
    ensures Conserves(s, multiset{x}, Dropped(s, x)) && CountsOne(s, x, Dropped(s, x))
  {
  }

  lemma VictimIs(locs: seq<nat>, lastLoc: int)
    requires |locs| == 8
    ensures Victim(locs, lastLoc) == locs[(1 + Find(locs, lastLoc, 0)) % 8]
  {
  }

  /** The whole chain of pushes loses nothing but what it reports, and everything stays where it is looked for. */
  lemma {:induction false} PushedConserves(h: Hasher, s: Store, e: Element, epoch: bool, lastLoc: int, depth: nat)
    requires s.Shaped() && AtHome(h, s)
    ensures var r := Pushed(h, s, e, epoch, lastLoc, depth);
      AtHome(h, r.store) && Conserves(s, multiset{Tagged(e, epoch)}, r) && CountsOne(s, Tagged(e, epoch), r)
    decreases depth
  {
    hide AtHome;
    hide Live;
    hide Count;
    hide Locations;
    hide Victim;
    hide Conserves;
    hide CountsOne;
    if depth == 0 {
      NothingPushed(s, Tagged(e, epoch));
    } else {
      var locs := Locations(h, |s.table|, e);
      var k := Free(s, locs, 0);
      if k < 8 {
        PlacedFree(h, s, k, e, epoch);
      } else {
        var j := (1 + Find(locs, lastLoc, 0)) % 8;
        var loc := locs[j];
        VictimIs(locs, lastLoc);
        SwappedMoves(h, s, j, e, epoch);
        var t, y := Swapped(s, loc, e, epoch), Tagged(s.table[loc], s.recent[loc]);
        PushedConserves(h, t, y.e, y.recent, loc, depth - 1);
        ChainConserves(s, t, Tagged(e, epoch), y, Pushed(h, t, y.e, y.recent, loc, depth - 1));
      }
    }
  }

  /** What an insertion takes out of the live elements: the old version of the element itself, or the one
      dropped at the end of the chain, or nothing. */
  ghost function Gone(h: Hasher, s: Store, e: Element, depth: nat): multiset<Tagged>
    requires s.Shaped()
  {
    var locs := Locations(h, |s.table|, e);
    var k := Holding(s, locs, e, 0);
    if k < 8 then Slot(s, locs[k]) else
    var r := Pushed(h, s, e, true, -1, depth);
    if r.Dropped? then multiset{r.out} else multiset{}
  }

  lemma PlacedHolder(h: Hasher, s: Store, k: nat, e: Element)
    requires AtHome(h, s) && k < 8
    requires var locs := Locations(h, |s.table|, e); s.table[locs[k]] == e
    ensures var loc := Locations(h, |s.table|, e)[k];
      var t := Placed(s, loc, e, true);
      && AtHome(h, t) && |t.table| == |s.table|
      && Live(t) + Slot(s, loc) == Live(s) + multiset{Tagged(e, true)}
      && Count(t, true) <= Count(s, true) + 1 && Count(t, false) <= Count(s, false)
  {
    var loc := Locations(h, |s.table|, e)[k];
    var t := Placed(s, loc, e, true);
    LiveDiffers(s, t, loc, |s.table|);
    CountDiffers(s, t, true, loc, |s.table|);
    CountDiffers(s, t, false, loc, |s.table|);
  }

  /** Every insertion conserves the live elements: with the new one, they are what is live afterwards and what
      is reported gone, which is one element at most. All stay where they are looked for. */
  lemma InsertConserves(h: Hasher, s: Store, e: Element, depth: nat)
    requires s.Shaped() && AtHome(h, s)
    ensures var t := Inserted(h, s, e, depth).store;
      && AtHome(h, t) && t.Shaped() && |t.table| == |s.table|
      && Live(t) + Gone(h, s, e, depth) == Live(s) + multiset{Tagged(e, true)}
      && |Gone(h, s, e, depth)| <= 1
      && Count(t, true) <= Count(s, true) + 1 && Count(t, false) <= Count(s, false)
  {
    hide AtHome;
    hide Live;
    hide Count;
    hide Locations;
    hide Pushed;
    var locs := Locations(h, |s.table|, e);
    var k := Holding(s, locs, e, 0);
    if k < 8 {
      PlacedHolder(h, s, k, e);
    } else {
      PushedConserves(h, s, e, true, -1, depth);
      assert Live(Pushed(h, s, e, true, -1, depth).store) + Gone(h, s, e, depth) == Live(s) + multiset{Tagged(e, true)};
    }
  }

  // ----- looking up and erasing

  predicate Contains(h: Hasher, s: Store, e: Element)
    requires s.Shaped()
  {
    Holding(s, Locations(h, |s.table|, e), e, 0) < 8
  }

  /** `contains` with the erase flag: the slot may be overwritten from now on. */
  function Erased(h: Hasher, s: Store, e: Element): Store
    requires s.Shaped()
  {
    var locs := Locations(h, |s.table|, e);
    var k := Holding(s, locs, e, 0);
    if k < 8 then s.(dead := s.dead[locs[k] := true]) else s
  }

  lemma {:induction false} LiveIsSomewhere(s: Store, x: Tagged, n: nat) returns (i: nat)
    requires s.Shaped() && n <= |s.table| && x in LiveUpTo(s, n)
    ensures i < n && !s.dead[i] && Tagged(s.table[i], s.recent[i]) == x
  {
    if x in Slot(s, n - 1) {
      i := n - 1;
    } else {
      i := LiveIsSomewhere(s, x, n - 1);
    }
  }

  /** Every live element is found. */
  lemma LiveIsFound(h: Hasher, s: Store, x: Tagged)
    requires AtHome(h, s) && x in Live(s)
    ensures Contains(h, s, x.e)
  {
    var i := LiveIsSomewhere(s, x, |s.table|);
    var locs := Locations(h, |s.table|, x.e);
    var j :| 0 <= j < |locs| && locs[j] == i;
  }

  /** Looking up with the erase flag and again without it finds the element both times. */
  lemma ErasedIsStillFound(h: Hasher, s: Store, e: Element)
    requires s.Shaped() && Contains(h, s, e)
    ensures Erased(h, s, e).Shaped() && Contains(h, Erased(h, s, e), e)
  {
  }

  lemma EraseKeeps(h: Hasher, s: Store, e: Element)
    requires AtHome(h, s)
    ensures var t := Erased(h, s, e);
      && t.Shaped() && AtHome(h, t) && |t.table| == |s.table|
      && (forall x :: x in Live(s) && x.e != e ==> x in Live(t))
      && Count(t, true) <= Count(s, true) && Count(t, false) <= Count(s, false)
  {
    hide Locations;
    hide LiveUpTo;
    var locs := Locations(h, |s.table|, e);
    var k := Holding(s, locs, e, 0);
    if k < 8 {
      var t := Erased(h, s, e);
      LiveDiffers(s, t, locs[k], |s.table|);
      CountDiffers(s, t, true, locs[k], |s.table|);
      CountDiffers(s, t, false, locs[k], |s.table|);
      forall x | x in Live(s) && x.e != e ensures x in Live(t) {
        assert Live(t) + Slot(s, locs[k]) == Live(s);
        assert x !in Slot(s, locs[k]);
      }
    }
  }

  // ----- epochs

  /** The old epoch is given up, and the current one becomes the old one. */
  function Aged(s: Store): (t: Store)
    requires s.Shaped()
    ensures t.Shaped() && |t.table| == |s.table|
  {
    s.(dead := seq(|s.table|, i requires 0 <= i < |s.table| => s.dead[i] || !s.recent[i]),
       recent := seq(|s.table|, i => false))
  }

  lemma {:induction false} AgedCounts(s: Store, n: nat)
    requires s.Shaped() && n <= |s.table|
    ensures CountUpTo(Aged(s), true, n) == 0
    ensures CountUpTo(Aged(s), false, n) == CountUpTo(s, true, n)
  {
    if n != 0 {
      AgedCounts(s, n - 1);
    }
  }

  lemma AgedSlot(s: Store, e: Element, i: nat)
    requires s.Shaped() && i < |s.table|
    ensures Slot(Aged(s), i)[Tagged(e, false)] == Slot(s, i)[Tagged(e, true)]
    ensures Slot(Aged(s), i)[Tagged(e, true)] == 0
  {
  }

  /** Ageing keeps the elements of the current epoch, one step older, and no others. */
  lemma {:induction false} AgedLive(s: Store, e: Element, n: nat)
    requires s.Shaped() && n <= |s.table|
    ensures LiveUpTo(Aged(s), n)[Tagged(e, false)] == LiveUpTo(s, n)[Tagged(e, true)]
    ensures LiveUpTo(Aged(s), n)[Tagged(e, true)] == 0
  {
    hide Slot;
    hide Aged;
    if n != 0 {
      AgedLive(s, e, n - 1);
      AgedSlot(s, e, n - 1);
    }
  }

  lemma AgedAtHome(h: Hasher, s: Store)
    requires AtHome(h, s)
    ensures AtHome(h, Aged(s))
  {
  }

  // ----- the whole cache

  datatype Cache = Cache(store: Store, counter: nat, epochSize: nat, depthLimit: nat)

  /** `setup`: the product of 45 and the size wraps at 32 bits. */
  function SetUp(newSize: nat, depthLimit: nat): Cache {
    var size := if newSize < 2 then 2 else newSize;
    var share := (45 * size) % TWO32 / 100;
    var epochSize := if share < 1 then 1 else share;
    Cache(Store(seq(size, i => Element(0)), seq(size, i => true), seq(size, i => false)),
          epochSize, epochSize, depthLimit)
  }

  /** Whether the next `epoch_check` ages the elements. */
  predicate Ages(c: Cache)
    requires c.store.Shaped()
  {
    c.counter == 0 && c.epochSize <= Count(c.store, true)
  }

  /** `epoch_check`. */
  function Checked(c: Cache): Cache
    requires c.store.Shaped()
  {
    if c.counter != 0 then c.(counter := c.counter - 1)
    else if Ages(c) then c.(store := Aged(c.store), counter := c.epochSize)
    else c.(counter := Max(1, Max(c.epochSize / 16, c.epochSize - Count(c.store, true))))
  }

  datatype Op = Insert(e: Element) | Erase(e: Element)

  function Done(h: Hasher, c: Cache, op: Op): Cache
    requires c.store.Shaped()
  {
    match op
    case Insert(e) => var d := Checked(c); d.(store := Inserted(h, d.store, e, d.depthLimit).store)
    case Erase(e) => c.(store := Erased(h, c.store, e))
  }

  /** What the counter guarantees: the current epoch never outgrows its share by more than a scan interval. */
  function Room(c: Cache): nat {
    c.epochSize + Max(1, c.epochSize / 16)
  }

  ghost predicate Inv(h: Hasher, c: Cache) {
    && c.store.Shaped() && AtHome(h, c.store)
    && Count(c.store, true) + c.counter <= Room(c)
    && Count(c.store, false) <= Room(c)
  }

  lemma {:induction false} NothingCounted(s: Store, epoch: bool, n: nat)
    requires s.Shaped() && n <= |s.table| && forall i :: 0 <= i < |s.table| ==> s.dead[i]
    ensures CountUpTo(s, epoch, n) == 0
  {
    if n != 0 {
      NothingCounted(s, epoch, n - 1);
    }
  }

  lemma SetUpInv(h: Hasher, newSize: nat, depthLimit: nat)
    ensures Inv(h, SetUp(newSize, depthLimit)) && Live(SetUp(newSize, depthLimit).store) == multiset{}
  {
    var c := SetUp(newSize, depthLimit);
    NothingCounted(c.store, true, |c.store.table|);
    NothingCounted(c.store, false, |c.store.table|);
    NothingLive(c.store, |c.store.table|);
  }

  lemma {:induction false} NothingLive(s: Store, n: nat)
    requires s.Shaped() && n <= |s.table| && forall i :: 0 <= i < |s.table| ==> s.dead[i]
    ensures LiveUpTo(s, n) == multiset{}
  {
    if n != 0 {
      NothingLive(s, n - 1);
    }
  }

  lemma CheckedInv(h: Hasher, c: Cache)
    requires Inv(h, c)
    ensures var d := Checked(c);
      && d.store.Shaped() && AtHome(h, d.store) && d.epochSize == c.epochSize && Room(d) == Room(c)
      && Count(d.store, true) + 1 + d.counter <= Room(d)
      && Count(d.store, false) <= Room(d)
  {
    if Ages(c) {
      AgedCounts(c.store, |c.store.table|);
      AgedAtHome(h, c.store);
    }
  }

  lemma DoneInv(h: Hasher, c: Cache, op: Op)
    requires Inv(h, c)
    ensures Inv(h, Done(h, c, op))
  {
    hide AtHome;
    hide Count;
    hide Checked;
    hide Inserted;
    hide Erased;
    match op {
      case Insert(e) =>
        CheckedInv(h, c);
        var d := Checked(c);
        InsertConserves(h, d.store, e, d.depthLimit);
      case Erase(e) =>
        EraseKeeps(h, c.store, e);
    }
  }

  // ----- whole runs

  function After(h: Hasher, c: Cache, ops: seq<Op>): Cache
    requires c.store.Shaped() && Inv(h, c)
    decreases |ops|
  {
    if ops == [] then c else
    DoneInv(h, c, ops[0]);
    After(h, Done(h, c, ops[0]), ops[1..])
  }

  lemma {:induction false} LiveSize(s: Store, n: nat)
    requires s.Shaped() && n <= |s.table|
    ensures |LiveUpTo(s, n)| == CountUpTo(s, true, n) + CountUpTo(s, false, n)
  {
    if n != 0 {
      LiveSize(s, n - 1);
    }
  }

  /** After any run, live elements are where they are looked for, and there are at most two epochs of them. */
  lemma {:induction false} RunInv(h: Hasher, c: Cache, ops: seq<Op>)
    requires Inv(h, c)
    ensures Inv(h, After(h, c, ops))
    ensures |Live(After(h, c, ops).store)| <= 2 * Room(c)
    decreases |ops|
  {
    if ops == [] {
      LiveSize(c.store, |c.store.table|);
    } else {
      DoneInv(h, c, ops[0]);
      RunInv(h, Done(h, c, ops[0]), ops[1..]);
      RoomStays(h, c, ops[0]);
    }
  }

  lemma RoomStays(h: Hasher, c: Cache, op: Op)
    requires c.store.Shaped()
    ensures Room(Done(h, c, op)) == Room(c)
  {
  }

  /** How often the elements are aged along a run. */
  function Agings(h: Hasher, c: Cache, ops: seq<Op>): nat
    requires Inv(h, c)
    decreases |ops|
  {
    if ops == [] then 0 else
    DoneInv(h, c, ops[0]);
    (if ops[0].Insert? && Ages(c) then 1 else 0) + Agings(h, Done(h, c, ops[0]), ops[1..])
  }

  /** Nobody erases `e` and no insertion drops it along the run. */
  ghost predicate Spared(h: Hasher, c: Cache, ops: seq<Op>, e: Element)
    requires Inv(h, c)
    decreases |ops|
  {
    ops == [] || (
      DoneInv(h, c, ops[0]);
      && (match ops[0]
          case Insert(f) => f == e || (forall x :: x in DroppedBy(h, c, f) ==> x.e != e)
          case Erase(f) => f != e)
      && Spared(h, Done(h, c, ops[0]), ops[1..], e))
  }

  /** What an insertion drops at the end of its chain. */
  ghost function DroppedBy(h: Hasher, c: Cache, f: Element): multiset<Tagged>
    requires Inv(h, c)
  {
    CheckedInv(h, c);
    var r := Inserted(h, Checked(c).store, f, c.depthLimit);
    if r.Dropped? then multiset{r.out} else multiset{}
  }

  lemma CheckSpares(c: Cache, x: Tagged)
    requires c.store.Shaped() && x in Live(c.store) && (Ages(c) ==> x.recent)
    ensures Checked(c).store.Shaped() && Tagged(x.e, x.recent && !Ages(c)) in Live(Checked(c).store)
  {
    if Ages(c) {
      AgedLive(c.store, x.e, |c.store.table|);
      assert Live(Aged(c.store))[Tagged(x.e, false)] == Live(c.store)[x];
    }
  }

  lemma PlacedIsLive(s: Store, loc: nat, e: Element)
    requires s.Shaped() && loc < |s.table|
    ensures Tagged(e, true) in Live(Placed(s, loc, e, true))
  {
    var t := Placed(s, loc, e, true);
    SlotInLive(t, loc, |t.table|);
    assert Tagged(e, true) in Slot(t, loc);
  }

  lemma {:induction false} SlotInLive(s: Store, i: nat, n: nat)
    requires s.Shaped() && i < n <= |s.table|
    ensures Slot(s, i) <= LiveUpTo(s, n)
  {
    hide Slot;
    if i < n - 1 {
      SlotInLive(s, i, n - 1);
      PartOfSum(Slot(s, i), LiveUpTo(s, n - 1), Slot(s, n - 1));
    } else {
      PartOfSum(Slot(s, i), Slot(s, i), LiveUpTo(s, n - 1));
    }
  }

  lemma PartOfSum(a: multiset<Tagged>, b: multiset<Tagged>, c: multiset<Tagged>)
    requires a <= b
    ensures a <= b + c && a <= c + b
  {
  }

  /** An insertion spares a live element that it neither inserts nor drops; the inserted element becomes recent. */
  lemma InsertSpares(h: Hasher, s: Store, f: Element, depth: nat, x: Tagged)
    requires s.Shaped() && AtHome(h, s) && x in Live(s)
    requires f == x.e || !Inserted(h, s, f, depth).Dropped? || Inserted(h, s, f, depth).out.e != x.e
    ensures var t := Inserted(h, s, f, depth).store;
      t.Shaped() && Tagged(x.e, x.recent || f == x.e) in Live(t)
  {
    hide Live;
    hide AtHome;
    hide Pushed;
    hide Locations;
    InsertConserves(h, s, f, depth);
    var locs := Locations(h, |s.table|, f);
    var k := Holding(s, locs, f, 0);
    var t := Inserted(h, s, f, depth).store;
    if f == x.e {
      LiveIsFound(h, s, x);
      PlacedIsLive(s, locs[k], f);
    } else {
      assert x !in Gone(h, s, f, depth);
      assert x in Live(t) + Gone(h, s, f, depth);
    }
  }

  lemma StepSpares(h: Hasher, c: Cache, op: Op, x: Tagged)
    requires Inv(h, c) && x in Live(c.store) && (op.Insert? && Ages(c) ==> x.recent)
    requires match op
      case Insert(f) => f == x.e || (forall y :: y in DroppedBy(h, c, f) ==> y.e != x.e)
      case Erase(f) => f != x.e
    ensures var d := Done(h, c, op);
      && d.store.Shaped()
      && (Tagged(x.e, true) in Live(d.store) ||
          Tagged(x.e, x.recent && !(op.Insert? && Ages(c))) in Live(d.store))
  {
    hide Live;
    hide Ages;
    hide AtHome;
    hide Inserted;
    hide Checked;
    hide Erased;
    match op {
      case Insert(f) =>
        CheckedInv(h, c);
        CheckSpares(c, x);
        CheckedDepth(c);
        InsertSpares(h, Checked(c).store, f, c.depthLimit, Tagged(x.e, x.recent && !Ages(c)));
      case Erase(f) =>
        EraseKeeps(h, c.store, f);
        EraseShape(h, c.store, f);
    }
  }

  lemma CheckedDepth(c: Cache)
    requires c.store.Shaped()
    ensures Checked(c).depthLimit == c.depthLimit
  {
  }

  lemma EraseShape(h: Hasher, s: Store, e: Element)
    requires s.Shaped()
    ensures Erased(h, s, e).Shaped()
  {
  }

  /** An element stays findable through the rest of its epoch and all of the next one, unless it is erased or
      an insertion reports it dropped. */
  lemma {:induction false} Survives(h: Hasher, c: Cache, ops: seq<Op>, x: Tagged)
    requires Inv(h, c) && x in Live(c.store) && Spared(h, c, ops, x.e)
    requires Agings(h, c, ops) <= if x.recent then 1 else 0
    ensures After(h, c, ops).store.Shaped() && Contains(h, After(h, c, ops).store, x.e)
    decreases |ops|
  {
    hide Live;
    hide Ages;
    hide AtHome;
    hide Count;
    hide Done;
    hide Contains;
    hide DroppedBy;
    if ops == [] {
      LiveIsFound(h, c.store, x);
    } else {
      DoneInv(h, c, ops[0]);
      StepSpares(h, c, ops[0], x);
      var d := Done(h, c, ops[0]);
      if Tagged(x.e, true) in Live(d.store) {
        Survives(h, d, ops[1..], Tagged(x.e, true));
      } else {
        Survives(h, d, ops[1..], Tagged(x.e, x.recent && !(ops[0].Insert? && Ages(c))));
      }
    }
  }
}
