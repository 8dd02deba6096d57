/** What an insertion and an erasing lookup do to the slots, and how long an element lasts at least. */
module CuckooEffects {
  import opened Basics
  import opened CuckooStore

  // ----- a free slot is used

  /** If the element is in none of its slots and one of them may be overwritten, the first such slot gets it and
      nothing else changes: no live element is lost. */
  lemma FreeIsUsed(h: Hasher, s: Store, e: Element, depth: nat, k: nat)
    requires AtHome(h, s) && !Contains(h, s, e) && 1 <= depth && k < 8
    requires var locs := Locations(h, |s.table|, e);
      s.dead[locs[k]] && forall i :: 0 <= i < k ==> !s.dead[locs[i]]
    ensures var t, loc := Inserted(h, s, e, depth).store, Locations(h, |s.table|, e)[k];
      && t.Shaped() && DifferAt(s, t, loc) && t.table[loc] == e && !t.dead[loc] && t.recent[loc]
      && Live(t) == Live(s) + multiset{Tagged(e, true)}
      && !Inserted(h, s, e, depth).Dropped?
  {
    hide Live;
    hide Count;
    hide Locations;
    var locs := Locations(h, |s.table|, e);
    assert Free(s, locs, 0) == k;
    assert Pushed(h, s, e, true, -1, depth) == Stored(Placed(s, locs[k], e, true));
    PlacedFree(h, s, k, e, true);
  }

  /** An element that is in one of its slots, live or erased, is kept there as a recent one. */
  lemma AgainIsRecent(h: Hasher, s: Store, e: Element, depth: nat)
    requires AtHome(h, s) && Contains(h, s, e)
    ensures var r := Inserted(h, s, e, depth);
      var loc := Locations(h, |s.table|, e)[Holding(s, Locations(h, |s.table|, e), e, 0)];
      && r.Stored? && r.store.table == s.table && DifferAt(s, r.store, loc)
      && !r.store.dead[loc] && r.store.recent[loc]
  {
    hide Locations;
    var locs := Locations(h, |s.table|, e);
    var k := Holding(s, locs, e, 0);
    assert s.table[locs[k] := e] == s.table;
  }

  // ----- the chain of pushes

  /** One round of the loop: the store, the element in hand with its epoch, and where the last one came from. */
  datatype Round = Round(s: Store, x: Tagged, lastLoc: int)

  /** None of the slots of the element in hand may be overwritten. */
  ghost predicate Stuck(h: Hasher, r: Round)
    requires r.s.Shaped()
  {
    forall i :: 0 <= i < 8 ==> !r.s.dead[Locations(h, |r.s.table|, r.x.e)[i]]
  }

  /** The element in hand changes places with the one in the slot that follows where the last one came from. */
  ghost predicate Pushes(h: Hasher, r: Round, r': Round)
    requires r.s.Shaped()
  {
    var locs := Locations(h, |r.s.table|, r.x.e);
    var loc := Victim(locs, r.lastLoc);
    && r'.s.Shaped() && loc < |r.s.table| && r'.lastLoc == loc
    && r'.x == Tagged(r.s.table[loc], r.s.recent[loc])
    && DifferAt(r.s, r'.s, loc) && r'.s.dead == r.s.dead
    && r'.s.table[loc] == r.x.e && r'.s.recent[loc] == r.x.recent
  }

  /** A chain of rounds, in all of which but the last the element in hand is stuck. */
  ghost predicate IsChain(h: Hasher, rounds: seq<Round>) {
    && rounds != [] && rounds[0].s.Shaped()
    && (1 < |rounds| ==> Stuck(h, rounds[0]) && Pushes(h, rounds[0], rounds[1]) && IsChain(h, rounds[1..]))
  }

  /** How the chain ends: with the element in hand in its first free slot, or dropped after `depth` rounds. */
  ghost predicate EndsWith(h: Hasher, last: Round, rounds: nat, depth: nat, r: Outcome)
    requires last.s.Shaped()
  {
    if r.Dropped? then rounds == depth + 1 && r.out == last.x && r.store == last.s
    else
      && rounds <= depth && !Stuck(h, last)
      && exists k: nat ::
           && IsFirstFree(h, last, k)
           && r.store == Placed(last.s, Locations(h, |last.s.table|, last.x.e)[k], last.x.e, last.x.recent)
  }

  ghost predicate IsFirstFree(h: Hasher, r: Round, k: nat)
    requires r.s.Shaped()
  {
    var locs := Locations(h, |r.s.table|, r.x.e);
    k < 8 && r.s.dead[locs[k]] && forall i :: 0 <= i < k ==> !r.s.dead[locs[i]]
  }

  lemma VictimInTable(h: Hasher, s: Store, e: Element, lastLoc: int)
    requires s.Shaped()
    ensures Victim(Locations(h, |s.table|, e), lastLoc) < |s.table|
  {
  }

  lemma ChainPrepend(h: Hasher, r: Round, rest: seq<Round>)
    requires r.s.Shaped() && Stuck(h, r) && IsChain(h, rest) && Pushes(h, r, rest[0])
    ensures IsChain(h, [r] + rest)
  {
    hide Stuck;
    hide Pushes;
    assert ([r] + rest)[1..] == rest;
  }

  lemma OneRound(h: Hasher, r: Round)
    requires r.s.Shaped()
    ensures IsChain(h, [r])
  {
  }

  lemma FirstFree(h: Hasher, r: Round, k: nat)
    requires r.s.Shaped() && k < 8 && k == Free(r.s, Locations(h, |r.s.table|, r.x.e), 0)
    ensures IsFirstFree(h, r, k) && !Stuck(h, r)
  {
    hide Locations;
  }

  lemma StuckSwap(h: Hasher, s: Store, x: Tagged, lastLoc: int)
    requires s.Shaped() && Free(s, Locations(h, |s.table|, x.e), 0) == 8
    ensures Stuck(h, Round(s, x, lastLoc))
    ensures var loc := Victim(Locations(h, |s.table|, x.e), lastLoc);
      && loc < |s.table|
      && Pushes(h, Round(s, x, lastLoc),
                Round(Swapped(s, loc, x.e, x.recent), Tagged(s.table[loc], s.recent[loc]), loc))
  {
    hide Locations;
    hide Victim;
    VictimInTable(h, s, x.e, lastLoc);
  }

  /** An insertion goes through such a chain: it drops an element only when in each of its rounds all eight slots
      of the element in hand were taken. */
  lemma {:induction false} PushedByChain(h: Hasher, s: Store, x: Tagged, lastLoc: int, depth: nat)
    returns (rounds: seq<Round>)
    requires s.Shaped()
    ensures rounds != [] && IsChain(h, rounds) && rounds[0] == Round(s, x, lastLoc) && rounds[|rounds| - 1].s.Shaped()
    ensures EndsWith(h, rounds[|rounds| - 1], |rounds|, depth, Pushed(h, s, x.e, x.recent, lastLoc, depth))
    decreases depth
  {
    hide Locations;
    hide Victim;
    hide IsChain;
    hide Stuck;
    var r := Round(s, x, lastLoc);
    OneRound(h, r);
    rounds := [r];
    if depth != 0 {
      var locs := Locations(h, |s.table|, x.e);
      var k := Free(s, locs, 0);
      if k < 8 {
        FirstFree(h, r, k);
      } else {
        VictimInTable(h, s, x.e, lastLoc);
        var loc := Victim(locs, lastLoc);
        var y, t := Tagged(s.table[loc], s.recent[loc]), Swapped(s, loc, x.e, x.recent);
        var rest := PushedByChain(h, t, y, loc, depth - 1);
        StuckSwap(h, s, x, lastLoc);
        ChainPrepend(h, r, rest);
        rounds := [r] + rest;
        assert rounds[|rounds| - 1] == rest[|rest| - 1];
      }
    }
  }

  /** After a slot comes the next of the eight, so that the element just put in is not the one pushed on. */
  lemma NextVictim(locs: seq<nat>, k: nat)
    requires |locs| == 8 && k < 8 && forall i :: 0 <= i < k ==> locs[i] != locs[k]
    ensures Victim(locs, locs[k]) == locs[(k + 1) % 8]
  {
  }

  /** An inserted element is found, unless it is what comes out at the end of the chain. */
  lemma InsertedIsFound(h: Hasher, s: Store, e: Element, depth: nat)
    requires s.Shaped() && AtHome(h, s)
    ensures var r := Inserted(h, s, e, depth);
      r.store.Shaped() && (Contains(h, r.store, e) || (r.Dropped? && r.out == Tagged(e, true)))
  {
    hide Live;
    hide AtHome;
    hide Pushed;
    hide Locations;
    InsertConserves(h, s, e, depth);
    var r := Inserted(h, s, e, depth);
    var locs := Locations(h, |s.table|, e);
    var k := Holding(s, locs, e, 0);
    if k < 8 {
      PlacedIsLive(s, locs[k], e);
      LiveIsFound(h, r.store, Tagged(e, true));
    } else if !(r.Dropped? && r.out == Tagged(e, true)) {
      assert Tagged(e, true) !in Gone(h, s, e, depth);
      assert Tagged(e, true) in Live(r.store) + Gone(h, s, e, depth);
      LiveIsFound(h, r.store, Tagged(e, true));
    }
  }

  // ----- erasing

  /** An erasing lookup gives up exactly the slot in which the element is found. */
  lemma ErasedExactly(h: Hasher, s: Store, e: Element)
    requires s.Shaped()
    ensures var t, locs := Erased(h, s, e), Locations(h, |s.table|, e);
      var k := Holding(s, locs, e, 0);
      && t.Shaped() && t.table == s.table && t.recent == s.recent
      && (if Contains(h, s, e) then DifferAt(s, t, locs[k]) && t.dead[locs[k]] && Live(t) + Slot(s, locs[k]) == Live(s)
          else t == s)
  {
    hide Locations;
    hide LiveUpTo;
    var t, locs := Erased(h, s, e), Locations(h, |s.table|, e);
    var k := Holding(s, locs, e, 0);
    if k < 8 {
      LiveDiffers(s, t, locs[k], |s.table|);
    }
  }

  // ----- how long an epoch lasts

  function Inserts(ops: seq<Op>): nat {
    if ops == [] then 0 else (if ops[0].Insert? then 1 else 0) + Inserts(ops[1..])
  }

  /** One operation makes the current epoch larger by one element at most. */
  lemma GrowsByOne(h: Hasher, c: Cache, op: Op)
    requires Inv(h, c)
    ensures var d := Done(h, c, op);
      && d.store.Shaped() && d.epochSize == c.epochSize
      && Count(d.store, true) <=
         (if op.Insert? then (if Ages(c) then 0 else Count(c.store, true)) + 1 else Count(c.store, true))
  {
    hide Count;
    hide AtHome;
    hide Inserted;
    hide Erased;
    match op {
      case Insert(e) =>
        CheckedCount(c);
        CheckedInv(h, c);
        InsertConserves(h, Checked(c).store, e, c.depthLimit);
      case Erase(e) =>
        EraseKeeps(h, c.store, e);
    }
  }

  lemma CheckedCount(c: Cache)
    requires c.store.Shaped()
    ensures var d := Checked(c);
      && d.store.Shaped() && d.epochSize == c.epochSize && d.depthLimit == c.depthLimit
      && Count(d.store, true) == if Ages(c) then 0 else Count(c.store, true)
  {
    if Ages(c) {
      AgedCounts(c.store, |c.store.table|);
    }
  }

  /** Elements are not aged before an epoch's worth of elements is there. */
  lemma {:induction false} EpochLasts(h: Hasher, c: Cache, ops: seq<Op>)
    requires Inv(h, c) && Count(c.store, true) + Inserts(ops) <= c.epochSize
    ensures Agings(h, c, ops) == 0
    decreases |ops|
  {
    hide AtHome;
    hide Done;
    hide Count;
    if ops != [] {
      DoneInv(h, c, ops[0]);
      GrowsByOne(h, c, ops[0]);
      EpochLasts(h, Done(h, c, ops[0]), ops[1..]);
    }
  }

  /** In an epoch's worth of insertions they are aged at most once. */
  lemma {:induction false} AgedOnce(h: Hasher, c: Cache, ops: seq<Op>)
    requires Inv(h, c) && Inserts(ops) <= c.epochSize
    ensures Agings(h, c, ops) <= 1
    decreases |ops|
  {
    hide AtHome;
    hide Done;
    hide Count;
    if ops != [] {
      DoneInv(h, c, ops[0]);
      GrowsByOne(h, c, ops[0]);
      if ops[0].Insert? && Ages(c) {
        EpochLasts(h, Done(h, c, ops[0]), ops[1..]);
      } else {
        AgedOnce(h, Done(h, c, ops[0]), ops[1..]);
      }
    }
  }

  /** A recent element is found through the next epoch's worth of insertions, unless it is erased or dropped. */
  lemma LastsAnEpoch(h: Hasher, c: Cache, ops: seq<Op>, x: Tagged)
    requires Inv(h, c) && x in Live(c.store) && x.recent && Spared(h, c, ops, x.e) && Inserts(ops) <= c.epochSize
    ensures After(h, c, ops).store.Shaped() && Contains(h, After(h, c, ops).store, x.e)
  {
    hide Inv;
    hide Live;
    hide Spared;
    hide After;
    hide Contains;
    AgedOnce(h, c, ops);
    Survives(h, c, ops, x);
  }
}
