/** What each slot of a compact block holds after the scan, by the transactions that match its short id. */
module CompactMatches {
  import opened Basics
  import opened CompactBlocks

  /** The transactions of a list that match a short id, in order. */
  ghost function Matching(c: CompactBlock, ts: seq<Tx>, x: ShortId): seq<Tx> {
    if ts == [] then [] else
    var l := |ts| - 1;
    Matching(c, ts[..l], x) + if c.short(ts[l].witnessHash) == x then [ts[l]] else []
  }

  /** All of a list is looked at. */
  ghost function Every(s: Scan, c: CompactBlock, m: map<ShortId, nat>, ts: seq<Tx>, spare: bool): (r: Scan)
    requires |s.available| == |s.have| && forall x :: x in m ==> m[x] < |s.available|
    ensures |r.available| == |r.have| == |s.available|
  {
    if ts == [] then s else Looked(Every(s, c, m, ts[..|ts| - 1], spare), c, m, ts[|ts| - 1], spare)
  }

  lemma {:induction false} EveryAfter(s: Scan, c: CompactBlock, m: map<ShortId, nat>, t: Tx, ts: seq<Tx>, spare: bool)
    requires |s.available| == |s.have| && forall x :: x in m ==> m[x] < |s.available|
    ensures Every(Looked(s, c, m, t, spare), c, m, ts, spare) == Every(s, c, m, [t] + ts, spare)
    decreases |ts|
  {
    hide Looked;
    if ts == [] {
      assert [t] + ts == [t] && [t][..0] == [];
    } else {
      var l := |ts| - 1;
      EveryAfter(s, c, m, t, ts[..l], spare);
      assert ([t] + ts)[..l + 1] == [t] + ts[..l];
    }
  }

  /** A scan looks at a list up to some place, before its end only if all slots are filled by then. */
  lemma {:induction false} ScanStops(s: Scan, c: CompactBlock, m: map<ShortId, nat>, ts: seq<Tx>, spare: bool)
    returns (n: nat)
    requires |s.available| == |s.have| && forall x :: x in m ==> m[x] < |s.available|
    ensures n <= |ts| && Through(s, c, m, ts, spare) == Every(s, c, m, ts[..n], spare)
    ensures n < |ts| ==> Through(s, c, m, ts, spare).count == |m|
    decreases |ts|
  {
    hide Looked;
    n := 0;
    if ts != [] {
      var next := Looked(s, c, m, ts[0], spare);
      var k := 0;
      if next.count != |m| {
        k := ScanStops(next, c, m, ts[1..], spare);
      }
      n := k + 1;
      EveryAfter(s, c, m, ts[0], ts[1..][..k], spare);
      assert ts[..n] == [ts[0]] + ts[1..][..k];
    }
  }

  // ----- the slots

  /** No two ids lead to the same slot. */
  ghost predicate Injective(m: map<ShortId, nat>) {
    forall x, y :: x in m && y in m && m[x] == m[y] ==> x == y
  }

  /** One transaction of the pool that matches a short id is taken for the slot; with two nobody can tell. */
  function FromPool(found: seq<Tx>): Option<Tx> {
    if |found| == 1 then Some(found[0]) else None
  }

  /** Spare ones besides must be that same transaction. */
  ghost function FromBoth(found: seq<Tx>, spare: seq<Tx>): Option<Tx> {
    var all := found + spare;
    if all != [] && |found| <= 1 && forall i :: 0 <= i < |spare| ==> spare[i].witnessHash == all[0].witnessHash
    then Some(all[0]) else None
  }

  ghost predicate PoolSlot(s: Scan, k: nat, found: seq<Tx>) {
    k < |s.available| == |s.have| && (s.have[k] <==> found != []) && s.available[k] == FromPool(found)
  }

  lemma {:induction false} PoolSlots(s: Scan, c: CompactBlock, m: map<ShortId, nat>, ts: seq<Tx>, x: ShortId)
    requires |s.available| == |s.have| && (forall x :: x in m ==> m[x] < |s.available|) && Injective(m)
    requires x in m && PoolSlot(s, m[x], [])
    ensures PoolSlot(Every(s, c, m, ts, false), m[x], Matching(c, ts, x))
  {
    if ts != [] {
      var l := |ts| - 1;
      PoolSlots(s, c, m, ts[..l], x);
      assert ts == ts[..l] + [ts[l]];
      LookedPool(Every(s, c, m, ts[..l], false), c, m, ts[l], x, Matching(c, ts[..l], x));
    }
  }

  lemma LookedPool(s: Scan, c: CompactBlock, m: map<ShortId, nat>, t: Tx, x: ShortId, found: seq<Tx>)
    requires |s.available| == |s.have| && (forall x :: x in m ==> m[x] < |s.available|) && Injective(m)
    requires x in m && PoolSlot(s, m[x], found)
    ensures PoolSlot(Looked(s, c, m, t, false), m[x], found + if c.short(t.witnessHash) == x then [t] else [])
  {
  }

  ghost predicate BothSlot(s: Scan, k: nat, found: seq<Tx>, spare: seq<Tx>) {
    && k < |s.available| == |s.have| && (s.have[k] <==> found + spare != [])
    && s.available[k] == FromBoth(found, spare)
  }

  lemma {:induction false} BothSlots(
    s: Scan, c: CompactBlock, m: map<ShortId, nat>, ts: seq<Tx>, x: ShortId, found: seq<Tx>)
    requires |s.available| == |s.have| && (forall x :: x in m ==> m[x] < |s.available|) && Injective(m)
    requires x in m && PoolSlot(s, m[x], found)
    ensures BothSlot(Every(s, c, m, ts, true), m[x], found, Matching(c, ts, x))
  {
    if ts == [] {
      assert found + [] == found;
    } else {
      var l := |ts| - 1;
      BothSlots(s, c, m, ts[..l], x, found);
      assert ts == ts[..l] + [ts[l]];
      LookedBoth(Every(s, c, m, ts[..l], true), c, m, ts[l], x, found, Matching(c, ts[..l], x));
    }
  }

  lemma LookedBoth(
    s: Scan, c: CompactBlock, m: map<ShortId, nat>, t: Tx, x: ShortId, found: seq<Tx>, spare: seq<Tx>)
    requires |s.available| == |s.have| && (forall x :: x in m ==> m[x] < |s.available|) && Injective(m)
    requires x in m && BothSlot(s, m[x], found, spare)
    ensures BothSlot(Looked(s, c, m, t, true), m[x], found, spare + if c.short(t.witnessHash) == x then [t] else [])
  {
    if c.short(t.witnessHash) == x {
      FromMore(found, spare, t);
    } else {
      assert spare + [] == spare;
    }
  }

  lemma FromMore(found: seq<Tx>, spare: seq<Tx>, t: Tx)
    ensures var was, now := FromBoth(found, spare), FromBoth(found, spare + [t]);
      now == if found + spare == [] then Some(t)
             else if was.Some? && was.value.witnessHash == t.witnessHash then was else None
  {
    var more := spare + [t];
    assert more[|spare|] == t;
    assert forall i :: 0 <= i < |spare| ==> more[i] == spare[i];
    if found + spare != [] {
      assert (found + more)[0] == (found + spare)[0];
    }
  }

  lemma IdsApart(c: CompactBlock)
    requires Ready(c) && Small(c)
    ensures Injective(Ids(c))
    ensures forall x :: x in Ids(c) ==> Ids(c)[x] < c.Count() && Start(c)[Ids(c)[x]] == None
  {
    hide Start;
    hide Ids;
    IdsLead(c);
    MapsInRange(c);
    forall x, y | x in Ids(c) && y in Ids(c) && Ids(c)[x] == Ids(c)[y] ensures x == y {
      assert IdOf(c, Start(c), Ids(c)[x], x) && IdOf(c, Start(c), Ids(c)[y], y);
    }
    forall x | x in Ids(c) ensures Start(c)[Ids(c)[x]] == None {
      assert IdOf(c, Start(c), Ids(c)[x], x);
    }
  }

  /** After the scan the slot of a short id holds the one transaction that the pool and the spare ones have for it, as
      far as they were looked at; it is empty if they have none, or two that differ, and so is to be asked for. The pool
      and the spare ones are looked at to their ends unless all slots are filled. */
  lemma SlotsExactly(c: CompactBlock, pool: seq<Tx>, extra: seq<Tx>) returns (n: nat, k: nat)
    requires Ready(c) && Small(c)
    ensures n <= |pool| && k <= |extra|
    ensures n < |pool| ==> PoolScan(c, pool).count == |Ids(c)|
    ensures k < |extra| ==> FullScan(c, pool, extra).count == |Ids(c)|
    ensures forall x :: x in Ids(c) ==>
      && Ids(c)[x] < c.Count()
      && FullScan(c, pool, extra).available[Ids(c)[x]] ==
         FromBoth(Matching(c, pool[..n], x), Matching(c, extra[..k], x))
  {
    hide Start;
    hide Ids;
    hide Through;
    hide Every;
    hide Matching;
    IdsApart(c);
    var s := Begin(c);
    n := ScanStops(s, c, Ids(c), pool, false);
    var p := PoolScan(c, pool);
    k := ScanStops(p, c, Ids(c), extra, true);
    forall x | x in Ids(c)
      ensures FullScan(c, pool, extra).available[Ids(c)[x]] ==
              FromBoth(Matching(c, pool[..n], x), Matching(c, extra[..k], x))
    {
      PoolSlots(s, c, Ids(c), pool[..n], x);
      BothSlots(p, c, Ids(c), extra[..k], x, Matching(c, pool[..n], x));
    }
  }

  // ----- which messages are received

  /** The indexes are relative: each counts the slots between a prefilled transaction and the one before it. */
  function Position(ps: seq<Prefilled>, i: nat): nat
    requires i < |ps|
  {
    if i == 0 then ps[0].index else Position(ps, i - 1) + 1 + ps[i].index
  }

  lemma {:induction false} LastIsPosition(ps: seq<Prefilled>, i: nat)
    requires i < |ps|
    ensures Last(ps[..i + 1]) == Position(ps, i)
  {
    if i == 0 {
      assert ps[..1] == [ps[0]] && ps[..1][..0] == [];
    } else {
      LastIsPosition(ps, i - 1);
      assert ps[..i + 1][..i] == ps[..i];
    }
  }

  /** A message is invalid just if it has no header or no transactions, too many of them, or a prefilled one that is
      null or whose position is beyond sixteen bits or the transactions there can be before it. If it is not, it fails
      just if a bucket is too long or a short id comes twice. */
  lemma ReceptionExactly(c: CompactBlock, limit: nat, uneven: bool)
    ensures Reception(c, limit, uneven) == Invalid <==>
      || c.headerIsNull || c.Count() == 0 || limit < c.Count()
      || exists i :: 0 <= i < |c.prefilled| &&
           (|| c.prefilled[i].tx.isNull
            || 0xFFFF < Position(c.prefilled, i) || |c.shortIds| + i < Position(c.prefilled, i))
    ensures Reception(c, limit, uneven) == Failed ==>
      uneven || exists i, j :: 0 <= i < j < |c.shortIds| && c.shortIds[i] == c.shortIds[j]
    ensures Reception(c, limit, uneven) == Accepted ==>
      !uneven && forall i, j :: 0 <= i < j < |c.shortIds| ==> c.shortIds[i] != c.shortIds[j]
  {
    hide Last;
    forall i | 0 <= i < |c.prefilled|
      ensures FitsAt(c, i) <==>
        !c.prefilled[i].tx.isNull && Position(c.prefilled, i) <= 0xFFFF && Position(c.prefilled, i) <= |c.shortIds| + i
    {
      LastIsPosition(c.prefilled, i);
    }
  }
}
