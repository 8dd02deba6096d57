/**
 * Compact blocks: a block sent as short transaction ids, with some transactions prefilled, and
 * rebuilt from the receiver's own transactions.
 */
module CompactBlocks {
  import opened Basics

  type Hash = nat
  type ShortId = nat

  datatype Tx = Tx(hash: Hash, witnessHash: Hash, isNull: bool)

  type Word16 = x: nat | x <= MAX_UINT16

  /** A prefilled transaction, its index relative to the one before. */
  datatype Prefilled = Prefilled(index: Word16, tx: Tx)

  /** The message; the short id function depends on its header and nonce. */
  datatype CompactBlock = CompactBlock(
    headerIsNull: bool, short: Hash -> ShortId, shortIds: seq<ShortId>, prefilled: seq<Prefilled>)
  {
    function Count(): nat {
      |shortIds| + |prefilled|
    }
  }

  type Slots = seq<Option<Tx>>

  const MAX_UINT16 := 0xFFFF

  // ----- Free slots -----

  /** How many of the first k slots are free. */
  function FreeBefore(a: Slots, k: nat): (n: nat)
    requires k <= |a|
    ensures n <= k
  {
    if k == 0 then 0 else FreeBefore(a, k - 1) + if a[k - 1].None? then 1 else 0
  }

  function Free(a: Slots): nat {
    FreeBefore(a, |a|)
  }

  lemma {:induction false} FreeGrows(a: Slots, j: nat, k: nat)
    requires j <= k <= |a|
    ensures FreeBefore(a, j) <= FreeBefore(a, k)
    ensures j < k && a[j].None? ==> FreeBefore(a, j) < FreeBefore(a, k)
  {
    if j < k {
      FreeGrows(a, j, k - 1);
    }
  }

  lemma {:induction false} FreeWith(a: Slots, j: nat, x: Option<Tx>, k: nat)
    requires j < |a| && k <= |a|
    ensures FreeBefore(a[j := x], k) ==
            FreeBefore(a, k) + (if j < k then (if x.None? then 1 else 0) - (if a[j].None? then 1 else 0) else 0)
  {
    if k != 0 {
      FreeWith(a, j, x, k - 1);
    }
  }

  lemma {:induction false} AllFree(a: Slots, k: nat)
    requires k <= |a| && forall j :: 0 <= j < k ==> a[j].None?
    ensures FreeBefore(a, k) == k
  {
    if k != 0 {
      AllFree(a, k - 1);
    }
  }

  /** The slots that are not free grow in number too. */
  lemma {:induction false} FilledGrows(a: Slots, j: nat, k: nat)
    requires j <= k <= |a|
    ensures j - FreeBefore(a, j) <= k - FreeBefore(a, k)
  {
    if j < k {
      FilledGrows(a, j, k - 1);
    }
  }

  lemma {:induction false} NoneFree(a: Slots, k: nat)
    requires k <= |a|
    ensures FreeBefore(a, k) == 0 <==> forall j :: 0 <= j < k ==> a[j].Some?
  {
    if k != 0 {
      NoneFree(a, k - 1);
    }
  }

  lemma {:induction false} RestFree(a: Slots, j: nat, k: nat)
    requires j <= k <= |a| && forall i :: j <= i < k ==> a[i].None?
    ensures FreeBefore(a, k) == FreeBefore(a, j) + k - j
  {
    if j < k {
      RestFree(a, j, k - 1);
    }
  }

  /** Slot k is the i-th free one. */
  ghost predicate IsSlot(a: Slots, i: nat, k: nat) {
    k < |a| && a[k].None? && FreeBefore(a, k) == i
  }

  lemma SlotUnique(a: Slots, i: nat, j: nat, k: nat)
    requires IsSlot(a, i, j) && IsSlot(a, i, k)
    ensures j == k
  {
    if j < k {
      FreeGrows(a, j, k);
    } else if k < j {
      FreeGrows(a, k, j);
    }
  }

  /** The i-th free slot, looked for among the first n. */
  ghost function SlotIn(a: Slots, i: nat, n: nat): (k: nat)
    requires n <= |a| && i < FreeBefore(a, n)
    ensures IsSlot(a, i, k)
  {
    if i < FreeBefore(a, n - 1) then SlotIn(a, i, n - 1) else n - 1
  }

  ghost function Slot(a: Slots, i: nat): (k: nat)
    requires i < Free(a)
    ensures IsSlot(a, i, k)
  {
    SlotIn(a, i, |a|)
  }

  // ----- Prefilled transactions -----

  /** The position of the last of the prefilled transactions. */
  function Last(p: seq<Prefilled>): (k: int)
    ensures -1 <= k
  {
    if p == [] then -1 else Last(p[..|p| - 1]) + p[|p| - 1].index + 1
  }

  /** The i-th prefilled transaction fits: its position is below the number of transactions given up to there. */
  ghost predicate FitsAt(c: CompactBlock, i: nat)
    requires i < |c.prefilled|
  {
    && !c.prefilled[i].tx.isNull
    && Last(c.prefilled[..i + 1]) <= MAX_UINT16 && Last(c.prefilled[..i + 1]) <= |c.shortIds| + i
  }

  ghost predicate Fitting(c: CompactBlock, n: nat)
    requires n <= |c.prefilled|
  {
    forall i :: 0 <= i < n ==> FitsAt(c, i)
  }

  lemma LastGrows(c: CompactBlock, n: nat)
    requires n < |c.prefilled|
    ensures Last(c.prefilled[..n + 1]) == Last(c.prefilled[..n]) + c.prefilled[n].index + 1
  {
    assert c.prefilled[..n + 1][..n] == c.prefilled[..n];
  }

  lemma PositionFits(c: CompactBlock, n: nat)
    requires 0 < n <= |c.prefilled| && Fitting(c, n)
    ensures Fitting(c, n - 1) && 0 <= Last(c.prefilled[..n - 1]) + 1 <= Last(c.prefilled[..n]) < c.Count()
  {
    LastGrows(c, n - 1);
    assert FitsAt(c, n - 1);
  }

  /** The slots once the first n prefilled transactions are in place. */
  ghost function Placed(c: CompactBlock, n: nat): (a: Slots)
    requires n <= |c.prefilled| && Fitting(c, n)
    ensures |a| == c.Count()
  {
    if n == 0 then seq(c.Count(), i => None)
    else
      PositionFits(c, n);
      Placed(c, n - 1)[Last(c.prefilled[..n]) := Some(c.prefilled[n - 1].tx)]
  }

  /** No prefilled transaction overwrites another, so as many slots stay free as there are short ids. */
  lemma {:induction false} PlacedFree(c: CompactBlock, n: nat)
    requires n <= |c.prefilled| && Fitting(c, n)
    ensures forall k :: Last(c.prefilled[..n]) < k < c.Count() ==> Placed(c, n)[k].None?
    ensures Free(Placed(c, n)) == c.Count() - n
  {
    hide Last;
    hide FreeBefore;
    hide Fitting;
    if n == 0 {
      AllFree(Placed(c, 0), c.Count());
    } else {
      PositionFits(c, n);
      PlacedFree(c, n - 1);
      FreeWith(Placed(c, n - 1), Last(c.prefilled[..n]), Some(c.prefilled[n - 1].tx), c.Count());
    }
  }

  /** Each prefilled transaction is at its own position. */
  lemma {:induction false} PlacedAt(c: CompactBlock, n: nat, i: nat)
    requires i < n <= |c.prefilled| && Fitting(c, n)
    ensures 0 <= Last(c.prefilled[..i + 1]) <= Last(c.prefilled[..n]) < c.Count()
    ensures Placed(c, n)[Last(c.prefilled[..i + 1])] == Some(c.prefilled[i].tx)
  {
    hide Last;
    hide Fitting;
    PositionFits(c, n);
    if i + 1 < n {
      PlacedAt(c, n - 1, i);
    }
  }

  // ----- Short ids -----

  /** The slots before any transaction of the receiver is looked at. */
  ghost function Start(c: CompactBlock): (a: Slots)
    requires Fitting(c, |c.prefilled|)
    ensures |a| == c.Count() && Free(a) == |c.shortIds|
  {
    PlacedFree(c, |c.prefilled|);
    Placed(c, |c.prefilled|)
  }

  ghost predicate NoRepeats<T(!new)>(s: seq<T>) {
    forall i, j :: 0 <= i < j < |s| ==> s[i] != s[j]
  }

  /** Positions are stored in sixteen bits. */
  function Uint16(k: nat): (r: nat)
    ensures r <= k && r <= MAX_UINT16
    ensures k <= MAX_UINT16 ==> r == k
  {
    k % 0x1_0000
  }

  /** The map from the first n short ids to slots; of equal ids the last counts. */
  ghost function IdMap(a: Slots, ids: seq<ShortId>, n: nat): map<ShortId, nat>
    requires n <= |ids| <= Free(a)
  {
    if n == 0 then map[] else IdMap(a, ids, n - 1)[ids[n - 1] := Uint16(Slot(a, n - 1))]
  }

  lemma {:induction false} IdMapKeys(a: Slots, ids: seq<ShortId>, n: nat)
    requires n <= |ids| <= Free(a)
    ensures forall x :: x in IdMap(a, ids, n) <==> x in ids[..n]
    ensures |IdMap(a, ids, n)| <= n
    ensures |IdMap(a, ids, n)| == n <==> NoRepeats(ids[..n])
  {
    if n != 0 {
      IdMapKeys(a, ids, n - 1);
      var m, x := IdMap(a, ids, n - 1), ids[n - 1];
      assert ids[..n] == ids[..n - 1] + [x];
      MapGrows(m, x, Uint16(Slot(a, n - 1)));
      RepeatsGrow(ids[..n - 1], x);
    }
  }

  lemma MapGrows<K, V>(m: map<K, V>, x: K, v: V)
    ensures |m[x := v]| == if x in m then |m| else |m| + 1
  {
    assert m[x := v].Keys == m.Keys + {x};
    assert |m| == |m.Keys| && |m[x := v]| == |m[x := v].Keys|;
  }

  lemma RepeatsGrow<T(!new)>(s: seq<T>, x: T)
    ensures NoRepeats(s + [x]) <==> NoRepeats(s) && x !in s
  {
    var t := s + [x];
    if NoRepeats(t) {
      forall i, j | 0 <= i < j < |s|
        ensures s[i] != s[j]
      {
        assert t[i] != t[j];
      }
      forall i | 0 <= i < |s|
        ensures s[i] != x
      {
        assert t[i] != t[|s|];
      }
    }
  }

  /** Without repeats the i-th short id leads to the i-th free slot. */
  lemma {:induction false} IdMapAt(a: Slots, ids: seq<ShortId>, n: nat, i: nat)
    requires i < n <= |ids| <= Free(a) && NoRepeats(ids)
    ensures ids[i] in IdMap(a, ids, n) && IdMap(a, ids, n)[ids[i]] == Uint16(Slot(a, i))
  {
    if i + 1 < n {
      IdMapAt(a, ids, n - 1, i);
      assert ids[i] != ids[n - 1];
    }
  }

  ghost predicate Small(c: CompactBlock) {
    c.Count() <= 0x1_0000
  }

  /** In a larger block the last short id is that of the last slot. */
  lemma LastSlot(c: CompactBlock)
    requires Fitting(c, |c.prefilled|) && !Small(c)
    ensures c.shortIds != [] && Slot(Start(c), |c.shortIds| - 1) == c.Count() - 1
    ensures Uint16(c.Count() - 1) != c.Count() - 1
  {
    hide Placed;
    hide Fitting;
    var a, k := Start(c), c.Count() - 1;
    AfterPrefilled(c);
    FreeGrows(a, k, |a|);
    RestFree(a, k, |a|);
    SlotUnique(a, |c.shortIds| - 1, k, Slot(a, |c.shortIds| - 1));
  }

  /** No slot from 65536 on is prefilled. */
  lemma AfterPrefilled(c: CompactBlock)
    requires Fitting(c, |c.prefilled|)
    ensures forall k :: 0x1_0000 <= k < c.Count() ==> Start(c)[k].None?
  {
    PlacedFree(c, |c.prefilled|);
    LastFits(c, |c.prefilled|);
  }

  /** The positions that sixteen bits can hold are all there are exactly if the block has at most 65536 transactions. */
  lemma SixteenBits(c: CompactBlock)
    requires Fitting(c, |c.prefilled|) && c.shortIds != []
    ensures (forall i :: 0 <= i < |c.shortIds| ==> Uint16(Slot(Start(c), i)) == Slot(Start(c), i)) <==> Small(c)
  {
    hide Start;
    hide Fitting;
    if !Small(c) {
      LastSlot(c);
    }
  }

  /**
   * The search for the slot of the first short id counts in sixteen bits. It has no end exactly if every slot
   * it can come to is prefilled, and that is if 65536 transactions are prefilled.
   */
  lemma SearchHasNoEnd(c: CompactBlock)
    requires Fitting(c, |c.prefilled|) && c.shortIds != []
    ensures (forall o :: 0 <= o < 0x1_0000 ==> Blocked(c, o)) <==> |c.prefilled| == 0x1_0000
    ensures |c.prefilled| <= 0x1_0000
  {
    hide Placed;
    hide Fitting;
    var a := Start(c);
    AfterPrefilled(c);
    if 0x1_0000 <= c.Count() {
      RestFree(a, 0x1_0000, |a|);
      NoneFree(a, 0x1_0000);
      if forall o :: 0 <= o < 0x1_0000 ==> Blocked(c, o) {
        forall j | 0 <= j < 0x1_0000
          ensures a[j].Some?
        {
          assert Blocked(c, j);
        }
      }
    } else {
      assert !Blocked(c, c.Count());
    }
  }

  /** The search goes on from this slot. */
  ghost predicate Blocked(c: CompactBlock, o: nat)
    requires Fitting(c, |c.prefilled|)
  {
    o < c.Count() && Start(c)[o].Some?
  }

  lemma LastFits(c: CompactBlock, n: nat)
    requires n <= |c.prefilled| && Fitting(c, n)
    ensures Last(c.prefilled[..n]) <= MAX_UINT16
  {
    if n != 0 {
      assert FitsAt(c, n - 1);
    }
  }

  // ----- Looking through the receiver's transactions -----

  /** The slots, which of them were ever filled from the receiver's transactions, and how many are filled so. */
  datatype Scan = Scan(available: Slots, have: seq<bool>, count: int)

  /**
   * Transaction t matches the short id of slot k: it fills the slot the first time. A second match empties
   * it; a spare transaction does so only if it differs from the one there.
   */
  function Offered(s: Scan, k: nat, t: Tx, spare: bool): Scan
    requires k < |s.available| == |s.have|
  {
    if !s.have[k] then Scan(s.available[k := Some(t)], s.have[k := true], s.count + 1)
    else if s.available[k].Some? && (spare ==> s.available[k].value.witnessHash != t.witnessHash) then
      Scan(s.available[k := None], s.have, s.count - 1)
    else s
  }

  /** Every id leads to the free slot it was given for. */
  ghost predicate Leads(c: CompactBlock, a: Slots, m: map<ShortId, nat>) {
    forall x :: x in m ==> IdOf(c, a, m[x], x)
  }

  /** Slot k is free and x is its short id. */
  ghost predicate IdOf(c: CompactBlock, a: Slots, k: nat, x: ShortId) {
    && k < |a| && a[k].None?
    && FreeBefore(a, k) < |c.shortIds| && c.shortIds[FreeBefore(a, k)] == x
  }

  ghost function Looked(s: Scan, c: CompactBlock, m: map<ShortId, nat>, t: Tx, spare: bool): (r: Scan)
    requires |s.available| == |s.have| && forall x :: x in m ==> m[x] < |s.available|
    ensures |r.available| == |r.have| == |s.available|
  {
    var x := c.short(t.witnessHash);
    if x in m then Offered(s, m[x], t, spare) else s
  }

  /** Looks through a list, up to where every slot is filled. */
  ghost function Through(s: Scan, c: CompactBlock, m: map<ShortId, nat>, ts: seq<Tx>, spare: bool): (r: Scan)
    requires |s.available| == |s.have| && forall x :: x in m ==> m[x] < |s.available|
    ensures |r.available| == |r.have| == |s.available|
    decreases |ts|
  {
    if ts == [] then s else
    var next := Looked(s, c, m, ts[0], spare);
    if next.count == |m| then next else Through(next, c, m, ts[1..], spare)
  }

  lemma ThroughNext(s: Scan, c: CompactBlock, m: map<ShortId, nat>, ts: seq<Tx>, spare: bool)
    requires |s.available| == |s.have| && (forall x :: x in m ==> m[x] < |s.available|) && ts != []
    ensures
      var next := Looked(s, c, m, ts[0], spare);
      Through(s, c, m, ts, spare) == if next.count == |m| then next else Through(next, c, m, ts[1..], spare)
  {
  }

  lemma ThroughNone(s: Scan, c: CompactBlock, m: map<ShortId, nat>, ts: seq<Tx>, spare: bool)
    requires |s.available| == |s.have| && (forall x :: x in m ==> m[x] < |s.available|) && ts == []
    ensures Through(s, c, m, ts, spare) == s
  {
  }

  /** What every step keeps: prefilled slots are left alone, others hold known transactions of the right short id. */
  ghost predicate Sound(s: Scan, c: CompactBlock, a: Slots, known: set<Tx>) {
    && |s.available| == |s.have| == |a|
    && (forall k :: 0 <= k < |a| && a[k].Some? ==> s.available[k] == a[k])
    && (forall k :: 0 <= k < |a| && a[k].None? && s.available[k].Some? ==>
          IdOf(c, a, k, c.short(s.available[k].value.witnessHash)) && s.available[k].value in known)
    && (forall k :: 0 <= k < |a| && a[k].None? && !s.have[k] ==> s.available[k].None?)
    && s.count == Free(a) - Free(s.available)
  }

  lemma LookedSound(s: Scan, c: CompactBlock, a: Slots, m: map<ShortId, nat>, t: Tx, spare: bool, known: set<Tx>)
    requires Sound(s, c, a, known) && Leads(c, a, m) && t in known
    ensures Sound(Looked(s, c, m, t, spare), c, a, known)
  {
    hide Free;
    hide FreeBefore;
    var x := c.short(t.witnessHash);
    if x in m {
      var k := m[x];
      assert IdOf(c, a, k, x);
      OfferedCount(s, k, t, spare);
    }
  }

  lemma OfferedCount(s: Scan, k: nat, t: Tx, spare: bool)
    requires k < |s.available| == |s.have| && (!s.have[k] ==> s.available[k].None?)
    ensures var r := Offered(s, k, t, spare); r.count + Free(r.available) == s.count + Free(s.available)
  {
    FreeWith(s.available, k, Some(t), |s.available|);
    FreeWith(s.available, k, None, |s.available|);
  }

  lemma {:induction false} ThroughSound(
    s: Scan, c: CompactBlock, a: Slots, m: map<ShortId, nat>, ts: seq<Tx>, spare: bool, known: set<Tx>)
    requires Sound(s, c, a, known) && Leads(c, a, m) && forall t :: t in ts ==> t in known
    ensures Sound(Through(s, c, m, ts, spare), c, a, known)
    decreases |ts|
  {
    hide Sound;
    hide Looked;
    SoundSizes(s, c, a, m, known);
    if ts != [] {
      assert ts[0] in ts;
      LookedSound(s, c, a, m, ts[0], spare, known);
      var next := Looked(s, c, m, ts[0], spare);
      if next.count != |m| {
        ThroughSound(next, c, a, m, ts[1..], spare, known);
      }
    }
  }

  lemma SoundSizes(s: Scan, c: CompactBlock, a: Slots, m: map<ShortId, nat>, known: set<Tx>)
    requires Sound(s, c, a, known) && Leads(c, a, m)
    ensures |s.available| == |s.have| == |a| && forall x :: x in m ==> m[x] < |s.available|
  {
    forall x | x in m
      ensures m[x] < |s.available|
    {
      assert IdOf(c, a, m[x], x);
    }
  }

  /** The count of filled slots is never negative. */
  lemma CountInRange(s: Scan, c: CompactBlock, a: Slots, known: set<Tx>)
    requires Sound(s, c, a, known)
    ensures 0 <= s.count <= Free(a)
    ensures s.count == Free(a) ==> forall k :: 0 <= k < |a| ==> s.available[k].Some?
  {
    FewerFree(s.available, a, |a|);
    if s.count == Free(a) {
      forall k | 0 <= k < |a|
        ensures s.available[k].Some?
      {
        FreeGrows(s.available, k, |a|);
      }
    }
  }

  lemma {:induction false} FewerFree(a: Slots, b: Slots, n: nat)
    requires n <= |a| == |b| && forall k :: 0 <= k < n && b[k].Some? ==> a[k].Some?
    ensures FreeBefore(a, n) <= FreeBefore(b, n)
  {
    if n != 0 {
      FewerFree(a, b, n - 1);
    }
  }

  /** How many of the first n slots are filled from the receiver's transactions. */
  ghost function Haves(s: Scan, n: nat): nat
    requires n <= |s.available| == |s.have|
  {
    if n == 0 then 0 else Haves(s, n - 1) + if s.have[n - 1] && s.available[n - 1].Some? then 1 else 0
  }

  /** The count is right, wherever the map leads. */
  ghost predicate Tallied(s: Scan) {
    |s.available| == |s.have| && s.count == Haves(s, |s.have|)
  }

  lemma {:induction false} HavesSame(s: Scan, r: Scan, k: nat, n: nat)
    requires k < |s.available| == |s.have| == |r.available| == |r.have| && n <= |s.have|
    requires forall j :: 0 <= j < |s.have| && j != k ==> s.have[j] == r.have[j] && s.available[j] == r.available[j]
    ensures Haves(r, n) == Haves(s, n) + if k < n then One(r, k) - One(s, k) else 0
  {
    if n != 0 {
      HavesSame(s, r, k, n - 1);
    }
  }

  ghost function One(s: Scan, k: nat): int
    requires k < |s.available| == |s.have|
  {
    if s.have[k] && s.available[k].Some? then 1 else 0
  }

  lemma OfferedTallied(s: Scan, k: nat, t: Tx, spare: bool)
    requires Tallied(s) && k < |s.have|
    ensures Tallied(Offered(s, k, t, spare))
    ensures s.have[k] && s.available[k].Some? ==> 0 < s.count
  {
    HavesSame(s, Offered(s, k, t, spare), k, |s.have|);
    if s.have[k] && s.available[k].Some? {
      HavesSame(s, s.(available := s.available[k := None]), k, |s.have|);
    }
  }

  lemma LookedTallied(s: Scan, c: CompactBlock, m: map<ShortId, nat>, t: Tx, spare: bool)
    requires Tallied(s) && forall x :: x in m ==> m[x] < |s.available|
    ensures Tallied(Looked(s, c, m, t, spare))
  {
    var x := c.short(t.witnessHash);
    if x in m {
      OfferedTallied(s, m[x], t, spare);
    }
  }

  // ----- The receiver's side -----

  datatype Status = Accepted | Invalid | Failed | CheckBlockFailed

  /**
   * What becomes of a message. The limit on the number of transactions comes from the block weight; uneven
   * says that some bucket of the map of short ids got too long.
   */
  ghost function Reception(c: CompactBlock, limit: nat, uneven: bool): Status {
    if c.headerIsNull || (c.shortIds == [] && c.prefilled == []) || limit < c.Count() then Invalid
    else if !Fitting(c, |c.prefilled|) then Invalid
    else if uneven || !NoRepeats(c.shortIds) then Failed
    else Accepted
  }

  ghost function Ids(c: CompactBlock): map<ShortId, nat>
    requires Fitting(c, |c.prefilled|)
  {
    IdMap(Start(c), c.shortIds, |c.shortIds|)
  }

  ghost predicate Ready(c: CompactBlock) {
    Fitting(c, |c.prefilled|) && NoRepeats(c.shortIds)
  }

  /** The i-th short id leads to the i-th slot that is not prefilled, as far as sixteen bits tell. */
  lemma IdsLead(c: CompactBlock)
    requires Ready(c)
    ensures |Ids(c)| == |c.shortIds|
    ensures forall x :: x in Ids(c) <==> x in c.shortIds
    ensures forall i :: 0 <= i < |c.shortIds| ==>
      c.shortIds[i] in Ids(c) && Ids(c)[c.shortIds[i]] == Uint16(Slot(Start(c), i))
    ensures Small(c) ==> Leads(c, Start(c), Ids(c))
  {
    hide Start;
    hide IdMap;
    hide Uint16;
    var a, ids, n := Start(c), c.shortIds, |c.shortIds|;
    IdMapKeys(a, ids, n);
    assert ids[..n] == ids;
    forall i | 0 <= i < n
      ensures ids[i] in Ids(c) && Ids(c)[ids[i]] == Uint16(Slot(a, i)) && IdOf(c, a, Slot(a, i), ids[i])
    {
      IdMapAt(a, ids, n, i);
    }
    if Small(c) {
      forall x | x in Ids(c)
        ensures IdOf(c, a, Ids(c)[x], x)
      {
        var i :| 0 <= i < n && ids[i] == x;
      }
    }
  }

  /** Every id leads to the slot it was given for exactly if the block has at most 65536 transactions. */
  lemma LeadsExactly(c: CompactBlock)
    requires Ready(c) && c.shortIds != []
    ensures Leads(c, Start(c), Ids(c)) <==> Small(c)
  {
    hide Start;
    hide Ids;
    hide Fitting;
    hide Uint16;
    IdsLead(c);
    if !Small(c) {
      LastSlot(c);
      var a, i := Start(c), |c.shortIds| - 1;
      var k := Uint16(c.Count() - 1);
      if IdOf(c, a, k, c.shortIds[i]) {
        assert FreeBefore(a, k) == i;
        SlotUnique(a, i, k, Slot(a, i));
      }
    }
  }

  ghost function Begin(c: CompactBlock): Scan
    requires Fitting(c, |c.prefilled|)
  {
    Scan(Start(c), seq(c.Count(), i => false), 0)
  }

  lemma BeginSound(c: CompactBlock, known: set<Tx>)
    requires Fitting(c, |c.prefilled|)
    ensures Sound(Begin(c), c, Start(c), known)
  {
    hide Start;
  }

  lemma BeginTallied(c: CompactBlock)
    requires Fitting(c, |c.prefilled|)
    ensures Tallied(Begin(c))
  {
    hide Start;
    NoHaves(Begin(c), c.Count());
  }

  lemma {:induction false} NoHaves(s: Scan, n: nat)
    requires n <= |s.available| == |s.have| && forall k :: 0 <= k < n ==> !s.have[k]
    ensures Haves(s, n) == 0
  {
    if n != 0 {
      NoHaves(s, n - 1);
    }
  }

  /** The slots once the memory pool has been looked through, and then the spare transactions. */
  ghost function PoolScan(c: CompactBlock, pool: seq<Tx>): (s: Scan)
    requires Ready(c)
    ensures |s.available| == |s.have| == c.Count()
  {
    MapsInRange(c);
    Through(Begin(c), c, Ids(c), pool, false)
  }

  ghost function FullScan(c: CompactBlock, pool: seq<Tx>, extra: seq<Tx>): (s: Scan)
    requires Ready(c)
    ensures |s.available| == |s.have| == c.Count()
  {
    MapsInRange(c);
    Through(PoolScan(c, pool), c, Ids(c), extra, true)
  }

  lemma MapsInRange(c: CompactBlock)
    requires Ready(c)
    ensures forall x :: x in Ids(c) ==> Ids(c)[x] < c.Count()
  {
    hide Start;
    hide Ids;
    IdsLead(c);
    forall x | x in Ids(c)
      ensures Ids(c)[x] < c.Count()
    {
      var i :| 0 <= i < |c.shortIds| && c.shortIds[i] == x;
      assert IsSlot(Start(c), i, Slot(Start(c), i));
    }
  }

  ghost function Elements(s: seq<Tx>): set<Tx> {
    set t | t in s
  }

  lemma ScanSound(c: CompactBlock, pool: seq<Tx>, extra: seq<Tx>)
    requires Ready(c) && Small(c)
    ensures Sound(PoolScan(c, pool), c, Start(c), Elements(pool) + Elements(extra))
    ensures Sound(FullScan(c, pool, extra), c, Start(c), Elements(pool) + Elements(extra))
  {
    hide Start;
    hide Ids;
    hide Sound;
    hide Through;
    hide Leads;
    hide Fitting;
    MapsInRange(c);
    IdsLead(c);
    var known := Elements(pool) + Elements(extra);
    BeginSound(c, known);
    ThroughSound(Begin(c), c, Start(c), Ids(c), pool, false, known);
    ThroughSound(PoolScan(c, pool), c, Start(c), Ids(c), extra, true, known);
  }
}
