/** A block sent as a compact block comes back as it was. */
module CompactRelay {
  import opened CompactBlocks
  import opened Basics

  // ----- The sender -----

  /** Only the first transaction is prefilled; the short ids are those of the others. */
  function Sent(block: seq<Tx>, short: Hash -> ShortId, useWitness: bool): CompactBlock
    requires block != []
  {
    CompactBlock(false, short, ShortIds(block[1..], short, useWitness), [Prefilled(0, block[0])])
  }

  function ShortIds(txs: seq<Tx>, short: Hash -> ShortId, useWitness: bool): (ids: seq<ShortId>)
    ensures |ids| == |txs| && forall i :: 0 <= i < |ids| ==> ids[i] == short(IdHash(txs[i], useWitness))
  {
    if txs == [] then [] else [short(IdHash(txs[0], useWitness))] + ShortIds(txs[1..], short, useWitness)
  }

  function IdHash(t: Tx, useWitness: bool): Hash {
    if useWitness then t.witnessHash else t.hash
  }

  /** The message tells of the block: prefilled transactions are its own, the others are named by their short ids. */
  ghost predicate Encodes(c: CompactBlock, block: seq<Tx>) {
    && Fitting(c, |c.prefilled|) && |block| == c.Count()
    && (forall k :: 0 <= k < |block| && Start(c)[k].Some? ==> Start(c)[k].value == block[k])
    && (forall k :: 0 <= k < |block| && Start(c)[k].None? ==> IdOf(c, Start(c), k, c.short(block[k].witnessHash)))
  }

  lemma SentEncodes(block: seq<Tx>, short: Hash -> ShortId)
    requires block != [] && !block[0].isNull
    ensures Encodes(Sent(block, short, true), block)
  {
    var c := Sent(block, short, true);
    assert c.prefilled[..1] == c.prefilled;
    assert Last(c.prefilled) == 0 by {
      assert c.prefilled[..0] == [];
    }
    assert FitsAt(c, 0);
    var a := Start(c);
    assert a == Placed(c, 0)[0 := Some(block[0])];
    forall k | 0 < k < |block|
      ensures IdOf(c, a, k, short(block[k].witnessHash))
    {
      FreeAfterFirst(a, k);
      var i := k - 1;
      assert c.shortIds[i] == short(IdHash(block[i + 1], true));
    }
  }

  lemma {:induction false} FreeAfterFirst(a: Slots, k: nat)
    requires 0 < k <= |a| && a[0].Some? && forall j :: 0 < j < |a| ==> a[j].None?
    ensures FreeBefore(a, k) == k - 1
  {
    if k != 1 {
      FreeAfterFirst(a, k - 1);
    }
  }

  // ----- The slots -----

  /** Different transactions have different short ids. */
  ghost predicate CollisionFree(short: Hash -> ShortId, txs: set<Tx>) {
    forall t, u :: t in txs && u in txs && short(t.witnessHash) == short(u.witnessHash) ==> t == u
  }

  /** Every filled slot holds the block's transaction. */
  ghost predicate Agrees(a: Slots, block: seq<Tx>) {
    |a| == |block| && forall k :: 0 <= k < |a| && a[k].Some? ==> a[k].value == block[k]
  }

  ghost function Known(block: seq<Tx>, pool: seq<Tx>, extra: seq<Tx>): set<Tx> {
    Elements(block) + (Elements(pool) + Elements(extra))
  }

  lemma SoundAgrees(s: Scan, c: CompactBlock, block: seq<Tx>, known: set<Tx>)
    requires Encodes(c, block) && Sound(s, c, Start(c), known)
    requires CollisionFree(c.short, Elements(block) + known)
    ensures Agrees(s.available, block)
  {
    hide Start;
    hide FreeBefore;
    hide Free;
    forall k | 0 <= k < |block| && s.available[k].Some?
      ensures s.available[k].value == block[k]
    {
      if Start(c)[k].None? {
        assert IdOf(c, Start(c), k, c.short(block[k].witnessHash));
        assert block[k] in Elements(block);
      }
    }
  }

  /** Whatever duplicates and early exits there were, no slot holds a foreign transaction. */
  lemma FilledSlotsAgree(c: CompactBlock, block: seq<Tx>, pool: seq<Tx>, extra: seq<Tx>)
    requires Ready(c) && Small(c) && Encodes(c, block) && CollisionFree(c.short, Known(block, pool, extra))
    ensures Agrees(FullScan(c, pool, extra).available, block)
  {
    hide Start;
    hide Sound;
    hide FullScan;
    hide Encodes;
    hide Ready;
    hide Small;
    hide CollisionFree;
    ScanSound(c, pool, extra);
    SoundAgrees(FullScan(c, pool, extra), c, block, Elements(pool) + Elements(extra));
  }

  // ----- Nothing is missed -----

  /** Slots of the receiver's transactions seen so far are filled. */
  ghost predicate Caught(s: Scan, a: Slots, block: seq<Tx>, seen: set<Tx>) {
    && |s.available| == |s.have| == |a| == |block|
    && forall k :: 0 <= k < |a| && a[k].None? ==>
         (s.have[k] ==> s.available[k].Some? && block[k] in seen) && (block[k] in seen ==> s.have[k])
  }

  ghost predicate AllFilled(a: Slots) {
    forall k :: 0 <= k < |a| ==> a[k].Some?
  }

  /** The short ids of the block lead to its transactions' slots. */
  ghost predicate Reached(c: CompactBlock, block: seq<Tx>, m: map<ShortId, nat>)
    requires Encodes(c, block)
  {
    forall k :: 0 <= k < |block| && Start(c)[k].None? ==>
      c.short(block[k].witnessHash) in m && m[c.short(block[k].witnessHash)] == k
  }

  lemma IdsReach(c: CompactBlock, block: seq<Tx>)
    requires Ready(c) && Small(c) && Encodes(c, block)
    ensures Reached(c, block, Ids(c))
  {
    hide Start;
    hide Ids;
    hide Uint16;
    IdsLead(c);
    var a := Start(c);
    forall k | 0 <= k < |block| && a[k].None?
      ensures c.short(block[k].witnessHash) in Ids(c) && Ids(c)[c.short(block[k].witnessHash)] == k
    {
      assert IdOf(c, a, k, c.short(block[k].witnessHash));
      var i := FreeBefore(a, k);
      SlotUnique(a, i, k, Slot(a, i));
    }
  }

  /** A transaction of the pool is seen once; a spare one may be seen again. */
  lemma LookedCaught(
    s: Scan, c: CompactBlock, block: seq<Tx>, m: map<ShortId, nat>, t: Tx, spare: bool, known: set<Tx>,
    seen: set<Tx>)
    requires Encodes(c, block) && Leads(c, Start(c), m)
    requires Reached(c, block, m)
    requires Sound(s, c, Start(c), known) && Caught(s, Start(c), block, seen) && t in known && (spare || t !in seen)
    requires CollisionFree(c.short, Elements(block) + known)
    ensures |s.available| == |s.have| && forall x :: x in m ==> m[x] < |s.available|
    ensures Caught(Looked(s, c, m, t, spare), Start(c), block, seen + {t})
  {
    var a := Start(c);
    SoundSizes(s, c, a, m, known);
    SoundAgrees(s, c, block, known);
    hide Start;
    hide Sound;
    hide Free;
    var x := c.short(t.witnessHash);
    var r := Looked(s, c, m, t, spare);
    forall k | 0 <= k < |a| && a[k].None?
      ensures (r.have[k] ==> r.available[k].Some? && block[k] in seen + {t}) && (block[k] in seen + {t} ==> r.have[k])
    {
      OneSlot(s, c, block, m, t, spare, known, seen, k);
    }
  }

  lemma OneSlot(
    s: Scan, c: CompactBlock, block: seq<Tx>, m: map<ShortId, nat>, t: Tx, spare: bool, known: set<Tx>,
    seen: set<Tx>, k: nat)
    requires Encodes(c, block) && Leads(c, Start(c), m)
    requires k < |block| && Start(c)[k].None? && Reached(c, block, m)
    requires Caught(s, Start(c), block, seen) && Agrees(s.available, block) && t in known && (spare || t !in seen)
    requires CollisionFree(c.short, Elements(block) + known)
    requires |s.available| == |s.have| && forall x :: x in m ==> m[x] < |s.available|
    ensures
      var r := Looked(s, c, m, t, spare);
      (r.have[k] ==> r.available[k].Some? && block[k] in seen + {t}) && (block[k] in seen + {t} ==> r.have[k])
  {
    hide Start;
    hide Free;
    var a := Start(c);
    var x, y := c.short(t.witnessHash), c.short(block[k].witnessHash);
    assert block[k] in Elements(block);
    assert m[y] == k;
    SameId(c, a, m, x, k, block);
  }

  /** An id leads to slot k exactly if it is that slot's id, when ids differ. */
  lemma SameId(c: CompactBlock, a: Slots, m: map<ShortId, nat>, x: ShortId, k: nat, block: seq<Tx>)
    requires Leads(c, a, m) && k < |a| == |block| && a[k].None? && IdOf(c, a, k, c.short(block[k].witnessHash))
    ensures x in m && m[x] == k ==> x == c.short(block[k].witnessHash)
  {
    if x in m && m[x] == k {
      assert IdOf(c, a, m[x], x);
    }
  }

  /** Looking through a list catches all of it, unless every slot is filled before. */
  lemma {:induction false} ThroughCaught(
    s: Scan, c: CompactBlock, block: seq<Tx>, ts: seq<Tx>, spare: bool, known: set<Tx>, seen: set<Tx>)
    requires Ready(c) && Small(c) && Encodes(c, block) && CollisionFree(c.short, Elements(block) + known)
    requires Sound(s, c, Start(c), known) && Caught(s, Start(c), block, seen)
    requires forall t :: t in ts ==> t in known && (spare || t !in seen)
    requires spare || NoRepeats(ts)
    ensures |s.available| == |s.have| && forall x :: x in Ids(c) ==> Ids(c)[x] < |s.available|
    ensures
      var r := Through(s, c, Ids(c), ts, spare);
      AllFilled(r.available) || Caught(r, Start(c), block, seen + Elements(ts))
    decreases |ts|
  {
    hide Sound;
    hide Start;
    hide Ids;
    hide Caught;
    hide Encodes;
    hide Ready;
    hide Small;
    hide CollisionFree;
    hide Looked;
    hide AllFilled;
    hide Leads;
    ReadyLeads(c, block);
    var m := Ids(c);
    SoundSizes(s, c, Start(c), m, known);
    if ts == [] {
      assert seen + Elements(ts) == seen;
    } else {
      var t := ts[0];
      assert t in ts;
      LookedSound(s, c, Start(c), m, t, spare, known);
      LookedCaught(s, c, block, m, t, spare, known, seen);
      var next := Looked(s, c, m, t, spare);
      if next.count == |m| {
        Full(next, c, known);
      } else {
        RestIsNew(ts, spare, known, seen);
        ThroughCaught(next, c, block, ts[1..], spare, known, seen + {t});
        assert seen + {t} + Elements(ts[1..]) == seen + Elements(ts);
      }
    }
  }

  lemma RestIsNew(ts: seq<Tx>, spare: bool, known: set<Tx>, seen: set<Tx>)
    requires ts != [] && (spare || NoRepeats(ts))
    requires forall t :: t in ts ==> t in known && (spare || t !in seen)
    ensures forall t :: t in ts[1..] ==> t in known && (spare || t !in seen + {ts[0]})
    ensures spare || NoRepeats(ts[1..])
  {
  }

  lemma ReadyLeads(c: CompactBlock, block: seq<Tx>)
    requires Ready(c) && Small(c) && Encodes(c, block)
    ensures Fitting(c, |c.prefilled|) && Leads(c, Start(c), Ids(c))
    ensures Reached(c, block, Ids(c)) && |Ids(c)| == |c.shortIds|
  {
    IdsLead(c);
    IdsReach(c, block);
  }

  lemma Full(s: Scan, c: CompactBlock, known: set<Tx>)
    requires Ready(c) && Small(c) && Sound(s, c, Start(c), known) && s.count == |Ids(c)|
    ensures AllFilled(s.available)
  {
    IdsLead(c);
    hide Start;
    CountInRange(s, c, Start(c), known);
  }

  lemma FilledIsCaught(s: Scan, c: CompactBlock, block: seq<Tx>, known: set<Tx>)
    requires Encodes(c, block) && Sound(s, c, Start(c), known) && AllFilled(s.available)
    ensures Caught(s, Start(c), block, Elements(block))
  {
    hide Start;
    forall k | 0 <= k < |block|
      ensures block[k] in Elements(block)
    {
    }
  }

  /** A slot of the receiver's own transactions is filled. */
  ghost predicate CaughtAll(a: Slots, free: Slots, block: seq<Tx>, txs: set<Tx>) {
    |a| == |free| == |block| && forall k :: 0 <= k < |a| && free[k].None? && block[k] in txs ==> a[k].Some?
  }

  lemma CaughtMeans(s: Scan, a: Slots, block: seq<Tx>, seen: set<Tx>, txs: set<Tx>)
    requires |s.available| == |a| == |block|
    requires AllFilled(s.available) || (Caught(s, a, block, seen) && txs <= seen)
    ensures CaughtAll(s.available, a, block, txs)
  {
  }

  lemma ScanCatches(c: CompactBlock, block: seq<Tx>, pool: seq<Tx>, extra: seq<Tx>)
    requires Ready(c) && Small(c) && Encodes(c, block)
    requires CollisionFree(c.short, Known(block, pool, extra)) && NoRepeats(pool)
    ensures Fitting(c, |c.prefilled|)
    ensures CaughtAll(FullScan(c, pool, extra).available, Start(c), block, Elements(pool) + Elements(extra))
  {
    hide Start;
    hide Ids;
    hide Sound;
    hide Caught;
    hide Encodes;
    hide CollisionFree;
    hide AllFilled;
    hide Through;
    hide CaughtAll;
    var known := Elements(pool) + Elements(extra);
    ScanSound(c, pool, extra);
    BeginSound(c, known);
    BeginCaught(c, block);
    ThroughCaught(Begin(c), c, block, pool, false, known, {});
    var s := PoolScan(c, pool);
    var seen := if AllFilled(s.available) then Elements(block) else {} + Elements(pool);
    if AllFilled(s.available) {
      FilledIsCaught(s, c, block, known);
    }
    ThroughCaught(s, c, block, extra, true, known, seen);
    var r := FullScan(c, pool, extra);
    Sizes(c, block);
    if AllFilled(s.available) {
      OnlyBlock(r, c, block, pool, extra);
    } else {
      CaughtMeans(r, Start(c), block, seen + Elements(extra), known);
    }
  }

  lemma Sizes(c: CompactBlock, block: seq<Tx>)
    requires Encodes(c, block)
    ensures Fitting(c, |c.prefilled|) && |block| == c.Count()
  {
  }

  lemma BeginCaught(c: CompactBlock, block: seq<Tx>)
    requires Encodes(c, block)
    ensures Fitting(c, |c.prefilled|) && Caught(Begin(c), Start(c), block, {})
  {
    hide Start;
  }

  /** Once every slot was filled, each stays filled. */
  lemma OnlyBlock(r: Scan, c: CompactBlock, block: seq<Tx>, pool: seq<Tx>, extra: seq<Tx>)
    requires Encodes(c, block)
    requires |r.available| == |block|
    requires AllFilled(r.available) || Caught(r, Start(c), block, Elements(block) + Elements(extra))
    ensures CaughtAll(r.available, Start(c), block, Elements(pool) + Elements(extra))
  {
    hide Start;
    forall k | 0 <= k < |block| && Start(c)[k].None?
      ensures r.available[k].Some?
    {
      assert block[k] in Elements(block);
    }
  }

  /** A slot stays empty exactly if its transaction was neither prefilled nor known to the receiver. */
  lemma OnlyUnknownMissing(c: CompactBlock, block: seq<Tx>, pool: seq<Tx>, extra: seq<Tx>, k: nat)
    requires Ready(c) && Small(c) && Encodes(c, block)
    requires CollisionFree(c.short, Known(block, pool, extra)) && NoRepeats(pool)
    requires k < |block|
    ensures Fitting(c, |c.prefilled|)
    ensures FullScan(c, pool, extra).available[k].None? <==>
      Start(c)[k].None? && block[k] !in pool && block[k] !in extra
  {
    hide Start;
    hide FullScan;
    hide CollisionFree;
    ScanSound(c, pool, extra);
    FilledSlotsAgree(c, block, pool, extra);
    ScanCatches(c, block, pool, extra);
  }

  // ----- Filling in the missing transactions -----

  /** The block's transactions in the first n slots that are empty. */
  ghost function MissingTo(a: Slots, block: seq<Tx>, n: nat): (ms: seq<Tx>)
    requires n <= |a| == |block|
    ensures |ms| == FreeBefore(a, n)
  {
    if n == 0 then []
    else MissingTo(a, block, n - 1) + if a[n - 1].None? then [block[n - 1]] else []
  }

  ghost function Missing(a: Slots, block: seq<Tx>): (ms: seq<Tx>)
    requires |a| == |block|
    ensures |ms| == Free(a)
  {
    MissingTo(a, block, |a|)
  }

  /** The first n slots, the empty ones filled with missing transactions in order. */
  ghost function FilledTo(a: Slots, missing: seq<Tx>, n: nat): (block: seq<Tx>)
    requires n <= |a| && FreeBefore(a, n) <= |missing|
    ensures |block| == n
  {
    if n == 0 then []
    else FilledTo(a, missing, n - 1) + [if a[n - 1].Some? then a[n - 1].value else missing[FreeBefore(a, n - 1)]]
  }

  /** The rebuilt block; nothing if there are too few or too many transactions for the empty slots. */
  ghost function Filled(a: Slots, missing: seq<Tx>): Option<seq<Tx>> {
    if |missing| == Free(a) then Some(FilledTo(a, missing, |a|)) else None
  }

  lemma {:induction false} FilledWithMissing(a: Slots, block: seq<Tx>, missing: seq<Tx>, n: nat)
    requires Agrees(a, block) && n <= |a| && FreeBefore(a, n) <= |missing|
    ensures FilledTo(a, missing, n) == block[..n] <==> MissingTo(a, block, n) == missing[..FreeBefore(a, n)]
  {
    if n != 0 {
      FilledWithMissing(a, block, missing, n - 1);
      var f := FreeBefore(a, n - 1);
      assert block[..n] == block[..n - 1] + [block[n - 1]];
      if a[n - 1].None? {
        assert missing[..f + 1] == missing[..f] + [missing[f]];
        LastOf(FilledTo(a, missing, n - 1), missing[f], block[..n - 1], block[n - 1]);
        LastOf(MissingTo(a, block, n - 1), block[n - 1], missing[..f], missing[f]);
      } else {
        LastOf(FilledTo(a, missing, n - 1), block[n - 1], block[..n - 1], block[n - 1]);
        assert MissingTo(a, block, n) == MissingTo(a, block, n - 1);
      }
    }
  }

  lemma LastOf<T>(s: seq<T>, x: T, t: seq<T>, y: T)
    requires |s| == |t|
    ensures s + [x] == t + [y] <==> s == t && x == y
  {
    if s + [x] == t + [y] {
      assert (s + [x])[..|s|] == s && (t + [y])[..|t|] == t;
      assert (s + [x])[|s|] == x && (t + [y])[|t|] == y;
    }
  }

  /** The block comes out exactly if the transactions given are those missing, in order. */
  lemma Rebuilt(a: Slots, block: seq<Tx>, missing: seq<Tx>)
    requires Agrees(a, block)
    ensures Filled(a, missing) == Some(block) <==> missing == Missing(a, block)
  {
    if |missing| == Free(a) {
      FilledWithMissing(a, block, missing, |a|);
      assert block[..|a|] == block && missing[..|missing|] == missing;
    }
  }

  /** Accepting depends on what the message says, for a message that tells of a block. */
  lemma HonestAccepted(c: CompactBlock, block: seq<Tx>, limit: nat)
    requires Encodes(c, block) && !c.headerIsNull && block != [] && |block| <= limit
    requires NoRepeats(block) && CollisionFree(c.short, Elements(block))
    ensures Reception(c, limit, false) == Accepted
  {
    hide Start;
    hide Fitting;
    forall i, j | 0 <= i < j < |c.shortIds|
      ensures c.shortIds[i] != c.shortIds[j]
    {
      SlotsDiffer(c, block, i, j);
    }
  }

  lemma SlotsDiffer(c: CompactBlock, block: seq<Tx>, i: nat, j: nat)
    requires Encodes(c, block) && NoRepeats(block) && CollisionFree(c.short, Elements(block))
    requires i < j < |c.shortIds|
    ensures c.shortIds[i] != c.shortIds[j]
  {
    hide Start;
    var a := Start(c);
    var k, l := Slot(a, i), Slot(a, j);
    assert IdOf(c, a, k, c.short(block[k].witnessHash)) && IdOf(c, a, l, c.short(block[l].witnessHash));
    assert block[k] in Elements(block) && block[l] in Elements(block);
    assert k != l;
    assert block[k] != block[l] by {
      assert k < l || l < k;
    }
  }

  /**
   * A block that is sent, received with any pool and spare transactions, and completed with what was still
   * missing, is the block that was sent.
   */
  lemma RelayRoundTrip(block: seq<Tx>, short: Hash -> ShortId, pool: seq<Tx>, extra: seq<Tx>, limit: nat)
    requires block != [] && !block[0].isNull && |block| <= limit && |block| <= 0x1_0000
    requires NoRepeats(block) && CollisionFree(short, Known(block, pool, extra))
    ensures var c := Sent(block, short, true);
            && Reception(c, limit, false) == Accepted && Ready(c) && Small(c)
            && |FullScan(c, pool, extra).available| == |block|
            && Filled(FullScan(c, pool, extra).available,
                      Missing(FullScan(c, pool, extra).available, block)) == Some(block)
  {
    hide Encodes;
    hide FullScan;
    hide CollisionFree;
    hide NoRepeats;
    hide Fitting;
    var c := Sent(block, short, true);
    SentEncodes(block, short);
    FewerCollisions(short, Elements(block), Known(block, pool, extra));
    HonestAccepted(c, block, limit);
    Sizes(c, block);
    FilledSlotsAgree(c, block, pool, extra);
    var a := FullScan(c, pool, extra).available;
    Rebuilt(a, block, Missing(a, block));
  }

  lemma FewerCollisions(short: Hash -> ShortId, some: set<Tx>, more: set<Tx>)
    requires CollisionFree(short, more) && some <= more
    ensures CollisionFree(short, some)
  {
  }

  // ----- Beyond sixteen bits -----

  /**
   * In a larger block the last transaction, if the receiver has it, goes to a slot that is not its own, prefilled
   * or not.
   */
  lemma LastGoesAstray(c: CompactBlock, block: seq<Tx>)
    requires Ready(c) && Encodes(c, block) && !Small(c)
    ensures
      var last, k := |block| - 1, Uint16(|block| - 1);
      k != last && FullScan(c, [block[last]], []).available[k] == Some(block[last])
  {
    hide Start;
    hide Ids;
    hide Uint16;
    var last, k := |block| - 1, Uint16(|block| - 1);
    var t := block[last];
    LastSlot(c);
    IdsLead(c);
    MapsInRange(c);
    var i := |c.shortIds| - 1;
    assert IsSlot(Start(c), i, last);
    assert IdOf(c, Start(c), last, c.short(t.witnessHash));
    assert c.shortIds[i] == c.short(t.witnessHash);
    var s := Looked(Begin(c), c, Ids(c), t, false);
    assert s.available[k] == Some(t);
    OnlyOne(c, t);
  }

  lemma OnlyOne(c: CompactBlock, t: Tx)
    requires Ready(c)
    ensures forall x :: x in Ids(c) ==> Ids(c)[x] < c.Count()
    ensures FullScan(c, [t], []) == Looked(Begin(c), c, Ids(c), t, false)
  {
    hide Start;
    hide Ids;
    hide Through;
    hide Looked;
    MapsInRange(c);
    var s := Looked(Begin(c), c, Ids(c), t, false);
    ThroughNext(Begin(c), c, Ids(c), [t], false);
    assert [t][1..] == [];
    ThroughNone(s, c, Ids(c), [], false);
    ThroughNone(s, c, Ids(c), [], true);
  }

  /** So slots agree with the block, whatever the receiver has, exactly if it has at most 65536 transactions. */
  lemma AgreesExactly(c: CompactBlock, block: seq<Tx>)
    requires Ready(c) && Encodes(c, block) && NoRepeats(block) && CollisionFree(c.short, Elements(block))
    ensures Small(c) <==>
      forall pool, extra :: CollisionFree(c.short, Known(block, pool, extra)) ==>
        Agrees(FullScan(c, pool, extra).available, block)
  {
    hide Start;
    hide FullScan;
    hide Encodes;
    hide Ready;
    hide CollisionFree;
    if Small(c) {
      forall pool, extra | CollisionFree(c.short, Known(block, pool, extra))
        ensures Agrees(FullScan(c, pool, extra).available, block)
      {
        FilledSlotsAgree(c, block, pool, extra);
      }
    } else {
      Sizes(c, block);
      LastGoesAstray(c, block);
      var pool := [block[|block| - 1]];
      assert Known(block, pool, []) == Elements(block);
      assert !Agrees(FullScan(c, pool, []).available, block);
    }
  }

  /** A block of 65537 different transactions, each with its number for its hashes. */
  function Large(): seq<Tx> {
    seq(0x1_0001, i requires 0 <= i => Tx(i, i, false))
  }

  function Same(h: Hash): ShortId {
    h
  }

  /** The receiver of this block who has its last transaction puts that in the place of the first, prefilled one. */
  lemma FirstOverwritten()
    ensures
      var c := Sent(Large(), Same, true);
      && Reception(c, 200_000, false) == Accepted && Ready(c)
      && Start(c)[0] == Some(Large()[0])
      && FullScan(c, [Large()[0x1_0000]], []).available[0] == Some(Large()[0x1_0000]) != Some(Large()[0])
  {
    hide Large;
    hide Encodes;
    hide Fitting;
    hide NoRepeats;
    hide CollisionFree;
    hide Sent;
    hide Start;
    hide FullScan;
    hide Same;
    var block := Large();
    var c := Sent(block, Same, true);
    LargeFacts();
    SentEncodes(block, Same);
    SentFirst(block, Same);
    HonestAccepted(c, block, 200_000);
    Sizes(c, block);
    LastGoesAstray(c, block);
  }

  lemma LargeFacts()
    ensures |Large()| == 0x1_0001 && !Large()[0].isNull && Large()[0x1_0000] != Large()[0]
    ensures NoRepeats(Large()) && CollisionFree(Same, Elements(Large()))
  {
  }

  lemma SentFirst(block: seq<Tx>, short: Hash -> ShortId)
    requires block != [] && !block[0].isNull
    ensures
      var c := Sent(block, short, true);
      !c.headerIsNull && c.short == short && Fitting(c, |c.prefilled|) && Start(c)[0] == Some(block[0])
  {
    var c := Sent(block, short, true);
    SentEncodes(block, short);
    hide Encodes;
    assert c.prefilled[..1] == c.prefilled;
    assert Last(c.prefilled) == 0 by {
      assert c.prefilled[..0] == [];
    }
    assert Start(c) == Placed(c, 0)[0 := Some(block[0])];
  }
}
