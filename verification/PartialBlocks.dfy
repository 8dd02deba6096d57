/** The receiver of a compact block. */
module PartialBlocks {
  import opened CompactBlocks
  import opened CompactRelay
  import opened Basics

  /** The message for a block: its first transaction and the short ids of the others. */
  method HeaderAndShortIds(block: seq<Tx>, short: Hash -> ShortId, useWitness: bool) returns (c: CompactBlock)
    requires block != []
    ensures c == Sent(block, short, useWitness)
  {
    var shortIds := seq<ShortId>(|block| - 1, i => 0);
    for i := 1 to |block|
      invariant |shortIds| == |block| - 1
      invariant forall k :: 0 <= k < i - 1 ==> shortIds[k] == short(IdHash(block[1..][k], useWitness))
    {
      shortIds := shortIds[i - 1 := short(IdHash(block[i], useWitness))];
    }
    assert shortIds == ShortIds(block[1..], short, useWitness);
    c := CompactBlock(false, short, shortIds, [Prefilled(0, block[0])]);
  }

  /** What checking a rebuilt block says. */
  datatype Verdict = Good | Corrupted | Bad

  lemma FitsNext(c: CompactBlock, n: nat)
    requires n < |c.prefilled| && Fitting(c, n)
    ensures Last(c.prefilled[..n + 1]) == Last(c.prefilled[..n]) + c.prefilled[n].index + 1
    ensures FitsAt(c, n) ==> Fitting(c, n + 1)
    ensures !FitsAt(c, n) ==> !Fitting(c, |c.prefilled|)
  {
    LastGrows(c, n);
  }

  /** The transactions in the first n slots have been taken out. */
  ghost predicate MovedOut(was: Slots, now: Slots, n: nat) {
    |now| == |was| && forall k :: 0 <= k < |was| ==> now[k] == if k < n then None else was[k]
  }

  class PartiallyDownloadedBlock {
    var headerIsNull: bool
    var txnAvailable: Slots
    var prefilledCount: nat
    var mempoolCount: nat

    constructor ()
      ensures headerIsNull && txnAvailable == [] && prefilledCount == 0 && mempoolCount == 0
    {
      headerIsNull, txnAvailable, prefilledCount, mempoolCount := true, [], 0, 0;
    }

    /** Puts the prefilled transactions in place. */
    method PlacePrefilled(c: CompactBlock) returns (ok: bool)
      requires txnAvailable == seq(c.Count(), i => None)
      modifies this`txnAvailable
      ensures ok <==> Fitting(c, |c.prefilled|)
      ensures ok ==> txnAvailable == Start(c)
    {
      hide Fitting;
      hide Last;
      var last := -1;
      var i := 0;
      StartsEmpty(c);
      while i < |c.prefilled|
        invariant 0 <= i <= |c.prefilled| && Fitting(c, i)
        invariant last == Last(c.prefilled[..i])
        invariant txnAvailable == Placed(c, i)
      {
        FitsNext(c, i);
        if c.prefilled[i].tx.isNull {
          return false;
        }
        last := last + c.prefilled[i].index + 1;
        if MAX_UINT16 < last {
          return false;
        }
        if |c.shortIds| + i < last {
          return false;
        }
        PositionFits(c, i + 1);
        txnAvailable := txnAvailable[last := Some(c.prefilled[i].tx)];
        i := i + 1;
      }
      assert c.prefilled[..i] == c.prefilled;
      return true;
    }

    /** Maps each short id to its slot, the next that is free. */
    method MapShortIds(c: CompactBlock, crowded: set<nat>) returns (ok: bool, m: map<ShortId, nat>)
      requires Fitting(c, |c.prefilled|) && txnAvailable == Start(c)
      requires c.shortIds != [] ==> |c.prefilled| != 0x1_0000
      ensures !ok <==> exists i :: 0 <= i < |c.shortIds| && i in crowded
      ensures ok ==> m == Ids(c)
    {
      hide Start;
      hide Fitting;
      hide Uint16;
      hide FreeBefore;
      ghost var a := txnAvailable;
      FreeNone(a);
      if c.shortIds != [] {
        SearchHasNoEnd(c);
      }
      m := map[];
      var offset := 0;
      var i := 0;
      while i < |c.shortIds|
        invariant 0 <= i <= |c.shortIds| && 0 <= offset && i + offset <= |a|
        invariant FreeBefore(a, i + offset) == i
        invariant m == IdMap(a, c.shortIds, i)
        invariant forall k :: 0 <= k < i ==> k !in crowded
      {
        assert i + offset != |a|;
        while txnAvailable[i + offset].Some?
          invariant 0 <= offset && i + offset < |a|
          invariant FreeBefore(a, i + offset) == i
          decreases |a| - offset
        {
          FreeNext(a, i + offset);
          FilledGrows(a, i + offset + 1, |a|);
          offset := Uint16(offset + 1);
        }
        FreeNext(a, i + offset);
        SlotUnique(a, i, i + offset, Slot(a, i));
        m := m[c.shortIds[i] := Uint16(i + offset)];
        if i in crowded {
          return false, m;
        }
        i := i + 1;
      }
      return true, m;
    }

    ghost function State(have: seq<bool>): Scan
      reads this
    {
      Scan(txnAvailable, have, mempoolCount)
    }

    /** Looks through the receiver's transactions for those of the block. */
    method LookThrough(c: CompactBlock, m: map<ShortId, nat>, ts: seq<Tx>, spare: bool, have0: seq<bool>)
      returns (have: seq<bool>)
      requires Tallied(State(have0)) && forall x :: x in m ==> m[x] < |have0|
      modifies this`txnAvailable, this`mempoolCount
      ensures State(have) == old(Through(State(have0), c, m, ts, spare)) && Tallied(State(have))
    {
      hide Haves;
      hide Through;
      have := have0;
      ghost var goal := Through(State(have), c, m, ts, spare);
      var i := 0;
      assert ts[0..] == ts;
      while i < |ts|
        invariant 0 <= i <= |ts| && Tallied(State(have)) && |have| == |have0|
        invariant Through(State(have), c, m, ts[i..], spare) == goal
      {
        ghost var s := State(have);
        var t := ts[i];
        LookedTallied(s, c, m, t, spare);
        ThroughNext(s, c, m, ts[i..], spare);
        var x := c.short(t.witnessHash);
        if x in m {
          var k := m[x];
          if !have[k] {
            txnAvailable := txnAvailable[k := Some(t)];
            have := have[k := true];
            mempoolCount := mempoolCount + 1;
          } else if txnAvailable[k].Some? && (spare ==> txnAvailable[k].value.witnessHash != t.witnessHash) {
            OfferedTallied(s, k, t, spare);
            txnAvailable := txnAvailable[k := None];
            mempoolCount := mempoolCount - 1;
          }
        }
        assert State(have) == Looked(s, c, m, t, spare);
        assert ts[i..][1..] == ts[i + 1..];
        if mempoolCount == |m| {
          return;
        }
        i := i + 1;
      }
      ThroughNone(State(have), c, m, ts[i..], spare);
    }

    /**
     * Takes the message in and looks for its transactions. The ids whose bucket of the map got too long are
     * given as crowded. With 65536 transactions prefilled the search for a slot would not end.
     */
    method InitData(c: CompactBlock, pool: seq<Tx>, extra: seq<Tx>, limit: nat, crowded: set<nat>)
      returns (status: Status)
      requires headerIsNull && txnAvailable == [] && mempoolCount == 0
      requires c.Count() <= limit && Fitting(c, |c.prefilled|) && c.shortIds != [] ==> |c.prefilled| != 0x1_0000
      modifies this
      ensures status == Reception(c, limit, exists i :: 0 <= i < |c.shortIds| && i in crowded)
      ensures status == Accepted ==> Ready(c) && !headerIsNull && prefilledCount == |c.prefilled|
      ensures status == Accepted ==>
                txnAvailable == FullScan(c, pool, extra).available && mempoolCount == FullScan(c, pool, extra).count
    {
      hide Tallied;
      hide Through;
      hide Fitting;
      hide Start;
      hide Ids;
      if c.headerIsNull || (c.shortIds == [] && c.prefilled == []) {
        return Invalid;
      }
      if limit < c.Count() {
        return Invalid;
      }
      headerIsNull := c.headerIsNull;
      txnAvailable := seq(c.Count(), i => None);
      var ok := PlacePrefilled(c);
      if !ok {
        return Invalid;
      }
      prefilledCount := |c.prefilled|;
      var m;
      ok, m := MapShortIds(c, crowded);
      if !ok {
        return Failed;
      }
      Repeats(c);
      if |m| != |c.shortIds| {
        return Failed;
      }
      var have := seq(|txnAvailable|, i => false);
      MapsInRange(c);
      BeginTallied(c);
      have := LookThrough(c, m, pool, false, have);
      have := LookThrough(c, m, extra, true, have);
      return Accepted;
    }

    /** Rebuilds the block with the transactions that were still missing; what checking it would say is given. */
    method FillBlock(missing: seq<Tx>, verdict: Verdict) returns (status: Status, block: seq<Tx>)
      requires !headerIsNull
      modifies this`headerIsNull, this`txnAvailable
      ensures |missing| < Free(old(txnAvailable)) ==>
                && status == Invalid && !headerIsNull
                && MovedOut(old(txnAvailable), txnAvailable, Slot(old(txnAvailable), |missing|))
      ensures Free(old(txnAvailable)) <= |missing| ==> headerIsNull && txnAvailable == []
      ensures Free(old(txnAvailable)) < |missing| ==> status == Invalid
      ensures |missing| == Free(old(txnAvailable)) ==>
                && Filled(old(txnAvailable), missing) == Some(block)
                && status == match verdict {
                     case Good => Accepted
                     case Corrupted => Failed
                     case Bad => CheckBlockFailed
                   }
    {
      ghost var a := txnAvailable;
      block := [];
      var offset := 0;
      var i := 0;
      while i < |txnAvailable|
        invariant 0 <= i <= |a| && !headerIsNull && MovedOut(a, txnAvailable, i)
        invariant offset == FreeBefore(a, i) <= |missing|
        invariant block == FilledTo(a, missing, i)
      {
        FreeGrows(a, i, |a|);
        if txnAvailable[i].None? {
          if |missing| <= offset {
            SlotUnique(a, offset, i, Slot(a, offset));
            return Invalid, block;
          }
          block := block + [missing[offset]];
          offset := offset + 1;
        } else {
          block := block + [txnAvailable[i].value];
          txnAvailable := txnAvailable[i := None];
        }
        i := i + 1;
      }
      headerIsNull := true;
      txnAvailable := [];
      if |missing| != offset {
        return Invalid, block;
      }
      match verdict {
        case Corrupted => return Failed, block;
        case Bad => return CheckBlockFailed, block;
        case Good => return Accepted, block;
      }
    }
  }

  /** The map of short ids is as large as their list exactly if there are no repeats. */
  lemma Repeats(c: CompactBlock)
    requires Fitting(c, |c.prefilled|)
    ensures |Ids(c)| == |c.shortIds| <==> NoRepeats(c.shortIds)
  {
    IdMapKeys(Start(c), c.shortIds, |c.shortIds|);
    assert c.shortIds[..|c.shortIds|] == c.shortIds;
  }

  /** Sends a block, receives it, asks for the transactions not found, and rebuilds it. */
  method Relay(block: seq<Tx>, short: Hash -> ShortId, pool: seq<Tx>, extra: seq<Tx>, limit: nat)
    returns (rebuilt: seq<Tx>)
    requires block != [] && !block[0].isNull && |block| <= limit && |block| <= 0x1_0000
    requires NoRepeats(block) && CollisionFree(short, Known(block, pool, extra))
    ensures rebuilt == block
  {
    hide Reception;
    hide NoRepeats;
    hide CollisionFree;
    hide FullScan;
    hide Filled;
    var c := HeaderAndShortIds(block, short, true);
    RelayRoundTrip(block, short, pool, extra, limit);
    var p := new PartiallyDownloadedBlock();
    var status := p.InitData(c, pool, extra, limit, {});
    var missing := Ask(p.txnAvailable, block);
    status, rebuilt := p.FillBlock(missing, Good);
  }

  /** The transactions of the block whose slots are empty, in order. */
  method Ask(a: Slots, block: seq<Tx>) returns (missing: seq<Tx>)
    requires |a| == |block|
    ensures missing == Missing(a, block)
  {
    missing := [];
    for i := 0 to |a|
      invariant missing == MissingTo(a, block, i)
    {
      if a[i].None? {
        missing := missing + [block[i]];
      }
    }
  }

  lemma FreeNone(a: Slots)
    ensures FreeBefore(a, 0) == 0
  {
  }

  lemma FreeNext(a: Slots, k: nat)
    requires k < |a|
    ensures FreeBefore(a, k + 1) == FreeBefore(a, k) + if a[k].None? then 1 else 0
  {
  }

  lemma StartsEmpty(c: CompactBlock)
    ensures Fitting(c, 0) && Last(c.prefilled[..0]) == -1
  {
  }
}
