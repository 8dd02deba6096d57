/** The block assembler, changing its block in place. */
module Miner {
  import opened TxPool
  import opened BlockAssembly
  import opened BlockRanking
  import opened BlockAccount
  import opened BlockSteps

  const MAX_CONSECUTIVE_FAILURES := 1000

  /** How the selection ends: nothing is left to look at, too many did not fit a block that is nearly full, or the
      best package left pays less than the minimum. */
  datatype Ending = Exhausted | GaveUp | Underpaid

  /** Nothing is taken yet: nothing needs to be cached. */
  lemma NothingTaken(p: Pool, inBlock: set<TxId>)
    requires p.Costed() && p.Acyclic()
    ensures Tracks(p, map[], {}, inBlock, {})
  {
    forall t | t in p.ancestors && t !in inBlock ensures Tracked(p, map[], {}, {}, t) {
      assert p.ancestors[t] * {} == {};
    }
  }

  /** The descendants to update are those outside the set added, which are those outside the block. */
  lemma OutsideAdded(p: Pool, inBlock: set<TxId>, added: set<TxId>, it: TxId)
    requires forall t :: t in inBlock - added ==> t in p.ancestors && p.ancestors[t] <= inBlock - added
    requires it in added && added <= inBlock
    ensures p.Descendants(it) - added == p.Descendants(it) - inBlock
  {
  }

  lemma SpreadOne(p: Pool, m: Cache, it: TxId, done: set<TxId>, d: TxId)
    requires p.Costed() && it in p.ancestors && done + {d} <= p.ancestors.Keys && d !in done
    ensures var r := Spread(p, m, it, done); Spread(p, m, it, done + {d}) == r[d := Reduced(p, r, it, d)]
  {
  }

  lemma SpreadNone(p: Pool, m: Cache, it: TxId)
    requires p.Costed() && it in p.ancestors
    ensures Spread(p, m, it, {}) == m
    ensures p.Descendants(it) <= p.ancestors.Keys
  {
  }

  /** One more descendant is updated, or not if it was added itself. */
  lemma DoneOneMore(all: set<TxId>, todo: set<TxId>, added: set<TxId>, d: TxId)
    requires todo <= all && d in todo
    ensures all - (todo - {d}) - added == if d in added then all - todo - added else all - todo - added + {d}
    ensures d !in all - todo - added
  {
  }

  class BlockAssembler {
    const pool: Pool
    const nBlockMaxWeight: int
    const blockMinFeeRate: int
    /** The transactions that pass the checks made one by one: final, and without premature witness. */
    const allowed: set<TxId>

    var vtx: seq<TxId>
    var vTxFees: seq<int>
    var vTxSigOpsCost: seq<int>
    var inBlock: set<TxId>
    var nBlockWeight: int
    var nBlockSigOpsCost: int
    var nBlockTx: int
    var nFees: int

    ghost function State(): Block
      reads this
    {
      Block(vtx, inBlock, nBlockWeight, nBlockSigOpsCost, nBlockTx, nFees, vTxFees, vTxSigOpsCost)
    }

    ghost function Limits(): Rules {
      Rules(nBlockMaxWeight, allowed)
    }

    constructor (pool: Pool, maxWeight: int, minFeeRate: int, allowed: set<TxId>)
      ensures this.pool == pool && blockMinFeeRate == minFeeRate && this.allowed == allowed
      ensures RESERVED_WEIGHT <= nBlockMaxWeight <= MAX_BLOCK_WEIGHT - 4000
      ensures RESERVED_WEIGHT <= maxWeight <= MAX_BLOCK_WEIGHT - 4000 ==> nBlockMaxWeight == maxWeight
      ensures State() == EMPTY
    {
      this.pool, blockMinFeeRate, this.allowed := pool, minFeeRate, allowed;
      var atMost := if maxWeight < MAX_BLOCK_WEIGHT - 4000 then maxWeight else MAX_BLOCK_WEIGHT - 4000;
      nBlockMaxWeight := if 4000 < atMost then atMost else 4000;
      vtx, vTxFees, vTxSigOpsCost, inBlock := [], [], [], {};
      nBlockWeight, nBlockSigOpsCost, nBlockTx, nFees := 4000, 400, 0, 0;
    }

    method ResetBlock()
      modifies this
      ensures State() == EMPTY
    {
      vtx, vTxFees, vTxSigOpsCost, inBlock := [], [], [], {};
      nBlockWeight, nBlockSigOpsCost, nBlockTx, nFees := 4000, 400, 0, 0;
    }

    method OnlyUnconfirmed(testSet: set<TxId>) returns (r: set<TxId>)
      ensures r == testSet - inBlock
    {
      r := testSet;
      var todo := testSet;
      while todo != {}
        invariant todo <= testSet
        invariant r == todo + (testSet - inBlock)
      {
        var it :| it in todo;
        if it in inBlock {
          r := r - {it};
        }
        todo := todo - {it};
      }
    }

    method TestPackage(packageSize: int, packageSigOpsCost: int) returns (ok: bool)
      ensures ok <==> Fits(Limits(), State(), packageSize, packageSigOpsCost)
    {
      if nBlockWeight + WITNESS_SCALE_FACTOR * packageSize >= nBlockMaxWeight {
        return false;
      }
      if nBlockSigOpsCost + packageSigOpsCost >= MAX_BLOCK_SIGOPS_COST {
        return false;
      }
      return true;
    }

    method TestPackageTransactions(package: set<TxId>) returns (ok: bool)
      ensures ok <==> package <= allowed
    {
      var todo := package;
      while todo != {}
        invariant todo <= package && package - todo <= allowed
      {
        var it :| it in todo;
        if it !in allowed {
          return false;
        }
        todo := todo - {it};
      }
      return true;
    }

    method AddToBlock(t: TxId)
      requires pool.Costed() && t in pool.ancestors
      modifies this
      ensures State() == Added(pool, old(State()), t)
    {
      vtx := vtx + [t];
      vTxFees := vTxFees + [pool.fee[t]];
      vTxSigOpsCost := vTxSigOpsCost + [pool.sigops[t]];
      nBlockWeight := nBlockWeight + pool.weight[t];
      nBlockTx := nBlockTx + 1;
      nBlockSigOpsCost := nBlockSigOpsCost + pool.sigops[t];
      nFees := nFees + pool.fee[t];
      inBlock := inBlock + {t};
    }

    /** One descendant of one transaction that was added. */
    method UpdateDescendant(it: TxId, desc: TxId, cache: Cache) returns (r: Cache)
      requires pool.Costed() && it in pool.ancestors && desc in pool.ancestors
      ensures r == cache[desc := Reduced(pool, cache, it, desc)]
    {
      if desc !in cache {
        r := cache[desc := Less(pool, Whole(pool, desc), it, pool.modFee[it])];
      } else {
        r := cache[desc := Less(pool, cache[desc], it, pool.fee[it])];
      }
    }

    /** The descendants of one transaction that was added. */
    method UpdateDescendants(it: TxId, alreadyAdded: set<TxId>, cache: Cache) returns (r: Cache)
      requires pool.Costed() && it in pool.ancestors
      ensures r == Spread(pool, cache, it, pool.Descendants(it) - alreadyAdded)
    {
      hide pool.Costed;
      hide Reduced;
      hide Spread;
      hide pool.Descendants;
      SpreadNone(pool, cache, it);
      var descendants := pool.Descendants(it);
      var todo := descendants;
      ghost var done: set<TxId> := {};
      r := cache;
      while todo != {}
        invariant todo <= descendants && done == descendants - todo - alreadyAdded
        invariant r == Spread(pool, cache, it, done)
      {
        var desc :| desc in todo;
        DoneOneMore(descendants, todo, alreadyAdded, desc);
        todo := todo - {desc};
        if desc in alreadyAdded {
          continue;
        }
        SpreadOne(pool, cache, it, done, desc);
        r := UpdateDescendant(it, desc, r);
        done := done + {desc};
      }
      assert done == descendants - alreadyAdded;
    }

    method UpdatePackagesForAdded(alreadyAdded: set<TxId>, cache: Cache, ghost failed: set<TxId>)
      returns (r: Cache)
      requires pool.Valid() && alreadyAdded <= inBlock <= pool.ancestors.Keys
      requires forall t :: t in inBlock - alreadyAdded ==> pool.ancestors[t] <= inBlock - alreadyAdded
      requires Tracks(pool, cache, inBlock - alreadyAdded, inBlock, failed)
      ensures Tracks(pool, r, inBlock, inBlock, failed)
    {
      hide Tracks;
      hide Spread;
      hide pool.Acyclic;
      hide pool.Costed;
      hide pool.Totalled;
      hide pool.Descendants;
      r := cache;
      var todo := alreadyAdded;
      while todo != {}
        invariant todo <= alreadyAdded
        invariant Tracks(pool, r, inBlock - todo, inBlock, failed)
      {
        var it :| it in todo;
        OutsideAdded(pool, inBlock, alreadyAdded, it);
        SpreadTracks(pool, r, inBlock - todo, inBlock, failed, it);
        assert inBlock - todo + {it} == inBlock - (todo - {it});
        r := UpdateDescendants(it, alreadyAdded, r);
        todo := todo - {it};
      }
      assert inBlock - todo == inBlock;
    }

    /** The entry that comes first by number of ancestors. */
    method First(package: set<TxId>) returns (t: TxId)
      requires package != {} && package <= pool.ancestors.Keys
      ensures t in package && forall u :: u in package && u != t ==> Earlier(pool, t, u)
    {
      t :| t in package;
      var todo := package - {t};
      while todo != {}
        invariant t in package && todo <= package - {t}
        invariant forall u :: u in package - todo && u != t ==> Earlier(pool, t, u)
      {
        var u :| u in todo;
        todo := todo - {u};
        ghost var seen := package - todo;
        assert forall v :: v in seen && v != t && v != u ==> Earlier(pool, t, v);
        if !Earlier(pool, t, u) {
          assert Earlier(pool, u, t);
          assert forall v :: v in seen && v != u ==> v == t || Earlier(pool, t, v);
          t := u;
        }
      }
    }

    method SortForBlock(package: set<TxId>) returns (sortedEntries: seq<TxId>)
      requires package <= pool.ancestors.Keys
      ensures Sorted(pool, sortedEntries) && Elems(sortedEntries) == package
    {
      sortedEntries := [];
      var rest := package;
      while rest != {}
        invariant rest <= package && Sorted(pool, sortedEntries)
        invariant Elems(sortedEntries) == package - rest
        invariant forall i, u :: 0 <= i < |sortedEntries| && u in rest ==> Earlier(pool, sortedEntries[i], u)
      {
        var t := First(rest);
        ElemsAppend(sortedEntries, t);
        sortedEntries := sortedEntries + [t];
        rest := rest - {t};
      }
    }

    /** Adds a sorted package, and takes its entries out of the cache. */
    method AddAll(sortedEntries: seq<TxId>, cache: Cache) returns (r: Cache)
      requires pool.Costed() && forall i :: 0 <= i < |sortedEntries| ==> sortedEntries[i] in pool.ancestors
      modifies this
      ensures State() == AddedAll(pool, old(State()), sortedEntries, |sortedEntries|)
      ensures r == cache - Elems(sortedEntries)
    {
      hide pool.Costed;
      hide Added;
      r := cache;
      for i := 0 to |sortedEntries|
        invariant State() == AddedAll(pool, old(State()), sortedEntries, i)
        invariant r == cache - Elems(sortedEntries[..i])
      {
        AddToBlock(sortedEntries[i]);
        assert sortedEntries[..i + 1] == sortedEntries[..i] + [sortedEntries[i]];
        ElemsAppend(sortedEntries[..i], sortedEntries[i]);
        r := r - {sortedEntries[i]};
      }
      assert sortedEntries[..|sortedEntries|] == sortedEntries;
    }

    /** Adds what is missing of a transaction and its ancestors. */
    method AddPackage(t: TxId, package: set<TxId>, cache: Cache, ghost failed: set<TxId>) returns (r: Cache)
      requires pool.Valid() && BlockOk(pool, State()) && t in pool.ancestors
      requires Tracks(pool, cache, inBlock, inBlock, failed) && package == Missing(pool, inBlock, t)
      modifies this
      ensures BlockOk(pool, State()) && inBlock == old(inBlock) + package
      ensures Tracks(pool, r, inBlock, inBlock, failed) && Joined(pool, old(State()), t, State())
    {
      hide BlockOk;
      hide Tracks;
      hide AddedAll;
      hide pool.Acyclic;
      hide pool.Costed;
      hide pool.Totalled;
      hide Missing;
      hide Elems;
      hide Earlier;
      MissingKnown(pool, inBlock, t);
      var sortedEntries := SortForBlock(package);
      ghost var before := State();
      AddedAllOk(pool, before, t, sortedEntries, |sortedEntries|);
      assert sortedEntries[..|sortedEntries|] == sortedEntries;
      TakeTracks(pool, cache, inBlock, failed, package);
      r := AddAll(sortedEntries, cache);
      AddedAllAppends(pool, before, sortedEntries, |sortedEntries|);
      BlockKnown(pool, State());
      BlockClosed(pool, before);
      assert inBlock - package == before.inBlock;
      r := UpdatePackagesForAdded(package, r, failed);
    }

    /** The cached entry with the best score. */
    method BestCached(cache: Cache) returns (best: TxId)
      requires cache != map[] && forall u :: u in cache ==> 0 < cache[u].size
      ensures best in cache && forall u :: u in cache && u != best ==> Beats(cache[best], best, cache[u], u)
    {
      hide Beats;
      assert exists t :: t in cache;
      best :| best in cache;
      var todo := cache.Keys - {best};
      while todo != {}
        invariant best in cache && todo <= cache.Keys - {best}
        invariant forall u :: u in cache.Keys - todo && u != best ==> Beats(cache[best], best, cache[u], u)
      {
        var u :| u in todo;
        todo := todo - {u};
        if Beats(cache[u], u, cache[best], best) {
          forall v | v in cache.Keys - todo && v != best && v != u ensures Beats(cache[u], u, cache[v], v) {
            BeatsTransitive(cache[u], u, cache[best], best, cache[v], v);
          }
          best := u;
        } else {
          BeatsTotal(cache[best], best, cache[u], u);
        }
      }
    }

    /** The entry to look at: the best cached one or the next of the walk, whichever scores higher. */
    method Choose(order: seq<TxId>, cache: Cache, mi: nat, ghost s: Selection)
      returns (iter: TxId, usingModified: bool)
      requires pool.Costed() && Ranked(pool, order) && Sized(pool, s)
      requires s.cache == cache && s.next == mi <= |order| && (mi < |order| || cache != map[])
      requires !Skippable(order, s) && cache.Keys <= pool.ancestors.Keys - s.block.inBlock
      ensures iter in pool.ancestors && (usingModified <==> iter in cache)
      ensures !usingModified ==> mi < |order| && order[mi] == iter
      ensures Best(pool, order, s, iter)
    {
      hide Beats;
      hide Best;
      hide pool.Costed;
      CachedSized(pool, s);
      ghost var c := TxId(0);
      usingModified := false;
      if mi == |order| {
        iter := BestCached(cache);
        usingModified := true;
        c := iter;
      } else {
        iter := order[mi];
        if cache != map[] {
          var modit := BestCached(cache);
          c := modit;
          if Beats(cache[modit], modit, Whole(pool, iter), iter) {
            iter := modit;
            usingModified := true;
          }
        }
      }
      ChosenIsBest(pool, order, s, c, iter);
    }

    /** `addPackageTxs`. The results say how the loop ended, which entries failed on the way, which packages were
        taken, and who was turned down after the last one. */
    method AddPackageTxs(order: seq<TxId>)
      returns (ending: Ending, failed: set<TxId>, ghost taken: seq<Taken>, ghost away: set<TxId>)
      requires pool.Valid() && BlockOk(pool, State()) && Limited(Limits(), State())
      requires Elems(order) == pool.ancestors.Keys && Ranked(pool, order)
      modifies this
      ensures BlockOk(pool, State()) && Limited(Limits(), State())
      ensures old(inBlock) <= inBlock
      ensures Accounted(pool, Limits(), blockMinFeeRate, old(State()), taken, Selection(State(), map[], failed, 0))
      ensures forall t :: t in failed ==> t in pool.ancestors && WasBarred(pool, Limits(), State(), t)
      ensures ending.Exhausted? ==> forall t :: t in pool.ancestors && t !in inBlock ==>
        && (t in failed || Barred(pool, Limits(), State(), t))
        && BarredWithoutSurplus(pool, Limits(), State(), t)
      ensures ending.Underpaid? && pool.fee == pool.modFee ==>
        forall t :: t in pool.ancestors && t !in inBlock && t !in failed ==>
          || Barred(pool, Limits(), State(), t)
          || 1000 * FeesOf(pool, State(), t) < blockMinFeeRate * SizeOf(pool, State(), t)
      ensures ending.GaveUp? ==>
        && nBlockMaxWeight - 4000 < nBlockWeight && MAX_CONSECUTIVE_FAILURES < |away|
        && forall t :: t in away ==>
             t in pool.ancestors && t !in inBlock && (t in failed || Barred(pool, Limits(), State(), t))
    {
      hide BlockOk;
      hide Tracks;
      hide Limited;
      hide Going;
      hide Accounted;
      hide Barred;
      hide BarredWithoutSurplus;
      hide WasBarred;
      hide pool.Acyclic;
      hide pool.Costed;
      hide pool.Totalled;
      hide Whole;
      hide FeeFor;
      hide Fits;
      hide Ranked;
      hide Best;
      hide Joined;
      hide FeesOf;
      hide SizeOf;
      BlockKnown(pool, State());
      NothingTaken(pool, inBlock);
      assert inBlock - inBlock == {};
      var cache := UpdatePackagesForAdded(inBlock, map[], {});
      failed, taken, away := {}, [], {};
      var mi, nConsecutiveFailed := 0, 0;
      ghost var g := Goal(pool, Limits(), blockMinFeeRate, order, State());
      ghost var s := Selection(State(), cache, failed, mi);
      Starts(g, s);
      while mi < |order| || cache != map[]
        invariant 0 <= mi <= |order| && old(inBlock) <= inBlock && s == Selection(State(), cache, failed, mi)
        invariant Going(g, s, taken, away) && |away| == nConsecutiveFailed
        decreases pool.ancestors.Keys - inBlock, |order| - mi, cache.Keys
      {
        if mi < |order| && (order[mi] in cache || order[mi] in inBlock || order[mi] in failed) {
          Skip(g, s, taken, away);
          mi := mi + 1;
          s := Walked(s);
          continue;
        }
        Ready(g, s, taken, away);
        var iter, usingModified := Choose(order, cache, mi, s);
        if !usingModified {
          mi := mi + 1;
        }
        Looked(g, s, taken, away, iter);
        assert iter !in inBlock;
        var package := if usingModified then cache[iter] else Whole(pool, iter);
        if package.fees < FeeFor(blockMinFeeRate, package.size) {
          EndsUnderpaid(g, s, taken, away, iter);
          return Underpaid, failed, taken, away;
        }
        var fits := TestPackage(package.size, package.sigops);
        if !fits {
          TurnDown(g, s, taken, away, iter);
          if usingModified {
            cache, failed := cache - {iter}, failed + {iter};
          }
          away, s := away + {iter}, Selection(State(), cache, failed, mi);
          nConsecutiveFailed := nConsecutiveFailed + 1;
          if nConsecutiveFailed > MAX_CONSECUTIVE_FAILURES && nBlockWeight > nBlockMaxWeight - 4000 {
            Ends(g, s, taken, away);
            return GaveUp, failed, taken, away;
          }
          continue;
        }
        var ancestors := OnlyUnconfirmed(pool.ancestors[iter]);
        ancestors := ancestors + {iter};
        assert ancestors == Missing(pool, inBlock, iter);
        var final := TestPackageTransactions(ancestors);
        if !final {
          TurnDown(g, s, taken, away, iter);
          if usingModified {
            cache, failed := cache - {iter}, failed + {iter};
          }
          s := Selection(State(), cache, failed, mi);
          continue;
        }
        nConsecutiveFailed := 0;
        cache := AddPackage(iter, ancestors, cache, failed);
        Take(g, s, taken, away, iter, Selection(State(), cache, failed, mi));
        taken, away := taken + [Taken(iter, s.block, s.failed)], {};
        s := Selection(State(), cache, failed, mi);
      }
      Ends(g, s, taken, away);
      EndsExhausted(g, s, taken, away);
      ending := Exhausted;
    }
  }
}
