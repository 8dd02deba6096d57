/** Package selection as steps on values: what the block holds, what is cached about entries whose ancestors
were taken already, and what every step of the selection keeps. */
module BlockAssembly {
  import opened TxPool

  const WITNESS_SCALE_FACTOR := 4
  const MAX_BLOCK_WEIGHT := 8_000_000
  const MAX_BLOCK_SIGOPS_COST := 80_000
  const RESERVED_WEIGHT := 4000
  const RESERVED_SIGOPS := 400

  /** The block under construction with its running totals. */
  datatype Block = Block(
    vtx: seq<TxId>, inBlock: set<TxId>,
    weight: int, sigops: int, nTx: int, fees: int,
    txFees: seq<int>, txSigops: seq<int>)

  const EMPTY := Block([], {}, RESERVED_WEIGHT, RESERVED_SIGOPS, 0, 0, [], [])

  ghost function Elems(s: seq<TxId>): set<TxId> {
    set x | x in s
  }

  ghost predicate NoDuplicates(s: seq<TxId>) {
    forall i, j :: 0 <= i < j < |s| ==> s[i] != s[j]
  }

  // ----- the block

  /** Every transaction comes after all its ancestors, and nothing comes twice. */
  ghost predicate Ordered(p: Pool, s: seq<TxId>) {
    && NoDuplicates(s)
    && forall i :: 0 <= i < |s| ==> s[i] in p.ancestors && p.ancestors[s[i]] <= Elems(s[..i])
  }

  /** The totals are those of the transactions. */
  ghost predicate Summed(p: Pool, b: Block)
    requires p.Costed() && b.inBlock <= p.ancestors.Keys
  {
    && b.weight == RESERVED_WEIGHT + Total(p.weight, b.inBlock)
    && b.sigops == RESERVED_SIGOPS + Total(p.sigops, b.inBlock)
    && b.fees == Total(p.fee, b.inBlock)
    && b.nTx == |b.vtx| == |b.txFees| == |b.txSigops|
    && forall i :: 0 <= i < |b.vtx| ==>
         b.vtx[i] in p.fee && b.vtx[i] in p.sigops &&
         b.txFees[i] == p.fee[b.vtx[i]] && b.txSigops[i] == p.sigops[b.vtx[i]]
  }

  ghost predicate BlockOk(p: Pool, b: Block)
    requires p.Costed()
  {
    Ordered(p, b.vtx) && b.inBlock == Elems(b.vtx) && b.inBlock <= p.ancestors.Keys && Summed(p, b)
  }

  /** `AddToBlock`. */
  function Added(p: Pool, b: Block, t: TxId): Block
    requires t in p.weight && t in p.sigops && t in p.fee
  {
    Block(b.vtx + [t], b.inBlock + {t},
          b.weight + p.weight[t], b.sigops + p.sigops[t], b.nTx + 1, b.fees + p.fee[t],
          b.txFees + [p.fee[t]], b.txSigops + [p.sigops[t]])
  }

  lemma ElemsAppend(s: seq<TxId>, t: TxId)
    ensures Elems(s + [t]) == Elems(s) + {t}
  {
  }

  lemma OrderedAppend(p: Pool, s: seq<TxId>, t: TxId)
    requires Ordered(p, s) && t in p.ancestors && t !in s && p.ancestors[t] <= Elems(s)
    ensures Ordered(p, s + [t])
  {
    var r := s + [t];
    forall i | 0 <= i < |r| ensures r[i] in p.ancestors && p.ancestors[r[i]] <= Elems(r[..i]) {
      if i < |s| {
        assert r[..i] == s[..i];
      } else {
        assert r[..i] == s;
      }
    }
  }

  lemma AddedOk(p: Pool, b: Block, t: TxId)
    requires p.Costed() && BlockOk(p, b) && t in p.ancestors && t !in b.inBlock && p.ancestors[t] <= b.inBlock
    ensures BlockOk(p, Added(p, b, t))
  {
    OrderedAppend(p, b.vtx, t);
    ElemsAppend(b.vtx, t);
    TotalAdd(p.weight, b.inBlock, t);
    TotalAdd(p.sigops, b.inBlock, t);
    TotalAdd(p.fee, b.inBlock, t);
  }

  /** A block is closed under ancestry. */
  lemma Closed(p: Pool, b: Block, t: TxId)
    requires p.Costed() && BlockOk(p, b) && t in b.inBlock
    ensures t in p.ancestors && p.ancestors[t] <= b.inBlock
  {
    var i :| 0 <= i < |b.vtx| && b.vtx[i] == t;
    assert p.ancestors[t] <= Elems(b.vtx[..i]);
  }

  // ----- a package in the order it is added

  /** `CompareTxIterByAncestorCount`. */
  predicate Earlier(p: Pool, a: TxId, b: TxId)
    requires a in p.ancestors && b in p.ancestors
  {
    |p.ancestors[a]| < |p.ancestors[b]| || (|p.ancestors[a]| == |p.ancestors[b]| && a.hash < b.hash)
  }

  ghost predicate Sorted(p: Pool, s: seq<TxId>) {
    && (forall i :: 0 <= i < |s| ==> s[i] in p.ancestors)
    && forall i, j :: 0 <= i < j < |s| ==> Earlier(p, s[i], s[j])
  }

  /** What is left to add of a transaction and its ancestors. */
  function Missing(p: Pool, inBlock: set<TxId>, t: TxId): set<TxId>
    requires t in p.ancestors
  {
    p.Family(t) - inBlock
  }

  /** In a sorted package the ancestors of each entry are in the block or come before it. */
  lemma SortedIsOrdered(p: Pool, inBlock: set<TxId>, t: TxId, s: seq<TxId>, i: int)
    requires p.Acyclic() && t in p.ancestors && Sorted(p, s) && Elems(s) == Missing(p, inBlock, t)
    requires 0 <= i < |s|
    ensures p.ancestors[s[i]] <= inBlock + Elems(s[..i])
  {
    forall a | a in p.ancestors[s[i]] && a !in inBlock ensures a in Elems(s[..i]) {
      assert s[i] in Elems(s);
      assert a in Elems(s);
      var j :| 0 <= j < |s| && s[j] == a;
      FewerAncestors(p, a, s[i]);
    }
  }

  /** A package is added entry by entry. */
  function AddedAll(p: Pool, b: Block, s: seq<TxId>, n: nat): Block
    requires p.Costed() && n <= |s| && forall i :: 0 <= i < |s| ==> s[i] in p.ancestors
  {
    if n == 0 then b else Added(p, AddedAll(p, b, s, n - 1), s[n - 1])
  }

  lemma NextIsNew(p: Pool, inBlock: set<TxId>, t: TxId, s: seq<TxId>, n: nat)
    requires t in p.ancestors && Sorted(p, s) && Elems(s) == Missing(p, inBlock, t) && n < |s|
    ensures s[n] !in inBlock + Elems(s[..n])
    ensures Elems(s[..n + 1]) == Elems(s[..n]) + {s[n]}
  {
    assert s[n] in Elems(s);
    assert s[..n + 1] == s[..n] + [s[n]];
  }

  lemma AddedNext(p: Pool, b: Block, c: Block, t: TxId, s: seq<TxId>, n: nat)
    requires p.Costed() && p.Acyclic() && t in p.ancestors && Sorted(p, s)
    requires Elems(s) == Missing(p, b.inBlock, t) && n < |s|
    requires BlockOk(p, c) && c.inBlock == b.inBlock + Elems(s[..n])
    ensures BlockOk(p, Added(p, c, s[n])) && Added(p, c, s[n]).inBlock == b.inBlock + Elems(s[..n + 1])
  {
    hide BlockOk;
    hide Elems;
    hide Missing;
    hide p.Acyclic;
    SortedIsOrdered(p, b.inBlock, t, s, n);
    NextIsNew(p, b.inBlock, t, s, n);
    AddedOk(p, c, s[n]);
  }

  lemma {:induction false} AddedAllOk(p: Pool, b: Block, t: TxId, s: seq<TxId>, n: nat)
    requires p.Costed() && p.Acyclic() && BlockOk(p, b) && t in p.ancestors && Sorted(p, s)
    requires Elems(s) == Missing(p, b.inBlock, t) && n <= |s|
    ensures BlockOk(p, AddedAll(p, b, s, n))
    ensures AddedAll(p, b, s, n).inBlock == b.inBlock + Elems(s[..n])
    decreases n
  {
    hide BlockOk;
    hide Missing;
    hide p.Acyclic;
    hide Added;
    hide p.Costed;
    if n == 0 {
      assert s[..0] == [];
    } else {
      AddedAllOk(p, b, t, s, n - 1);
      AddedNext(p, b, AddedAll(p, b, s, n - 1), t, s, n - 1);
    }
  }

  // ----- what is cached about entries whose ancestors were taken already

  /** The totals of a transaction together with its ancestors that are not in the block yet. */
  datatype Package = Package(size: int, fees: int, sigops: int)

  /** `mapModifiedTx`. */
  type Cache = map<TxId, Package>

  /** `CTxMemPoolModifiedEntry` made from a mempool entry. */
  function Whole(p: Pool, t: TxId): Package
    requires p.Costed() && t in p.ancestors
  {
    Package(p.sizeWithAncestors[t], p.modFeesWithAncestors[t], p.sigopsWithAncestors[t])
  }

  /** A package without one of its transactions, which takes the given fee with it. */
  function Less(p: Pool, k: Package, it: TxId, fee: int): Package
    requires p.Costed() && it in p.ancestors
  {
    Package(k.size - p.size[it], k.fees - fee, k.sigops - p.sigops[it])
  }

  /** One descendant of a transaction that was added: a new entry loses the modified fee of the ancestor, an
      old one its plain fee. */
  function Reduced(p: Pool, m: Cache, it: TxId, d: TxId): Package
    requires p.Costed() && it in p.ancestors && d in p.ancestors
  {
    if d in m then Less(p, m[d], it, p.fee[it]) else Less(p, Whole(p, d), it, p.modFee[it])
  }

  /** The given descendants of an added transaction are updated. */
  function Spread(p: Pool, m: Cache, it: TxId, ds: set<TxId>): Cache
    requires p.Costed() && it in p.ancestors && ds <= p.ancestors.Keys
  {
    map d | d in m.Keys + ds :: if d in ds then Reduced(p, m, it, d) else m[d]
  }

  /** The package is at least what `s` costs. */
  ghost predicate Covers(p: Pool, k: Package, s: set<TxId>)
    requires p.Costed() && s <= p.ancestors.Keys
  {
    Total(p.size, s) <= k.size && Total(p.sigops, s) <= k.sigops
  }

  /** The package is just what `s` costs; the fee too, when no fee was modified by hand. */
  ghost predicate Exact(p: Pool, k: Package, s: set<TxId>)
    requires p.Costed() && s <= p.ancestors.Keys
  {
    && k.size == Total(p.size, s) && k.sigops == Total(p.sigops, s)
    && (p.fee == p.modFee ==> k.fees == Total(p.modFee, s))
  }

  /** Of the ancestors taken one took its modified fee with it, and the others their plain fees. */
  ghost predicate FeesLeft(p: Pool, fees: int, taken: set<TxId>, t: TxId)
    requires p.Costed() && p.Acyclic() && t in p.ancestors
  {
    var gone := p.ancestors[t] * taken;
    exists a :: a in gone && fees == Total(p.modFee, p.Family(t)) - p.modFee[a] - Total(p.fee, gone - {a})
  }

  /** What is cached about `t` never underestimates what is missing when `taken` is in the block. It is exact
      unless `t` failed before; and unless `t` failed before, it is cached just when an ancestor was taken. */
  ghost predicate Tracked(p: Pool, m: Cache, taken: set<TxId>, failed: set<TxId>, t: TxId)
    requires p.Costed() && p.Acyclic() && t in p.ancestors
  {
    && (t in m ==> Covers(p, m[t], Missing(p, taken, t)))
    && (t in m && t !in failed ==> Exact(p, m[t], Missing(p, taken, t)) && FeesLeft(p, m[t].fees, taken, t))
    && (t !in failed ==> (t in m <==> p.ancestors[t] * taken != {}))
  }

  ghost predicate Tracks(p: Pool, m: Cache, taken: set<TxId>, inBlock: set<TxId>, failed: set<TxId>)
    requires p.Costed() && p.Acyclic()
  {
    && m.Keys <= p.ancestors.Keys - inBlock
    && forall t :: t in p.ancestors && t !in inBlock ==> Tracked(p, m, taken, failed, t)
  }

  lemma WholeIsExact(p: Pool, t: TxId)
    requires p.Valid() && t in p.ancestors
    ensures Exact(p, Whole(p, t), p.Family(t))
  {
  }

  lemma ExactCovers(p: Pool, k: Package, s: set<TxId>, r: set<TxId>)
    requires p.Costed() && r <= s <= p.ancestors.Keys && Exact(p, k, s)
    ensures Covers(p, k, r)
  {
    TotalMonotone(p.size, r, s);
    TotalMonotone(p.sigops, r, s);
  }

  lemma LessOne(p: Pool, k: Package, s: set<TxId>, it: TxId, fee: int)
    requires p.Costed() && s <= p.ancestors.Keys && it in s && (fee == p.fee[it] || fee == p.modFee[it])
    ensures Covers(p, k, s) ==> Covers(p, Less(p, k, it, fee), s - {it})
    ensures Exact(p, k, s) ==> Exact(p, Less(p, k, it, fee), s - {it})
  {
    hide Total;
    TotalRemove(p.size, s, it);
    TotalRemove(p.sigops, s, it);
    TotalRemove(p.modFee, s, it);
  }

  lemma FirstFeeLeft(p: Pool, taken: set<TxId>, it: TxId, d: TxId)
    requires p.Valid() && d in p.ancestors && it in p.ancestors[d] && p.ancestors[d] * taken == {}
    ensures FeesLeft(p, Less(p, Whole(p, d), it, p.modFee[it]).fees, taken + {it}, d)
  {
    hide Total;
    hide p.Costed;
    var gone := p.ancestors[d] * (taken + {it});
    assert it in gone && gone - {it} == {};
    TotalNone(p.fee);
  }

  lemma TotalNone(cost: Costs)
    ensures Total(cost, {}) == 0
  {
  }

  lemma NextFeeLeft(p: Pool, fees: int, taken: set<TxId>, it: TxId, d: TxId)
    requires p.Costed() && p.Acyclic() && d in p.ancestors && it in p.ancestors[d] && it !in taken
    requires FeesLeft(p, fees, taken, d)
    ensures FeesLeft(p, fees - p.fee[it], taken + {it}, d)
  {
    hide Total;
    var gone, more := p.ancestors[d] * taken, p.ancestors[d] * (taken + {it});
    var a :| a in gone && fees == Total(p.modFee, p.Family(d)) - p.modFee[a] - Total(p.fee, gone - {a});
    TotalAdd(p.fee, gone - {a}, it);
    assert more - {a} == gone - {a} + {it};
    assert a in more;
  }

  lemma SameFeesLeft(p: Pool, fees: int, taken: set<TxId>, more: set<TxId>, t: TxId)
    requires p.Costed() && p.Acyclic() && t in p.ancestors && FeesLeft(p, fees, taken, t)
    requires p.ancestors[t] * more == p.ancestors[t] * taken
    ensures FeesLeft(p, fees, more, t)
  {
  }

  /** A descendant's package is reduced by just what was taken. */
  lemma ReducedTracked(p: Pool, m: Cache, taken: set<TxId>, failed: set<TxId>, it: TxId, d: TxId)
    requires p.Valid() && it in p.ancestors && d in p.ancestors
    requires it in p.ancestors[d] && it !in taken && d !in taken && Tracked(p, m, taken, failed, d)
    ensures Covers(p, Reduced(p, m, it, d), Missing(p, taken + {it}, d))
    ensures d !in failed ==> Exact(p, Reduced(p, m, it, d), Missing(p, taken + {it}, d))
    ensures d !in failed ==> FeesLeft(p, Reduced(p, m, it, d).fees, taken + {it}, d)
  {
    hide Total;
    hide Covers;
    hide Exact;
    hide FeesLeft;
    hide Whole;
    hide p.Totalled;
    var s := Missing(p, taken, d);
    assert Missing(p, taken + {it}, d) == s - {it};
    if d in m {
      LessOne(p, m[d], s, it, p.fee[it]);
      if d !in failed {
        NextFeeLeft(p, m[d].fees, taken, it, d);
      }
    } else {
      WholeIsExact(p, d);
      ExactCovers(p, Whole(p, d), p.Family(d), s);
      if d !in failed {
        assert s == p.Family(d);
        assert p.ancestors[d] * taken == {};
        FirstFeeLeft(p, taken, it, d);
        assert Reduced(p, m, it, d) == Less(p, Whole(p, d), it, p.modFee[it]);
      }
      LessOne(p, Whole(p, d), s, it, p.modFee[it]);
    }
  }

  lemma SpreadTracked(p: Pool, m: Cache, taken: set<TxId>, failed: set<TxId>, it: TxId, ds: set<TxId>, t: TxId)
    requires p.Valid() && it in p.ancestors && t in p.ancestors && ds <= p.ancestors.Keys
    requires it !in taken && t !in taken && t != it && Tracked(p, m, taken, failed, t)
    requires t in ds <==> it in p.ancestors[t]
    ensures Tracked(p, Spread(p, m, it, ds), taken + {it}, failed, t)
  {
    hide Total;
    hide Covers;
    hide Exact;
    hide FeesLeft;
    hide p.Totalled;
    hide p.Costed;
    hide p.Acyclic;
    if t in ds {
      ReducedTracked(p, m, taken, failed, it, t);
      assert it in p.ancestors[t] * (taken + {it});
    } else {
      assert Missing(p, taken + {it}, t) == Missing(p, taken, t);
      assert p.ancestors[t] * (taken + {it}) == p.ancestors[t] * taken;
      if t in m && t !in failed {
        SameFeesLeft(p, m[t].fees, taken, taken + {it}, t);
      }
    }
  }

  /** One step of the outer loop of `UpdatePackagesForAdded`. */
  lemma SpreadTracks(p: Pool, m: Cache, taken: set<TxId>, inBlock: set<TxId>, failed: set<TxId>, it: TxId)
    requires p.Valid() && Tracks(p, m, taken, inBlock, failed) && taken <= inBlock <= p.ancestors.Keys
    requires it in inBlock - taken
    ensures Tracks(p, Spread(p, m, it, p.Descendants(it) - inBlock), taken + {it}, inBlock, failed)
  {
    hide Tracked;
    var ds := p.Descendants(it) - inBlock;
    forall t | t in p.ancestors && t !in inBlock ensures Tracked(p, Spread(p, m, it, ds), taken + {it}, failed, t) {
      SpreadTracked(p, m, taken, failed, it, ds, t);
    }
  }

  // ----- what fits, and what can never be added

  /** The weight limit, and the transactions that pass the checks made one by one (`TestPackageTransactions`). */
  datatype Rules = Rules(maxWeight: int, allowed: set<TxId>)

  /** `TestPackage`. */
  predicate Fits(r: Rules, b: Block, size: int, sigops: int) {
    && b.weight + WITNESS_SCALE_FACTOR * size < r.maxWeight
    && b.sigops + sigops < MAX_BLOCK_SIGOPS_COST
  }

  ghost predicate Limited(r: Rules, b: Block) {
    && RESERVED_WEIGHT <= b.weight <= r.maxWeight
    && RESERVED_SIGOPS <= b.sigops < MAX_BLOCK_SIGOPS_COST
  }

  /** The transaction cannot be added with what is missing: it is too much, or something is not allowed. */
  ghost predicate Barred(p: Pool, r: Rules, b: Block, t: TxId)
    requires p.Costed() && p.Acyclic() && t in p.ancestors
  {
    var s := Missing(p, b.inBlock, t);
    !Fits(r, b, Total(p.size, s), Total(p.sigops, s)) || !(s <= r.allowed)
  }

  /** Each of these transactions weighs four times its size: nothing was rounded up or put on for sigops. */
  ghost predicate NoSurplus(p: Pool, s: set<TxId>)
    requires p.Costed() && s <= p.ancestors.Keys
  {
    forall x :: x in s ==> p.weight[x] == 4 * p.size[x]
  }

  /** The ancestors of the transaction that are in the block. */
  function TakenAncestors(p: Pool, inBlock: set<TxId>, t: TxId): (s: set<TxId>)
    requires t in p.ancestors
    ensures p.Acyclic() ==> s <= p.ancestors.Keys
  {
    p.ancestors[t] * inBlock
  }

  /** The transaction is barred, if four times the size was the weight of every ancestor taken. */
  ghost predicate BarredWithoutSurplus(p: Pool, r: Rules, b: Block, t: TxId)
    requires p.Costed() && p.Acyclic() && t in p.ancestors
  {
    NoSurplus(p, TakenAncestors(p, b.inBlock, t)) ==> Barred(p, r, b, t)
  }

  lemma BlockGrows(p: Pool, b: Block, c: Block, s: set<TxId>)
    requires p.Costed() && BlockOk(p, b) && BlockOk(p, c) && c.inBlock == b.inBlock + s && s !! b.inBlock
    ensures c.weight == b.weight + Total(p.weight, s)
    ensures c.sigops == b.sigops + Total(p.sigops, s)
    ensures 0 <= Total(p.weight, s) && 0 <= Total(p.sigops, s)
    ensures Total(p.weight, s) <= 4 * Total(p.size, s)
  {
    hide Total;
    hide Ordered;
    TotalSplit(p.weight, b.inBlock, s);
    TotalSplit(p.sigops, b.inBlock, s);
    TotalWeight(p.weight, p.size, s);
    TotalNonNegative(p.weight, s);
    TotalNonNegative(p.sigops, s);
  }

  lemma FittingLimited(p: Pool, r: Rules, b: Block, c: Block, s: set<TxId>, k: Package)
    requires p.Costed() && BlockOk(p, b) && BlockOk(p, c) && c.inBlock == b.inBlock + s && s !! b.inBlock
    requires Limited(r, b) && Covers(p, k, s) && Fits(r, b, k.size, k.sigops)
    ensures Limited(r, c) && c.weight < r.maxWeight
  {
    hide Total;
    hide BlockOk;
    BlockGrows(p, b, c, s);
  }

  /** Once barred, always barred, while none of the ancestors is taken. */
  lemma BarredStays(p: Pool, r: Rules, b: Block, c: Block, s: set<TxId>, t: TxId)
    requires p.Costed() && p.Acyclic() && BlockOk(p, b) && BlockOk(p, c)
    requires c.inBlock == b.inBlock + s && s !! b.inBlock && t in p.ancestors
    requires Barred(p, r, b, t) && Missing(p, c.inBlock, t) == Missing(p, b.inBlock, t)
    ensures Barred(p, r, c, t)
  {
    hide Total;
    hide BlockOk;
    hide Missing;
    BlockGrows(p, b, c, s);
  }

  /** What is taken of a package at full weight costs at least what it saves. */
  lemma NoSurplusCosts(p: Pool, q: set<TxId>, s: set<TxId>)
    requires p.Costed() && q <= s <= p.ancestors.Keys && NoSurplus(p, q)
    ensures 4 * Total(p.size, q) <= Total(p.weight, s) && Total(p.sigops, q) <= Total(p.sigops, s)
  {
    hide Total;
    TotalWeight(p.weight, p.size, q);
    TotalMonotone(p.weight, q, s);
    TotalMonotone(p.sigops, q, s);
  }

  /** Once barred, always barred, while four times the size is the weight of every ancestor taken. */
  lemma BarredStaysAnyway(p: Pool, r: Rules, b: Block, c: Block, s: set<TxId>, t: TxId)
    requires p.Costed() && p.Acyclic() && BlockOk(p, b) && BlockOk(p, c)
    requires c.inBlock == b.inBlock + s && s !! b.inBlock && t in p.ancestors && s <= p.ancestors.Keys
    requires BarredWithoutSurplus(p, r, b, t) && t !in c.inBlock && s <= r.allowed
    ensures BarredWithoutSurplus(p, r, c, t)
  {
    hide Total;
    hide BlockOk;
    if NoSurplus(p, TakenAncestors(p, c.inBlock, t)) {
      assert TakenAncestors(p, b.inBlock, t) <= TakenAncestors(p, c.inBlock, t);
      var before, after := Missing(p, b.inBlock, t), Missing(p, c.inBlock, t);
      var q := before * s;
      BlockGrows(p, b, c, s);
      assert after == before - s;
      assert before == after + q;
      TotalSplit(p.size, after, q);
      TotalSplit(p.sigops, after, q);
      assert q <= TakenAncestors(p, c.inBlock, t);
      NoSurplusCosts(p, q, s);
    }
  }

  /** By how much four times the sizes exceed the weights. */
  ghost function Surplus(p: Pool, q: set<TxId>): int
    requires p.Costed() && q <= p.ancestors.Keys
  {
    4 * Total(p.size, q) - Total(p.weight, q)
  }

  /** By how much the package was too heavy. */
  ghost function Margin(p: Pool, r: Rules, b: Block, t: TxId): int
    requires p.Costed() && p.Acyclic() && t in p.ancestors
  {
    b.weight + 4 * Total(p.size, Missing(p, b.inBlock, t)) - r.maxWeight
  }

  /** The margin grows by the weight of whatever else was taken, and shrinks by the surplus of what was taken of
      the package. */
  lemma MarginExactly(p: Pool, r: Rules, b: Block, c: Block, s: set<TxId>, t: TxId)
    requires p.Costed() && p.Acyclic() && BlockOk(p, b) && BlockOk(p, c)
    requires c.inBlock == b.inBlock + s && s !! b.inBlock && t in p.ancestors && s <= p.ancestors.Keys
    ensures
      var q := Missing(p, b.inBlock, t) * s;
      Margin(p, r, c, t) == Margin(p, r, b, t) + Total(p.weight, s - q) - Surplus(p, q)
  {
    hide Total;
    hide BlockOk;
    var before, after := Missing(p, b.inBlock, t), Missing(p, c.inBlock, t);
    var q := before * s;
    BlockGrows(p, b, c, s);
    assert after == before - s;
    assert before == after + q;
    TotalSplit(p.size, after, q);
    assert s == q + (s - q);
    TotalSplit(p.weight, q, s - q);
  }

  /** Whatever was taken in between, a package can be added later just if all of it is allowed, its sigops and
      those of whatever else was taken stay below the limit, and its surplus makes up for the margin and the
      weight of whatever else was taken. */
  lemma BarredExactly(p: Pool, r: Rules, b: Block, c: Block, s: set<TxId>, t: TxId)
    requires p.Costed() && p.Acyclic() && BlockOk(p, b) && BlockOk(p, c)
    requires c.inBlock == b.inBlock + s && s !! b.inBlock && t in p.ancestors && s <= p.ancestors.Keys
    requires s <= r.allowed
    ensures
      var before := Missing(p, b.inBlock, t);
      var q := before * s;
      Barred(p, r, c, t) <==>
        || !(before <= r.allowed)
        || b.sigops + Total(p.sigops, before) + Total(p.sigops, s - q) >= MAX_BLOCK_SIGOPS_COST
        || Margin(p, r, b, t) + Total(p.weight, s - q) >= Surplus(p, q)
  {
    hide Total;
    hide BlockOk;
    var before, after := Missing(p, b.inBlock, t), Missing(p, c.inBlock, t);
    var q := before * s;
    BlockGrows(p, b, c, s);
    MarginExactly(p, r, b, c, s, t);
    assert after == before - s;
    assert before == after + q;
    TotalSplit(p.sigops, after, q);
    assert s == q + (s - q);
    TotalSplit(p.sigops, q, s - q);
  }

  /** Block `c` came from `b` by taking allowed transactions. */
  ghost predicate CameFrom(p: Pool, r: Rules, b: Block, c: Block)
    requires p.Costed()
  {
    BlockOk(p, b) && BlockOk(p, c) && b.inBlock <= c.inBlock && c.inBlock - b.inBlock <= r.allowed
  }

  /** The transaction was barred at an earlier block. */
  ghost predicate WasBarred(p: Pool, r: Rules, c: Block, t: TxId)
    requires p.Costed() && p.Acyclic() && t in p.ancestors
  {
    exists b :: CameFrom(p, r, b, c) && Barred(p, r, b, t)
  }

  lemma BarredNow(p: Pool, r: Rules, b: Block, t: TxId)
    requires p.Costed() && p.Acyclic() && t in p.ancestors && BlockOk(p, b) && Barred(p, r, b, t)
    ensures WasBarred(p, r, b, t)
  {
    assert CameFrom(p, r, b, b);
  }

  lemma WasBarredStays(p: Pool, r: Rules, c: Block, d: Block, k: set<TxId>, t: TxId)
    requires p.Costed() && p.Acyclic() && t in p.ancestors && WasBarred(p, r, c, t)
    requires BlockOk(p, d) && d.inBlock == c.inBlock + k && k <= r.allowed
    ensures WasBarred(p, r, d, t)
  {
    hide BlockOk;
    hide Barred;
    var b :| CameFrom(p, r, b, c) && Barred(p, r, b, t);
    assert CameFrom(p, r, b, d);
  }

  /** So it is still, unless an ancestor taken had a surplus. */
  lemma WasBarredMeans(p: Pool, r: Rules, c: Block, t: TxId)
    requires p.Costed() && p.Acyclic() && t in p.ancestors && WasBarred(p, r, c, t) && t !in c.inBlock
    ensures BarredWithoutSurplus(p, r, c, t)
  {
    hide BlockOk;
    hide Barred;
    var b :| CameFrom(p, r, b, c) && Barred(p, r, b, t);
    KnownInBlock(p, c);
    BarredStaysAnyway(p, r, b, c, c.inBlock - b.inBlock, t);
  }

  lemma KnownInBlock(p: Pool, b: Block)
    requires p.Costed() && BlockOk(p, b)
    ensures b.inBlock <= p.ancestors.Keys
  {
  }

  // ----- the selection loop

  /** What the loop of `addPackageTxs` holds: the block, `mapModifiedTx`, `failedTx`, and how far the walk over
      the mempool (in the order given by the ancestor scores) has come. */
  datatype Selection = Selection(block: Block, cache: Cache, failed: set<TxId>, next: nat)

  /** Whoever was walked past, and is neither in the block nor cached nor failed, can no longer be added. Whoever
      failed could not be added at that time. */
  ghost predicate Explained(p: Pool, r: Rules, order: seq<TxId>, s: Selection)
    requires p.Costed() && p.Acyclic()
  {
    && s.next <= |order| && s.failed <= p.ancestors.Keys
    && (forall i :: 0 <= i < s.next ==> order[i] in p.ancestors && Settled(p, r, s, order[i]))
    && forall t :: t in s.failed ==> WasBarred(p, r, s.block, t)
  }

  ghost predicate Settled(p: Pool, r: Rules, s: Selection, t: TxId)
    requires p.Costed() && p.Acyclic() && t in p.ancestors
  {
    t in s.block.inBlock || t in s.cache || t in s.failed || Barred(p, r, s.block, t)
  }

  ghost predicate Selecting(p: Pool, r: Rules, order: seq<TxId>, s: Selection)
    requires p.Costed() && p.Acyclic()
  {
    && BlockOk(p, s.block) && Limited(r, s.block)
    && Tracks(p, s.cache, s.block.inBlock, s.block.inBlock, s.failed)
    && Explained(p, r, order, s)
  }

  /** What the loop takes the package of `t` to cost. */
  function Estimate(p: Pool, s: Selection, t: TxId): Package
    requires p.Costed() && t in p.ancestors
  {
    if t in s.cache then s.cache[t] else Whole(p, t)
  }

  /** `t` may be looked at next: it is cached, or it is next in the walk and not stale. */
  predicate Candidate(order: seq<TxId>, s: Selection, t: TxId) {
    || t in s.cache
    || (s.next < |order| && order[s.next] == t && t !in s.block.inBlock && t !in s.failed)
  }

  /** `SkipMapTxEntry` for the next entry of the walk. */
  predicate Skippable(order: seq<TxId>, s: Selection) {
    s.next < |order| &&
    (order[s.next] in s.cache || order[s.next] in s.block.inBlock || order[s.next] in s.failed)
  }

  /** The walk goes on; `mi` is advanced. */
  function Walked(s: Selection): Selection {
    s.(next := s.next + 1)
  }

  /** A cached entry is given up. */
  function Dropped(s: Selection, t: TxId): Selection {
    s.(cache := s.cache - {t}, failed := s.failed + {t})
  }

  /** The estimate of a candidate never falls short, and is exact unless the entry failed before. */
  lemma EstimateCovers(p: Pool, order: seq<TxId>, s: Selection, t: TxId)
    requires p.Valid() && t in p.ancestors && t !in s.block.inBlock && Candidate(order, s, t)
    requires Tracks(p, s.cache, s.block.inBlock, s.block.inBlock, s.failed)
    ensures Covers(p, Estimate(p, s, t), Missing(p, s.block.inBlock, t))
    ensures t !in s.failed ==> Exact(p, Estimate(p, s, t), Missing(p, s.block.inBlock, t))
  {
    hide Covers;
    hide Exact;
    hide FeesLeft;
    hide Whole;
    hide p.Totalled;
    var k := Missing(p, s.block.inBlock, t);
    assert Tracked(p, s.cache, s.block.inBlock, s.failed, t);
    if t !in s.cache {
      WholeIsExact(p, t);
      ExactCovers(p, Whole(p, t), p.Family(t), k);
      assert k == p.Family(t);
    }
  }

  /** A candidate is never in the block, which the loop asserts. */
  lemma CandidateIsOut(p: Pool, order: seq<TxId>, s: Selection, t: TxId)
    requires p.Costed() && p.Acyclic() && Candidate(order, s, t)
    requires Tracks(p, s.cache, s.block.inBlock, s.block.inBlock, s.failed)
    requires forall i :: 0 <= i < |order| ==> order[i] in p.ancestors
    ensures t in p.ancestors && t !in s.block.inBlock
  {
    hide Tracked;
  }

  /** Whether the loop turns the candidate down. */
  predicate Refused(p: Pool, r: Rules, s: Selection, t: TxId)
    requires p.Costed() && t in p.ancestors
  {
    || !Fits(r, s.block, Estimate(p, s, t).size, Estimate(p, s, t).sigops)
    || !(Missing(p, s.block.inBlock, t) <= r.allowed)
  }

  /** An entry that is turned down for the first time is barred. */
  lemma RefusedIsBarred(p: Pool, r: Rules, order: seq<TxId>, s: Selection, t: TxId)
    requires p.Valid() && t in p.ancestors && t !in s.block.inBlock && t !in s.failed && Candidate(order, s, t)
    requires Tracks(p, s.cache, s.block.inBlock, s.block.inBlock, s.failed)
    requires Refused(p, r, s, t)
    ensures Barred(p, r, s.block, t)
  {
    hide Total;
    hide Tracks;
    hide p.Totalled;
    hide Whole;
    EstimateCovers(p, order, s, t);
  }

  lemma SkipKeeps(p: Pool, r: Rules, order: seq<TxId>, s: Selection)
    requires p.Valid() && Selecting(p, r, order, s) && Skippable(order, s) && order[s.next] in p.ancestors
    ensures Selecting(p, r, order, Walked(s))
  {
    hide p.Totalled;
    hide p.Costed;
    hide p.Acyclic;
    hide Limited;
    hide BlockOk;
    hide Tracks;
    hide Barred;
    hide WasBarred;
  }

  lemma PassKeeps(p: Pool, r: Rules, order: seq<TxId>, s: Selection, t: TxId)
    requires p.Valid() && Selecting(p, r, order, s) && t in p.ancestors
    requires s.next < |order| && order[s.next] == t && !Skippable(order, s) && Refused(p, r, s, t)
    ensures Selecting(p, r, order, Walked(s))
  {
    hide p.Totalled;
    hide BlockOk;
    hide Tracks;
    hide Barred;
    hide WasBarred;
    hide Refused;
    RefusedIsBarred(p, r, order, s, t);
  }

  lemma DropTracks(p: Pool, m: Cache, inBlock: set<TxId>, failed: set<TxId>, t: TxId)
    requires p.Costed() && p.Acyclic() && Tracks(p, m, inBlock, inBlock, failed) && t in m
    ensures Tracks(p, m - {t}, inBlock, inBlock, failed + {t})
  {
    hide Covers;
    hide Exact;
    hide FeesLeft;
    forall u | u in p.ancestors && u !in inBlock ensures Tracked(p, m - {t}, inBlock, failed + {t}, u) {
      assert Tracked(p, m, inBlock, failed, u);
    }
  }

  lemma DropKeeps(p: Pool, r: Rules, order: seq<TxId>, s: Selection, t: TxId)
    requires p.Valid() && Selecting(p, r, order, s) && t in p.ancestors
    requires t in s.cache && Refused(p, r, s, t)
    ensures Selecting(p, r, order, Dropped(s, t))
  {
    hide p.Totalled;
    hide BlockOk;
    hide Tracked;
    hide Barred;
    hide WasBarred;
    hide Refused;
    DropTracks(p, s.cache, s.block.inBlock, s.failed, t);
    if t !in s.failed {
      RefusedIsBarred(p, r, order, s, t);
      BarredNow(p, r, s.block, t);
    }
  }

  // ----- a package is taken

  /** The package is removed from the cache; its descendants are still to be updated. */
  lemma TakeTracks(p: Pool, m: Cache, inBlock: set<TxId>, failed: set<TxId>, k: set<TxId>)
    requires p.Costed() && p.Acyclic() && Tracks(p, m, inBlock, inBlock, failed)
    ensures Tracks(p, m - k, inBlock, inBlock + k, failed)
  {
    hide Covers;
    hide Exact;
    hide FeesLeft;
    forall u | u in p.ancestors && u !in inBlock + k ensures Tracked(p, m - k, inBlock, failed, u) {
      assert Tracked(p, m, inBlock, failed, u);
    }
  }

  /** An entry that was settled stays so when the package `k` of another one is taken. */
  lemma TakeSettles(p: Pool, r: Rules, s: Selection, s': Selection, k: set<TxId>, u: TxId)
    requires p.Costed() && p.Acyclic() && u in p.ancestors && BlockOk(p, s.block) && BlockOk(p, s'.block)
    requires Tracks(p, s.cache, s.block.inBlock, s.block.inBlock, s.failed)
    requires Tracks(p, s'.cache, s'.block.inBlock, s'.block.inBlock, s'.failed)
    requires s'.block.inBlock == s.block.inBlock + k && k !! s.block.inBlock && s'.failed == s.failed
    requires Settled(p, r, s, u)
    ensures Settled(p, r, s', u)
  {
    hide Covers;
    hide Exact;
    hide FeesLeft;
    hide Barred;
    hide BlockOk;
    if u !in s'.block.inBlock && u !in s'.cache && u !in s'.failed {
      assert Tracked(p, s.cache, s.block.inBlock, s.failed, u);
      assert Tracked(p, s'.cache, s'.block.inBlock, s'.failed, u);
      assert p.ancestors[u] * s.block.inBlock <= p.ancestors[u] * s'.block.inBlock == {};
      assert Missing(p, s'.block.inBlock, u) == Missing(p, s.block.inBlock, u);
      BarredStays(p, r, s.block, s'.block, k, u);
    }
  }

  lemma MissingKnown(p: Pool, inBlock: set<TxId>, t: TxId)
    requires p.Acyclic() && t in p.ancestors
    ensures Missing(p, inBlock, t) <= p.ancestors.Keys && Missing(p, inBlock, t) !! inBlock
  {
  }

  lemma TakeExplained(p: Pool, r: Rules, order: seq<TxId>, s: Selection, k: set<TxId>, s': Selection)
    requires p.Costed() && p.Acyclic() && BlockOk(p, s.block) && BlockOk(p, s'.block)
    requires Tracks(p, s.cache, s.block.inBlock, s.block.inBlock, s.failed)
    requires Tracks(p, s'.cache, s'.block.inBlock, s'.block.inBlock, s'.failed)
    requires s'.block.inBlock == s.block.inBlock + k && k !! s.block.inBlock && s'.failed == s.failed
    requires k <= r.allowed && k <= p.ancestors.Keys && Explained(p, r, order, s)
    requires s'.next == s.next || (s'.next == s.next + 1 && s.next < |order| && order[s.next] in k)
    ensures Explained(p, r, order, s')
  {
    hide p.Costed;
    hide p.Acyclic;
    hide BlockOk;
    hide Tracks;
    hide Barred;
    hide WasBarred;
    forall i | 0 <= i < s'.next ensures order[i] in p.ancestors && Settled(p, r, s', order[i]) {
      if i < s.next {
        TakeSettles(p, r, s, s', k, order[i]);
      }
    }
    forall u | u in s'.failed ensures WasBarred(p, r, s'.block, u) {
      WasBarredStays(p, r, s.block, s'.block, k, u);
    }
  }

  /** Taking a package that fits: `s'` is the state with the package added, the cache updated for it, and the
      walk advanced past the candidate if that is where it came from. */
  lemma TakeKeeps(p: Pool, r: Rules, order: seq<TxId>, s: Selection, t: TxId, s': Selection)
    requires p.Valid() && Selecting(p, r, order, s) && t in p.ancestors
    requires t !in s.block.inBlock && Candidate(order, s, t) && !Refused(p, r, s, t)
    requires BlockOk(p, s'.block) && s'.block.inBlock == s.block.inBlock + Missing(p, s.block.inBlock, t)
    requires Tracks(p, s'.cache, s'.block.inBlock, s'.block.inBlock, s'.failed) && s'.failed == s.failed
    requires s'.next == s.next || (s'.next == s.next + 1 && s.next < |order| && order[s.next] == t)
    ensures Selecting(p, r, order, s')
  {
    hide p.Costed;
    hide p.Acyclic;
    hide p.Totalled;
    hide BlockOk;
    hide Tracks;
    hide Covers;
    hide Explained;
    hide Estimate;
    var k := Missing(p, s.block.inBlock, t);
    MissingKnown(p, s.block.inBlock, t);
    EstimateCovers(p, order, s, t);
    FittingLimited(p, r, s.block, s'.block, k, Estimate(p, s, t));
    TakeExplained(p, r, order, s, k, s');
  }

  // ----- the ends

  /** Before the first package, with the descendants of what is in the block already cached. */
  lemma SelectionStarts(p: Pool, r: Rules, order: seq<TxId>, b: Block, m: Cache)
    requires p.Costed() && p.Acyclic() && BlockOk(p, b) && Limited(r, b) && Tracks(p, m, b.inBlock, b.inBlock, {})
    ensures Selecting(p, r, order, Selection(b, m, {}, 0))
  {
    hide BlockOk;
    hide Tracks;
    hide Limited;
  }

  /** When the walk is over and nothing is cached, all that was left out is barred, except that an entry that
      failed once may have become addable again if an ancestor taken had a surplus. */
  lemma SelectionEnds(p: Pool, r: Rules, order: seq<TxId>, s: Selection, t: TxId)
    requires p.Costed() && p.Acyclic() && Selecting(p, r, order, s)
    requires s.next == |order| && s.cache == map[] && t in order && t !in s.block.inBlock
    ensures t in p.ancestors
    ensures t in s.failed || Barred(p, r, s.block, t)
    ensures t in s.failed ==> WasBarred(p, r, s.block, t)
    ensures BarredWithoutSurplus(p, r, s.block, t)
  {
    hide BlockOk;
    hide Tracks;
    hide Limited;
    hide Barred;
    hide WasBarred;
    var i :| 0 <= i < |order| && order[i] == t;
    assert Settled(p, r, s, order[i]);
    if t in s.failed {
      WasBarredMeans(p, r, s.block, t);
    }
  }
}
