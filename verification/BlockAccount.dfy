/** An account of what the selection took and why it ended. */
module BlockAccount {
  import opened TxPool
  import opened BlockAssembly
  import opened BlockRanking

  /** One package that was taken: that of `t`, into this block, when these entries had failed. */
  datatype Taken = Taken(t: TxId, before: Block, failed: set<TxId>)

  /** The block with what was missing of `t` and its ancestors appended, sorted by number of ancestors. */
  ghost predicate Joined(p: Pool, b: Block, t: TxId, c: Block) {
    && t in p.ancestors && c.inBlock == b.inBlock + Missing(p, b.inBlock, t)
    && exists s :: Sorted(p, s) && Elems(s) == Missing(p, b.inBlock, t) && c.vtx == b.vtx + s
  }

  /** The packages lead from one block to the other. */
  ghost predicate Chained(p: Pool, b: Block, taken: seq<Taken>, c: Block) {
    if taken == [] then b == c else
    var last := taken[|taken| - 1];
    Chained(p, b, taken[..|taken| - 1], last.before) && Joined(p, last.before, last.t, c)
  }

  ghost function FeesOf(p: Pool, b: Block, t: TxId): int
    requires p.Costed() && p.Acyclic() && t in p.ancestors
  {
    Total(p.modFee, Missing(p, b.inBlock, t))
  }

  ghost function SizeOf(p: Pool, b: Block, t: TxId): int
    requires p.Costed() && p.Acyclic() && t in p.ancestors
  {
    Total(p.size, Missing(p, b.inBlock, t))
  }

  /** What is missing of `t` pays at least the minimum, and pays no lower rate than what is missing of any other
      entry that could be added and has not failed. */
  ghost predicate Deserved(p: Pool, r: Rules, perK: int, b: Block, failed: set<TxId>, t: TxId)
    requires p.Costed() && p.Acyclic() && t in p.ancestors
  {
    && FeeFor(perK, SizeOf(p, b, t)) <= FeesOf(p, b, t)
    && forall u :: u in p.ancestors && u !in b.inBlock && u !in failed ==>
         Barred(p, r, b, u) || FeesOf(p, b, u) * SizeOf(p, b, t) <= FeesOf(p, b, t) * SizeOf(p, b, u)
  }

  /** A package that was taken deserved it, unless its entry had failed before and was estimated too low. */
  ghost predicate Fair(p: Pool, r: Rules, perK: int, k: Taken)
    requires p.Costed() && p.Acyclic()
  {
    && k.t in p.ancestors && k.t !in k.before.inBlock
    && (k.t !in k.failed && p.fee == p.modFee ==> Deserved(p, r, perK, k.before, k.failed, k.t))
  }

  /** Entries turned down since the last package was taken; none comes twice. */
  ghost predicate TurnedAway(p: Pool, r: Rules, order: seq<TxId>, s: Selection, away: set<TxId>)
    requires p.Costed() && p.Acyclic()
  {
    forall u :: u in away ==>
      && u in p.ancestors && u !in s.block.inBlock && u !in s.cache
      && (u in s.failed || (Barred(p, r, s.block, u) && forall j :: s.next <= j < |order| ==> order[j] != u))
  }

  ghost predicate Accounted(p: Pool, r: Rules, perK: int, start: Block, taken: seq<Taken>, s: Selection)
    requires p.Costed() && p.Acyclic()
  {
    && Chained(p, start, taken, s.block)
    && forall i :: 0 <= i < |taken| ==> Fair(p, r, perK, taken[i]) && taken[i].failed <= s.failed
  }

  // ----- estimates

  lemma EstimateExact(p: Pool, s: Selection, u: TxId)
    requires p.Valid() && u in p.ancestors && u !in s.block.inBlock && u !in s.failed
    requires Tracks(p, s.cache, s.block.inBlock, s.block.inBlock, s.failed)
    ensures Exact(p, Estimate(p, s, u), Missing(p, s.block.inBlock, u))
  {
    hide Covers;
    hide Exact;
    hide FeesLeft;
    hide Whole;
    hide p.Totalled;
    assert Tracked(p, s.cache, s.block.inBlock, s.failed, u);
    if u !in s.cache {
      WholeIsExact(p, u);
      assert Missing(p, s.block.inBlock, u) == p.Family(u);
    }
  }

  /** The fees of a cached package are off by what was put on the fees of all ancestors taken but one. */
  lemma FeesDrift(p: Pool, s: Selection, t: TxId)
    requires p.Valid() && t in s.cache && t !in s.failed
    requires Tracks(p, s.cache, s.block.inBlock, s.block.inBlock, s.failed)
    ensures t in p.ancestors
    ensures var gone := p.ancestors[t] * s.block.inBlock;
      exists a :: a in gone &&
        s.cache[t].fees == FeesOf(p, s.block, t) + Total(p.modFee, gone - {a}) - Total(p.fee, gone - {a})
  {
    hide Total;
    hide Covers;
    hide Exact;
    hide p.Totalled;
    assert Tracked(p, s.cache, s.block.inBlock, s.failed, t);
    var gone, rest, fees := p.ancestors[t] * s.block.inBlock, Missing(p, s.block.inBlock, t), s.cache[t].fees;
    var a :| a in gone && fees == Total(p.modFee, p.Family(t)) - p.modFee[a] - Total(p.fee, gone - {a});
    assert p.Family(t) == rest + gone;
    Drifted(p, rest, gone, a);
  }

  lemma Drifted(p: Pool, rest: set<TxId>, gone: set<TxId>, a: TxId)
    requires p.Costed() && rest + gone <= p.ancestors.Keys && rest !! gone && a in gone
    ensures Total(p.modFee, rest + gone) - p.modFee[a] == Total(p.modFee, rest) + Total(p.modFee, gone - {a})
  {
    hide Total;
    TotalSplit(p.modFee, rest, gone);
    TotalRemove(p.modFee, gone, a);
  }

  /** Whoever is outside, has not failed and could be added is still to be looked at. */
  lemma StillWaits(p: Pool, r: Rules, order: seq<TxId>, s: Selection, u: TxId)
    requires p.Costed() && p.Acyclic() && Explained(p, r, order, s) && u in order
    requires u in p.ancestors && u !in s.block.inBlock && u !in s.failed && !Barred(p, r, s.block, u)
    ensures Waits(order, s, u)
  {
    hide Barred;
    hide WasBarred;
    var i :| 0 <= i < |order| && order[i] == u;
    if i < s.next {
      assert Settled(p, r, s, order[i]);
    }
  }

  lemma BestIsDeserved(p: Pool, r: Rules, perK: int, order: seq<TxId>, s: Selection, t: TxId)
    requires p.Valid() && Selecting(p, r, order, s) && (forall u :: u in p.ancestors ==> u in order)
    requires t in p.ancestors && t !in s.block.inBlock && t !in s.failed && p.fee == p.modFee
    requires Best(p, order, s, t) && FeeFor(perK, Estimate(p, s, t).size) <= Estimate(p, s, t).fees
    ensures Deserved(p, r, perK, s.block, s.failed, t)
  {
    hide FeeFor;
    hide Total;
    hide Barred;
    hide BlockOk;
    hide Explained;
    hide Estimate;
    hide Missing;
    hide Tracks;
    hide p.Totalled;
    hide p.Acyclic;
    hide p.Costed;
    EstimateExact(p, s, t);
    forall u | u in p.ancestors && u !in s.block.inBlock && u !in s.failed && !Barred(p, r, s.block, u) && u != t
      ensures FeesOf(p, s.block, u) * SizeOf(p, s.block, t) <= FeesOf(p, s.block, t) * SizeOf(p, s.block, u)
    {
      StillWaits(p, r, order, s, u);
      EstimateExact(p, s, u);
      assert Beats(Estimate(p, s, t), t, Estimate(p, s, u), u);
    }
  }

  /** If the best pays less than the minimum, all that could be added do. */
  lemma RestUnderpaid(p: Pool, r: Rules, perK: int, order: seq<TxId>, s: Selection, t: TxId, u: TxId)
    requires p.Valid() && Selecting(p, r, order, s) && u in order && Sized(p, s)
    requires t in p.ancestors && t !in s.block.inBlock && Best(p, order, s, t)
    requires Estimate(p, s, t).fees < FeeFor(perK, Estimate(p, s, t).size)
    requires u in p.ancestors && u !in s.block.inBlock && u !in s.failed && p.fee == p.modFee
    ensures Barred(p, r, s.block, u) || 1000 * FeesOf(p, s.block, u) < perK * SizeOf(p, s.block, u)
  {
    hide FeeFor;
    hide Total;
    hide Barred;
    hide BlockOk;
    hide Explained;
    hide Estimate;
    hide Missing;
    hide Tracks;
    hide p.Totalled;
    hide p.Acyclic;
    hide p.Costed;
    if !Barred(p, r, s.block, u) {
      StillWaits(p, r, order, s, u);
      EstimateExact(p, s, u);
      var a, b := Estimate(p, s, t), Estimate(p, s, u);
      FeeForRate(perK, a.size, a.fees);
      assert u != t ==> Beats(a, t, b, u);
      LowerRate(perK, a, b);
    }
  }

  lemma LowerRate(perK: int, a: Package, b: Package)
    requires 0 < a.size && 0 < b.size && 1000 * a.fees < perK * a.size && Cross(b, a) <= Cross(a, b)
    ensures 1000 * b.fees < perK * b.size
  {
    var x, y := 1000 * b.fees, perK * b.size;
    assert x * a.size == 1000 * (b.fees * a.size);
    assert y * a.size == (perK * a.size) * b.size;
    assert (1000 * a.fees) * b.size == 1000 * (a.fees * b.size);
    Scaled(1000 * a.fees, perK * a.size, b.size);
    StrictlyUnscaled(x, y, a.size);
  }

  lemma StrictlyUnscaled(x: int, y: int, k: int)
    requires x * k < y * k && 0 < k
    ensures x < y
  {
  }

  // ----- the steps

  lemma TakeAccounted(
    p: Pool, r: Rules, perK: int, start: Block, taken: seq<Taken>, s: Selection, t: TxId, s': Selection)
    requires p.Costed() && p.Acyclic() && Accounted(p, r, perK, start, taken, s)
    requires Fair(p, r, perK, Taken(t, s.block, s.failed)) && Joined(p, s.block, t, s'.block) && s'.failed == s.failed
    ensures Accounted(p, r, perK, start, taken + [Taken(t, s.block, s.failed)], s')
  {
    hide Fair;
    hide Joined;
    var more := taken + [Taken(t, s.block, s.failed)];
    assert more[..|more| - 1] == taken;
  }

  lemma StillAccounted(p: Pool, r: Rules, perK: int, start: Block, taken: seq<Taken>, s: Selection, s': Selection)
    requires p.Costed() && p.Acyclic() && Accounted(p, r, perK, start, taken, s)
    requires s'.block == s.block && s.failed <= s'.failed
    ensures Accounted(p, r, perK, start, taken, s')
  {
    hide Fair;
    hide Chained;
  }

  lemma SkipAway(p: Pool, r: Rules, order: seq<TxId>, s: Selection, away: set<TxId>)
    requires p.Costed() && p.Acyclic() && TurnedAway(p, r, order, s, away)
    ensures TurnedAway(p, r, order, Walked(s), away)
  {
    hide Barred;
    hide p.Costed;
    hide p.Acyclic;
  }

  lemma DropAway(p: Pool, r: Rules, order: seq<TxId>, s: Selection, away: set<TxId>, t: TxId)
    requires p.Costed() && p.Acyclic() && TurnedAway(p, r, order, s, away) && t in s.cache
    requires t in p.ancestors && t !in s.block.inBlock
    ensures TurnedAway(p, r, order, Dropped(s, t), away + {t}) && t !in away
    ensures TurnedAway(p, r, order, Dropped(s, t), away)
  {
    hide Barred;
    hide p.Costed;
    hide p.Acyclic;
  }

  /** Nobody comes twice in the walk. */
  lemma RankedOnce(p: Pool, order: seq<TxId>, i: nat, j: nat)
    requires p.Costed() && Ranked(p, order) && i < j < |order|
    ensures order[i] != order[j]
  {
    hide p.Costed;
    assert Beats(Whole(p, order[i]), order[i], Whole(p, order[j]), order[j]);
  }

  lemma PassAway(p: Pool, r: Rules, order: seq<TxId>, s: Selection, away: set<TxId>)
    requires p.Costed() && p.Acyclic() && TurnedAway(p, r, order, s, away) && Ranked(p, order)
    requires s.next < |order| && !Skippable(order, s) && Barred(p, r, s.block, order[s.next])
    ensures TurnedAway(p, r, order, Walked(s), away + {order[s.next]}) && order[s.next] !in away
  {
    hide Barred;
    hide Beats;
    hide p.Costed;
    hide p.Acyclic;
    forall j | s.next + 1 <= j < |order| ensures order[j] != order[s.next] {
      RankedOnce(p, order, s.next, j);
    }
  }
}
