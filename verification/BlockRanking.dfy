/** In which order packages are looked at, and what the minimum fee rate comes to. */
module BlockRanking {
  import opened TxPool
  import opened BlockAssembly

  // ----- fees

  /** `CFeeRate::GetFee`; the division truncates toward zero, and a rate never gives no fee for something. */
  function FeeFor(perK: int, size: int): int {
    var fee := if 0 <= perK * size then perK * size / 1000 else -(-(perK * size) / 1000);
    if fee == 0 && size != 0 then (if perK > 0 then 1 else if perK < 0 then -1 else 0) else fee
  }

  /** Whoever pays less than the fee pays less than the rate, and whoever pays a whole unit less than the rate, or
      nothing, pays less than the fee. */
  lemma FeeForRate(perK: int, size: int, fees: int)
    requires 0 < size
    ensures fees < FeeFor(perK, size) ==> 1000 * fees < perK * size
    ensures 0 <= perK && 1000 * (fees + 1) <= perK * size ==> fees < FeeFor(perK, size)
    ensures 0 < perK && fees <= 0 ==> fees < FeeFor(perK, size)
    ensures perK == 0 ==> FeeFor(perK, size) == 0
  {
    PositiveProduct(perK, size);
  }

  lemma PositiveProduct(perK: int, size: int)
    requires 0 < size
    ensures 0 < perK ==> 0 < perK * size
    ensures perK < 0 ==> perK * size < 0
  {
  }

  // ----- scores

  function Cross(a: Package, b: Package): int {
    a.fees * b.size
  }

  /** `CompareModifiedEntry` and `CompareTxMemPoolEntryByAncestorFee`: the higher fee rate wins, then the hash. */
  predicate Beats(a: Package, x: TxId, b: Package, y: TxId) {
    if Cross(a, b) == Cross(b, a) then x.hash < y.hash else Cross(a, b) > Cross(b, a)
  }

  lemma CrossTransitive(a: Package, b: Package, c: Package)
    requires 0 < a.size && 0 < b.size && 0 < c.size
    requires Cross(b, a) <= Cross(a, b) && Cross(c, b) <= Cross(b, c)
    ensures Cross(c, a) <= Cross(a, c)
    ensures Cross(c, a) == Cross(a, c) ==> Cross(b, a) == Cross(a, b) && Cross(c, b) == Cross(b, c)
  {
    var left, right := c.fees * a.size, a.fees * c.size;
    calc {
      left * b.size;
      == (c.fees * b.size) * a.size;
      <= { Scaled(c.fees * b.size, b.fees * c.size, a.size); }
      (b.fees * c.size) * a.size;
      == (b.fees * a.size) * c.size;
      <= { Scaled(b.fees * a.size, a.fees * b.size, c.size); }
      (a.fees * b.size) * c.size;
      == right * b.size;
    }
    Unscaled(left, right, b.size);
    Scaled(c.fees * b.size, b.fees * c.size, a.size);
    Scaled(b.fees * a.size, a.fees * b.size, c.size);
  }

  lemma Scaled(x: int, y: int, k: int)
    requires x <= y && 0 < k
    ensures x * k <= y * k && (x * k == y * k ==> x == y)
  {
  }

  lemma Unscaled(x: int, y: int, k: int)
    requires x * k <= y * k && 0 < k
    ensures x <= y
  {
  }

  lemma BeatsTransitive(a: Package, x: TxId, b: Package, y: TxId, c: Package, z: TxId)
    requires 0 < a.size && 0 < b.size && 0 < c.size
    requires Beats(a, x, b, y) && Beats(b, y, c, z)
    ensures Beats(a, x, c, z)
  {
    hide Cross;
    CrossTransitive(a, b, c);
  }

  lemma BeatsTotal(a: Package, x: TxId, b: Package, y: TxId)
    ensures x != y ==> (Beats(a, x, b, y) <==> !Beats(b, y, a, x))
  {
    hide Cross;
  }

  /** The walk over the mempool goes by score. */
  ghost predicate Ranked(p: Pool, order: seq<TxId>)
    requires p.Costed()
  {
    && (forall i :: 0 <= i < |order| ==> order[i] in p.ancestors)
    && forall i, j :: 0 <= i < j < |order| ==> Beats(Whole(p, order[i]), order[i], Whole(p, order[j]), order[j])
  }

  // ----- the candidate that is looked at

  /** `u` is still to be looked at: it is cached, or the walk has yet to come to it. */
  ghost predicate Waits(order: seq<TxId>, s: Selection, u: TxId) {
    || u in s.cache
    || (u !in s.block.inBlock && u !in s.failed && exists j :: s.next <= j < |order| && order[j] == u)
  }

  /** None of those still to be looked at has a better score. */
  ghost predicate Best(p: Pool, order: seq<TxId>, s: Selection, t: TxId)
    requires p.Costed() && t in p.ancestors
  {
    forall u :: u in p.ancestors && u != t && Waits(order, s, u) ==> Beats(Estimate(p, s, t), t, Estimate(p, s, u), u)
  }

  /** All packages that are compared have a size. */
  ghost predicate Sized(p: Pool, s: Selection)
    requires p.Costed()
  {
    forall u :: u in p.ancestors && u !in s.block.inBlock ==> 0 < Estimate(p, s, u).size
  }

  lemma MissingSize(p: Pool, inBlock: set<TxId>, t: TxId)
    requires p.Costed() && p.Acyclic() && t in p.ancestors && t !in inBlock
    ensures 0 < Total(p.size, Missing(p, inBlock, t))
  {
    hide Total;
    var k := Missing(p, inBlock, t);
    TotalRemove(p.size, k, t);
    TotalNonNegative(p.size, k - {t});
  }

  lemma SelectingSized(p: Pool, r: Rules, order: seq<TxId>, s: Selection)
    requires p.Valid() && Selecting(p, r, order, s)
    ensures Sized(p, s)
  {
    hide Total;
    hide BlockOk;
    hide Explained;
    hide p.Totalled;
    forall u | u in p.ancestors && u !in s.block.inBlock ensures 0 < Estimate(p, s, u).size {
      MissingSize(p, s.block.inBlock, u);
      MissingSize(p, {}, u);
      assert Missing(p, {}, u) == p.Family(u);
      WholeIsExact(p, u);
      assert Tracked(p, s.cache, s.block.inBlock, s.failed, u);
    }
  }

  /** The next of the walk, if it is not stale, beats the rest of the walk. */
  lemma NextIsBest(p: Pool, order: seq<TxId>, s: Selection, u: TxId)
    requires p.Costed() && Ranked(p, order) && s.next < |order| && !Skippable(order, s)
    requires u in p.ancestors && u != order[s.next] && u !in s.cache && Waits(order, s, u)
    ensures Beats(Estimate(p, s, order[s.next]), order[s.next], Estimate(p, s, u), u)
  {
    hide Beats;
    hide Whole;
  }

  /** The better one of the best cached entry and the next of the walk is the best of all. */
  lemma ChosenIsBest(p: Pool, order: seq<TxId>, s: Selection, c: TxId, t: TxId)
    requires p.Costed() && Ranked(p, order) && !Skippable(order, s) && Sized(p, s)
    requires s.cache.Keys <= p.ancestors.Keys - s.block.inBlock
    requires s.cache != map[] ==>
      c in s.cache && forall u :: u in s.cache && u != c ==> Beats(s.cache[c], c, s.cache[u], u)
    requires s.next <= |order| && t in p.ancestors
    requires
      if s.cache == map[] then s.next < |order| && t == order[s.next]
      else if s.next == |order| then t == c
      else t == if Beats(s.cache[c], c, Whole(p, order[s.next]), order[s.next]) then c else order[s.next]
    ensures Best(p, order, s, t)
  {
    hide Beats;
    hide Whole;
    forall u | u in p.ancestors && u != t && Waits(order, s, u)
      ensures Beats(Estimate(p, s, t), t, Estimate(p, s, u), u)
    {
      if s.next < |order| {
        var o := order[s.next];
        if u !in s.cache && u != o {
          NextIsBest(p, order, s, u);
        }
        if s.cache != map[] {
          BeatsTotal(s.cache[c], c, Whole(p, o), o);
          if t == c && u !in s.cache && u != o {
            BeatsTransitive(s.cache[c], c, Whole(p, o), o, Estimate(p, s, u), u);
          }
          if t == o && u in s.cache && u != c {
            BeatsTransitive(Whole(p, o), o, s.cache[c], c, s.cache[u], u);
          }
        }
      }
    }
  }
}
