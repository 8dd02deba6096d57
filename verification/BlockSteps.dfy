/** The steps of the selection loop with the account that is kept of them. */
module BlockSteps {
  import opened TxPool
  import opened BlockAssembly
  import opened BlockRanking
  import opened BlockAccount

  /** What a selection is about: the pool, the limits, the minimum rate, the walk and the block at the start. */
  datatype Goal = Goal(p: Pool, r: Rules, perK: int, order: seq<TxId>, start: Block)

  ghost predicate Proper(g: Goal) {
    && g.p.Valid() && Ranked(g.p, g.order)
    && forall u :: u in g.p.ancestors ==> u in g.order
  }

  ghost predicate Going(g: Goal, s: Selection, taken: seq<Taken>, away: set<TxId>) {
    && Proper(g) && Selecting(g.p, g.r, g.order, s)
    && Accounted(g.p, g.r, g.perK, g.start, taken, s) && TurnedAway(g.p, g.r, g.order, s, away)
  }

  lemma Starts(g: Goal, s: Selection)
    requires g.p.Valid() && Ranked(g.p, g.order) && Elems(g.order) == g.p.ancestors.Keys
    requires BlockOk(g.p, s.block) && Limited(g.r, s.block) && s.failed == {} && s.next == 0 && s.block == g.start
    requires Tracks(g.p, s.cache, s.block.inBlock, s.block.inBlock, {})
    ensures Going(g, s, [], {})
  {
    hide Selecting;
    hide Accounted;
    hide TurnedAway;
    hide Ranked;
    hide BlockOk;
    hide Tracks;
    hide Limited;
    hide Elems;
    hide g.p.Acyclic;
    hide g.p.Costed;
    hide g.p.Totalled;
    assert s == Selection(s.block, s.cache, {}, 0);
    OrderKnown(g.p, g.order);
    SelectionStarts(g.p, g.r, g.order, s.block, s.cache);
    AccountStarts(g.p, g.r, g.perK, g.order, s);
  }

  lemma Skip(g: Goal, s: Selection, taken: seq<Taken>, away: set<TxId>)
    requires Going(g, s, taken, away) && Skippable(g.order, s)
    ensures Going(g, Walked(s), taken, away)
  {
    hide Selecting;
    hide Accounted;
    hide TurnedAway;
    hide Ranked;
    RankedKnown(g.p, g.order);
    SkipKeeps(g.p, g.r, g.order, s);
    SkipAway(g.p, g.r, g.order, s, away);
    StillAccounted(g.p, g.r, g.perK, g.start, taken, s, Walked(s));
  }

  lemma RankedKnown(p: Pool, order: seq<TxId>)
    requires p.Costed() && Ranked(p, order)
    ensures forall i :: 0 <= i < |order| ==> order[i] in p.ancestors
  {
  }

  lemma Ready(g: Goal, s: Selection, taken: seq<Taken>, away: set<TxId>)
    requires Going(g, s, taken, away)
    ensures g.p.Costed() && Ranked(g.p, g.order) && Sized(g.p, s)
    ensures s.cache.Keys <= g.p.ancestors.Keys - s.block.inBlock
  {
    hide Selecting;
    hide Accounted;
    hide TurnedAway;
    hide Ranked;
    hide g.p.Acyclic;
    hide g.p.Costed;
    hide g.p.Totalled;
    SelectingFacts(g.p, g.r, g.order, s);
    SelectingSized(g.p, g.r, g.order, s);
  }

  lemma Looked(g: Goal, s: Selection, taken: seq<Taken>, away: set<TxId>, t: TxId)
    requires Going(g, s, taken, away) && Candidate(g.order, s, t)
    ensures g.p.Valid() && t in g.p.ancestors && t !in s.block.inBlock && BlockOk(g.p, s.block)
    ensures Tracks(g.p, s.cache, s.block.inBlock, s.block.inBlock, s.failed)
  {
    hide Selecting;
    hide Accounted;
    hide TurnedAway;
    hide Ranked;
    hide g.p.Acyclic;
    hide g.p.Costed;
    hide g.p.Totalled;
    RankedKnown(g.p, g.order);
    SelectingFacts(g.p, g.r, g.order, s);
    CandidateIsOut(g.p, g.order, s, t);
  }

  ghost function Without(s: Selection, t: TxId): Selection {
    if t in s.cache then Dropped(s, t) else Walked(s)
  }

  lemma TurnDown(g: Goal, s: Selection, taken: seq<Taken>, away: set<TxId>, t: TxId)
    requires Going(g, s, taken, away) && t in g.p.ancestors && t !in s.block.inBlock
    requires t in s.cache || (s.next < |g.order| && g.order[s.next] == t && !Skippable(g.order, s))
    requires g.p.Costed() && Refused(g.p, g.r, s, t)
    ensures Going(g, Without(s, t), taken, away + {t}) && Going(g, Without(s, t), taken, away) && t !in away
  {
    hide Selecting;
    hide Accounted;
    hide TurnedAway;
    hide Ranked;
    hide Refused;
    hide g.p.Acyclic;
    hide g.p.Costed;
    hide g.p.Totalled;
    TurnedDown(g.p, g.r, g.order, s, t);
    UnfitAway(g.p, g.r, g.order, s, t, away);
    NotFinalAway(g.p, g.r, g.order, s, t, away);
    StillAccounted(g.p, g.r, g.perK, g.start, taken, s, Without(s, t));
  }

  lemma Take(g: Goal, s: Selection, taken: seq<Taken>, away: set<TxId>, t: TxId, s': Selection)
    requires Going(g, s, taken, away) && t in g.p.ancestors && t !in s.block.inBlock && Candidate(g.order, s, t)
    requires g.p.Valid() && Best(g.p, g.order, s, t) && !Refused(g.p, g.r, s, t)
    requires FeeFor(g.perK, Estimate(g.p, s, t).size) <= Estimate(g.p, s, t).fees
    requires BlockOk(g.p, s'.block) && Joined(g.p, s.block, t, s'.block)
    requires Tracks(g.p, s'.cache, s'.block.inBlock, s'.block.inBlock, s'.failed) && s'.failed == s.failed
    requires s'.next == s.next || (s'.next == s.next + 1 && s.next < |g.order| && g.order[s.next] == t)
    ensures Going(g, s', taken + [Taken(t, s.block, s.failed)], {})
  {
    hide Selecting;
    hide Accounted;
    hide TurnedAway;
    hide Ranked;
    hide Refused;
    hide Best;
    hide Fair;
    hide FeeFor;
    hide BlockOk;
    hide Tracks;
    hide Estimate;
    hide g.p.Acyclic;
    hide g.p.Costed;
    hide g.p.Totalled;
    FairTake(g.p, g.r, g.perK, g.order, s, t);
    TakeKeeps(g.p, g.r, g.order, s, t, s');
    TakeAccounted(g.p, g.r, g.perK, g.start, taken, s, t, s');
    NobodyAway(g.p, g.r, g.order, s');
  }

  // ----- the ends of the loop

  /** What holds at every end. */
  lemma Ends(g: Goal, s: Selection, taken: seq<Taken>, away: set<TxId>)
    requires Going(g, s, taken, away)
    ensures g.p.Valid() && BlockOk(g.p, s.block) && Limited(g.r, s.block)
    ensures forall t :: t in s.failed ==> t in g.p.ancestors && WasBarred(g.p, g.r, s.block, t)
    ensures Accounted(g.p, g.r, g.perK, g.start, taken, Selection(s.block, map[], s.failed, 0))
    ensures forall t :: t in away ==>
      t in g.p.ancestors && t !in s.block.inBlock && (t in s.failed || Barred(g.p, g.r, s.block, t))
  {
    hide Selecting;
    hide Accounted;
    hide TurnedAway;
    hide Ranked;
    hide BlockOk;
    hide Barred;
    hide WasBarred;
    hide g.p.Acyclic;
    hide g.p.Costed;
    hide g.p.Totalled;
    SelectingFacts(g.p, g.r, g.order, s);
    AwayMeans(g.p, g.r, g.order, s, away);
    StillAccounted(g.p, g.r, g.perK, g.start, taken, s, Selection(s.block, map[], s.failed, 0));
  }

  lemma EndsUnderpaid(g: Goal, s: Selection, taken: seq<Taken>, away: set<TxId>, t: TxId)
    requires Going(g, s, taken, away) && g.p.Valid() && t in g.p.ancestors && t !in s.block.inBlock
    requires Best(g.p, g.order, s, t) && Estimate(g.p, s, t).fees < FeeFor(g.perK, Estimate(g.p, s, t).size)
    ensures BlockOk(g.p, s.block) && Limited(g.r, s.block)
    ensures forall t :: t in s.failed ==> t in g.p.ancestors && WasBarred(g.p, g.r, s.block, t)
    ensures Accounted(g.p, g.r, g.perK, g.start, taken, Selection(s.block, map[], s.failed, 0))
    ensures g.p.fee == g.p.modFee ==> forall u :: u in g.p.ancestors && u !in s.block.inBlock && u !in s.failed ==>
      Barred(g.p, g.r, s.block, u) || 1000 * FeesOf(g.p, s.block, u) < g.perK * SizeOf(g.p, s.block, u)
  {
    hide Selecting;
    hide Accounted;
    hide TurnedAway;
    hide Ranked;
    hide BlockOk;
    hide Barred;
    hide WasBarred;
    hide Best;
    hide FeeFor;
    hide Estimate;
    hide FeesOf;
    hide SizeOf;
    hide g.p.Acyclic;
    hide g.p.Costed;
    hide g.p.Totalled;
    Ends(g, s, taken, away);
    SelectingSized(g.p, g.r, g.order, s);
    UnderpaidEnd(g.p, g.r, g.perK, g.order, s, t);
  }

  lemma EndsExhausted(g: Goal, s: Selection, taken: seq<Taken>, away: set<TxId>)
    requires Going(g, s, taken, away) && g.p.Valid() && s.next == |g.order| && s.cache == map[]
    ensures forall t :: t in g.p.ancestors && t !in s.block.inBlock ==>
      (t in s.failed || Barred(g.p, g.r, s.block, t)) && BarredWithoutSurplus(g.p, g.r, s.block, t)
  {
    hide Selecting;
    hide Accounted;
    hide TurnedAway;
    hide Ranked;
    hide Barred;
    hide BarredWithoutSurplus;
    hide g.p.Acyclic;
    hide g.p.Costed;
    hide g.p.Totalled;
    forall t | t in g.p.ancestors && t !in s.block.inBlock
      ensures (t in s.failed || Barred(g.p, g.r, s.block, t)) && BarredWithoutSurplus(g.p, g.r, s.block, t)
    {
      SelectionEnds(g.p, g.r, g.order, s, t);
    }
  }

  lemma OrderKnown(p: Pool, order: seq<TxId>)
    requires Elems(order) == p.ancestors.Keys
    ensures forall i :: 0 <= i < |order| ==> order[i] in p.ancestors
    ensures forall t :: t in p.ancestors ==> t in order
  {
    forall i | 0 <= i < |order| ensures order[i] in p.ancestors {
      assert order[i] in Elems(order);
    }
    forall t | t in p.ancestors ensures t in order {
      assert t in Elems(order);
    }
  }

  lemma SelectingFacts(p: Pool, r: Rules, order: seq<TxId>, s: Selection)
    requires p.Costed() && p.Acyclic() && Selecting(p, r, order, s)
    ensures BlockOk(p, s.block) && Limited(r, s.block) && s.failed <= p.ancestors.Keys
    ensures s.cache.Keys <= p.ancestors.Keys - s.block.inBlock
    ensures forall t :: t in s.failed ==> t in p.ancestors && WasBarred(p, r, s.block, t)
    ensures Tracks(p, s.cache, s.block.inBlock, s.block.inBlock, s.failed)
  {
  }

  /** A candidate that is turned down is dropped if it was cached, and walked past otherwise. */
  lemma TurnedDown(p: Pool, r: Rules, order: seq<TxId>, s: Selection, t: TxId)
    requires p.Valid() && Selecting(p, r, order, s) && t in p.ancestors && Refused(p, r, s, t)
    ensures t in s.cache ==> Selecting(p, r, order, Dropped(s, t))
    ensures s.next < |order| && order[s.next] == t && !Skippable(order, s) ==> Selecting(p, r, order, Walked(s))
  {
    hide Selecting;
    hide p.Acyclic;
    hide p.Costed;
    hide p.Totalled;
    hide Refused;
    if t in s.cache {
      DropKeeps(p, r, order, s, t);
    }
    if s.next < |order| && order[s.next] == t && !Skippable(order, s) {
      PassKeeps(p, r, order, s, t);
    }
  }

  lemma CachedSized(p: Pool, s: Selection)
    requires p.Costed() && Sized(p, s) && s.cache.Keys <= p.ancestors.Keys - s.block.inBlock
    ensures forall u :: u in s.cache ==> 0 < s.cache[u].size
  {
    forall u | u in s.cache ensures 0 < s.cache[u].size {
      assert Estimate(p, s, u) == s.cache[u];
    }
  }

  lemma {:induction false} AddedAllAppends(p: Pool, b: Block, s: seq<TxId>, n: nat)
    requires p.Costed() && n <= |s| && forall i :: 0 <= i < |s| ==> s[i] in p.ancestors
    ensures AddedAll(p, b, s, n).vtx == b.vtx + s[..n]
  {
    hide p.Costed;
    if n != 0 {
      AddedAllAppends(p, b, s, n - 1);
      assert s[..n] == s[..n - 1] + [s[n - 1]];
    }
  }

  lemma AccountStarts(p: Pool, r: Rules, perK: int, order: seq<TxId>, s: Selection)
    requires p.Costed() && p.Acyclic()
    ensures Accounted(p, r, perK, s.block, [], s) && TurnedAway(p, r, order, s, {})
  {
  }

  lemma NobodyAway(p: Pool, r: Rules, order: seq<TxId>, s: Selection)
    requires p.Costed() && p.Acyclic()
    ensures TurnedAway(p, r, order, s, {})
  {
  }

  lemma AwayMeans(p: Pool, r: Rules, order: seq<TxId>, s: Selection, away: set<TxId>)
    requires p.Costed() && p.Acyclic() && TurnedAway(p, r, order, s, away)
    ensures forall t :: t in away ==>
      t in p.ancestors && t !in s.block.inBlock && (t in s.failed || Barred(p, r, s.block, t))
  {
    hide Barred;
  }

  /** A candidate that does not fit is one more that was turned away. */
  lemma UnfitAway(p: Pool, r: Rules, order: seq<TxId>, s: Selection, t: TxId, away: set<TxId>)
    requires p.Valid() && Selecting(p, r, order, s) && Ranked(p, order) && TurnedAway(p, r, order, s, away)
    requires t in p.ancestors && t !in s.block.inBlock && Refused(p, r, s, t)
    requires t in s.cache || (s.next < |order| && order[s.next] == t && !Skippable(order, s))
    ensures t !in away
    ensures TurnedAway(p, r, order, if t in s.cache then Dropped(s, t) else Walked(s), away + {t})
  {
    hide TurnedAway;
    hide BlockOk;
    hide Tracks;
    hide Barred;
    hide WasBarred;
    hide Refused;
    hide Ranked;
    hide p.Acyclic;
    hide p.Costed;
    hide p.Totalled;
    if t in s.cache {
      DropAway(p, r, order, s, away, t);
    } else {
      RefusedIsBarred(p, r, order, s, t);
      PassAway(p, r, order, s, away);
    }
  }

  /** One that is not allowed is given up too, but not counted. */
  lemma NotFinalAway(p: Pool, r: Rules, order: seq<TxId>, s: Selection, t: TxId, away: set<TxId>)
    requires p.Costed() && p.Acyclic() && TurnedAway(p, r, order, s, away)
    requires t in p.ancestors && t !in s.block.inBlock
    ensures TurnedAway(p, r, order, if t in s.cache then Dropped(s, t) else Walked(s), away)
  {
    hide TurnedAway;
    hide p.Acyclic;
    hide p.Costed;
    if t in s.cache {
      DropAway(p, r, order, s, away, t);
    } else {
      SkipAway(p, r, order, s, away);
    }
  }

  lemma UnderpaidEnd(p: Pool, r: Rules, perK: int, order: seq<TxId>, s: Selection, t: TxId)
    requires p.Valid() && Selecting(p, r, order, s) && Sized(p, s) && (forall u :: u in p.ancestors ==> u in order)
    requires t in p.ancestors && t !in s.block.inBlock && Best(p, order, s, t)
    requires Estimate(p, s, t).fees < FeeFor(perK, Estimate(p, s, t).size)
    ensures p.fee == p.modFee ==> forall u :: u in p.ancestors && u !in s.block.inBlock && u !in s.failed ==>
      Barred(p, r, s.block, u) || 1000 * FeesOf(p, s.block, u) < perK * SizeOf(p, s.block, u)
  {
    hide FeeFor;
    hide Selecting;
    hide Barred;
    hide Best;
    hide Estimate;
    hide FeesOf;
    hide SizeOf;
    hide Sized;
    hide p.Acyclic;
    hide p.Costed;
    hide p.Totalled;
    if p.fee == p.modFee {
      forall u | u in p.ancestors && u !in s.block.inBlock && u !in s.failed
        ensures Barred(p, r, s.block, u) || 1000 * FeesOf(p, s.block, u) < perK * SizeOf(p, s.block, u)
      {
        RestUnderpaid(p, r, perK, order, s, t, u);
      }
    }
  }

  lemma FairTake(p: Pool, r: Rules, perK: int, order: seq<TxId>, s: Selection, t: TxId)
    requires p.Valid() && Selecting(p, r, order, s) && (forall u :: u in p.ancestors ==> u in order)
    requires t in p.ancestors && t !in s.block.inBlock && Best(p, order, s, t)
    requires FeeFor(perK, Estimate(p, s, t).size) <= Estimate(p, s, t).fees
    ensures Fair(p, r, perK, Taken(t, s.block, s.failed))
  {
    hide FeeFor;
    hide Selecting;
    hide Best;
    hide Estimate;
    hide Deserved;
    hide p.Acyclic;
    hide p.Costed;
    hide p.Totalled;
    if t !in s.failed && p.fee == p.modFee {
      BestIsDeserved(p, r, perK, order, s, t);
    }
  }

  lemma BlockKnown(p: Pool, b: Block)
    requires p.Costed() && BlockOk(p, b)
    ensures b.inBlock <= p.ancestors.Keys
  {
  }

  lemma BlockClosed(p: Pool, b: Block)
    requires p.Costed() && BlockOk(p, b)
    ensures forall t :: t in b.inBlock ==> t in p.ancestors && p.ancestors[t] <= b.inBlock
  {
    forall t | t in b.inBlock ensures t in p.ancestors && p.ancestors[t] <= b.inBlock {
      Closed(p, b, t);
    }
  }
}
