/** A run of the package selection that leaves out an entry it could add. */
module BlockSurplus {
  import opened TxPool
  import opened BlockAssembly
  import opened BlockRanking
  import opened BlockAccount

  // ----- the loop as steps

  /** What the loop looks at next: the best that waits, if it pays the minimum. */
  ghost predicate Looks(p: Pool, perK: int, order: seq<TxId>, s: Selection, t: TxId)
    requires p.Costed() && t in p.ancestors
  {
    && !Skippable(order, s) && Candidate(order, s, t) && Best(p, order, s, t)
    && FeeFor(perK, Estimate(p, s, t).size) <= Estimate(p, s, t).fees
  }

  ghost predicate Skips(order: seq<TxId>, s: Selection, s': Selection) {
    Skippable(order, s) && s' == Walked(s)
  }

  ghost predicate Refuses(p: Pool, r: Rules, order: seq<TxId>, s: Selection, t: TxId, s': Selection)
    requires p.Costed() && t in p.ancestors
  {
    && Looks(p, RATE, order, s, t) && Refused(p, r, s, t)
    && s' == if t in s.cache then Dropped(s, t) else Walked(s)
  }

  /** The candidate is next in the walk and only itself is missing. */
  ghost predicate TakesNext(p: Pool, r: Rules, order: seq<TxId>, s: Selection, t: TxId, s': Selection)
    requires p.Costed() && t in p.ancestors
  {
    && Looks(p, RATE, order, s, t) && s.next < |order| && order[s.next] == t && !Refused(p, r, s, t)
    && Missing(p, s.block.inBlock, t) == {t}
    && s' == Selection(Added(p, s.block, t), Spread(p, s.cache - {t}, t, p.Descendants(t) - {t}), s.failed, s.next + 1)
  }

  ghost predicate Steps(p: Pool, r: Rules, order: seq<TxId>, s: Selection, s': Selection)
    requires p.Costed()
  {
    || Skips(order, s, s')
    || exists t :: t in p.ancestors && (Refuses(p, r, order, s, t, s') || TakesNext(p, r, order, s, t, s'))
  }

  ghost predicate IsRun(p: Pool, r: Rules, order: seq<TxId>, run: seq<Selection>)
    requires p.Costed()
  {
    run != [] && forall i :: 0 < i < |run| ==> Steps(p, r, order, run[i - 1], run[i])
  }

  // ----- the pool

  const A := TxId(1)
  const B := TxId(2)
  const T := TxId(3)

  function Three(a: int, b: int, t: int): (m: Costs)
    ensures m.Keys == {A, B, T} && m[A] == a && m[B] == b && m[T] == t
  {
    map[A := a, B := b, T := t]
  }

  function Parents(): (m: map<TxId, set<TxId>>)
    ensures m.Keys == {A, B, T} && m[A] == {} && m[B] == {} && m[T] == {A, B}
  {
    map[A := {}, B := {}, T := {A, B}]
  }

  /** T spends A and B; B counts for its sigops, four times what it weighs. */
  function Spender(): Pool {
    Pool(
      Parents(), Three(1000, 1000, 500), Three(4000, 1000, 2000), Three(0, 200, 0),
      Three(3000, 1000, 2000), Three(3000, 1000, 2000),
      Three(1000, 1000, 2500), Three(3000, 1000, 6000), Three(0, 200, 200), 20)
  }

  lemma Sizes()
    ensures VirtualSize(4000, 0, 20) == 1000 && VirtualSize(1000, 200, 20) == 1000 && VirtualSize(2000, 0, 20) == 500
  {
  }

  lemma Shape()
    ensures Spender().ancestors.Keys == {A, B, T} && Spender().Costed()
    ensures Spender().ancestors[A] == {} && Spender().ancestors[B] == {} && Spender().ancestors[T] == {A, B}
  {
    hide Three;
    hide Parents;
    hide VirtualSize;
    Sizes();
    var p := Spender();
    forall t | t in p.ancestors
      ensures 0 <= p.sigops[t] && 0 < p.weight[t] && p.size[t] == VirtualSize(p.weight[t], p.sigops[t], 20)
    {
      assert t == A || t == B || t == T;
    }
  }

  lemma SpenderAcyclic()
    ensures Spender().Acyclic()
  {
    hide Spender;
    Shape();
    var p := Spender();
    hide p.Costed;
    AcyclicAt(p, A);
    AcyclicAt(p, B);
    AcyclicAt(p, T);
    assert forall t :: t in p.ancestors ==> t == A || t == B || t == T;
  }

  lemma AcyclicAt(p: Pool, t: TxId)
    requires p.ancestors.Keys == {A, B, T} && t in p.ancestors
    requires p.ancestors[A] == {} && p.ancestors[B] == {} && p.ancestors[T] == {A, B}
    ensures t !in p.ancestors[t]
    ensures forall a :: a in p.ancestors[t] ==> a in p.ancestors && p.ancestors[a] <= p.ancestors[t]
  {
  }

  lemma TotalOfOne(cost: Costs, t: TxId)
    requires t in cost
    ensures Total(cost, {t}) == cost[t]
  {
    assert {} + {t} == {t};
    TotalAdd(cost, {}, t);
  }

  lemma TotalOfThree(cost: Costs)
    requires cost.Keys == {A, B, T}
    ensures Total(cost, {A, B, T}) == cost[A] + cost[B] + cost[T]
  {
    hide Total;
    TotalOfOne(cost, A);
    assert {A} + {B} == {A, B};
    TotalAdd(cost, {A}, B);
    assert {A, B} + {T} == {A, B, T};
    TotalAdd(cost, {A, B}, T);
  }

  /** The total with ancestors is right, for each cost. */
  ghost predicate Adds(cost: Costs, all: Costs) {
    && cost.Keys == all.Keys == {A, B, T}
    && all[A] == cost[A] && all[B] == cost[B] && all[T] == cost[A] + cost[B] + cost[T]
  }

  lemma SpenderAdds()
    ensures var p := Spender();
            && Adds(p.size, p.sizeWithAncestors) && Adds(p.modFee, p.modFeesWithAncestors)
            && Adds(p.sigops, p.sigopsWithAncestors)
  {
    hide Three;
    hide Parents;
    hide VirtualSize;
  }

  lemma AddsUp(cost: Costs, all: Costs)
    requires Adds(cost, all)
    ensures all[A] == Total(cost, {A}) && all[B] == Total(cost, {B}) && all[T] == Total(cost, {A, B, T})
  {
    hide Total;
    TotalOfOne(cost, A);
    TotalOfOne(cost, B);
    TotalOfThree(cost);
  }

  lemma SpenderFamilies()
    ensures Spender().Family(A) == {A} && Spender().Family(B) == {B} && Spender().Family(T) == {A, B, T}
  {
    hide Spender;
    Shape();
  }

  lemma SpenderValid()
    ensures Spender().Valid()
  {
    hide Spender;
    hide Total;
    hide Adds;
    var p := Spender();
    Shape();
    SpenderAcyclic();
    hide p.Acyclic;
    hide VirtualSize;
    SpenderAdds();
    SpenderFamilies();
    hide p.Family;
    AddsUp(p.size, p.sizeWithAncestors);
    AddsUp(p.modFee, p.modFeesWithAncestors);
    AddsUp(p.sigops, p.sigopsWithAncestors);
    forall t | t in p.ancestors
      ensures p.sizeWithAncestors[t] == Total(p.size, p.Family(t))
      ensures p.modFeesWithAncestors[t] == Total(p.modFee, p.Family(t))
      ensures p.sigopsWithAncestors[t] == Total(p.sigops, p.Family(t))
    {
      assert t == A || t == B || t == T;
    }
  }

  // ----- the run

  const RULES := Rules(13000, {A, B, T})
  /** The minimum is one unit of fee for each of size. */
  const RATE := 1000
  /** By fee rate with ancestors: 3, 2.4 and 1. */
  const ORDER := [A, T, B]

  const BLOCK_A := Block([A], {A}, 8000, 400, 1, 3000, [3000], [0])
  const BLOCK_AB := Block([A, B], {A, B}, 9000, 600, 2, 4000, [3000, 1000], [0, 200])

  const START := Selection(EMPTY, map[], {}, 0)
  const TOOK_A := Selection(BLOCK_A, map[T := Package(1500, 3000, 200)], {}, 1)
  const SKIPPED_T := Selection(BLOCK_A, map[T := Package(1500, 3000, 200)], {}, 2)
  const FAILED_T := Selection(BLOCK_A, map[], {T}, 2)
  const TOOK_B := Selection(BLOCK_AB, map[T := Package(1500, 5000, 0)], {T}, 3)
  const FAILED_AGAIN := Selection(BLOCK_AB, map[], {T}, 3)

  /** The fee rates that are compared. */
  lemma Rates()
    ensures Spender().Costed() && A in Spender().ancestors && B in Spender().ancestors && T in Spender().ancestors
    ensures Whole(Spender(), A) == Package(1000, 3000, 0) && Whole(Spender(), B) == Package(1000, 1000, 200)
    ensures Whole(Spender(), T) == Package(2500, 6000, 200)
  {
    hide Three;
    hide Parents;
    hide VirtualSize;
    Shape();
  }

  lemma SpenderRanked()
    ensures Spender().Costed() && Ranked(Spender(), ORDER)
  {
    hide Spender;
    hide Whole;
    Rates();
  }

  lemma LooksAtA()
    ensures Spender().Costed() && A in Spender().ancestors && Looks(Spender(), RATE, ORDER, START, A)
  {
    hide Spender;
    hide Whole;
    Shape();
    Rates();
  }

  lemma LooksAtT()
    ensures Spender().Costed() && T in Spender().ancestors && Looks(Spender(), RATE, ORDER, SKIPPED_T, T)
  {
    hide Spender;
    hide Whole;
    Shape();
    Rates();
  }

  lemma LooksAtB()
    ensures Spender().Costed() && B in Spender().ancestors && Looks(Spender(), RATE, ORDER, FAILED_T, B)
  {
    hide Spender;
    hide Whole;
    Shape();
    Rates();
  }

  lemma LooksAtTAgain()
    ensures Spender().Costed() && T in Spender().ancestors && Looks(Spender(), RATE, ORDER, TOOK_B, T)
  {
    hide Spender;
    hide Whole;
    Shape();
    Rates();
  }

  /** T's package loses A or B, the one that is taken. */
  lemma SpreadToT()
    ensures Spender().Costed() && Spender().Descendants(A) - {A} == {T} && Spender().Descendants(B) - {B} == {T}
    ensures Spread(Spender(), map[] - {A}, A, {T}) == map[T := Package(1500, 3000, 200)]
    ensures Spread(Spender(), map[] - {B}, B, {T}) == map[T := Package(1500, 5000, 0)]
  {
    hide Three;
    hide Parents;
    hide VirtualSize;
    var p := Spender();
    Shape();
    hide p.Costed;
    assert p.Descendants(A) - {A} == {T} && p.Descendants(B) - {B} == {T};
    assert Reduced(p, map[], A, T) == Package(1500, 3000, 200);
    assert Reduced(p, map[], B, T) == Package(1500, 5000, 0);
  }

  lemma GoesA()
    ensures Spender().Costed() && A in Spender().ancestors
    ensures Missing(Spender(), {}, A) == {A} && !Refused(Spender(), RULES, START, A)
  {
    hide Three;
    hide Parents;
    hide VirtualSize;
    Shape();
    assert Spender().sizeWithAncestors[A] == 1000 && Spender().sigopsWithAncestors[A] == 0;
    hide Spender;
  }

  lemma GoesB()
    ensures Spender().Costed() && B in Spender().ancestors
    ensures Missing(Spender(), {A}, B) == {B} && !Refused(Spender(), RULES, FAILED_T, B)
  {
    hide Three;
    hide Parents;
    hide VirtualSize;
    Shape();
    assert Spender().sizeWithAncestors[B] == 1000 && Spender().sigopsWithAncestors[B] == 200;
    hide Spender;
  }

  lemma Appended()
    ensures Spender().Costed() && A in Spender().ancestors && B in Spender().ancestors
    ensures Added(Spender(), EMPTY, A) == BLOCK_A && Added(Spender(), BLOCK_A, B) == BLOCK_AB
  {
    hide Three;
    hide Parents;
    hide VirtualSize;
    Shape();
    assert {A} + {B} == {A, B} && {} + {A} == {A};
  }

  lemma TakeA()
    ensures Spender().Costed() && A in Spender().ancestors && TakesNext(Spender(), RULES, ORDER, START, A, TOOK_A)
  {
    hide Spender;
    hide Refused;
    hide Added;
    hide Spread;
    hide Missing;
    hide Looks;
    LooksAtA();
    SpreadToT();
    GoesA();
    Appended();
  }

  lemma SkipT()
    ensures Skips(ORDER, TOOK_A, SKIPPED_T)
  {
  }

  lemma FailT()
    ensures Spender().Costed() && Refuses(Spender(), RULES, ORDER, SKIPPED_T, T, FAILED_T)
  {
    hide Three;
    hide Parents;
    hide VirtualSize;
    hide Looks;
    LooksAtT();
    Shape();
    assert map[T := Package(1500, 3000, 200)] - {T} == map[];
  }

  lemma TakeB()
    ensures Spender().Costed() && B in Spender().ancestors && TakesNext(Spender(), RULES, ORDER, FAILED_T, B, TOOK_B)
  {
    hide Spender;
    hide Refused;
    hide Added;
    hide Spread;
    hide Missing;
    hide Looks;
    LooksAtB();
    SpreadToT();
    GoesB();
    Appended();
  }

  lemma FailTAgain()
    ensures Spender().Costed() && Refuses(Spender(), RULES, ORDER, TOOK_B, T, FAILED_AGAIN)
  {
    hide Three;
    hide Parents;
    hide VirtualSize;
    hide Looks;
    LooksAtTAgain();
    Shape();
    assert map[T := Package(1500, 5000, 0)] - {T} == map[];
  }

  lemma StillFits()
    ensures Spender().Costed() && Spender().Acyclic()
    ensures !Barred(Spender(), RULES, BLOCK_AB, T)
  {
    hide Total;
    Shape();
    SpenderAcyclic();
    var p := Spender();
    assert p.size[T] == 500 && p.sigops[T] == 0;
    hide Spender;
    TotalOfOne(p.size, T);
    TotalOfOne(p.sigops, T);
    assert Missing(p, {A, B}, T) == {T};
  }

  /** The run goes to its end and leaves out T, which failed before B was taken and would fit now, because B
      weighs less than it counted for. */
  lemma FailedButFits() returns (run: seq<Selection>)
    ensures Spender().Valid() && Ranked(Spender(), ORDER) && IsRun(Spender(), RULES, ORDER, run)
    ensures run[0] == START
    ensures
      var last := run[|run| - 1];
      && last.next == |ORDER| && last.cache == map[] && T !in last.block.inBlock && T in last.failed
      && !Barred(Spender(), RULES, last.block, T)
  {
    hide Spender;
    hide Skips;
    hide Refuses;
    hide TakesNext;
    hide Barred;
    hide Steps;
    hide Ranked;
    SpenderValid();
    SpenderRanked();
    StillFits();
    var p := Spender();
    run := [START, TOOK_A, SKIPPED_T, FAILED_T, TOOK_B, FAILED_AGAIN];
    AllSteps();
  }

  lemma AllSteps()
    ensures Spender().Costed()
    ensures Steps(Spender(), RULES, ORDER, START, TOOK_A)
    ensures Steps(Spender(), RULES, ORDER, TOOK_A, SKIPPED_T)
    ensures Steps(Spender(), RULES, ORDER, SKIPPED_T, FAILED_T)
    ensures Steps(Spender(), RULES, ORDER, FAILED_T, TOOK_B)
    ensures Steps(Spender(), RULES, ORDER, TOOK_B, FAILED_AGAIN)
  {
    hide Spender;
    hide Skips;
    hide Refuses;
    hide TakesNext;
    Shape();
    TakeA();
    SkipT();
    FailT();
    TakeB();
    FailTAgain();
  }

  // ----- modified fees

  /** The same transactions, with 500 put on the fee of B. */
  function Favoured(): Pool {
    Spender().(modFee := Three(3000, 1500, 2000), modFeesWithAncestors := Three(3000, 1500, 6500))
  }

  lemma FavouredTotals()
    ensures Favoured().Costed() && A in Favoured().ancestors && B in Favoured().ancestors && T in Favoured().ancestors
    ensures Whole(Favoured(), T) == Package(2500, 6500, 200)
    ensures Favoured().modFee[A] == 3000 && Favoured().modFee[B] == 1500 && Favoured().modFee[T] == 2000
    ensures Favoured().fee[B] == 1000
  {
    hide Three;
    hide Parents;
    hide VirtualSize;
    Shape();
  }

  /** When A and then B are taken, T is cached with 2500, although it pays 2000: only the plain fee of B is taken
      off. */
  lemma PlainFeeTaken()
    ensures var p := Favoured();
      && p.Costed() && A in p.ancestors && B in p.ancestors && T in p.ancestors
      && var m := Spread(p, Spread(p, map[], A, {T}), B, {T});
      T in m && m[T].fees == 2500 && p.modFee[T] == 2000
  {
    hide Favoured;
    hide Whole;
    FavouredTotals();
    var p := Favoured();
    hide p.Costed;
  }
}
