/** In which direction and how far the rules move a target, and what the next target depends on. */
module RetargetEffects {
  import opened Basics
  import opened Powers
  import opened Compact
  import opened Retarget

  // ----- a target scaled by a timespan

  /** A timespan that is exactly right leaves a target as it is. */
  lemma ScaledAtPar(t: nat, span: nat)
    requires 0 < span
    ensures Quotient(Times(t, span), span) == t
  {
    QuotientIs(Times(t, span), span, t);
  }

  /** A longer timespan never gives a lower target. */
  lemma ScaledGrows(t: nat, actual: nat, longer: nat, span: nat)
    requires 0 < span && actual <= longer
    ensures Quotient(Times(t, actual), span) <= Quotient(Times(t, longer), span)
  {
    hide Quotient;
    MulGrows(actual, longer, t);
    QuotientGrows(Times(t, actual), Times(t, longer), span);
  }

  lemma QuotientGrows(v: nat, w: nat, d: nat)
    requires 0 < d && v <= w
    ensures Quotient(v, d) <= Quotient(w, d)
  {
    hide Quotient;
    var q := Quotient(v, d);
    QuotientAtLeast(w, d, q);
  }

  lemma ScaledToPart(t: nat, part: nat, factor: nat)
    requires 0 < part && 0 < factor
    ensures 0 < Times(part, factor) && Quotient(Times(t, part), Times(part, factor)) == Quotient(t, factor)
  {
    hide Quotient;
    Multiples(part, factor);
    var q, d := Quotient(t, factor), part * factor;
    MulGrows(q * factor, t, part);
    MulGrowsStrictly(t, q * factor + factor, part);
    Distribute(q * factor, factor, part);
    Associate(q, factor, part);
    Commute(factor, part);
    QuotientIs(Times(t, part), d, q);
  }

  lemma ScaledToMultiple(t: nat, span: nat, factor: nat)
    requires 0 < span
    ensures Quotient(Times(t, Times(span, factor)), span) == Times(t, factor)
  {
    Associate(t, factor, span);
    Commute(factor, span);
    QuotientIs(Times(t, Times(span, factor)), span, Times(t, factor));
  }

  // ----- DarkGravityWave

  /** The time from the oldest block counted to the newest. */
  function DgwSpan(chain: seq<Header>): int
    requires PAST_BLOCKS < |chain|
  {
    chain[|chain| - 1].time - chain[|chain| - PAST_BLOCKS].time
  }

  /** The mean scaled by the timespan, exactly as far as the timespan is within a factor of three: a right timespan
      keeps the mean, a third or less gives a third of it, three times or more gives three times it, and in between
      it is the exact ratio rounded down. */
  lemma DgwScales(p: Params, chain: seq<Header>)
    requires PAST_BLOCKS < |chain| && 0 < p.spacing
    ensures var m, t := Mean(chain, PAST_BLOCKS), DgwTarget(p, chain);
      var span, actual := PAST_BLOCKS * p.spacing, DgwSpan(chain);
      && (actual == span ==> t == m)
      && (3 * actual <= span ==> t == Quotient(m, 3))
      && (span * 3 <= actual ==> t == Times(m, 3))
      && (span <= 3 * actual && actual <= span * 3 ==> Times(t, span) <= Times(m, actual) < Times(t, span) + span)
  {
    hide Mean;
    hide Quotient;
    hide Times;
    var m, span, actual := Mean(chain, PAST_BLOCKS), PAST_BLOCKS * p.spacing, DgwSpan(chain);
    ThirdOf(p.spacing);
    ScaledAtPar(m, span);
    ScaledToPart(m, 60 * p.spacing, 3);
    ScaledToMultiple(m, span, 3);
    TimesThree(60 * p.spacing, span);
    QuotientSpan(Times(m, Clamp(actual, span / 3, span * 3)), span);
  }

  lemma ThirdOf(spacing: nat)
    ensures PAST_BLOCKS * spacing / 3 == 60 * spacing
  {
    DivUnique(PAST_BLOCKS * spacing, 3, 60 * spacing, 0);
  }

  lemma TimesThree(a: nat, b: nat)
    ensures Times(a, 3) == a * 3 && Times(b, 3) == b * 3
  {
  }

  lemma QuotientSpan(v: nat, d: nat)
    requires 0 < d
    ensures Times(Quotient(v, d), d) <= v < Times(Quotient(v, d), d) + d
  {
  }

  ghost predicate SameBits(chain: seq<Header>, other: seq<Header>) {
    |chain| == |other| && forall h :: 0 <= h < |chain| ==> chain[h].nBits == other[h].nBits
  }

  lemma {:induction false} SameMean(chain: seq<Header>, other: seq<Header>, n: nat)
    requires 1 <= n <= |chain| && n <= |other|
    requires forall i :: 0 <= i < n ==> PastTarget(chain, i) == PastTarget(other, i)
    ensures Mean(chain, n) == Mean(other, n)
  {
    hide PastTarget;
    if n != 1 {
      SameMean(chain, other, n - 1);
    }
  }

  /** Of two chains with the same targets, the one that took longer never has the lower target. */
  lemma DgwSlower(p: Params, chain: seq<Header>, slower: seq<Header>)
    requires PAST_BLOCKS < |chain| && 0 < p.spacing && SameBits(chain, slower) && DgwSpan(chain) <= DgwSpan(slower)
    ensures DgwTarget(p, chain) <= DgwTarget(p, slower)
  {
    hide Mean;
    hide Quotient;
    hide Times;
    hide Target;
    var span := PAST_BLOCKS * p.spacing;
    SameMean(chain, slower, PAST_BLOCKS);
    ScaledGrows(Mean(chain, PAST_BLOCKS), Clamp(DgwSpan(chain), span / 3, span * 3),
                Clamp(DgwSpan(slower), span / 3, span * 3), span);
  }

  // ----- the Bitcoin rule

  /** The same with a factor of four, for the last target and the time since the first block of the interval. */
  lemma BtcScales(p: Params, last: Header, firstTime: int)
    requires 0 < p.timespan && p.timespan % 4 == 0
    ensures var m, t := Target(last.nBits), BtcTarget(p, last, firstTime);
      var span, actual := p.timespan, last.time - firstTime;
      && (actual == span ==> t == m)
      && (4 * actual <= span ==> t == Quotient(m, 4))
      && (span * 4 <= actual ==> t == Times(m, 4))
      && (span <= 4 * actual && actual <= span * 4 ==> Times(t, span) <= Times(m, actual) < Times(t, span) + span)
  {
    hide Target;
    hide Quotient;
    hide Times;
    var m, span, actual := Target(last.nBits), p.timespan, last.time - firstTime;
    ScaledAtPar(m, span);
    ScaledToPart(m, span / 4, 4);
    ScaledToMultiple(m, span, 4);
    TimesFour(span / 4, span);
    QuotientSpan(Times(m, Clamp(actual, span / 4, span * 4)), span);
  }

  lemma TimesFour(a: nat, b: nat)
    ensures Times(a, 4) == a * 4 && Times(b, 4) == b * 4
  {
  }

  lemma BtcSlower(p: Params, last: Header, slower: Header, firstTime: int, slowerFirst: int)
    requires 0 < p.timespan && slower.nBits == last.nBits
    requires last.time - firstTime <= slower.time - slowerFirst
    ensures BtcTarget(p, last, firstTime) <= BtcTarget(p, slower, slowerFirst)
  {
    hide Target;
    hide Quotient;
    hide Times;
    var lo, hi := p.timespan / 4, p.timespan * 4;
    ScaledGrows(Target(last.nBits), Clamp(last.time - firstTime, lo, hi), Clamp(slower.time - slowerFirst, lo, hi),
                p.timespan);
  }

  // ----- what the running mean is

  /** The sum of the targets of the newest `n` blocks. */
  function PastSum(chain: seq<Header>, n: nat): nat
    requires n <= |chain|
  {
    if n == 0 then 0 else PastSum(chain, n - 1) + PastTarget(chain, n - 1)
  }

  function Triangle(n: nat): nat {
    if n == 0 then 0 else Triangle(n - 1) + n
  }

  /** The running mean is the average in which the newest block counts twice, less what is lost by rounding down in
      each step. */
  lemma {:induction false} MeanIs(chain: seq<Header>, n: nat)
    requires 1 <= n <= |chain|
    ensures var sum := PastSum(chain, n) + PastTarget(chain, 0);
      Times(Mean(chain, n), n + 1) <= sum <= Times(Mean(chain, n), n + 1) + Triangle(n)
  {
    hide PastTarget;
    hide Quotient;
    hide Times;
    if n == 1 {
      TwiceOver(PastTarget(chain, 0));
    } else {
      MeanIs(chain, n - 1);
      QuotientSpan(Times(Mean(chain, n - 1), n) + PastTarget(chain, n - 1), n + 1);
    }
  }

  lemma TwiceOver(t: nat)
    ensures Times(t, 2) == t + t
  {
  }

  lemma {:induction false} TriangleIs(n: nat)
    ensures 2 * Triangle(n) == n * (n + 1)
  {
    if n != 0 {
      TriangleIs(n - 1);
    }
  }

  /** So it is at most `n` / 2 below that average. */
  lemma MeanAverages(chain: seq<Header>, n: nat)
    requires 1 <= n <= |chain|
    ensures var sum, whole := PastSum(chain, n) + PastTarget(chain, 0), Times(Mean(chain, n), n + 1);
      whole <= sum && 2 * sum <= 2 * whole + n * (n + 1)
  {
    hide Mean;
    hide PastSum;
    hide PastTarget;
    hide Times;
    MeanIs(chain, n);
    TriangleIs(n);
  }

  // ----- minimum-difficulty blocks

  /** A block so late that the rule allows it has the limit. Any other has the target of the block that is found by
      going back over blocks that have the limit, up to the start of the interval. */
  lemma MinDifficultyIs(p: Params, chain: seq<Header>, time: int) returns (k: nat)
    requires 0 < p.spacing && 0 < p.Interval() && chain != []
    ensures time > chain[|chain| - 1].time + p.spacing * 2 ==>
      MinDifficulty(p, chain, time) == Encoded(p.Limit(), false)
    ensures k < |chain|
    ensures time <= chain[|chain| - 1].time + p.spacing * 2 ==> MinDifficulty(p, chain, time) == chain[k].nBits
    ensures k == 0 || k % p.Interval() == 0 || chain[k].nBits != Encoded(p.Limit(), false)
    ensures forall h :: k < h < |chain| ==> h % p.Interval() != 0 && chain[h].nBits == Encoded(p.Limit(), false)
  {
    hide Encoded;
    k := RegularAt(p, chain, |chain| - 1);
  }

  // ----- which rule applies

  ghost predicate SameEnd(chain: seq<Header>, other: seq<Header>, n: nat) {
    n <= |chain| && n <= |other| && chain[|chain| - n..] == other[|other| - n..]
  }

  lemma SameEndTargets(chain: seq<Header>, other: seq<Header>, n: nat, i: nat)
    requires SameEnd(chain, other, n) && i < n
    ensures chain[|chain| - 1 - i] == other[|other| - 1 - i]
  {
    assert chain[|chain| - n..][n - 1 - i] == other[|other| - n..][n - 1 - i];
  }

  /** From the activation on, the next target of a network that retargets depends on the last 180 blocks alone. */
  lemma DependsOnLast180(p: Params, chain: seq<Header>, other: seq<Header>, time: int, otherTime: int)
    requires Sane(p) && !Fixed(p) && PAST_BLOCKS < |chain| && PAST_BLOCKS < |other|
    requires p.dgwBlock <= |chain| && p.dgwBlock <= |other| && SameEnd(chain, other, PAST_BLOCKS)
    ensures NextWork(p, chain, time) == NextWork(p, other, otherTime)
  {
    hide Encoded;
    hide Mean;
    hide Quotient;
    hide Times;
    hide Target;
    hide SameEnd;
    forall i | 0 <= i < PAST_BLOCKS ensures PastTarget(chain, i) == PastTarget(other, i) {
      SameEndTargets(chain, other, PAST_BLOCKS, i);
    }
    SameEndTargets(chain, other, PAST_BLOCKS, 0);
    SameEndTargets(chain, other, PAST_BLOCKS, PAST_BLOCKS - 1);
    SameMean(chain, other, PAST_BLOCKS);
  }

  /** It is the capped target of DarkGravityWave, or the limit while there are not enough blocks. */
  lemma FromActivation(p: Params, chain: seq<Header>, time: int)
    requires Sane(p) && !Fixed(p) && chain != [] && p.dgwBlock <= |chain|
    ensures NextWork(p, chain, time) ==
      Encoded(if |chain| <= PAST_BLOCKS then p.Limit() else Min(DgwTarget(p, chain), p.Limit()), false)
  {
    hide Encoded;
    hide DgwTarget;
  }

  /** Before it, the target changes only once in an interval: inside an interval it is that of the last block where
      minimum difficulty is not allowed, and at the end of one it depends on the first and the last block of it. */
  lemma BeforeActivation(p: Params, chain: seq<Header>, time: int)
    requires Sane(p) && chain != [] && |chain| < p.dgwBlock && !p.allowMinDifficulty
    ensures |chain| % p.Interval() != 0 || p.noRetargeting ==> NextWork(p, chain, time) == chain[|chain| - 1].nBits
    ensures |chain| % p.Interval() == 0 && !p.noRetargeting ==>
      && p.Interval() <= |chain|
      && NextWork(p, chain, time) ==
         Encoded(Min(BtcTarget(p, chain[|chain| - 1], chain[|chain| - p.Interval()].time), p.Limit()), false)
  {
    hide Encoded;
    hide BtcTarget;
    if |chain| % p.Interval() == 0 {
      FirstOfInterval(|chain|, p.Interval());
    }
  }
}
