/** Retargeting on 256-bit numbers: along a chain that obeys the rules, no operation wraps. */
module PowArith {
  import opened Basics
  import opened Powers
  import opened Limbs
  import opened Compact
  import opened Retarget
  import opened ArithUint256s
  import opened CompactArith

  /** What the chain must obey for the arithmetic to be exact. */
  ghost predicate Exact(p: Params, chain: seq<Header>) {
    && 0 < p.spacing && PAST_BLOCKS * p.spacing * 3 < 0x8_0000 && 0 < p.timespan && p.timespan * 4 < 0x8_0000
    && 0 < p.Interval() && chain != [] && AllWithin(chain, p.Limit())
    && p.limitBits <= 256 && (!Fixed(p) ==> p.limitBits == 236)
  }

  /** Chains of all three networks are such. */
  lemma NetworksExact(p: Params, chain: seq<Header>)
    requires IsNetwork(p) && Grown(p, chain)
    ensures Exact(p, chain)
  {
    hide Pow2;
    hide NextWork;
    hide AllWithin;
    EveryTarget(p, chain);
  }

  lemma LimitFits()
    ensures PowLimit() < Pow2(236) < Pow2(256) == Modulus()
  {
    hide Place;
    hide Pow2;
    SmallestBit();
    Pow2Add(1, 236);
    Pow2Grows(237, 256);
    ModulusIsPow2();
  }

  /** A target of the chain as a 256-bit number. */
  method ReadTarget(nBits: nat) returns (t: ArithUint256)
    requires Within(nBits, PowLimit())
    ensures t.Valid() && fresh(t.pn) && t.Val() == Target(nBits) <= PowLimit()
  {
    hide Place;
    hide Pow2;
    hide Magnitude;
    LimitFits();
    t := new ArithUint256(0);
    var fNegative, fOverflow := SetCompact(t, nBits);
    TargetWithin(nBits, PowLimit());
  }

  /** t * factor / divisor, which is what retargeting does to a target. */
  method Rescale(t: ArithUint256, factor: nat, divisor: nat)
    requires t.Valid() && t.Val() <= PowLimit() && factor < 0x8_0000 && 0 < divisor < BASE
    modifies t.pn
    ensures t.Val() == Quotient(Times(old(t.Val()), factor), divisor)
  {
    hide Place;
    hide Pow2;
    ghost var v := t.Val();
    LimitFits();
    ProductFits(v, factor, 0);
    t.ScaleAssign(factor);
    Commute(factor, v);
    ModSmall(Times(v, factor), Modulus());
    var d := new ArithUint256(divisor);
    var ok, rem := t.DivAssign(d);
  }

  /** The number, or the limit if it is larger. */
  method Capped(t: ArithUint256, limitBits: nat) returns (r: nat)
    requires t.Valid() && limitBits <= 256
    ensures r == Encoded(Min(t.Val(), Pow2(limitBits) - 1), false)
  {
    hide Place;
    hide Pow2;
    hide Encoded;
    var bnPowLimit := Limit(limitBits);
    var c := t.CompareTo(bnPowLimit);
    if c > 0 {
      r := GetCompact(bnPowLimit, false);
    } else {
      r := GetCompact(t, false);
    }
  }

  /** The limit as a 256-bit number. */
  method Limit(limitBits: nat) returns (t: ArithUint256)
    requires limitBits <= 256
    ensures t.Valid() && fresh(t.pn) && t.Val() == Pow2(limitBits) - 1
  {
    hide Place;
    hide Pow2;
    ModulusIsPow2();
    Pow2Grows(limitBits, 256);
    t := new ArithUint256(1);
    t.ShiftLeft(limitBits);
    AllSet(Pow2(limitBits), Modulus());
    t.Decrement();
  }

  /** One less than a number, modulo, is right for the modulus itself too. */
  lemma AllSet(v: nat, m: nat)
    requires 0 < v <= m
    ensures (v % m - 1) % m == v - 1
  {
    if v == m {
      ModPlus(0, 1, m);
      ModPlus(-1, 1, m);
      ModSmall(m - 1, m);
      ModSmall(0, m);
    } else {
      ModSmall(v, m);
      ModSmall(v - 1, m);
    }
  }

  /** One more target goes into the running mean. */
  method Average(avg: ArithUint256, n: nat, t: ArithUint256)
    requires avg.Valid() && t.Valid() && avg.pn != t.pn && 0 < n <= PAST_BLOCKS
    requires avg.Val() <= PowLimit() && t.Val() <= PowLimit()
    modifies avg.pn
    ensures avg.Val() == Quotient(Times(old(avg.Val()), n) + t.Val(), n + 1)
  {
    hide Place;
    hide Pow2;
    hide Times;
    LimitFits();
    ghost var v, w := avg.Val(), t.Val();
    ProductFits(v, n, 0);
    ProductFits(v, n, w);
    avg.ScaleAssign(n);
    TimesCommutes(n, v);
    ModSmall(Times(v, n), Modulus());
    avg.AddAssign(t);
    ModSmall(Times(v, n) + w, Modulus());
    var d := new ArithUint256(n + 1);
    var ok, rem := avg.DivAssign(d);
  }

  /** One step of the loop of `DarkGravityWave`. */
  method AddTarget(chain: seq<Header>, n: nat, avg: ArithUint256)
    requires AllWithin(chain, PowLimit()) && 2 <= n <= PAST_BLOCKS < |chain|
    requires avg.Valid() && avg.Val() == Mean(chain, n - 1)
    modifies avg.pn
    ensures avg.Val() == Mean(chain, n)
  {
    hide Place;
    hide Pow2;
    hide PowLimit;
    hide Mean;
    hide Within;
    hide Target;
    hide Times;
    hide Quotient;
    MeanWithin(chain, n - 1);
    var bnTarget := ReadTarget(chain[|chain| - n].nBits);
    MeanStep(chain, n);
    Average(avg, n, bnTarget);
  }

  /** The loop of `DarkGravityWave`. */
  method PastMean(chain: seq<Header>) returns (avg: ArithUint256)
    requires AllWithin(chain, PowLimit()) && PAST_BLOCKS < |chain|
    ensures avg.Valid() && fresh(avg.pn) && avg.Val() == Mean(chain, PAST_BLOCKS) <= PowLimit()
  {
    hide Place;
    hide Pow2;
    hide PowLimit;
    hide Mean;
    hide Within;
    hide Target;
    avg := ReadTarget(chain[|chain| - 1].nBits);
    FirstMean(chain);
    for nCountBlocks := 2 to PAST_BLOCKS + 1
      invariant avg.Valid() && fresh(avg.pn) && avg.Val() == Mean(chain, nCountBlocks - 1)
    {
      AddTarget(chain, nCountBlocks, avg);
    }
    MeanWithin(chain, PAST_BLOCKS);
  }

  lemma TimesCommutes(a: nat, b: nat)
    ensures a * b == Times(b, a)
  {
  }

  lemma FirstMean(chain: seq<Header>)
    requires chain != []
    ensures Mean(chain, 1) == Target(chain[|chain| - 1].nBits)
  {
  }

  lemma MeanStep(chain: seq<Header>, n: nat)
    requires 2 <= n <= |chain|
    ensures Mean(chain, n) == Quotient(Times(Mean(chain, n - 1), n) + Target(chain[|chain| - n].nBits), n + 1)
  {
    hide Times;
    hide Quotient;
    hide Target;
  }

  /** `DarkGravityWave`; the special rule of the regression network reads the chain only. */
  method DarkGravityWave(p: Params, chain: seq<Header>, time: int) returns (nBits: nat)
    requires Exact(p, chain)
    ensures nBits == Retarget.DarkGravityWave(p, chain, time)
  {
    hide Place;
    hide Pow2;
    hide Mean;
    hide Encoded;
    hide AllWithin;
    var nHeight := |chain| - 1;
    if nHeight < PAST_BLOCKS {
      var bnPowLimit := Limit(p.limitBits);
      nBits := GetCompact(bnPowLimit, false);
      return;
    }
    if p.allowMinDifficulty && p.noRetargeting {
      nBits := MinDifficultyBits(p, chain, time);
      return;
    }
    var bnNew := PastMean(chain);
    var nActualTimespan := chain[nHeight].time - chain[nHeight - (PAST_BLOCKS - 1)].time;
    var nTargetTimespan := PAST_BLOCKS * p.spacing;
    if nActualTimespan < nTargetTimespan / 3 {
      nActualTimespan := nTargetTimespan / 3;
    }
    if nActualTimespan > nTargetTimespan * 3 {
      nActualTimespan := nTargetTimespan * 3;
    }
    Rescale(bnNew, nActualTimespan, nTargetTimespan);
    nBits := Capped(bnNew, p.limitBits);
  }

  /** The rule for minimum-difficulty blocks: a walk back to the last regular block. */
  method MinDifficultyBits(p: Params, chain: seq<Header>, time: int) returns (nBits: nat)
    requires 0 < p.spacing && 0 < p.Interval() && p.limitBits <= 256 && chain != []
    ensures nBits == MinDifficulty(p, chain, time)
  {
    hide Pow2;
    hide Encoded;
    var bnPowLimit := Limit(p.limitBits);
    var nProofOfWorkLimit := GetCompact(bnPowLimit, false);
    if time > chain[|chain| - 1].time + p.spacing * 2 {
      return nProofOfWorkLimit;
    }
    var h := |chain| - 1;
    while h != 0 && h % p.Interval() != 0 && chain[h].nBits == nProofOfWorkLimit
      invariant 0 <= h < |chain| && LastRegular(p, chain, |chain| - 1) == LastRegular(p, chain, h)
    {
      h := h - 1;
    }
    nBits := chain[h].nBits;
  }

  method CalculateNextWorkRequired(p: Params, chain: seq<Header>, nFirstBlockTime: int) returns (nBits: nat)
    requires Exact(p, chain)
    ensures nBits == CalculateNext(p, chain[|chain| - 1], nFirstBlockTime)
  {
    hide Place;
    hide Pow2;
    hide Encoded;
    var last := chain[|chain| - 1];
    if p.noRetargeting {
      return last.nBits;
    }
    var nActualTimespan := last.time - nFirstBlockTime;
    if nActualTimespan < p.timespan / 4 {
      nActualTimespan := p.timespan / 4;
    }
    if nActualTimespan > p.timespan * 4 {
      nActualTimespan := p.timespan * 4;
    }
    var bnNew := ReadTarget(last.nBits);
    Rescale(bnNew, nActualTimespan, p.timespan);
    nBits := Capped(bnNew, p.limitBits);
  }

  method GetNextWorkRequiredBTC(p: Params, chain: seq<Header>, time: int) returns (nBits: nat)
    requires Exact(p, chain)
    ensures nBits == NextBtc(p, chain, time)
  {
    hide Pow2;
    hide MinDifficulty;
    hide CalculateNext;
    hide AllWithin;
    var nHeight := |chain| - 1;
    if (nHeight + 1) % p.Interval() != 0 {
      if p.allowMinDifficulty {
        nBits := MinDifficultyBits(p, chain, time);
      } else {
        nBits := chain[nHeight].nBits;
      }
      return;
    }
    FirstOfInterval(|chain|, p.Interval());
    var nHeightFirst := nHeight - (p.Interval() - 1);
    nBits := CalculateNextWorkRequired(p, chain, chain[nHeightFirst].time);
  }

  method GetNextWorkRequired(p: Params, chain: seq<Header>, time: int) returns (nBits: nat)
    requires Exact(p, chain)
    ensures nBits == NextWork(p, chain, time)
  {
    hide Pow2;
    hide Retarget.DarkGravityWave;
    hide NextBtc;
    hide AllWithin;
    var dgw := DarkGravityWave(p, chain, time);
    var btc := GetNextWorkRequiredBTC(p, chain, time);
    nBits := if |chain| >= p.dgwBlock then dgw else btc;
  }
}
