/** Difficulty retargeting as functions of the chain, over unbounded numbers. */
module Retarget {
  import opened Basics
  import opened Powers
  import opened Compact

  /** The parameters of a network. Its limit on targets has that many bits, all set. */
  datatype Params = Params(
    limitBits: nat, timespan: nat, spacing: nat, allowMinDifficulty: bool, noRetargeting: bool, dgwBlock: nat,
    genesisBits: nat)
  {
    function Limit(): nat {
      Pow2(limitBits) - 1
    }

    function Interval(): nat
      requires 0 < spacing
    {
      timespan / spacing
    }
  }

  /** The limit of the networks that retarget. */
  function PowLimit(): nat {
    Pow2(236) - 1
  }

  function MainParams(): (p: Params)
    ensures Sane(p) && p.Limit() == PowLimit()
  {
    Params(236, 2016 * 60, 60, false, false, 338778, 0x1e00ffff)
  }

  function TestParams(): (p: Params)
    ensures Sane(p) && p.Limit() == PowLimit()
  {
    Params(236, 2016 * 60, 60, true, false, 200, 0x1e00ffff)
  }

  function RegTestParams(): (p: Params)
    ensures Sane(p)
  {
    Params(255, 2016 * 60, 60, true, true, 200, 0x207fffff)
  }

  predicate IsNetwork(p: Params) {
    p == MainParams() || p == TestParams() || p == RegTestParams()
  }

  /** Neither rule computes a target. */
  predicate Fixed(p: Params) {
    p.allowMinDifficulty && p.noRetargeting
  }

  const PAST_BLOCKS := 180

  /** What retargeting reads of a block; the height is the place in the chain. */
  datatype Header = Header(time: int, nBits: nat)

  /** `SetCompact` without looking at its flags. */
  function Target(nBits: nat): (t: nat)
    ensures t < Pow2(256)
  {
    Magnitude(nBits) % Pow2(256)
  }

  /** The targets of the last blocks, newest first. */
  function PastTarget(chain: seq<Header>, i: nat): nat
    requires i < |chain|
  {
    Target(chain[|chain| - 1 - i].nBits)
  }

  /** The running mean of DarkGravityWave over the newest `n` blocks. */
  function Mean(chain: seq<Header>, n: nat): nat
    requires 1 <= n <= |chain|
  {
    if n == 1 then PastTarget(chain, 0) else
    Quotient(Times(Mean(chain, n - 1), n) + PastTarget(chain, n - 1), n + 1)
  }

  function Clamp(x: int, lo: nat, hi: nat): nat {
    if x < lo then lo else if x > hi then hi else x
  }

  /** The last block back from height `h` that was not mined under the minimum-difficulty rule. */
  function LastRegular(p: Params, chain: seq<Header>, h: nat): nat
    requires 0 < p.spacing && 0 < p.Interval() && h < |chain|
  {
    if h != 0 && h % p.Interval() != 0 && chain[h].nBits == Encoded(p.Limit(), false) then LastRegular(p, chain, h - 1)
    else chain[h].nBits
  }

  /** The rule for minimum-difficulty blocks. */
  function MinDifficulty(p: Params, chain: seq<Header>, time: int): nat
    requires 0 < p.spacing && 0 < p.Interval() && chain != []
  {
    if time > chain[|chain| - 1].time + p.spacing * 2 then Encoded(p.Limit(), false)
    else LastRegular(p, chain, |chain| - 1)
  }

  /** The new target of DarkGravityWave before the cap. */
  function DgwTarget(p: Params, chain: seq<Header>): nat
    requires PAST_BLOCKS < |chain| && 0 < p.spacing
  {
    var span := PAST_BLOCKS * p.spacing;
    var actual := chain[|chain| - 1].time - chain[|chain| - PAST_BLOCKS].time;
    Quotient(Times(Mean(chain, PAST_BLOCKS), Clamp(actual, span / 3, span * 3)), span)
  }

  /** `DarkGravityWave`. */
  function DarkGravityWave(p: Params, chain: seq<Header>, time: int): nat
    requires chain != [] && 0 < p.spacing && 0 < p.Interval()
  {
    if |chain| - 1 < PAST_BLOCKS then Encoded(p.Limit(), false)
    else if p.allowMinDifficulty && p.noRetargeting then MinDifficulty(p, chain, time)
    else Encoded(Min(DgwTarget(p, chain), p.Limit()), false)
  }

  /** The new target of the Bitcoin rule before the cap. */
  function BtcTarget(p: Params, last: Header, firstTime: int): nat
    requires 0 < p.timespan
  {
    Quotient(Times(Target(last.nBits), Clamp(last.time - firstTime, p.timespan / 4, p.timespan * 4)), p.timespan)
  }

  /** `CalculateNextWorkRequired`. */
  function CalculateNext(p: Params, last: Header, firstTime: int): nat
    requires 0 < p.timespan
  {
    if p.noRetargeting then last.nBits else Encoded(Min(BtcTarget(p, last, firstTime), p.Limit()), false)
  }

  /** `GetNextWorkRequiredBTC`. */
  function NextBtc(p: Params, chain: seq<Header>, time: int): nat
    requires chain != [] && 0 < p.spacing && 0 < p.timespan && 0 < p.Interval()
  {
    var n := |chain|;
    if n % p.Interval() != 0 then
      if p.allowMinDifficulty then MinDifficulty(p, chain, time) else chain[n - 1].nBits
    else
      FirstOfInterval(n, p.Interval());
      CalculateNext(p, chain[n - 1], chain[n - p.Interval()].time)
  }

  /** The block a whole interval back exists, which the code asserts. */
  lemma FirstOfInterval(n: nat, interval: nat)
    requires 0 < n && 0 < interval && n % interval == 0
    ensures interval <= n
  {
    if n < interval {
      ModSmall(n, interval);
    }
  }

  /** `GetNextWorkRequired`. */
  function NextWork(p: Params, chain: seq<Header>, time: int): nat
    requires chain != [] && 0 < p.spacing && 0 < p.timespan && 0 < p.Interval()
  {
    if |chain| >= p.dgwBlock then DarkGravityWave(p, chain, time) else NextBtc(p, chain, time)
  }

  // ----- the running mean lies between the extremes

  ghost predicate Bounded(chain: seq<Header>, n: nat, lo: nat, hi: nat) {
    n <= |chain| && forall i :: 0 <= i < n ==> lo <= PastTarget(chain, i) <= hi
  }

  lemma {:induction false} MeanBetween(chain: seq<Header>, n: nat, lo: nat, hi: nat)
    requires 1 <= n && Bounded(chain, n, lo, hi)
    ensures lo <= Mean(chain, n) <= hi
  {
    hide Times;
    hide Quotient;
    hide PastTarget;
    if n != 1 {
      MeanBetween(chain, n - 1, lo, hi);
      WeightedBetween(Mean(chain, n - 1), PastTarget(chain, n - 1), n, lo, hi);
    }
  }

  lemma WeightedBetween(a: nat, t: nat, n: nat, lo: nat, hi: nat)
    requires lo <= a <= hi && lo <= t <= hi
    ensures lo <= Quotient(Times(a, n) + t, n + 1) <= hi
  {
    MulGrows(lo, a, n);
    MulGrows(a, hi, n);
    Distribute(n, 1, lo);
    Distribute(n, 1, hi);
    QuotientAtLeast(a * n + t, n + 1, lo);
    AtMost(a * n + t, n + 1, hi);
  }

  lemma AtMost(v: nat, d: nat, hi: nat)
    requires 0 < d && v <= hi * d
    ensures Quotient(v, d) <= hi
  {
    var q := Quotient(v, d);
    if hi < q {
      MulGrows(hi + 1, q, d);
      Distribute(hi, 1, d);
    }
  }

  // ----- one retarget changes the target by a bounded factor

  lemma ScaledLow(t: nat, part: nat, factor: nat, actual: nat)
    requires 0 < part && 0 < factor && part <= actual
    ensures 0 < Times(part, factor) && Quotient(t, factor) <= Quotient(Times(t, actual), Times(part, factor))
  {
    var q := Quotient(t, factor);
    Multiples(part, factor);
    MulGrows(part, actual, t);
    MulGrows(q * factor, t, part);
    Associate(q, factor, part);
    Commute(factor, part);
    QuotientAtLeast(Times(t, actual), Times(part, factor), q);
  }

  lemma ScaledHigh(t: nat, span: nat, factor: nat, actual: nat)
    requires 0 < span && actual <= Times(span, factor)
    ensures Quotient(Times(t, actual), span) <= Times(t, factor)
  {
    MulGrows(actual, span * factor, t);
    Commute(span, factor);
    Associate(t, factor, span);
    AtMost(Times(t, actual), span, Times(t, factor));
  }

  lemma Commute(a: int, b: int)
    ensures a * b == b * a
  {
  }

  /** DarkGravityWave moves within a factor of three around the mean, up to the rounding of the division. */
  lemma DgwWithinThree(p: Params, chain: seq<Header>)
    requires PAST_BLOCKS < |chain| && 0 < p.spacing
    ensures var m := Mean(chain, PAST_BLOCKS);
      Quotient(m, 3) <= DgwTarget(p, chain) <= Times(m, 3)
  {
    hide Mean;
    hide Quotient;
    var span := PAST_BLOCKS * p.spacing;
    var part := 60 * p.spacing;
    var actual := Clamp(chain[|chain| - 1].time - chain[|chain| - PAST_BLOCKS].time, part, span * 3);
    DivUnique(span, 3, part, 0);
    ScaledLow(Mean(chain, PAST_BLOCKS), part, 3, actual);
    ScaledHigh(Mean(chain, PAST_BLOCKS), span, 3, actual);
  }

  /** The Bitcoin rule moves within a factor of four. */
  lemma BtcWithinFour(p: Params, last: Header, firstTime: int)
    requires 0 < p.timespan && p.timespan % 4 == 0
    ensures var t := Target(last.nBits);
      Quotient(t, 4) <= BtcTarget(p, last, firstTime) <= Times(t, 4)
  {
    hide Target;
    hide Quotient;
    var actual := Clamp(last.time - firstTime, p.timespan / 4, p.timespan * 4);
    ScaledLow(Target(last.nBits), p.timespan / 4, 4, actual);
    ScaledHigh(Target(last.nBits), p.timespan, 4, actual);
  }

  // ----- along every chain the targets stay within the limit

  ghost predicate Within(nBits: nat, limit: nat) {
    nBits < TWO32 && !Negative(nBits) && !Overflow(nBits) && Magnitude(nBits) <= limit
  }

  ghost predicate AllWithin(chain: seq<Header>, limit: nat) {
    forall h :: 0 <= h < |chain| ==> Within(chain[h].nBits, limit)
  }

  predicate Sane(p: Params) {
    0 < p.spacing && 0 < p.timespan && 0 < p.Interval() && p.limitBits <= 256
  }

  lemma LimitBelow(p: Params)
    requires p.limitBits <= 256
    ensures p.Limit() < Pow2(256)
  {
    hide Pow2;
    Pow2Grows(p.limitBits, 256);
  }

  lemma EncodedWithin(v: nat, limit: nat)
    requires v <= limit < Pow2(256)
    ensures Within(Encoded(v, false), limit)
  {
    hide Pow2;
    hide Magnitude;
    hide Encoded;
    hide Overflow;
    hide Negative;
    RoundDown(v);
    EncodedSmall(v);
  }

  lemma EncodedSmall(v: nat)
    requires v < Pow2(256)
    ensures Encoded(v, false) < TWO32
  {
    hide Pow2;
    CodeRange(v);
    SizeSmall(v);
  }

  lemma SizeSmall(v: nat)
    requires v < Pow2(256)
    ensures ByteLength(v) <= 32
  {
    hide Pow2;
    ByteRange(v);
    BytesSmall();
    if 33 <= ByteLength(v) {
      BytesGrow(32, ByteLength(v) - 1);
    }
  }

  lemma {:induction false} LastRegularWithin(p: Params, chain: seq<Header>, h: nat)
    requires 0 < p.spacing && 0 < p.Interval() && h < |chain| && AllWithin(chain, p.Limit())
    ensures Within(LastRegular(p, chain, h), p.Limit())
  {
    hide Within;
    hide Encoded;
    if h != 0 {
      LastRegularWithin(p, chain, h - 1);
    }
  }

  /** Whatever rule applies, the next target is within the limit if all before are. */
  lemma NextWithin(p: Params, chain: seq<Header>, time: int)
    requires Sane(p) && chain != [] && AllWithin(chain, p.Limit())
    ensures Within(NextWork(p, chain, time), p.Limit())
  {
    hide Within;
    hide Encoded;
    hide Pow2;
    hide LastRegular;
    hide DgwTarget;
    hide BtcTarget;
    var n := |chain|;
    LimitBelow(p);
    EncodedWithin(p.Limit(), p.Limit());
    LastRegularWithin(p, chain, n - 1);
    if PAST_BLOCKS < n {
      EncodedWithin(Min(DgwTarget(p, chain), p.Limit()), p.Limit());
    }
    if n % p.Interval() == 0 {
      FirstOfInterval(n, p.Interval());
      EncodedWithin(Min(BtcTarget(p, chain[n - 1], chain[n - p.Interval()].time), p.Limit()), p.Limit());
    }
  }

  /** A chain whose targets are those that the rules ask for. */
  ghost predicate Grown(p: Params, chain: seq<Header>)
    requires Sane(p)
  {
    && chain != [] && chain[0].nBits == p.genesisBits
    && forall h :: 0 < h < |chain| ==> chain[h].nBits == NextWork(p, chain[..h], chain[h].time)
  }

  lemma GenesisWithin()
    ensures Within(0x1e00ffff, PowLimit())
  {
    hide Pow2;
    Parts(30, 0xffff, false);
    assert Magnitude(0x1e00ffff) == 0xffff * Bytes(27);
    Pow2Add(16, 8 * 27);
    Pow2Small();
    Pow2Grows(232, 236);
    MulGrowsStrictly(0xffff, Pow2(16), Bytes(27));
  }

  lemma RegTestGenesisWithin()
    ensures Within(0x207fffff, Pow2(255) - 1)
  {
    hide Pow2;
    Parts(32, 0x7fffff, false);
    assert Magnitude(0x207fffff) == 0x7fffff * Bytes(29);
    Pow2Add(23, 8 * 29);
    PowOf23();
    MulGrowsStrictly(0x7fffff, Pow2(23), Bytes(29));
  }

  lemma PowOf23()
    ensures Pow2(23) == 0x80_0000
  {
    Pow2Small();
    Pow2Add(7, 16);
    assert Pow2(3) == 8;
    Pow2Add(3, 4);
    assert Pow2(4) == 16;
  }

  lemma NetworkGenesis(p: Params)
    requires IsNetwork(p)
    ensures Within(p.genesisBits, p.Limit())
  {
    hide Pow2;
    hide Within;
    GenesisWithin();
    RegTestGenesisWithin();
  }

  lemma {:induction false} ChainWithin(p: Params, chain: seq<Header>, n: nat)
    requires Sane(p) && Within(p.genesisBits, p.Limit()) && Grown(p, chain) && n <= |chain|
    ensures AllWithin(chain[..n], p.Limit())
  {
    hide Within;
    hide NextWork;
    hide Pow2;
    if n != 0 {
      ChainWithin(p, chain, n - 1);
      if n != 1 {
        NextWithin(p, chain[..n - 1], chain[n - 1].time);
      }
    }
  }

  /** Along every chain of a network, every target decodes without a flag to at most the limit. */
  lemma EveryTarget(p: Params, chain: seq<Header>)
    requires IsNetwork(p) && Grown(p, chain)
    ensures AllWithin(chain, p.Limit())
  {
    hide Within;
    hide NextWork;
    hide Pow2;
    NetworkGenesis(p);
    ChainWithin(p, chain, |chain|);
    assert chain[..|chain|] == chain;
  }

  // ----- no product wraps at 256 bits

  lemma ProductFits(t: nat, f: nat, extra: nat)
    requires t <= PowLimit() && extra <= PowLimit() && f < 0x8_0000
    ensures Times(t, f) + extra < Pow2(256)
  {
    hide Pow2;
    Pow2Small();
    assert 0x8_0000 == Pow2(19) by { PowOf19(); }
    MulGrows(t, PowLimit(), f);
    MulGrows(f + 1, Pow2(19), Pow2(236));
    Distribute(f, 1, Pow2(236));
    Commute(f, PowLimit());
    Distribute(Pow2(236), -1, f);
    Commute(f, Pow2(236));
    Pow2Add(19, 236);
    Pow2Grows(255, 256);
  }

  lemma PowOf19()
    ensures Pow2(19) == 0x8_0000
  {
    Pow2Small();
    Pow2Add(3, 16);
    assert Pow2(3) == 8;
  }

  lemma TargetWithin(nBits: nat, limit: nat)
    requires Within(nBits, limit) && limit < Pow2(256)
    ensures Target(nBits) == Magnitude(nBits) <= limit
  {
    ModSmall(Magnitude(nBits), Pow2(256));
  }

  lemma MeanWithin(chain: seq<Header>, n: nat)
    requires 1 <= n <= |chain| && AllWithin(chain, PowLimit())
    ensures Mean(chain, n) <= PowLimit()
  {
    hide Pow2;
    hide Target;
    Pow2Grows(236, 256);
    forall i | 0 <= i < n ensures 0 <= PastTarget(chain, i) <= PowLimit() {
      TargetWithin(chain[|chain| - 1 - i].nBits, PowLimit());
    }
    MeanBetween(chain, n, 0, PowLimit());
  }

  /** Every product and sum that DarkGravityWave forms on such a chain is below 2^256. */
  lemma NothingWraps(p: Params, chain: seq<Header>, n: nat)
    requires IsNetwork(p) && !Fixed(p) && Grown(p, chain)
    requires 2 <= n <= PAST_BLOCKS < |chain|
    ensures Times(Mean(chain, n - 1), n) + PastTarget(chain, n - 1) < Pow2(256)
    ensures forall actual: nat :: actual <= PAST_BLOCKS * p.spacing * 3 ==>
      Times(Mean(chain, PAST_BLOCKS), actual) < Pow2(256)
  {
    hide Pow2;
    hide Mean;
    hide Grown;
    hide Within;
    hide Times;
    hide Target;
    EveryTarget(p, chain);
    Pow2Grows(236, 256);
    MeanWithin(chain, n - 1);
    MeanWithin(chain, PAST_BLOCKS);
    TargetWithin(chain[|chain| - n].nBits, PowLimit());
    ProductFits(Mean(chain, n - 1), n, PastTarget(chain, n - 1));
    forall actual: nat | actual <= PAST_BLOCKS * p.spacing * 3
      ensures Times(Mean(chain, PAST_BLOCKS), actual) < Pow2(256)
    {
      ProductFits(Mean(chain, PAST_BLOCKS), actual, 0);
    }
  }

  /** So is every product that the Bitcoin rule forms, on a chain of any length. */
  lemma NothingWrapsBtc(p: Params, chain: seq<Header>, actual: nat)
    requires IsNetwork(p) && !Fixed(p) && Grown(p, chain) && actual <= p.timespan * 4
    ensures Times(PastTarget(chain, 0), actual) < Pow2(256)
  {
    hide Pow2;
    hide Within;
    hide Times;
    hide Target;
    EveryTarget(p, chain);
    Pow2Grows(236, 256);
    TargetWithin(chain[|chain| - 1].nBits, PowLimit());
    ProductFits(PastTarget(chain, 0), actual, 0);
  }

  /** Where neither rule computes a target, the next one is the limit or that of an earlier block. */
  lemma FixedTargets(p: Params, chain: seq<Header>, time: int)
    requires Sane(p) && chain != [] && Fixed(p)
    ensures NextWork(p, chain, time) == Encoded(p.Limit(), false) ||
      exists h :: 0 <= h < |chain| && NextWork(p, chain, time) == chain[h].nBits
  {
    hide Encoded;
    var n := |chain|;
    var h := RegularAt(p, chain, n - 1);
    if n % p.Interval() == 0 {
      FirstOfInterval(n, p.Interval());
    }
  }

  lemma {:induction false} RegularAt(p: Params, chain: seq<Header>, h: nat) returns (k: nat)
    requires 0 < p.spacing && 0 < p.Interval() && h < |chain|
    ensures k <= h && LastRegular(p, chain, h) == chain[k].nBits
    ensures k == 0 || k % p.Interval() == 0 || chain[k].nBits != Encoded(p.Limit(), false)
    ensures forall i :: k < i <= h ==> i % p.Interval() != 0 && chain[i].nBits == Encoded(p.Limit(), false)
  {
    hide Encoded;
    if h != 0 && h % p.Interval() != 0 && chain[h].nBits == Encoded(p.Limit(), false) {
      k := RegularAt(p, chain, h - 1);
    } else {
      k := h;
    }
  }
}
