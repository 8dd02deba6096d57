/** The Merkle root computed in one pass over the leaves, with one pending hash for each level. */
module MerkleStream {
  import opened Basics
  import opened Powers
  import opened MerkleProof

  // ----- counting in binary

  /** A number shifted right. */
  function Half(n: nat, l: nat): nat {
    if l == 0 then n else Half(n, l - 1) / 2
  }

  predicate Bit(n: nat, l: nat) {
    Half(n, l) % 2 == 1
  }

  /** The lowest `l` bits are zero. */
  ghost predicate Clear(n: nat, l: nat) {
    forall j :: 0 <= j < l ==> !Bit(n, j)
  }

  lemma {:induction false} HalfTimes(n: nat, l: nat)
    ensures Half(n, l) * Pow2(l) <= n
    ensures Clear(n, l) ==> Half(n, l) * Pow2(l) == n
  {
    if l != 0 {
      HalfTimes(n, l - 1);
      var a := Half(n, l - 1);
      assert Half(n, l) * Pow2(l) == (2 * (a / 2)) * Pow2(l - 1);
      assert !Bit(n, l - 1) ==> 2 * (a / 2) == a;
      MulGrows(2 * (a / 2), a, Pow2(l - 1));
      assert Clear(n, l) ==> !Bit(n, l - 1);
    }
  }

  /** Counting up by one carries through the bits that become zero, and no further. */
  lemma {:induction false} HalfNext(n: nat, l: nat)
    ensures Clear(n + 1, l) ==> Half(n, l) + 1 == Half(n + 1, l)
    ensures !Clear(n + 1, l) ==> Half(n, l) == Half(n + 1, l)
  {
    if l != 0 {
      HalfNext(n, l - 1);
      assert Clear(n + 1, l) <==> Clear(n + 1, l - 1) && !Bit(n + 1, l - 1);
    }
  }

  /** A number that is not 0 and below 2^l has a bit set below `l`. */
  lemma ClearIsSmall(n: nat, l: nat, bits: nat)
    requires 0 < n < Pow2(bits) && Clear(n, l)
    ensures l < bits && 0 < Half(n, l)
  {
    HalfTimes(n, l);
    MulGrows(1, Half(n, l), Pow2(l));
    if bits <= l {
      Pow2Grows(bits, l);
    }
  }

  /** A whole part of the tree exists. */
  lemma WholePart(n: nat, count: nat, l: nat)
    requires count <= n
    ensures Half(count, l) <= Width(n, l)
  {
    HalfTimes(count, l);
    if Half(count, l) != 0 {
      var w := Half(count, l) - 1;
      assert w * Pow2(l) + Pow2(l) == Half(count, l) * Pow2(l);
      InTree(n, l, w);
    }
  }

  // ----- the pending hashes

  /** For each bit of the count there is a pending hash: that of the last whole part of that size. */
  ghost predicate Pending(leaves: seq<Hash>, inner: seq<Hash>, count: nat)
    requires count <= |leaves|
  {
    forall l :: 0 <= l < |inner| && Bit(count, l) ==> PendingAt(leaves, inner[l], count, l)
  }

  ghost predicate PendingAt(leaves: seq<Hash>, hash: Hash, count: nat, l: nat)
    requires count <= |leaves|
  {
    0 < Half(count, l) <= Width(|leaves|, l) && hash == Calc(leaves, l, Half(count, l) - 1)
  }

  /** Two whole parts make one of the next size. */
  lemma Combines(leaves: seq<Hash>, l: nat, pos: nat)
    requires 2 * pos + 1 < Width(|leaves|, l)
    ensures pos < Width(|leaves|, l + 1)
    ensures Calc(leaves, l + 1, pos) == Node(Calc(leaves, l, 2 * pos), Calc(leaves, l, 2 * pos + 1))
  {
  }

  /** A last part without neighbour is hashed with itself. */
  lemma CombinesAlone(leaves: seq<Hash>, l: nat, pos: nat)
    requires 2 * pos + 1 == Width(|leaves|, l)
    ensures pos + 1 == Width(|leaves|, l + 1)
    ensures Calc(leaves, l + 1, pos) == Node(Calc(leaves, l, 2 * pos), Calc(leaves, l, 2 * pos))
  {
  }

  lemma Stored(leaves: seq<Hash>, inner: seq<Hash>, count: nat, l: nat, h: Hash)
    requires count < |leaves| && l < |inner| && Pending(leaves, inner, count)
    requires Clear(count + 1, l) && Bit(count + 1, l) && PendingAt(leaves, h, count + 1, l)
    ensures Pending(leaves, inner[l := h], count + 1)
  {
    hide PendingAt;
    var now := inner[l := h];
    forall j | 0 <= j < |now| && Bit(count + 1, j) ensures PendingAt(leaves, now[j], count + 1, j) {
      if l < j {
        assert !Clear(count + 1, j);
        HalfNext(count, j);
        StillPending(leaves, inner[j], count, j);
      }
    }
  }

  lemma StillPending(leaves: seq<Hash>, hash: Hash, count: nat, j: nat)
    requires count < |leaves| && PendingAt(leaves, hash, count, j) && Half(count, j) == Half(count + 1, j)
    ensures PendingAt(leaves, hash, count + 1, j)
  {
  }

  // ----- twins

  /** Two neighbours that are hashed together, both of them whole parts of the first `count` leaves, are the same. */
  ghost predicate TwinAt(leaves: seq<Hash>, count: nat, l: nat, pos: nat) {
    && 2 * pos + 2 <= Half(count, l) && 2 * pos + 1 < Width(|leaves|, l)
    && Calc(leaves, l, 2 * pos) == Calc(leaves, l, 2 * pos + 1)
  }

  ghost predicate Twinned(leaves: seq<Hash>, count: nat) {
    exists l: nat, pos: nat :: TwinAt(leaves, count, l, pos)
  }

  /** Such a pair that one more leaf completes. */
  ghost predicate NewTwin(leaves: seq<Hash>, count: nat, l: nat) {
    Clear(count + 1, l) && !Bit(count + 1, l) && 0 < Half(count + 1, l) &&
    TwinAt(leaves, count + 1, l, Half(count + 1, l) / 2 - 1)
  }

  lemma TwinnedNext(leaves: seq<Hash>, count: nat)
    requires count < |leaves|
    ensures Twinned(leaves, count + 1) <==> Twinned(leaves, count) || exists l: nat :: NewTwin(leaves, count, l)
  {
    if Twinned(leaves, count + 1) {
      var l: nat, pos: nat :| TwinAt(leaves, count + 1, l, pos);
      HalfNext(count, l);
      if 2 * pos + 2 <= Half(count, l) {
        assert TwinAt(leaves, count, l, pos);
      } else {
        assert NewTwin(leaves, count, l);
      }
    }
    if Twinned(leaves, count) {
      var l: nat, pos: nat :| TwinAt(leaves, count, l, pos);
      HalfNext(count, l);
      assert TwinAt(leaves, count + 1, l, pos);
    }
  }

  // ----- the loop over the leaves

  /** One leaf is taken in: the pending hashes it completes are hashed together. The result says whether two of them
      were the same. */
  method TakeLeaf(leaves: seq<Hash>, inner: array<Hash>, count: nat) returns (twins: bool)
    requires count < |leaves| < Pow2(32) && inner.Length == 32 && Pending(leaves, inner[..], count)
    modifies inner
    ensures Pending(leaves, inner[..], count + 1)
    ensures twins <==> exists l: nat :: NewTwin(leaves, count, l)
  {
    hide Pow2;
    hide Pending;
    hide NewTwin;
    var h := leaves[count];
    var level := 0;
    twins := false;
    FirstPending(leaves, count);
    ClearIsSmall(count + 1, 0, 32);
    while !Bit(count + 1, level)
      invariant level < 32 && Clear(count + 1, level) && PendingAt(leaves, h, count + 1, level)
      invariant Pending(leaves, inner[..], count)
      invariant twins <==> exists l :: 0 <= l < level && NewTwin(leaves, count, l)
      decreases 32 - level
    {
      ClearIsSmall(count + 1, level, 32);
      ClearIsSmall(count + 1, level + 1, 32);
      CarryOver(leaves, inner[..], count, level, h);
      twins := twins || inner[level] == h;
      h := Node(inner[level], h);
      level := level + 1;
    }
    forall l | level <= l ensures !NewTwin(leaves, count, l) {
      NoTwinAbove(leaves, count, level, l);
    }
    Stored(leaves, inner[..], count, level, h);
    inner[level] := h;
  }

  lemma NoTwinAbove(leaves: seq<Hash>, count: nat, level: nat, l: nat)
    requires Bit(count + 1, level) && level <= l
    ensures !NewTwin(leaves, count, l)
  {
  }

  lemma FirstPending(leaves: seq<Hash>, count: nat)
    requires count < |leaves|
    ensures PendingAt(leaves, leaves[count], count + 1, 0) && Clear(count + 1, 0)
  {
  }

  lemma CarryOver(leaves: seq<Hash>, inner: seq<Hash>, count: nat, l: nat, h: Hash)
    requires count < |leaves| && l < |inner| && Pending(leaves, inner, count)
    requires Clear(count + 1, l) && !Bit(count + 1, l) && PendingAt(leaves, h, count + 1, l)
    requires 0 < Half(count + 1, l)
    ensures PendingAt(leaves, Node(inner[l], h), count + 1, l + 1)
    ensures NewTwin(leaves, count, l) <==> inner[l] == h
  {
    hide Calc;
    HalfNext(count, l);
    var m := Half(count + 1, l) / 2;
    assert Bit(count, l);
    assert PendingAt(leaves, inner[l], count, l);
    Combines(leaves, l, m - 1);
    WholePart(|leaves|, count + 1, l + 1);
  }

  // ----- the sweep over the right edge

  /** Where the parts are not whole, the last one is not counted among the whole ones. */
  lemma {:induction false} EdgeStays(n: nat, l: nat)
    requires Width(n, l) == Half(n, l) + 1
    ensures Width(n, l + 1) == Half(n, l + 1) + 1
  {
  }

  lemma {:induction false} WholeEdge(n: nat, l: nat)
    requires Clear(n, l)
    ensures Width(n, l) == Half(n, l)
  {
    if l != 0 {
      WholeEdge(n, l - 1);
      assert !Bit(n, l - 1);
    }
  }

  /** The last part of the tree at a level. */
  ghost predicate AtEdge(leaves: seq<Hash>, h: Hash, l: nat) {
    0 < Width(|leaves|, l) && h == Calc(leaves, l, Width(|leaves|, l) - 1)
  }

  /** A last part that has a neighbour is hashed with the pending one. */
  lemma EdgeCombines(leaves: seq<Hash>, inner: seq<Hash>, l: nat, h: Hash)
    requires AtEdge(leaves, h, l) && Width(|leaves|, l) % 2 == 0 && Width(|leaves|, l) == Half(|leaves|, l) + 1
    requires Pending(leaves, inner, |leaves|) && |leaves| < Pow2(|inner|)
    ensures l < |inner| && AtEdge(leaves, Node(inner[l], h), l + 1)
  {
    hide Pow2;
    hide Half;
    hide Width;
    hide Calc;
    var n := |leaves|;
    BitIsBelow(n, l, |inner|);
    assert PendingAt(leaves, inner[l], n, l);
    Combines(leaves, l, Width(n, l) / 2 - 1);
    NextWidth(n, l);
    EvenWidth(n, l);
  }

  lemma EvenWidth(n: nat, l: nat)
    requires Width(n, l) % 2 == 0
    ensures 2 * Width(n, l + 1) == Width(n, l)
  {
  }

  lemma BitIsBelow(n: nat, l: nat, bits: nat)
    requires n < Pow2(bits) && 0 < Half(n, l)
    ensures l < bits
  {
    HalfTimes(n, l);
    MulGrows(1, Half(n, l), Pow2(l));
    if bits <= l {
      Pow2Grows(bits, l);
    }
  }

  lemma EdgeAlone(leaves: seq<Hash>, l: nat, h: Hash)
    requires AtEdge(leaves, h, l) && Width(|leaves|, l) % 2 == 1
    ensures AtEdge(leaves, Node(h, h), l + 1)
  {
    CombinesAlone(leaves, l, Width(|leaves|, l) / 2);
  }

  lemma {:induction false} HalfMultiple(w: nat, l: nat)
    ensures Half(w * Pow2(l), l) == w
    decreases l
  {
    if l != 0 {
      HalfMultiple(2 * w, l - 1);
      assert 2 * w * Pow2(l - 1) == w * Pow2(l);
    }
  }

  /** No lower level has just one part. */
  ghost predicate FirstAt(n: nat, l: nat) {
    l == 0 || 1 < Width(n, l - 1)
  }

  lemma {:induction false} WidthFalls(n: nat, l: nat, k: nat)
    requires l <= k
    ensures Width(n, k) <= Width(n, l)
  {
    if l != k {
      WidthFalls(n, l, k - 1);
    }
  }

  lemma {:induction false} HeightIs(n: nat, h: nat, l: nat)
    requires h <= l && Width(n, l) == 1 && FirstAt(n, l)
    ensures Height(n, h) == l
    decreases l - h
  {
    if h != l {
      WidthFalls(n, h, l - 1);
      HeightIs(n, h + 1, l);
    }
  }

  /** The lowest level with a pending hash. */
  method LowestPending(leaves: seq<Hash>, inner: array<Hash>) returns (level: nat)
    requires 0 < |leaves| < Pow2(32) && inner.Length == 32 && Pending(leaves, inner[..], |leaves|)
    ensures level < 32 && AtEdge(leaves, inner[level], level)
    ensures Bit(|leaves|, level) && Width(|leaves|, level) == Half(|leaves|, level)
    ensures Half(|leaves|, level) * Pow2(level) == |leaves| && FirstAt(|leaves|, level)
  {
    hide Pow2;
    level := 0;
    ClearIsSmall(|leaves|, 0, 32);
    while !Bit(|leaves|, level)
      invariant level < 32 && Clear(|leaves|, level)
      decreases 32 - level
    {
      ClearIsSmall(|leaves|, level + 1, 32);
      level := level + 1;
    }
    WholeEdge(|leaves|, level);
    if level != 0 {
      WholeEdge(|leaves|, level - 1);
      ClearIsSmall(|leaves|, level - 1, 32);
      assert !Bit(|leaves|, level - 1);
    }
    HalfTimes(|leaves|, level);
    assert PendingAt(leaves, inner[..][level], |leaves|, level);
  }

  /** Going up the right edge while the last part has a neighbour. */
  method GoUp(leaves: seq<Hash>, inner: array<Hash>, count: nat, h: Hash, level: nat) returns (top: Hash, l: nat)
    requires 0 < |leaves| < Pow2(32) && inner.Length == 32 && Pending(leaves, inner[..], |leaves|)
    requires AtEdge(leaves, h, level) && Width(|leaves|, level) == Half(|leaves|, level) + 1
    requires count == Width(|leaves|, level) * Pow2(level) && FirstAt(|leaves|, level)
    ensures FirstAt(|leaves|, l) && AtEdge(leaves, top, l) && Width(|leaves|, l) == Half(|leaves|, l) + 1
    ensures Width(|leaves|, l) % 2 == 1 && Width(|leaves|, l) <= Width(|leaves|, level)
    ensures count == Width(|leaves|, l) * Pow2(l)
  {
    hide Pending;
    hide AtEdge;
    hide Width;
    top, l := h, level;
    HalfMultiple(Width(|leaves|, level), level);
    EdgePositive(leaves, top, l);
    while !Bit(count, l)
      invariant FirstAt(|leaves|, l) && AtEdge(leaves, top, l) && Width(|leaves|, l) == Half(|leaves|, l) + 1
      invariant count == Width(|leaves|, l) * Pow2(l) && Half(count, l) == Width(|leaves|, l)
      invariant 0 < Width(|leaves|, l) <= Width(|leaves|, level)
      decreases Width(|leaves|, l)
    {
      EdgeCombines(leaves, inner[..], l, top);
      EdgeStays(|leaves|, l);
      NextWidth(|leaves|, l);
      top := Node(inner[l], top);
      l := l + 1;
      HalfMultiple(Width(|leaves|, l), l);
    }
  }

  lemma EdgePositive(leaves: seq<Hash>, h: Hash, l: nat)
    requires AtEdge(leaves, h, l)
    ensures 0 < Width(|leaves|, l)
  {
  }

  lemma NextWidth(n: nat, l: nat)
    requires Width(n, l) % 2 == 0
    ensures Width(n, l + 1) * Pow2(l + 1) == Width(n, l) * Pow2(l)
    ensures 0 < Width(n, l) ==> 0 < Width(n, l + 1) < Width(n, l)
  {
    var w := Width(n, l) / 2;
    assert Width(n, l) == 2 * w && Width(n, l + 1) == w;
    assert w * (2 * Pow2(l)) == 2 * w * Pow2(l);
  }

  lemma OddWidth(n: nat, l: nat)
    requires Width(n, l) % 2 == 1 && Width(n, l) != 1
    requires Width(n, l) == Half(n, l) || Width(n, l) == Half(n, l) + 1
    ensures Width(n, l + 1) * Pow2(l + 1) == Width(n, l) * Pow2(l) + Pow2(l)
    ensures Width(n, l + 1) == Half(n, l + 1) + 1 && 0 < Width(n, l + 1) < Width(n, l) && FirstAt(n, l + 1)
  {
    var w := Width(n, l + 1);
    assert Width(n, l) + 1 == 2 * w;
    assert w * (2 * Pow2(l)) == (2 * w) * Pow2(l);
    assert (Width(n, l) + 1) * Pow2(l) == Width(n, l) * Pow2(l) + Pow2(l);
  }

  lemma WidthIsOne(w: nat, p: nat)
    requires 0 < p && w * p == p
    ensures w == 1
  {
    if 1 < w {
      MulGrows(2, w, p);
    }
  }

  lemma TopIsRoot(leaves: seq<Hash>, h: Hash, l: nat)
    requires leaves != [] && AtEdge(leaves, h, l) && Width(|leaves|, l) == 1 && FirstAt(|leaves|, l)
    ensures h == Root(leaves)
  {
    hide Calc;
    HeightIs(|leaves|, 0, l);
  }

  /** `ComputeMerkleRoot`: the root of the list is that of the tree, and the flag tells whether two whole neighbours
      are the same. */
  method ComputeMerkleRoot(leaves: seq<Hash>) returns (root: Hash, mutated: bool)
    requires |leaves| <= 0x8000_0000
    ensures leaves == [] ==> root == Null && !mutated
    ensures leaves != [] ==> root == Root(leaves) && (mutated <==> Twinned(leaves, |leaves|))
  {
    hide Width;
    hide Half;
    hide Root;
    hide Twinned;
    hide AtEdge;
    hide Pending;
    hide FirstAt;
    hide Pow2;
    if leaves == [] {
      return Null, false;
    }
    EnoughBits(|leaves|);
    var inner := new Hash[32](i => Null);
    mutated := false;
    NothingPending(leaves, inner[..]);
    for n := 0 to |leaves|
      invariant Pending(leaves, inner[..], n) && (mutated <==> Twinned(leaves, n))
    {
      var twins := TakeLeaf(leaves, inner, n);
      TwinnedNext(leaves, n);
      mutated := mutated || twins;
    }
    var level: nat := LowestPending(leaves, inner);
    root := inner[level];
    var count := |leaves|;
    EdgePositive(leaves, root, level);
    while count != Pow2(level)
      invariant Pending(leaves, inner[..], |leaves|)
      invariant AtEdge(leaves, root, level) && count == Width(|leaves|, level) * Pow2(level)
      invariant Width(|leaves|, level) % 2 == 1 && FirstAt(|leaves|, level) && count <= 0x8000_0000
      invariant Width(|leaves|, level) == Half(|leaves|, level) || Width(|leaves|, level) == Half(|leaves|, level) + 1
      decreases Width(|leaves|, level)
    {
      OddWidth(|leaves|, level);
      EdgeAlone(leaves, level, root);
      root := Node(root, root);
      count := count + Pow2(level);
      level := level + 1;
      root, level := GoUp(leaves, inner, count, root, level);
      CountFits(|leaves|, level);
    }
    WidthIsOne(Width(|leaves|, level), Pow2(level));
    TopIsRoot(leaves, root, level);
  }

  /** The count does not run over 32 bits when it is rounded up. */
  lemma CountFits(n: nat, l: nat)
    requires 0 < n <= 0x8000_0000 && FirstAt(n, l) && 0 < Width(n, l)
    ensures Width(n, l) * Pow2(l) <= 0x8000_0000
  {
    hide Width;
    TwoTo31();
    hide Pow2;
    if l != 0 {
      InTree(n, l - 1, 1);
      if 31 <= l - 1 {
        Pow2Grows(31, l - 1);
      }
    }
    InTree(n, l, Width(n, l) - 1);
    Pow2Add(31 - l, l);
    var w, k, p := Width(n, l), Pow2(31 - l), Pow2(l);
    if k < w {
      MulGrows(k, w - 1, p);
    }
    MulGrows(w, k, p);
  }

  lemma TwoTo31()
    ensures Pow2(31) == 0x8000_0000
  {
    Pow2Small();
    assert Pow2(32) == 2 * Pow2(31);
  }

  lemma EnoughBits(n: nat)
    requires n <= 0x8000_0000
    ensures n < Pow2(32)
  {
    Pow2Small();
  }

  lemma NothingPending(leaves: seq<Hash>, inner: seq<Hash>)
    ensures Pending(leaves, inner, 0) && !Twinned(leaves, 0)
  {
    forall l: nat ensures Half(0, l) == 0 {
      HalfOfNone(l);
    }
  }

  lemma {:induction false} HalfOfNone(l: nat)
    ensures Half(0, l) == 0
  {
    if l != 0 {
      HalfOfNone(l - 1);
    }
  }
}
