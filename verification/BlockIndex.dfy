/** The block index as a tree of objects, its skip pointers, and the active chain as a path through it. */
module BlockIndexes {

  // ----- skip heights

  /** Bitwise and. */
  function And(x: nat, y: nat): nat
    decreases x
  {
    if x == 0 then 0 else 2 * And(x / 2, y / 2) + if x % 2 == 1 && y % 2 == 1 then 1 else 0
  }

  lemma {:induction false} AndBelow(x: nat, y: nat)
    ensures And(x, y) <= y
  {
    if x != 0 {
      AndBelow(x / 2, y / 2);
    }
  }

  /** Clears the lowest bit that is set. */
  function InvertLowestOne(n: nat): nat {
    if n == 0 then 0 else And(n, n - 1)
  }

  function GetSkipHeight(height: int): int {
    if height < 2 then 0
    else if height % 2 == 1 then InvertLowestOne(InvertLowestOne(height - 1)) + 1
    else InvertLowestOne(height)
  }

  /** A skip pointer leads to a lower height. */
  lemma SkipIsLower(height: int)
    ensures 0 <= GetSkipHeight(height)
    ensures 1 <= height ==> GetSkipHeight(height) < height
  {
    if 2 <= height {
      if height % 2 == 1 {
        var once := InvertLowestOne(height - 1);
        AndBelow(height - 1, height - 2);
        if once != 0 {
          AndBelow(once, once - 1);
        }
      } else {
        AndBelow(height, height - 1);
      }
    }
  }

  class BlockIndex {
    const pprev: BlockIndex?
    const nHeight: nat
    var pskip: BlockIndex?

    /** The path back leads down by one height at a time, to a block of height 0. */
    ghost predicate Rooted()
      decreases nHeight
    {
      if pprev == null then nHeight == 0 else pprev.nHeight + 1 == nHeight && pprev.Rooted()
    }

    /** The plain walk back along `pprev`. */
    ghost function Ancestor(h: nat): (b: BlockIndex)
      requires Rooted() && h <= nHeight
      ensures b.nHeight == h && b.Rooted()
      decreases nHeight
    {
      if h == nHeight then this else pprev.Ancestor(h)
    }

    /** The block and all its ancestors. */
    ghost function Line(): (s: set<BlockIndex>)
      requires Rooted()
      ensures this in s
      decreases nHeight
    {
      {this} + if pprev == null then {} else pprev.Line()
    }

    /** A skip pointer that is set leads to the ancestor at the skip height. */
    ghost predicate SkipOk()
      requires Rooted()
      reads this
    {
      pskip != null ==>
        0 <= GetSkipHeight(nHeight) < nHeight && pskip == Ancestor(GetSkipHeight(nHeight))
    }

    ghost predicate SkipsOk()
      requires Rooted()
      reads Line()
      decreases nHeight
    {
      SkipOk() && (pprev == null || pprev.SkipsOk())
    }

    /** Ancestors of ancestors are ancestors. */
    lemma {:induction false} AncestorOf(h: nat, k: nat)
      requires Rooted() && h <= k <= nHeight
      ensures Ancestor(k).Ancestor(h) == Ancestor(h)
      decreases nHeight
    {
      if k != nHeight {
        pprev.AncestorOf(h, k);
      }
    }

    lemma {:induction false} AncestorSkips(h: nat)
      requires Rooted() && SkipsOk() && h <= nHeight
      ensures Ancestor(h).SkipsOk()
      decreases nHeight
    {
      if h != nHeight {
        pprev.AncestorSkips(h);
      }
    }

    constructor (pprev: BlockIndex?)
      requires pprev != null ==> pprev.Rooted()
      ensures Rooted() && this.pprev == pprev && pskip == null
      ensures nHeight == if pprev == null then 0 else pprev.nHeight + 1
    {
      this.pprev := pprev;
      nHeight := if pprev == null then 0 else pprev.nHeight + 1;
      pskip := null;
    }

    /** `GetAncestor`: by skip pointers where they help, it comes to the same block as the plain walk. */
    method GetAncestor(height: int) returns (b: BlockIndex?)
      requires Rooted() && SkipsOk()
      ensures b == null <==> height > nHeight || height < 0
      ensures b != null ==> b == Ancestor(height)
      ensures SkipsOk()
    {
      if height > nHeight || height < 0 {
        return null;
      }
      hide GetSkipHeight;
      var walk: BlockIndex := this;
      while walk.nHeight > height
        invariant height <= walk.nHeight <= nHeight && walk == Ancestor(walk.nHeight) && SkipsOk()
        decreases walk.nHeight
      {
        var heightSkip := GetSkipHeight(walk.nHeight);
        var heightSkipPrev := GetSkipHeight(walk.nHeight - 1);
        AncestorSkips(walk.nHeight);
        if walk.pskip != null &&
           (heightSkip == height ||
            (heightSkip > height && !(heightSkipPrev < heightSkip - 2 && heightSkipPrev >= height))) {
          AncestorOf(heightSkip, walk.nHeight);
          walk := walk.pskip;
        } else {
          AncestorOf(walk.nHeight - 1, walk.nHeight);
          walk := walk.pprev;
        }
      }
      b := walk;
    }

    method BuildSkip()
      requires Rooted() && pskip == null && (pprev != null ==> pprev.SkipsOk())
      modifies this
      ensures SkipsOk()
    {
      if pprev != null {
        SkipIsLower(nHeight);
        NotInOwnPast();
        pskip := pprev.GetAncestor(GetSkipHeight(nHeight));
      }
    }

    /** Blocks on the path back are not higher. */
    lemma {:induction false} LineHeights(c: BlockIndex)
      requires Rooted() && c in Line()
      ensures c.nHeight <= nHeight && c.Rooted() && Ancestor(c.nHeight) == c
      decreases nHeight
    {
      if c != this {
        pprev.LineHeights(c);
      }
    }

    /** The blocks on the path back exist, so that what happens elsewhere leaves them alone. */
    lemma {:induction false} LineExists()
      requires Rooted()
      ensures forall c :: c in Line() ==> allocated(c)
      decreases nHeight
    {
      if pprev != null {
        pprev.LineExists();
      }
    }

    lemma NotInOwnPast()
      requires Rooted() && pprev != null
      ensures this !in pprev.Line()
    {
      if this in pprev.Line() {
        pprev.LineHeights(this);
        assert false;
      }
    }
  }

  /** A block that lies on both paths back. */
  ghost predicate Common(a: BlockIndex, b: BlockIndex, c: BlockIndex)
    requires a.Rooted() && b.Rooted()
  {
    c in a.Line() && c in b.Line()
  }

  lemma {:induction false} AncestorInLine(a: BlockIndex, h: nat)
    requires a.Rooted() && h <= a.nHeight
    ensures a.Ancestor(h) in a.Line() && a.Ancestor(h).Line() <= a.Line()
    decreases a.nHeight
  {
    if h != a.nHeight {
      AncestorInLine(a.pprev, h);
    }
  }

  /** Lower blocks on a path back are on the path back from an ancestor above them. */
  lemma {:induction false} LineFrom(a: BlockIndex, h: nat, c: BlockIndex)
    requires a.Rooted() && h <= a.nHeight && c in a.Line() && c.nHeight <= h
    ensures c in a.Ancestor(h).Line()
    decreases a.nHeight
  {
    if h != a.nHeight {
      LineFrom(a.pprev, h, c);
    }
  }

  /** The common blocks of two blocks are those of their ancestors at the lower height. */
  lemma CommonFrom(a: BlockIndex, b: BlockIndex, h: nat, c: BlockIndex)
    requires a.Rooted() && b.Rooted() && h <= a.nHeight && h <= b.nHeight && (h == a.nHeight || h == b.nHeight)
    ensures Common(a, b, c) <==> Common(a.Ancestor(h), b.Ancestor(h), c)
  {
    AncestorInLine(a, h);
    AncestorInLine(b, h);
    if Common(a, b, c) {
      a.LineHeights(c);
      b.LineHeights(c);
      LineFrom(a, h, c);
      LineFrom(b, h, c);
    }
  }

  /** Two different blocks of the same height have the common blocks of their predecessors. */
  lemma CommonBefore(a: BlockIndex, b: BlockIndex, c: BlockIndex)
    requires a.Rooted() && b.Rooted() && a.nHeight == b.nHeight && a != b
    ensures Common(a, b, c) <==> a.pprev != null && b.pprev != null && Common(a.pprev, b.pprev, c)
  {
    if Common(a, b, c) {
      if c == a {
        b.LineHeights(c);
      }
      if c == b {
        a.LineHeights(c);
      }
    }
  }

  /** `r` is the highest block that two blocks have in common, or null if they have none. */
  ghost predicate IsLastCommon(a: BlockIndex, b: BlockIndex, r: BlockIndex?)
    requires a.Rooted() && b.Rooted()
  {
    && (r != null ==> Common(a, b, r))
    && forall c :: c in a.Line() && c in b.Line() ==> r != null && c.nHeight <= r.nHeight
  }

  /** `LastCommonAncestor`: at equal heights both walk back together; they can only end together. */
  method LastCommonAncestor(pa: BlockIndex, pb: BlockIndex) returns (r: BlockIndex?)
    requires pa.Rooted() && pb.Rooted() && pa.SkipsOk() && pb.SkipsOk()
    ensures IsLastCommon(pa, pb, r)
  {
    var a: BlockIndex?, b: BlockIndex? := pa, pb;
    if pa.nHeight > pb.nHeight {
      a := pa.GetAncestor(pb.nHeight);
    } else if pb.nHeight > pa.nHeight {
      b := pb.GetAncestor(pa.nHeight);
    }
    ghost var h := a.nHeight;
    assert a == pa.Ancestor(h) && b == pb.Ancestor(h);
    AncestorInLine(pa, h);
    AncestorInLine(pb, h);
    forall c: BlockIndex | c in pa.Line() && c in pb.Line() ensures c in a.Line() && c in b.Line() {
      CommonFrom(pa, pb, h, c);
    }
    while a != b && a != null && b != null
      invariant a == null <==> b == null
      invariant a != null ==> a.Rooted() && b.Rooted() && a.nHeight == b.nHeight
      invariant forall c :: c in pa.Line() && c in pb.Line() ==> a != null && c in a.Line() && c in b.Line()
      invariant a != null ==> a in pa.Line() && b in pb.Line()
      decreases if a == null then 0 else a.nHeight + 1
    {
      forall c: BlockIndex | c in pa.Line() && c in pb.Line()
        ensures a.pprev != null && b.pprev != null && c in a.pprev.Line() && c in b.pprev.Line()
      {
        CommonBefore(a, b, c);
      }
      PrevInLine(pa, a);
      PrevInLine(pb, b);
      a, b := a.pprev, b.pprev;
    }
    assert a == b;
    r := a;
    if r != null {
      forall c: BlockIndex | c in pa.Line() && c in pb.Line() ensures c.nHeight <= r.nHeight {
        r.LineHeights(c);
      }
    }
  }

  lemma {:induction false} PrevInLine(a: BlockIndex, c: BlockIndex)
    requires a.Rooted() && c in a.Line()
    ensures c.pprev != null ==> c.pprev in a.Line()
    decreases a.nHeight
  {
    if a != c {
      PrevInLine(a.pprev, c);
    }
  }

  // ----- the active chain

  class Chain {
    var vChain: seq<BlockIndex?>

    /** The chain is a path: every block follows the one before it, from height 0 on. */
    ghost predicate Valid()
      reads this
    {
      forall i :: 0 <= i < |vChain| ==>
        && vChain[i] != null && vChain[i].Rooted() && vChain[i].nHeight == i
        && (0 < i ==> vChain[i].pprev == vChain[i - 1])
    }

    constructor ()
      ensures Valid() && vChain == []
    {
      vChain := [];
    }

    /** The block at a height, or null. */
    function At(h: int): BlockIndex?
      reads this
    {
      if 0 <= h < |vChain| then vChain[h] else null
    }

    predicate Contains(b: BlockIndex)
      reads this
    {
      At(b.nHeight) == b
    }

    /** The blocks of the chain are the ancestors of those above them. */
    lemma {:induction false} Path(i: nat, j: nat)
      requires Valid() && i <= j < |vChain|
      ensures vChain[j].Ancestor(i) == vChain[i]
      decreases j
    {
      if i != j {
        Path(i, j - 1);
      }
    }

    /** `SetTip`: it stops at the first block that is in place already, and still the whole path is right. */
    method SetTip(pindex: BlockIndex?)
      requires Valid() && (pindex != null ==> pindex.Rooted())
      modifies this
      ensures Valid()
      ensures if pindex == null then vChain == []
              else |vChain| == pindex.nHeight + 1 &&
                   forall h :: 0 <= h <= pindex.nHeight ==> vChain[h] == pindex.Ancestor(h)
    {
      if pindex == null {
        vChain := [];
        return;
      }
      ghost var before := vChain;
      var n := pindex.nHeight + 1;
      vChain := if n <= |vChain| then vChain[..n] else vChain + seq(n - |vChain|, i => null);
      var walk: BlockIndex? := pindex;
      while walk != null && vChain[walk.nHeight] != walk
        invariant |vChain| == n
        invariant walk != null ==> walk.nHeight < n && walk == pindex.Ancestor(walk.nHeight)
        invariant forall h ::
          (if walk == null then 0 else walk.nHeight + 1) <= h < n ==> vChain[h] == pindex.Ancestor(h)
        invariant walk != null ==>
          forall h :: 0 <= h <= walk.nHeight ==> vChain[h] == if h < |before| then before[h] else null
        decreases if walk == null then 0 else walk.nHeight + 1
      {
        vChain := vChain[walk.nHeight := walk];
        if walk.pprev != null {
          pindex.AncestorOf(walk.nHeight - 1, walk.nHeight);
        }
        walk := walk.pprev;
      }
      if walk != null {
        forall h | 0 <= h <= walk.nHeight ensures vChain[h] == pindex.Ancestor(h) {
          InPlace(before, walk.nHeight, h);
          pindex.AncestorOf(h, walk.nHeight);
        }
      }
      forall h | 0 <= h < n ensures vChain[h] == pindex.Ancestor(h) && (0 < h ==> vChain[h].pprev == vChain[h - 1]) {
        if 0 < h {
          pindex.AncestorOf(h - 1, h);
        }
      }
    }

    /** A chain contains the ancestors of every block it contains. */
    lemma ContainsLine(b: BlockIndex)
      requires Valid() && b.Rooted() && Contains(b)
      ensures forall c :: c in b.Line() ==> Contains(c)
    {
      forall c | c in b.Line() ensures Contains(c) {
        b.LineHeights(c);
        Path(c.nHeight, b.nHeight);
      }
    }

    lemma ForkAt(b: BlockIndex, r: BlockIndex, c: BlockIndex)
      requires Valid() && b.Rooted() && r in b.Line() && c in b.Line() && Contains(r)
      requires Contains(c) ==> r.Rooted() && c in r.Line()
      ensures Contains(c) <==> c.nHeight <= r.nHeight
    {
      b.LineHeights(r);
      b.LineHeights(c);
      if c.nHeight <= r.nHeight {
        LineFrom(b, r.nHeight, c);
        ContainsLine(r);
      } else if Contains(c) {
        r.LineHeights(c);
      }
    }

    /** `FindFork`: a block on the path back whose own path back is what the two have in common, or null if they
        have nothing in common. */
    method FindFork(pindex: BlockIndex?) returns (r: BlockIndex?)
      requires Valid() && (pindex != null ==> pindex.Rooted() && pindex.SkipsOk())
      ensures pindex == null ==> r == null
      ensures r != null ==> r in pindex.Line() && Contains(r)
      ensures pindex != null ==>
        forall c :: c in pindex.Line() ==> (Contains(c) <==> r != null && c.nHeight <= r.nHeight)
    {
      if pindex == null {
        return null;
      }
      var walk: BlockIndex? := pindex;
      ghost var top := vChain;
      if pindex.nHeight > |vChain| - 1 {
        walk := pindex.GetAncestor(|vChain| - 1);
      }
      if walk != null {
        AncestorInLine(pindex, walk.nHeight);
      }
      forall c | c in pindex.Line() && Contains(c) ensures walk != null && c in walk.Line() {
        pindex.LineHeights(c);
        LineFrom(pindex, walk.nHeight, c);
      }
      while walk != null && !Contains(walk)
        invariant walk != null ==> walk.Rooted() && walk in pindex.Line()
        invariant forall c :: c in pindex.Line() && Contains(c) ==> walk != null && c in walk.Line()
        decreases if walk == null then 0 else walk.nHeight + 1
      {
        PrevInLine(pindex, walk);
        walk := walk.pprev;
      }
      r := walk;
      if r != null {
        forall c | c in pindex.Line() ensures Contains(c) <==> c.nHeight <= r.nHeight {
          ForkAt(pindex, r, c);
        }
      }
    }

    /** One step of `GetLocator`: the ancestor at a height, by the chain's own index if possible. */
    method StepBack(pindex: BlockIndex, nHeight: nat) returns (r: BlockIndex)
      requires Valid() && pindex.Rooted() && pindex.SkipsOk() && nHeight <= pindex.nHeight
      ensures r == pindex.Ancestor(nHeight)
    {
      if Contains(pindex) {
        Path(nHeight, pindex.nHeight);
        r := vChain[nHeight];
      } else {
        r := pindex.GetAncestor(nHeight);
      }
    }

    /** `GetLocator`, as blocks instead of hashes. */
    method GetLocator(from: BlockIndex?) returns (vHave: seq<BlockIndex>)
      requires Valid() && (from != null ==> from.Rooted() && from.SkipsOk())
      requires vChain != [] ==> vChain[|vChain| - 1].SkipsOk()
      ensures from == null && vChain == [] ==> vHave == []
      ensures from != null || vChain != [] ==>
        Locates(if from == null then vChain[|vChain| - 1] else from, vHave)
    {
      if from == null && vChain == [] {
        return [];
      }
      vHave := LocateFrom(if from != null then from else vChain[|vChain| - 1]);
    }

    method LocateFrom(start: BlockIndex) returns (vHave: seq<BlockIndex>)
      requires Valid() && start.Rooted() && start.SkipsOk()
      ensures Locates(start, vHave)
    {
      hide start.SkipsOk;
      ghost var heights := LocatorHeights(start.nHeight, 1, 0);
      LocatorFalls(start.nHeight, 1, 0);
      start.LineExists();
      var pindex, nStep := start, 1;
      vHave := [];
      while pindex.nHeight != 0
        invariant Valid() && start.SkipsOk() && 1 <= nStep
        invariant pindex.nHeight <= start.nHeight && pindex == start.Ancestor(pindex.nHeight)
        invariant Remaining(heights, |vHave|, pindex.nHeight, nStep)
        invariant forall i :: 0 <= i < |vHave| ==> heights[i] <= start.nHeight && vHave[i] == start.Ancestor(heights[i])
        decreases pindex.nHeight
      {
        RemainingNext(heights, |vHave|, pindex.nHeight, nStep);
        var nHeight := if pindex.nHeight - nStep > 0 then pindex.nHeight - nStep else 0;
        vHave := vHave + [pindex];
        start.AncestorOf(nHeight, pindex.nHeight);
        start.AncestorSkips(pindex.nHeight);
        start.LineExists();
        pindex := StepBack(pindex, nHeight);
        if |vHave| > 10 {
          nStep := nStep * 2;
        }
      }
      RemainingNext(heights, |vHave|, 0, nStep);
      vHave := vHave + [pindex];
    }
  }

  /** The blocks of a locator that starts at a block. */
  ghost predicate Locates(start: BlockIndex, vHave: seq<BlockIndex>)
    requires start.Rooted()
  {
    var heights := LocatorHeights(start.nHeight, 1, 0);
    && |vHave| == |heights|
    && forall i :: 0 <= i < |vHave| ==> heights[i] <= start.nHeight && vHave[i] == start.Ancestor(heights[i])
  }

  /** The heights from place `n` on are those of a locator from height `h`. */
  ghost predicate Remaining(heights: seq<nat>, n: nat, h: nat, step: nat) {
    n <= |heights| && 1 <= step && heights[n..] == LocatorHeights(h, step, n)
  }

  lemma RemainingNext(heights: seq<nat>, n: nat, h: nat, step: nat)
    requires Remaining(heights, n, h, step)
    ensures n < |heights| && heights[n] == h
    ensures if h == 0 then n + 1 == |heights|
            else Remaining(heights, n + 1, if h - step > 0 then h - step else 0, if n + 1 > 10 then step * 2 else step)
  {
    assert heights[n..][0] == heights[n];
    assert heights[n..][1..] == heights[n + 1..];
    assert |heights[n..]| == |heights| - n;
  }

  /** The heights of a block locator: single steps first, then steps that double, then height 0. */
  function LocatorHeights(h: nat, step: nat, count: nat): (r: seq<nat>)
    requires 1 <= step
    ensures r != [] && r[0] == h
    decreases h
  {
    if h == 0 then [0] else
    [h] + LocatorHeights(if h - step > 0 then h - step else 0, if count + 1 > 10 then step * 2 else step, count + 1)
  }

  /** A locator goes strictly down and ends with the first block. */
  lemma {:induction false} LocatorFalls(h: nat, step: nat, count: nat)
    requires 1 <= step
    ensures var r := LocatorHeights(h, step, count);
      && r[|r| - 1] == 0
      && (forall i :: 0 <= i < |r| ==> r[i] <= h)
      && forall i, j :: 0 <= i < j < |r| ==> r[j] < r[i]
    decreases h
  {
    if h != 0 {
      LocatorFalls(if h - step > 0 then h - step else 0, if count + 1 > 10 then step * 2 else step, count + 1);
    }
  }

  /** In a path, the blocks below a block are its ancestors. */
  lemma {:induction false} InPlace(path: seq<BlockIndex?>, j: nat, h: nat)
    requires h <= j < |path|
    requires forall i :: 0 <= i < |path| ==>
      path[i] != null && path[i].Rooted() && path[i].nHeight == i && (0 < i ==> path[i].pprev == path[i - 1])
    ensures path[j].Ancestor(h) == path[h]
    decreases j
  {
    if h != j {
      InPlace(path, j - 1, h);
    }
  }
}
