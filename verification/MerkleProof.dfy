/** Partial Merkle trees: what building one stores, what extracting from one yields, and what each is worth.

Hashing is modelled by a free constructor: no two different inputs have the same hash.
*/
module MerkleProof {
  import opened Basics
  import opened Powers

  datatype Hash = Null | Leaf(id: nat) | Node(left: Hash, right: Hash)

  // ----- the shape of the tree

  /** The number of nodes at a height. */
  function Width(n: nat, h: nat): nat {
    if h == 0 then n else (Width(n, h - 1) + 1) / 2
  }

  /** A node exists just when its first leaf does. */
  lemma {:induction false} InTree(n: nat, h: nat, pos: nat)
    ensures pos < Width(n, h) <==> pos * Pow2(h) < n
  {
    if h != 0 {
      InTree(n, h - 1, 2 * pos);
      assert pos * (2 * Pow2(h - 1)) == 2 * pos * Pow2(h - 1);
    }
  }

  /** The shift formula of `CalcTreeWidth`. */
  lemma WidthFormula(n: nat, h: nat)
    ensures Width(n, h) == (n + Pow2(h) - 1) / Pow2(h)
  {
    var p := Pow2(h);
    var w := (n + p - 1) / p;
    CeilDiv(n, p);
    InTree(n, h, w);
    if w != 0 {
      InTree(n, h, w - 1);
    }
  }

  /** The least number of pieces of size `p` that make up `n`. */
  lemma CeilDiv(n: nat, p: nat)
    requires 0 < p
    ensures var w := (n + p - 1) / p; n <= w * p && (w != 0 ==> (w - 1) * p < n)
  {
    var w := (n + p - 1) / p;
    assert w * p <= n + p - 1 < w * p + p;
    assert w != 0 ==> (w - 1) * p == w * p - p;
  }

  /** The height at which a single node is left. */
  function Height(n: nat, h: nat): (r: nat)
    ensures Width(n, r) <= 1
    decreases Width(n, h)
  {
    if Width(n, h) <= 1 then h else Height(n, h + 1)
  }

  lemma {:induction false} HeightHasNode(n: nat, h: nat)
    requires 0 < Width(n, h)
    ensures Width(n, Height(n, h)) == 1 && h <= Height(n, h)
    decreases Width(n, h)
  {
    if 1 < Width(n, h) {
      HeightHasNode(n, h + 1);
    }
  }

  // ----- the hashes

  /** `CalcHash`. */
  function Calc(txids: seq<Hash>, h: nat, pos: nat): Hash
    requires pos < Width(|txids|, h)
    decreases h
  {
    if h == 0 then txids[pos] else
    var left := Calc(txids, h - 1, 2 * pos);
    Node(left, if 2 * pos + 1 < Width(|txids|, h - 1) then Calc(txids, h - 1, 2 * pos + 1) else left)
  }

  function Root(txids: seq<Hash>): Hash
    requires txids != []
  {
    HeightHasNode(|txids|, 0);
    Calc(txids, Height(|txids|, 0), 0)
  }

  /** Whether the node is a parent of a matched leaf. */
  predicate Matched(marks: seq<bool>, h: nat, pos: nat)
    requires pos < Width(|marks|, h)
    decreases h
  {
    if h == 0 then marks[pos] else
    || Matched(marks, h - 1, 2 * pos)
    || (2 * pos + 1 < Width(|marks|, h - 1) && Matched(marks, h - 1, 2 * pos + 1))
  }

  datatype Proof = Proof(bits: seq<bool>, hashes: seq<Hash>)

  /** `TraverseAndBuild`: what is stored for a node and all below it. */
  function Built(txids: seq<Hash>, marks: seq<bool>, h: nat, pos: nat): Proof
    requires |marks| == |txids| && pos < Width(|txids|, h)
    decreases h
  {
    var parent := Matched(marks, h, pos);
    if h == 0 || !parent then Proof([parent], [Calc(txids, h, pos)]) else
    var left := Built(txids, marks, h - 1, 2 * pos);
    if 2 * pos + 1 < Width(|txids|, h - 1) then
      var right := Built(txids, marks, h - 1, 2 * pos + 1);
      Proof([parent] + left.bits + right.bits, left.hashes + right.hashes)
    else Proof([parent] + left.bits, left.hashes)
  }

  // ----- extraction

  datatype Found = Found(txid: Hash, index: nat)

  /** What `TraverseAndExtract` returns and leaves behind. */
  datatype Reading = Reading(hash: Hash, bitsUsed: nat, hashesUsed: nat, bad: bool, found: seq<Found>)

  function Extract(n: nat, t: Proof, h: nat, pos: nat, bitsUsed: nat, hashesUsed: nat): Reading
    decreases h
  {
    if |t.bits| <= bitsUsed then Reading(Null, bitsUsed, hashesUsed, true, []) else
    var parent := t.bits[bitsUsed];
    if h == 0 || !parent then
      if |t.hashes| <= hashesUsed then Reading(Null, bitsUsed + 1, hashesUsed, true, []) else
      var hash := t.hashes[hashesUsed];
      Reading(hash, bitsUsed + 1, hashesUsed + 1, false, if h == 0 && parent then [Found(hash, pos)] else [])
    else
      var left := Extract(n, t, h - 1, 2 * pos, bitsUsed + 1, hashesUsed);
      if 2 * pos + 1 < Width(n, h - 1) then
        var right := Extract(n, t, h - 1, 2 * pos + 1, left.bitsUsed, left.hashesUsed);
        Reading(Node(left.hash, right.hash), right.bitsUsed, right.hashesUsed,
                left.bad || right.bad || right.hash == left.hash, left.found + right.found)
      else Reading(Node(left.hash, left.hash), left.bitsUsed, left.hashesUsed, left.bad, left.found)
  }

  const MAX_TRANSACTIONS := 8_000_000 / 240

  datatype Extraction = Extraction(root: Hash, found: seq<Found>)

  /** `ExtractMatches`. */
  function ExtractAll(n: nat, t: Proof): Extraction {
    if n == 0 || MAX_TRANSACTIONS < n || n < |t.hashes| || |t.bits| < |t.hashes| then Extraction(Null, []) else
    var r := Extract(n, t, Height(n, 0), 0, 0, 0);
    if r.bad || (r.bitsUsed + 7) / 8 != (|t.bits| + 7) / 8 || r.hashesUsed != |t.hashes| then Extraction(Null, r.found)
    else Extraction(r.hash, r.found)
  }

  // ----- soundness

  /** Every extracted pair is a transaction of the block at its index. */
  ghost predicate Genuine(txids: seq<Hash>, found: seq<Found>) {
    forall i :: 0 <= i < |found| ==> found[i].index < |txids| && txids[found[i].index] == found[i].txid
  }

  /** A node that reads as its true hash was stored as such, or its children read as theirs. */
  lemma InnerRead(txids: seq<Hash>, t: Proof, h: nat, pos: nat, bitsUsed: nat, hashesUsed: nat)
    requires pos < Width(|txids|, h)
    requires var r := Extract(|txids|, t, h, pos, bitsUsed, hashesUsed); !r.bad && r.hash == Calc(txids, h, pos)
    ensures bitsUsed < |t.bits|
    ensures var n := |txids|;
      var r := Extract(n, t, h, pos, bitsUsed, hashesUsed);
      if h == 0 || !t.bits[bitsUsed] then Genuine(txids, r.found) else
      var left := Extract(n, t, h - 1, 2 * pos, bitsUsed + 1, hashesUsed);
      && !left.bad && left.hash == Calc(txids, h - 1, 2 * pos)
      && if 2 * pos + 1 < Width(n, h - 1) then
           var right := Extract(n, t, h - 1, 2 * pos + 1, left.bitsUsed, left.hashesUsed);
           !right.bad && right.hash == Calc(txids, h - 1, 2 * pos + 1) && r.found == left.found + right.found
         else r.found == left.found
  {
  }

  lemma {:induction false} NodeSound(txids: seq<Hash>, t: Proof, h: nat, pos: nat, bitsUsed: nat, hashesUsed: nat)
    requires pos < Width(|txids|, h)
    requires var r := Extract(|txids|, t, h, pos, bitsUsed, hashesUsed); !r.bad && r.hash == Calc(txids, h, pos)
    ensures Genuine(txids, Extract(|txids|, t, h, pos, bitsUsed, hashesUsed).found)
    decreases h
  {
    hide Extract;
    hide Calc;
    InnerRead(txids, t, h, pos, bitsUsed, hashesUsed);
    if t.bits[bitsUsed] && h != 0 {
      var n := |txids|;
      var left := Extract(n, t, h - 1, 2 * pos, bitsUsed + 1, hashesUsed);
      NodeSound(txids, t, h - 1, 2 * pos, bitsUsed + 1, hashesUsed);
      if 2 * pos + 1 < Width(n, h - 1) {
        NodeSound(txids, t, h - 1, 2 * pos + 1, left.bitsUsed, left.hashesUsed);
      }
    }
  }

  /** Whatever the bits and hashes are: if the root comes out, everything extracted is in the block. */
  lemma Sound(txids: seq<Hash>, t: Proof)
    requires txids != [] && Root(txids) != Null
    requires ExtractAll(|txids|, t).root == Root(txids)
    ensures Genuine(txids, ExtractAll(|txids|, t).found)
  {
    HeightHasNode(|txids|, 0);
    NodeSound(txids, t, Height(|txids|, 0), 0, 0, 0);
  }

  // ----- completeness

  /** What should be found below a node. */
  function Wanted(txids: seq<Hash>, marks: seq<bool>, h: nat, pos: nat): seq<Found>
    requires |marks| == |txids| && pos < Width(|txids|, h)
    decreases h
  {
    if h == 0 then (if marks[pos] then [Found(txids[pos], pos)] else []) else
    Wanted(txids, marks, h - 1, 2 * pos) +
      if 2 * pos + 1 < Width(|txids|, h - 1) then Wanted(txids, marks, h - 1, 2 * pos + 1) else []
  }

  lemma {:induction false} NothingWanted(txids: seq<Hash>, marks: seq<bool>, h: nat, pos: nat)
    requires |marks| == |txids| && pos < Width(|txids|, h) && !Matched(marks, h, pos)
    ensures Wanted(txids, marks, h, pos) == []
    decreases h
  {
    if h != 0 {
      NothingWanted(txids, marks, h - 1, 2 * pos);
      if 2 * pos + 1 < Width(|txids|, h - 1) {
        NothingWanted(txids, marks, h - 1, 2 * pos + 1);
      }
    }
  }

  ghost predicate Distinct(txids: seq<Hash>) {
    forall i, j :: 0 <= i < j < |txids| ==> txids[i] != txids[j]
  }

  /** Going down `h` times to the left. */
  function Leftmost(x: Hash, h: nat): Hash
    decreases h
  {
    if h == 0 || !x.Node? then x else Leftmost(x.left, h - 1)
  }

  /** The first leaf below a node. */
  function First(h: nat, pos: nat): nat
    decreases h
  {
    if h == 0 then pos else First(h - 1, 2 * pos)
  }

  lemma {:induction false} FirstGrows(h: nat, pos: nat, next: nat)
    requires pos < next
    ensures First(h, pos) < First(h, next)
    decreases h
  {
    if h != 0 {
      FirstGrows(h - 1, 2 * pos, 2 * next);
    }
  }

  lemma {:induction false} LeftmostLeaf(txids: seq<Hash>, h: nat, pos: nat)
    requires pos < Width(|txids|, h)
    ensures First(h, pos) < |txids| && Leftmost(Calc(txids, h, pos), h) == txids[First(h, pos)]
    decreases h
  {
    if h != 0 {
      LeftmostLeaf(txids, h - 1, 2 * pos);
    }
  }

  /** With distinct transactions, neighbours have different hashes. */
  lemma SiblingsDiffer(txids: seq<Hash>, h: nat, pos: nat)
    requires Distinct(txids) && 2 * pos + 1 < Width(|txids|, h)
    ensures Calc(txids, h, 2 * pos) != Calc(txids, h, 2 * pos + 1)
  {
    hide Calc;
    hide Leftmost;
    hide First;
    LeftmostLeaf(txids, h, 2 * pos);
    LeftmostLeaf(txids, h, 2 * pos + 1);
    FirstGrows(h, 2 * pos, 2 * pos + 1);
  }

  /** `part` is found in `whole` at `at`. */
  ghost predicate Within<T>(part: seq<T>, whole: seq<T>, at: nat) {
    at + |part| <= |whole| && whole[at..at + |part|] == part
  }

  lemma WithinParts<T>(a: seq<T>, b: seq<T>, whole: seq<T>, at: nat)
    requires Within(a + b, whole, at)
    ensures Within(a, whole, at) && Within(b, whole, at + |a|)
  {
    assert whole[at..at + |a|] == whole[at..at + |a + b|][..|a|];
    assert whole[at + |a|..at + |a| + |b|] == whole[at..at + |a + b|][|a|..];
  }

  /** What extraction must yield for what building stored. */
  ghost function Faithful(txids: seq<Hash>, marks: seq<bool>, h: nat, pos: nat, bitsUsed: nat, hashesUsed: nat): Reading
    requires |marks| == |txids| && pos < Width(|txids|, h)
  {
    var b := Built(txids, marks, h, pos);
    Reading(Calc(txids, h, pos), bitsUsed + |b.bits|, hashesUsed + |b.hashes|, false, Wanted(txids, marks, h, pos))
  }

  ghost predicate Holds(t: Proof, b: Proof, bitsUsed: nat, hashesUsed: nat) {
    Within(b.bits, t.bits, bitsUsed) && Within(b.hashes, t.hashes, hashesUsed)
  }

  lemma LeafRead(txids: seq<Hash>, marks: seq<bool>, t: Proof, h: nat, pos: nat, bitsUsed: nat, hashesUsed: nat)
    requires |marks| == |txids| && pos < Width(|txids|, h) && (h == 0 || !Matched(marks, h, pos))
    requires Holds(t, Built(txids, marks, h, pos), bitsUsed, hashesUsed)
    ensures Extract(|txids|, t, h, pos, bitsUsed, hashesUsed) == Faithful(txids, marks, h, pos, bitsUsed, hashesUsed)
  {
    var b := Built(txids, marks, h, pos);
    assert t.bits[bitsUsed] == b.bits[0];
    assert t.hashes[hashesUsed] == b.hashes[0];
    if h != 0 {
      NothingWanted(txids, marks, h, pos);
    }
  }

  lemma BuiltParts(txids: seq<Hash>, marks: seq<bool>, t: Proof, h: nat, pos: nat, bitsUsed: nat, hashesUsed: nat)
    requires |marks| == |txids| && pos < Width(|txids|, h) && h != 0 && Matched(marks, h, pos)
    requires Holds(t, Built(txids, marks, h, pos), bitsUsed, hashesUsed)
    ensures bitsUsed < |t.bits| && t.bits[bitsUsed]
    ensures var left := Built(txids, marks, h - 1, 2 * pos);
      && Holds(t, left, bitsUsed + 1, hashesUsed)
      && (2 * pos + 1 < Width(|txids|, h - 1) ==>
            Holds(t, Built(txids, marks, h - 1, 2 * pos + 1), bitsUsed + 1 + |left.bits|, hashesUsed + |left.hashes|))
  {
    var b := Built(txids, marks, h, pos);
    assert t.bits[bitsUsed] == b.bits[0];
    var left := Built(txids, marks, h - 1, 2 * pos);
    if 2 * pos + 1 < Width(|txids|, h - 1) {
      var right := Built(txids, marks, h - 1, 2 * pos + 1);
      assert b.bits == [true] + (left.bits + right.bits);
      WithinParts([true], left.bits + right.bits, t.bits, bitsUsed);
      WithinParts(left.bits, right.bits, t.bits, bitsUsed + 1);
      WithinParts(left.hashes, right.hashes, t.hashes, hashesUsed);
    } else {
      WithinParts([true], left.bits, t.bits, bitsUsed);
    }
  }

  /** Reading an inner node from the readings of its children. */
  lemma NodeRead(txids: seq<Hash>, marks: seq<bool>, t: Proof, h: nat, pos: nat, bitsUsed: nat, hashesUsed: nat)
    requires |marks| == |txids| && pos < Width(|txids|, h) && h != 0 && Matched(marks, h, pos)
    requires bitsUsed < |t.bits| && t.bits[bitsUsed]
    requires var left := Faithful(txids, marks, h - 1, 2 * pos, bitsUsed + 1, hashesUsed);
      && Extract(|txids|, t, h - 1, 2 * pos, bitsUsed + 1, hashesUsed) == left
      && (2 * pos + 1 < Width(|txids|, h - 1) ==>
            && Extract(|txids|, t, h - 1, 2 * pos + 1, left.bitsUsed, left.hashesUsed)
               == Faithful(txids, marks, h - 1, 2 * pos + 1, left.bitsUsed, left.hashesUsed)
            && Calc(txids, h - 1, 2 * pos) != Calc(txids, h - 1, 2 * pos + 1))
    ensures Extract(|txids|, t, h, pos, bitsUsed, hashesUsed) == Faithful(txids, marks, h, pos, bitsUsed, hashesUsed)
  {
  }

  /** Extraction reads back what building stored, wherever it lies. */
  lemma {:induction false} NodeComplete(
      txids: seq<Hash>, marks: seq<bool>, t: Proof, h: nat, pos: nat, bitsUsed: nat, hashesUsed: nat)
    requires |marks| == |txids| && Distinct(txids) && pos < Width(|txids|, h)
    requires Holds(t, Built(txids, marks, h, pos), bitsUsed, hashesUsed)
    ensures Extract(|txids|, t, h, pos, bitsUsed, hashesUsed) == Faithful(txids, marks, h, pos, bitsUsed, hashesUsed)
    decreases h
  {
    hide Distinct;
    hide Holds;
    hide Extract;
    hide Calc;
    hide Wanted;
    hide Built;
    hide Matched;
    if h == 0 || !Matched(marks, h, pos) {
      LeafRead(txids, marks, t, h, pos, bitsUsed, hashesUsed);
    } else {
      BuiltParts(txids, marks, t, h, pos, bitsUsed, hashesUsed);
      var left := Built(txids, marks, h - 1, 2 * pos);
      NodeComplete(txids, marks, t, h - 1, 2 * pos, bitsUsed + 1, hashesUsed);
      if 2 * pos + 1 < Width(|txids|, h - 1) {
        NodeComplete(txids, marks, t, h - 1, 2 * pos + 1, bitsUsed + 1 + |left.bits|, hashesUsed + |left.hashes|);
        SiblingsDiffer(txids, h - 1, pos);
      }
      NodeRead(txids, marks, t, h, pos, bitsUsed, hashesUsed);
    }
  }

  // ----- how much is stored

  /** The number of leaves below a node. */
  function Leaves(n: nat, h: nat, pos: nat): nat
    requires pos < Width(n, h)
    decreases h
  {
    if h == 0 then 1 else
    Leaves(n, h - 1, 2 * pos) + if 2 * pos + 1 < Width(n, h - 1) then Leaves(n, h - 1, 2 * pos + 1) else 0
  }

  /** One hash, and one for every level above each match. */
  function Budget(matches: nat, h: nat): nat {
    1 + matches * h
  }

  lemma BudgetSplit(l: nat, r: nat, h: nat)
    requires 1 <= l + r && 1 <= h
    ensures Budget(l, h - 1) + Budget(r, h - 1) <= Budget(l + r, h)
  {
    assert (l + r) * h == l * (h - 1) + r * (h - 1) + (l + r);
  }

  lemma BudgetGrows(l: nat, h: nat)
    requires 1 <= h
    ensures Budget(l, h - 1) <= Budget(l, h)
  {
    assert l * h == l * (h - 1) + l;
  }

  lemma {:induction false} MatchedIsWanted(txids: seq<Hash>, marks: seq<bool>, h: nat, pos: nat)
    requires |marks| == |txids| && pos < Width(|txids|, h) && Matched(marks, h, pos)
    ensures 1 <= |Wanted(txids, marks, h, pos)|
    decreases h
  {
    if h != 0 {
      if Matched(marks, h - 1, 2 * pos) {
        MatchedIsWanted(txids, marks, h - 1, 2 * pos);
      } else {
        MatchedIsWanted(txids, marks, h - 1, 2 * pos + 1);
      }
    }
  }

  lemma LeavesPositive(n: nat, h: nat, pos: nat)
    requires pos < Width(n, h)
    ensures 1 <= Leaves(n, h, pos)
    decreases h
  {
  }

  /** At most one hash for every leaf, at most one more than the height for every match, and a bit for each. */
  lemma {:induction false} StoredHashes(txids: seq<Hash>, marks: seq<bool>, h: nat, pos: nat)
    requires |marks| == |txids| && pos < Width(|txids|, h)
    ensures var b := Built(txids, marks, h, pos);
      && |b.hashes| <= Leaves(|txids|, h, pos)
      && |b.hashes| <= Budget(|Wanted(txids, marks, h, pos)|, h)
      && |b.hashes| <= |b.bits|
    decreases h
  {
    hide Budget;
    hide Calc;
    LeavesPositive(|txids|, h, pos);
    BudgetPositive(|Wanted(txids, marks, h, pos)|, h);
    if h != 0 && Matched(marks, h, pos) {
      MatchedIsWanted(txids, marks, h, pos);
      StoredHashes(txids, marks, h - 1, 2 * pos);
      var l := |Wanted(txids, marks, h - 1, 2 * pos)|;
      if 2 * pos + 1 < Width(|txids|, h - 1) {
        StoredHashes(txids, marks, h - 1, 2 * pos + 1);
        BudgetSplit(l, |Wanted(txids, marks, h - 1, 2 * pos + 1)|, h);
      } else {
        BudgetGrows(l, h);
      }
    }
  }

  lemma BudgetPositive(matches: nat, h: nat)
    ensures 1 <= Budget(matches, h)
  {
  }

  // ----- the leaves and matches of the whole tree

  /** The leaves from `lo` up to `hi` that are marked, in order. */
  function Selected(txids: seq<Hash>, marks: seq<bool>, lo: nat, hi: nat): seq<Found>
    requires |marks| == |txids| && lo <= hi <= |txids|
  {
    if lo == hi then [] else
    Selected(txids, marks, lo, hi - 1) + if marks[hi - 1] then [Found(txids[hi - 1], hi - 1)] else []
  }

  lemma {:induction false} SelectedParts(txids: seq<Hash>, marks: seq<bool>, lo: nat, mid: nat, hi: nat)
    requires |marks| == |txids| && lo <= mid <= hi <= |txids|
    ensures Selected(txids, marks, lo, hi) == Selected(txids, marks, lo, mid) + Selected(txids, marks, mid, hi)
    decreases hi
  {
    if mid != hi {
      SelectedParts(txids, marks, lo, mid, hi - 1);
    }
  }

  lemma {:induction false} FirstInTree(n: nat, h: nat, pos: nat)
    ensures pos < Width(n, h) <==> First(h, pos) < n
    decreases h
  {
    if h != 0 {
      FirstInTree(n, h - 1, 2 * pos);
    }
  }

  /** One past the last leaf below a node. */
  function End(n: nat, h: nat, pos: nat): nat {
    Min(First(h, pos + 1), n)
  }

  /** The leaves of a node are those of its children, one after the other. */
  lemma EndSplit(n: nat, h: nat, pos: nat)
    requires h != 0 && pos < Width(n, h)
    ensures First(h, pos) == First(h - 1, 2 * pos)
    ensures if 2 * pos + 1 < Width(n, h - 1)
            then End(n, h - 1, 2 * pos) == First(h - 1, 2 * pos + 1) && End(n, h, pos) == End(n, h - 1, 2 * pos + 1)
            else End(n, h, pos) == End(n, h - 1, 2 * pos)
    ensures First(h, pos) <= End(n, h, pos)
  {
    FirstInTree(n, h, pos);
    FirstInTree(n, h - 1, 2 * pos + 1);
    FirstGrows(h, pos, pos + 1);
    FirstGrows(h - 1, 2 * pos + 1, 2 * pos + 2);
  }

  lemma {:induction false} LeavesCount(n: nat, h: nat, pos: nat)
    requires pos < Width(n, h)
    ensures Leaves(n, h, pos) == End(n, h, pos) - First(h, pos)
    decreases h
  {
    hide First;
    hide End;
    hide Width;
    if h == 0 {
      LeafRange(n, pos);
    } else {
      EndSplit(n, h, pos);
      ChildInTree(n, h, pos);
      LeavesCount(n, h - 1, 2 * pos);
      if 2 * pos + 1 < Width(n, h - 1) {
        LeavesCount(n, h - 1, 2 * pos + 1);
      }
    }
  }

  lemma LeafRange(n: nat, pos: nat)
    requires pos < Width(n, 0)
    ensures pos < n && First(0, pos) == pos && End(n, 0, pos) == pos + 1
  {
  }

  lemma ChildInTree(n: nat, h: nat, pos: nat)
    requires h != 0 && pos < Width(n, h)
    ensures 2 * pos < Width(n, h - 1)
  {
  }

  /** What is wanted below a node are the marked ones of its leaves, in order. */
  lemma {:induction false} WantedIsSelected(txids: seq<Hash>, marks: seq<bool>, h: nat, pos: nat)
    requires |marks| == |txids| && pos < Width(|txids|, h)
    ensures First(h, pos) <= End(|txids|, h, pos) <= |txids|
    ensures Wanted(txids, marks, h, pos) == Selected(txids, marks, First(h, pos), End(|txids|, h, pos))
    decreases h
  {
    hide First;
    hide Width;
    var n := |txids|;
    if h == 0 {
      LeafRange(n, pos);
      assert Selected(txids, marks, pos, pos) == [];
    } else {
      EndSplit(n, h, pos);
      ChildInTree(n, h, pos);
      WantedIsSelected(txids, marks, h - 1, 2 * pos);
      if 2 * pos + 1 < Width(n, h - 1) {
        WantedIsSelected(txids, marks, h - 1, 2 * pos + 1);
        SelectedParts(txids, marks, First(h, pos), First(h - 1, 2 * pos + 1), End(n, h, pos));
      }
    }
  }

  lemma {:induction false} FirstOfFirst(h: nat)
    ensures First(h, 0) == 0
  {
    if h != 0 {
      FirstOfFirst(h - 1);
    }
  }

  /** The root stands for all leaves. */
  lemma RootRange(n: nat)
    requires 0 < n
    ensures var h := Height(n, 0); 0 < Width(n, h) && First(h, 0) == 0 && End(n, h, 0) == n
  {
    var h := Height(n, 0);
    HeightHasNode(n, 0);
    FirstOfFirst(h);
    FirstInTree(n, h, 1);
  }

  // ----- bits in bytes

  /** Bits with the padding that packing them into bytes adds. */
  function Padded(bits: seq<bool>): (r: seq<bool>)
    ensures |r| == (|bits| + 7) / 8 * 8 && |bits| <= |r| && r[..|bits|] == bits
  {
    bits + seq((|bits| + 7) / 8 * 8 - |bits|, i => false)
  }

  /** Building, packing, unpacking and extracting gives the true root and just the marked transactions in order;
      the stored hashes are at most one per transaction, and one more than the height for each match. */
  lemma Complete(txids: seq<Hash>, marks: seq<bool>)
    requires 0 < |txids| <= MAX_TRANSACTIONS && |marks| == |txids| && Distinct(txids)
    ensures var h := Height(|txids|, 0);
      && 0 < Width(|txids|, h)
      && var b := Built(txids, marks, h, 0);
      && ExtractAll(|txids|, Proof(Padded(b.bits), b.hashes))
         == Extraction(Root(txids), Selected(txids, marks, 0, |txids|))
      && |b.hashes| <= |txids|
      && |b.hashes| <= 1 + |Selected(txids, marks, 0, |txids|)| * h
  {
    hide Built;
    hide Wanted;
    hide Extract;
    hide Distinct;
    hide Selected;
    hide Calc;
    hide Width;
    hide Height;
    hide First;
    var n := |txids|;
    var h := Height(n, 0);
    RootRange(n);
    WantedIsSelected(txids, marks, h, 0);
    LeavesCount(n, h, 0);
    StoredHashes(txids, marks, h, 0);
    var b := Built(txids, marks, h, 0);
    var t := Proof(Padded(b.bits), b.hashes);
    assert Within(b.bits, t.bits, 0) && Within(b.hashes, t.hashes, 0);
    NodeComplete(txids, marks, t, h, 0, 0, 0);
  }
}
