/** What the flag for mutated lists is worth: two lists with the same root, neither of them flagged, are the same. */
module MerkleMutation {
  import opened Basics
  import opened MerkleProof
  import opened MerkleStream

  // ----- the flag tells of all neighbours

  /** Two neighbours that are hashed together are the same. */
  ghost predicate SameSiblings(leaves: seq<Hash>, l: nat, pos: nat) {
    2 * pos + 1 < Width(|leaves|, l) && Calc(leaves, l, 2 * pos) == Calc(leaves, l, 2 * pos + 1)
  }

  ghost predicate HasTwins(leaves: seq<Hash>) {
    exists l: nat, pos: nat :: SameSiblings(leaves, l, pos)
  }

  /** At each level at most the last part is not whole. */
  lemma {:induction false} OneEdge(n: nat, l: nat)
    ensures Width(n, l) == Half(n, l) || Width(n, l) == Half(n, l) + 1
  {
    if l != 0 {
      OneEdge(n, l - 1);
    }
  }

  /** If a whole part has the hash of one that is not whole, there are twins in it. */
  lemma {:induction false} WholeLikeEdge(leaves: seq<Hash>, l: nat, a: nat, b: nat)
    requires a < Half(|leaves|, l) && b + 1 == Width(|leaves|, l) == Half(|leaves|, l) + 1
    requires Calc(leaves, l, a) == Calc(leaves, l, b)
    ensures Twinned(leaves, |leaves|)
    decreases l
  {
    hide Twinned;
    var n := |leaves|;
    OneEdge(n, l - 1);
    assert 2 * a + 2 <= Half(n, l - 1);
    if 2 * b + 1 < Width(n, l - 1) {
      WholeLikeEdge(leaves, l - 1, 2 * a + 1, 2 * b + 1);
    } else {
      TwinsThere(leaves, l - 1, a);
    }
  }

  lemma TwinsThere(leaves: seq<Hash>, l: nat, pos: nat)
    requires TwinAt(leaves, |leaves|, l, pos)
    ensures Twinned(leaves, |leaves|)
  {
  }

  /** So the flag is set just if any two neighbours in the tree are the same. */
  lemma FlagExactly(leaves: seq<Hash>)
    ensures Twinned(leaves, |leaves|) <==> HasTwins(leaves)
  {
    var n := |leaves|;
    if HasTwins(leaves) {
      var l: nat, pos: nat :| SameSiblings(leaves, l, pos);
      OneEdge(n, l);
      if 2 * pos + 2 <= Half(n, l) {
        TwinsThere(leaves, l, pos);
      } else {
        WholeLikeEdge(leaves, l, 2 * pos, 2 * pos + 1);
      }
    }
    if Twinned(leaves, n) {
      var l: nat, pos: nat :| TwinAt(leaves, n, l, pos);
      assert SameSiblings(leaves, l, pos);
    }
  }

  /** A list without duplicates is not flagged. */
  lemma DistinctIsClean(leaves: seq<Hash>)
    requires Distinct(leaves)
    ensures !HasTwins(leaves)
  {
    hide Distinct;
    forall l: nat, pos: nat ensures !SameSiblings(leaves, l, pos) {
      if 2 * pos + 1 < Width(|leaves|, l) {
        SiblingsDiffer(leaves, l, pos);
      }
    }
  }

  // ----- the root determines a list that is not flagged

  /** Transaction ids are not hashes of two others. */
  ghost predicate AreIds(leaves: seq<Hash>) {
    forall i :: 0 <= i < |leaves| ==> !leaves[i].Node?
  }

  /** How often one can go down to the left. */
  function Depth(x: Hash): nat {
    if x.Node? then 1 + Depth(x.left) else 0
  }

  lemma {:induction false} DepthIsHeight(leaves: seq<Hash>, l: nat, pos: nat)
    requires AreIds(leaves) && pos < Width(|leaves|, l)
    ensures Depth(Calc(leaves, l, pos)) == l
    decreases l
  {
    if l != 0 {
      DepthIsHeight(leaves, l - 1, 2 * pos);
    }
  }

  function Below(leaves: seq<Hash>, l: nat, pos: nat): seq<Hash>
    requires First(l, pos) <= End(|leaves|, l, pos)
  {
    leaves[First(l, pos)..End(|leaves|, l, pos)]
  }

  lemma RangeOk(n: nat, l: nat, pos: nat)
    requires pos < Width(n, l)
    ensures First(l, pos) <= End(n, l, pos) <= n
  {
    FirstInTree(n, l, pos);
    FirstGrows(l, pos, pos + 1);
  }

  lemma BelowSplits(leaves: seq<Hash>, l: nat, pos: nat)
    requires l != 0 && pos < Width(|leaves|, l)
    ensures 2 * pos < Width(|leaves|, l - 1)
    ensures First(l, pos) <= End(|leaves|, l, pos) && First(l - 1, 2 * pos) <= End(|leaves|, l - 1, 2 * pos)
    ensures if 2 * pos + 1 < Width(|leaves|, l - 1)
            then First(l - 1, 2 * pos + 1) <= End(|leaves|, l - 1, 2 * pos + 1) &&
                 Below(leaves, l, pos) == Below(leaves, l - 1, 2 * pos) + Below(leaves, l - 1, 2 * pos + 1)
            else Below(leaves, l, pos) == Below(leaves, l - 1, 2 * pos)
  {
    hide First;
    hide End;
    EndSplit(|leaves|, l, pos);
    RangeOk(|leaves|, l, pos);
    ChildInTree(|leaves|, l, pos);
    RangeOk(|leaves|, l - 1, 2 * pos);
    if 2 * pos + 1 < Width(|leaves|, l - 1) {
      RangeOk(|leaves|, l - 1, 2 * pos + 1);
    }
  }

  /** Parts with the same hash are of the same leaves, unless there are twins. */
  lemma {:induction false} SameBelow(a: seq<Hash>, b: seq<Hash>, l: nat, i: nat, j: nat)
    requires i < Width(|a|, l) && j < Width(|b|, l) && Calc(a, l, i) == Calc(b, l, j)
    requires !HasTwins(a) && !HasTwins(b)
    ensures First(l, i) <= End(|a|, l, i) && First(l, j) <= End(|b|, l, j) && Below(a, l, i) == Below(b, l, j)
    decreases l
  {
    hide First;
    hide End;
    hide Width;
    if l == 0 {
      LeafRange(|a|, i);
      LeafRange(|b|, j);
    } else {
      BelowSplits(a, l, i);
      BelowSplits(b, l, j);
      SameBelow(a, b, l - 1, 2 * i, 2 * j);
      SameShape(a, b, l, i, j);
      if 2 * i + 1 < Width(|a|, l - 1) {
        SameBelow(a, b, l - 1, 2 * i + 1, 2 * j + 1);
      }
    }
  }

  lemma SameShape(a: seq<Hash>, b: seq<Hash>, l: nat, i: nat, j: nat)
    requires l != 0 && i < Width(|a|, l) && j < Width(|b|, l) && Calc(a, l, i) == Calc(b, l, j)
    requires !HasTwins(a) && !HasTwins(b)
    ensures 2 * i + 1 < Width(|a|, l - 1) <==> 2 * j + 1 < Width(|b|, l - 1)
    ensures 2 * i + 1 < Width(|a|, l - 1) ==> Calc(a, l - 1, 2 * i + 1) == Calc(b, l - 1, 2 * j + 1)
  {
    hide HasTwins;
    NoTwins(a, l - 1, i);
    NoTwins(b, l - 1, j);
  }

  lemma NoTwins(leaves: seq<Hash>, l: nat, pos: nat)
    requires !HasTwins(leaves)
    ensures !SameSiblings(leaves, l, pos)
  {
  }

  /** Two lists of ids with the same root, in neither of which two neighbours are the same, are the same list: no
      list can be changed without changing the root or raising the flag. */
  lemma RootDetermines(a: seq<Hash>, b: seq<Hash>)
    requires a != [] && b != [] && AreIds(a) && AreIds(b) && !HasTwins(a) && !HasTwins(b)
    requires Root(a) == Root(b)
    ensures a == b
  {
    hide Calc;
    hide HasTwins;
    hide Depth;
    RootRange(|a|);
    RootRange(|b|);
    DepthIsHeight(a, Height(|a|, 0), 0);
    DepthIsHeight(b, Height(|b|, 0), 0);
    SameBelow(a, b, Height(|a|, 0), 0, 0);
  }

  /** The flag is needed: doubling the last of three leaves keeps the root. */
  lemma DoublingKeepsRoot(x: Hash, y: Hash, z: Hash)
    ensures Root([x, y, z]) == Root([x, y, z, z]) && HasTwins([x, y, z, z])
  {
    var a, b := [x, y, z], [x, y, z, z];
    assert Width(3, 0) == 3 && Width(3, 1) == 2 && Width(3, 2) == 1;
    assert Width(4, 0) == 4 && Width(4, 1) == 2 && Width(4, 2) == 1;
    assert Height(3, 2) == 2 && Height(3, 1) == 2 && Height(3, 0) == 2;
    assert Height(4, 2) == 2 && Height(4, 1) == 2 && Height(4, 0) == 2;
    assert Calc(a, 1, 0) == Node(x, y) && Calc(a, 1, 1) == Node(z, z);
    assert Calc(b, 1, 0) == Node(x, y) && Calc(b, 1, 1) == Node(z, z);
    assert SameSiblings(b, 0, 1);
  }
}
