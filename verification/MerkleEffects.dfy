/** What the root of a tree is, level by level, and that a proof has neither a hash too many nor one too few. */
module MerkleEffects {
  import opened Basics
  import opened MerkleProof

  // ----- the root, level by level

  /** The next level of a tree: neighbours are hashed together, and a last one without neighbour with itself. */
  function Paired(level: seq<Hash>): (r: seq<Hash>)
    ensures |r| == (|level| + 1) / 2
  {
    if level == [] then []
    else if |level| == 1 then [Node(level[0], level[0])]
    else [Node(level[0], level[1])] + Paired(level[2..])
  }

  /** Levels are made until a single hash is left. */
  function MerkleRoot(level: seq<Hash>): Hash
    requires level != []
    decreases |level|
  {
    if |level| == 1 then level[0] else MerkleRoot(Paired(level))
  }

  lemma {:induction false} PairedAt(level: seq<Hash>, pos: nat)
    requires pos < (|level| + 1) / 2
    ensures Paired(level)[pos] ==
      Node(level[2 * pos], if 2 * pos + 1 < |level| then level[2 * pos + 1] else level[2 * pos])
  {
    if 0 < pos {
      PairedAt(level[2..], pos - 1);
    }
  }

  /** The nodes at one height. */
  function Level(txids: seq<Hash>, h: nat): (r: seq<Hash>)
    ensures |r| == Width(|txids|, h)
  {
    seq(Width(|txids|, h), pos requires 0 <= pos < Width(|txids|, h) => Calc(txids, h, pos))
  }

  lemma NextLevel(txids: seq<Hash>, h: nat)
    ensures Level(txids, h + 1) == Paired(Level(txids, h))
  {
    var level, next := Level(txids, h), Level(txids, h + 1);
    assert |next| == |Paired(level)|;
    forall pos | 0 <= pos < |next| ensures next[pos] == Paired(level)[pos] {
      PairedAt(level, pos);
    }
  }

  lemma {:induction false} RootFrom(txids: seq<Hash>, h: nat)
    requires 0 < Width(|txids|, h)
    ensures 0 < Width(|txids|, Height(|txids|, h))
    ensures MerkleRoot(Level(txids, h)) == Calc(txids, Height(|txids|, h), 0)
    decreases Width(|txids|, h)
  {
    if 1 < Width(|txids|, h) {
      NextLevel(txids, h);
      RootFrom(txids, h + 1);
    }
  }

  /** The hash at the top of the recursion is the Merkle root of the list. */
  lemma RootIsMerkleRoot(txids: seq<Hash>)
    requires txids != []
    ensures Root(txids) == MerkleRoot(txids)
  {
    assert Level(txids, 0) == txids;
    RootFrom(txids, 0);
  }

  // ----- all of a proof is used

  function Longer(t: Proof, bits: seq<bool>, hashes: seq<Hash>): Proof {
    Proof(t.bits + bits, t.hashes + hashes)
  }

  /** A reading that does not run out is not changed by what follows. */
  lemma {:induction false} ExtractLonger(
    n: nat, t: Proof, h: nat, pos: nat, bitsUsed: nat, hashesUsed: nat, bits: seq<bool>, hashes: seq<Hash>)
    requires !Extract(n, t, h, pos, bitsUsed, hashesUsed).bad
    ensures Extract(n, Longer(t, bits, hashes), h, pos, bitsUsed, hashesUsed) ==
            Extract(n, t, h, pos, bitsUsed, hashesUsed)
    ensures Extract(n, t, h, pos, bitsUsed, hashesUsed).bitsUsed <= |t.bits|
    ensures Extract(n, t, h, pos, bitsUsed, hashesUsed).hashesUsed <= |t.hashes| || hashesUsed > |t.hashes|
    decreases h
  {
    if h != 0 && t.bits[bitsUsed] {
      var left := Extract(n, t, h - 1, 2 * pos, bitsUsed + 1, hashesUsed);
      ExtractLonger(n, t, h - 1, 2 * pos, bitsUsed + 1, hashesUsed, bits, hashes);
      if 2 * pos + 1 < Width(n, h - 1) {
        ExtractLonger(n, t, h - 1, 2 * pos + 1, left.bitsUsed, left.hashesUsed, bits, hashes);
      }
    }
  }

  /** A proof that yields a root yields none with hashes appended, or with a whole byte of bits. */
  lemma NothingToSpare(n: nat, t: Proof, bits: seq<bool>, hashes: seq<Hash>)
    requires ExtractAll(n, t).root != Null
    requires hashes != [] || (|t.bits| + 7) / 8 < (|t.bits| + |bits| + 7) / 8
    ensures ExtractAll(n, Longer(t, bits, hashes)).root == Null
  {
    hide Extract;
    ExtractLonger(n, t, Height(n, 0), 0, 0, 0, bits, hashes);
  }

  /** Nor with hashes, or more than the padding, cut off. */
  lemma NothingMissing(n: nat, t: Proof, bits: seq<bool>, hashes: seq<Hash>)
    requires ExtractAll(n, Longer(t, bits, hashes)).root != Null
    requires hashes != [] || (|t.bits| + 7) / 8 < (|t.bits| + |bits| + 7) / 8
    ensures ExtractAll(n, t).root == Null
  {
    hide ExtractAll;
    if ExtractAll(n, t).root != Null {
      NothingToSpare(n, t, bits, hashes);
    }
  }

  // ----- twins

  /** Somewhere in the part that is read, two children of a node read the same. */
  predicate Twins(n: nat, t: Proof, h: nat, pos: nat, bitsUsed: nat, hashesUsed: nat)
    decreases h
  {
    h != 0 && bitsUsed < |t.bits| && t.bits[bitsUsed] &&
    var left := Extract(n, t, h - 1, 2 * pos, bitsUsed + 1, hashesUsed);
    || Twins(n, t, h - 1, 2 * pos, bitsUsed + 1, hashesUsed)
    || (2 * pos + 1 < Width(n, h - 1) &&
        (|| Extract(n, t, h - 1, 2 * pos + 1, left.bitsUsed, left.hashesUsed).hash == left.hash
         || Twins(n, t, h - 1, 2 * pos + 1, left.bitsUsed, left.hashesUsed)))
  }

  lemma {:induction false} TwinsAreBad(n: nat, t: Proof, h: nat, pos: nat, bitsUsed: nat, hashesUsed: nat)
    requires Twins(n, t, h, pos, bitsUsed, hashesUsed)
    ensures Extract(n, t, h, pos, bitsUsed, hashesUsed).bad
    decreases h
  {
    var left := Extract(n, t, h - 1, 2 * pos, bitsUsed + 1, hashesUsed);
    if Twins(n, t, h - 1, 2 * pos, bitsUsed + 1, hashesUsed) {
      TwinsAreBad(n, t, h - 1, 2 * pos, bitsUsed + 1, hashesUsed);
    } else if Twins(n, t, h - 1, 2 * pos + 1, left.bitsUsed, left.hashesUsed) {
      TwinsAreBad(n, t, h - 1, 2 * pos + 1, left.bitsUsed, left.hashesUsed);
    }
  }

  /** A tree with twins yields no root, at whatever height they are. */
  lemma TwinsAreRefused(n: nat, t: Proof)
    requires Twins(n, t, Height(n, 0), 0, 0, 0)
    ensures ExtractAll(n, t).root == Null
  {
    hide Extract;
    hide Twins;
    TwinsAreBad(n, t, Height(n, 0), 0, 0, 0);
  }
}
