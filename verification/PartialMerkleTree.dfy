/** The partial Merkle tree object: it is built by appending bits and hashes and read with two cursors. */
module PartialMerkleTrees {
  import opened Basics
  import opened MerkleProof
  import opened Powers
  import opened ByteBits

  // ----- the leaves below a node as a range

  lemma {:induction false} FirstIsShift(h: nat, pos: nat)
    ensures First(h, pos) == pos * Pow2(h)
    decreases h
  {
    if h != 0 {
      FirstIsShift(h - 1, 2 * pos);
      assert pos * (2 * Pow2(h - 1)) == 2 * pos * Pow2(h - 1);
    }
  }

  ghost predicate AnyMarked(marks: seq<bool>, lo: nat, hi: nat) {
    exists p :: lo <= p < hi && p < |marks| && marks[p]
  }

  lemma AnyMarkedParts(marks: seq<bool>, lo: nat, mid: nat, hi: nat)
    requires lo <= mid <= hi
    ensures AnyMarked(marks, lo, hi) <==> AnyMarked(marks, lo, mid) || AnyMarked(marks, mid, hi)
  {
    if AnyMarked(marks, lo, hi) {
      var p :| lo <= p < hi && p < |marks| && marks[p];
      assert p < mid || mid <= p;
    }
  }

  lemma {:induction false} MatchedRange(marks: seq<bool>, h: nat, pos: nat)
    requires pos < Width(|marks|, h)
    ensures First(h, pos) <= End(|marks|, h, pos)
    ensures Matched(marks, h, pos) <==> AnyMarked(marks, First(h, pos), End(|marks|, h, pos))
    decreases h
  {
    hide First;
    hide End;
    hide Width;
    var n := |marks|;
    if h == 0 {
      LeafRange(n, pos);
    } else {
      EndSplit(n, h, pos);
      ChildInTree(n, h, pos);
      MatchedRange(marks, h - 1, 2 * pos);
      if 2 * pos + 1 < Width(n, h - 1) {
        MatchedRange(marks, h - 1, 2 * pos + 1);
        AnyMarkedParts(marks, First(h, pos), First(h - 1, 2 * pos + 1), End(n, h, pos));
      }
    }
  }

  // ----- one step of building and of extracting

  lemma BuiltStep(txids: seq<Hash>, marks: seq<bool>, h: nat, pos: nat)
    requires |marks| == |txids| && pos < Width(|txids|, h)
    ensures var parent := Matched(marks, h, pos);
      Built(txids, marks, h, pos) ==
      if h == 0 || !parent then Proof([parent], [Calc(txids, h, pos)]) else
      var left := Built(txids, marks, h - 1, 2 * pos);
      if 2 * pos + 1 < Width(|txids|, h - 1) then
        var right := Built(txids, marks, h - 1, 2 * pos + 1);
        Proof([parent] + left.bits + right.bits, left.hashes + right.hashes)
      else Proof([parent] + left.bits, left.hashes)
  {
  }

  lemma ExtractStep(n: nat, t: Proof, h: nat, pos: nat, bitsUsed: nat, hashesUsed: nat)
    ensures Extract(n, t, h, pos, bitsUsed, hashesUsed) ==
      if |t.bits| <= bitsUsed then Reading(Null, bitsUsed, hashesUsed, true, [])
      else if h == 0 || !t.bits[bitsUsed] then
        if |t.hashes| <= hashesUsed then Reading(Null, bitsUsed + 1, hashesUsed, true, []) else
        Reading(t.hashes[hashesUsed], bitsUsed + 1, hashesUsed + 1, false,
                if h == 0 && t.bits[bitsUsed] then [Found(t.hashes[hashesUsed], pos)] else [])
      else
      var left := Extract(n, t, h - 1, 2 * pos, bitsUsed + 1, hashesUsed);
      if 2 * pos + 1 < Width(n, h - 1) then
        var right := Extract(n, t, h - 1, 2 * pos + 1, left.bitsUsed, left.hashesUsed);
        Reading(Node(left.hash, right.hash), right.bitsUsed, right.hashesUsed,
                left.bad || right.bad || right.hash == left.hash, left.found + right.found)
      else Reading(Node(left.hash, left.hash), left.bitsUsed, left.hashesUsed, left.bad, left.found)
  {
  }

  /** The two lists that matches are returned in. */
  function Ids(found: seq<Found>): seq<Hash> {
    seq(|found|, i requires 0 <= i < |found| => found[i].txid)
  }

  function Indexes(found: seq<Found>): seq<nat> {
    seq(|found|, i requires 0 <= i < |found| => found[i].index)
  }

  lemma NoMatch()
    ensures Ids([]) == [] && Indexes([]) == []
  {
  }

  lemma OneMatch(txid: Hash, index: nat)
    ensures Ids([Found(txid, index)]) == [txid] && Indexes([Found(txid, index)]) == [index]
  {
  }

  lemma MoreMatches(a: seq<Found>, b: seq<Found>)
    ensures Ids(a + b) == Ids(a) + Ids(b) && Indexes(a + b) == Indexes(a) + Indexes(b)
  {
  }

  // ----- packing bits into bytes

  /** The byte string holds the bits, least significant bit first, and nothing else. */
  ghost predicate Packs(bytes: seq<bv8>, bits: seq<bool>) {
    && |bytes| == (|bits| + 7) / 8
    && forall p :: 0 <= p < 8 * |bytes| ==> Has(bytes[p / 8], p % 8) == (p < |bits| && bits[p])
  }

  method Pack(bits: seq<bool>) returns (bytes: seq<bv8>)
    ensures Packs(bytes, bits)
  {
    hide Has;
    hide With;
    var buffer := new bv8[(|bits| + 7) / 8](i => 0);
    forall p | 0 <= p < 8 * buffer.Length ensures !Has(buffer[p / 8], p % 8) {
      NoBits(p % 8);
    }
    for p := 0 to |bits|
      invariant forall q :: 0 <= q < 8 * buffer.Length ==> Has(buffer[q / 8], q % 8) == (q < p && bits[q])
    {
      ghost var before := buffer[..];
      if bits[p] {
        buffer[p / 8] := With(buffer[p / 8], p % 8);
      }
      forall q | 0 <= q < 8 * buffer.Length
        ensures Has(buffer[q / 8], q % 8) == ((q == p && bits[p]) || Has(before[q / 8], q % 8))
      {
        WithHas(before[p / 8], p % 8, q % 8);
      }
    }
    bytes := buffer[..];
  }

  function Unpacked(bytes: seq<bv8>): seq<bool> {
    seq(8 * |bytes|, p requires 0 <= p < 8 * |bytes| => Has(bytes[p / 8], p % 8))
  }

  /** Unpacking gives the packed bits back, with padding. */
  lemma PackRoundTrip(bytes: seq<bv8>, bits: seq<bool>)
    requires Packs(bytes, bits)
    ensures Unpacked(bytes) == Padded(bits)
  {
    hide Has;
    var r := Unpacked(bytes);
    assert |r| == |Padded(bits)|;
    forall q | 0 <= q < |r| ensures r[q] == Padded(bits)[q] {
      if q < |bits| {
        assert Padded(bits)[..|bits|][q] == bits[q];
      }
    }
  }

  method Unpack(bytes: seq<bv8>) returns (r: seq<bool>)
    ensures r == Unpacked(bytes)
  {
    hide Has;
    r := [];
    for p := 0 to 8 * |bytes|
      invariant |r| == p && forall q :: 0 <= q < p ==> r[q] == Has(bytes[q / 8], q % 8)
    {
      r := r + [Has(bytes[p / 8], p % 8)];
    }
  }

  /** What goes over the wire. */
  datatype Message = Message(nTransactions: nat, hashes: seq<Hash>, flags: seq<bv8>)

  class PartialMerkleTree {
    var nTransactions: nat
    var vBits: seq<bool>
    var vHash: seq<Hash>
    var fBad: bool

    ghost function Stored(): Proof
      reads this
    {
      Proof(vBits, vHash)
    }

    method CalcTreeWidth(height: nat) returns (w: nat)
      ensures w == Width(nTransactions, height)
    {
      var p := 1;
      for i := 0 to height
        invariant p == Pow2(i)
      {
        p := 2 * p;
      }
      WidthFormula(nTransactions, height);
      w := (nTransactions + p - 1) / p;
    }

    method CalcHeight() returns (h: nat)
      ensures h == Height(nTransactions, 0)
    {
      h := 0;
      var w := CalcTreeWidth(h);
      while w > 1
        invariant w == Width(nTransactions, h) && Height(nTransactions, 0) == Height(nTransactions, h)
        decreases w
      {
        h := h + 1;
        w := CalcTreeWidth(h);
      }
    }

    method CalcHash(height: nat, pos: nat, vTxid: seq<Hash>) returns (hash: Hash)
      requires nTransactions == |vTxid| && pos < Width(nTransactions, height)
      ensures hash == Calc(vTxid, height, pos)
      decreases height
    {
      if height == 0 {
        return vTxid[pos];
      }
      var left := CalcHash(height - 1, pos * 2, vTxid);
      var right := left;
      var w := CalcTreeWidth(height - 1);
      if pos * 2 + 1 < w {
        right := CalcHash(height - 1, pos * 2 + 1, vTxid);
      }
      return Node(left, right);
    }

    /** Whether the node is the parent of a matched transaction, by looking at all leaves below it. */
    method IsParentOfMatch(height: nat, pos: nat, vMatch: seq<bool>) returns (r: bool)
      requires nTransactions == |vMatch| && pos < Width(nTransactions, height)
      ensures r == Matched(vMatch, height, pos)
    {
      hide Matched;
      hide Width;
      hide First;
      var size := 1;
      for i := 0 to height
        invariant size == Pow2(i)
      {
        size := 2 * size;
      }
      FirstIsShift(height, pos);
      FirstIsShift(height, pos + 1);
      MatchedRange(vMatch, height, pos);
      r := false;
      var p := pos * size;
      ghost var lo := p;
      while p < (pos + 1) * size && p < nTransactions
        invariant lo <= p <= Min((pos + 1) * size, nTransactions)
        invariant r == AnyMarked(vMatch, lo, p)
      {
        AnyMarkedParts(vMatch, lo, p, p + 1);
        r := r || vMatch[p];
        p := p + 1;
      }
    }

    method TraverseAndBuild(height: nat, pos: nat, vTxid: seq<Hash>, vMatch: seq<bool>)
      requires nTransactions == |vTxid| == |vMatch| && pos < Width(nTransactions, height)
      modifies `vBits, `vHash
      ensures var b := Built(vTxid, vMatch, height, pos);
        vBits == old(vBits) + b.bits && vHash == old(vHash) + b.hashes
      decreases height
    {
      hide Built;
      hide Matched;
      hide Calc;
      hide Width;
      BuiltStep(vTxid, vMatch, height, pos);
      var fParentOfMatch := IsParentOfMatch(height, pos, vMatch);
      vBits := vBits + [fParentOfMatch];
      if height == 0 || !fParentOfMatch {
        var hash := CalcHash(height, pos, vTxid);
        vHash := vHash + [hash];
      } else {
        ChildInTree(nTransactions, height, pos);
        TraverseAndBuild(height - 1, pos * 2, vTxid, vMatch);
        var w := CalcTreeWidth(height - 1);
        if pos * 2 + 1 < w {
          TraverseAndBuild(height - 1, pos * 2 + 1, vTxid, vMatch);
        }
      }
    }

    constructor Build(vTxid: seq<Hash>, vMatch: seq<bool>)
      requires vTxid != [] && |vMatch| == |vTxid|
      ensures nTransactions == |vTxid| && !fBad
      ensures 0 < Width(|vTxid|, Height(|vTxid|, 0))
      ensures Stored() == Built(vTxid, vMatch, Height(|vTxid|, 0), 0)
    {
      nTransactions, fBad, vBits, vHash := |vTxid|, false, [], [];
      new;
      var nHeight := CalcHeight();
      HeightHasNode(nTransactions, 0);
      TraverseAndBuild(nHeight, 0, vTxid, vMatch);
    }

    /** Reading the serialized form. */
    constructor Read(m: Message)
      ensures nTransactions == m.nTransactions && vHash == m.hashes && vBits == Unpacked(m.flags) && !fBad
    {
      nTransactions, vHash, fBad := m.nTransactions, m.hashes, false;
      var bits := Unpack(m.flags);
      vBits := bits;
    }

    /** The serialized form. */
    method Write() returns (m: Message)
      ensures m.nTransactions == nTransactions && m.hashes == vHash && Packs(m.flags, vBits)
    {
      var flags := Pack(vBits);
      m := Message(nTransactions, vHash, flags);
    }

    /** The matches are appended to the two lists given. */
    method TraverseAndExtract(
      height: nat, pos: nat, nBitsUsed: nat, nHashUsed: nat, txids: seq<Hash>, indexes: seq<nat>)
      returns (hash: Hash, bits: nat, hashes: nat, vMatch: seq<Hash>, vnIndex: seq<nat>)
      modifies `fBad
      ensures var r := Extract(nTransactions, Stored(), height, pos, nBitsUsed, nHashUsed);
        && hash == r.hash && bits == r.bitsUsed && hashes == r.hashesUsed && fBad == (old(fBad) || r.bad)
        && vMatch == txids + Ids(r.found) && vnIndex == indexes + Indexes(r.found)
      decreases height
    {
      hide Width;
      hide Extract;
      hide Ids;
      hide Indexes;
      ExtractStep(nTransactions, Stored(), height, pos, nBitsUsed, nHashUsed);
      bits, hashes, vMatch, vnIndex := nBitsUsed, nHashUsed, txids, indexes;
      NoMatch();
      if bits >= |vBits| {
        fBad := true;
        return Null, bits, hashes, vMatch, vnIndex;
      }
      var fParentOfMatch := vBits[bits];
      bits := bits + 1;
      if height == 0 || !fParentOfMatch {
        if hashes >= |vHash| {
          fBad := true;
          return Null, bits, hashes, vMatch, vnIndex;
        }
        hash := vHash[hashes];
        hashes := hashes + 1;
        if height == 0 && fParentOfMatch {
          OneMatch(hash, pos);
          vMatch, vnIndex := vMatch + [hash], vnIndex + [pos];
        }
      } else {
        ghost var a := Extract(nTransactions, Stored(), height - 1, 2 * pos, bits, hashes);
        var left, right;
        left, bits, hashes, vMatch, vnIndex :=
          TraverseAndExtract(height - 1, pos * 2, bits, hashes, vMatch, vnIndex);
        var w := CalcTreeWidth(height - 1);
        if pos * 2 + 1 < w {
          ghost var b := Extract(nTransactions, Stored(), height - 1, 2 * pos + 1, bits, hashes);
          right, bits, hashes, vMatch, vnIndex :=
            TraverseAndExtract(height - 1, pos * 2 + 1, bits, hashes, vMatch, vnIndex);
          if right == left {
            fBad := true;
          }
          MoreMatches(a.found, b.found);
        } else {
          right := left;
        }
        hash := Node(left, right);
      }
    }

    /** `ExtractMatches`: of the caller's two lists only that of the ids is cleared, and an object that met a bad
        tree before yields no root any more. */
    method ExtractMatches(indexes: seq<nat>) returns (root: Hash, vMatch: seq<Hash>, vnIndex: seq<nat>)
      modifies `fBad
      ensures var e := ExtractAll(nTransactions, Stored());
        && root == (if old(fBad) then Null else e.root)
        && vMatch == Ids(e.found) && vnIndex == indexes + Indexes(e.found)
      ensures fBad ==> root == Null
    {
      hide Extract;
      if nTransactions == 0 || nTransactions > MAX_TRANSACTIONS {
        return Null, [], indexes;
      }
      if |vHash| > nTransactions || |vBits| < |vHash| {
        return Null, [], indexes;
      }
      var nHeight := CalcHeight();
      var bits, hashes;
      root, bits, hashes, vMatch, vnIndex := TraverseAndExtract(nHeight, 0, 0, 0, [], indexes);
      if fBad || (bits + 7) / 8 != (|vBits| + 7) / 8 || hashes != |vHash| {
        root := Null;
      }
    }
  }

  /** A proof that is built, written, read and extracted from yields the root of the block and just the marked
      transactions, in order. */
  method ProveAndVerify(vTxid: seq<Hash>, vMatch: seq<bool>) returns (root: Hash, ids: seq<Hash>, indexes: seq<nat>)
    requires 0 < |vTxid| <= MAX_TRANSACTIONS && |vMatch| == |vTxid| && Distinct(vTxid)
    ensures var selected := Selected(vTxid, vMatch, 0, |vTxid|);
      root == Root(vTxid) && ids == Ids(selected) && indexes == Indexes(selected)
  {
    hide Distinct;
    hide Selected;
    hide Built;
    hide ExtractAll;
    hide Packs;
    hide Unpacked;
    hide Ids;
    hide Indexes;
    var tree := new PartialMerkleTree.Build(vTxid, vMatch);
    var m := tree.Write();
    var copy := new PartialMerkleTree.Read(m);
    PackRoundTrip(m.flags, tree.vBits);
    Complete(vTxid, vMatch);
    root, ids, indexes := copy.ExtractMatches([]);
  }
}
