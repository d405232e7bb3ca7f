/**
 The provers: trees reduced in place level by level, for full trees and for the smallest tree that holds the value.
 */
module MerkleProver {
  import opened Arith
  import opened Bytes
  import opened MerkleTree
  import opened PowersOfTwo

  /** Node i of the new level overwrites node i of the old one, which is no longer needed by then. */
  method ReduceLevel<H>(hs: Hashing<H>, nodes: array<H>, n: nat)
    requires n <= nodes.Length
    modifies nodes
    ensures nodes[..n / 2] == Level(hs, old(nodes[..n]), n / 2)
  {
    ghost var before := nodes[..n];
    for i := 0 to n / 2
      invariant nodes[..i] == Level(hs, before, i)
      invariant forall k :: 2 * i <= k < n ==> nodes[k] == before[k]
    {
      nodes[i] := hs.pair(nodes[i * 2], nodes[i * 2 + 1]);
    }
  }

  method GetProof<H>(hs: Hashing<H>, data: Data, nChunkBits: nat, chunkIdx: nat, chunkSize: nat)
      returns (r: ProofResult<H>)
    ensures r == ProofOf(hs, data, nChunkBits, chunkIdx, chunkSize)
  {
    if |data| == 0 {
      return Proof([]);
    }
    var nChunks := Pow2(nChunkBits);
    if chunkIdx >= nChunks {
      return OutOfScope;
    }
    var nodes := HashForProof(hs, data, chunkSize, nChunks);
    var proofs := CollectSiblings(hs, nodes, nChunkBits, chunkIdx);
    return Proof(proofs);
  }

  /** The leaves of a proof: the loop stops behind the first offset beyond the data. */
  method HashForProof<H>(hs: Hashing<H>, data: Data, chunkSize: nat, n: nat) returns (nodes: array<H>)
    ensures fresh(nodes) && nodes.Length == n && nodes[..] == ProofLeaves(hs, data, chunkSize, n)
  {
    nodes := new H[n](_ => hs.zero);
    var i := 0;
    while i < n && i * chunkSize <= |data|
      invariant 0 <= i <= n
      invariant forall k :: 0 <= k < i ==> nodes[k] == ProofLeaf(hs, data, chunkSize, k)
      invariant forall k :: i <= k < n ==> nodes[k] == hs.zero
    {
      var off := i * chunkSize;
      var l := Min(|data| - off, chunkSize);
      assert data[off..off + l] == ChunkAt(data, chunkSize, i);
      nodes[i] := hs.chunk(data[off..off + l]);
      i := i + 1;
    }
    forall k | i <= k < n ensures k * chunkSize > |data| { MulMonotone(i, k, chunkSize); }
  }

  /** The sibling of the current node on every level, from the leaves up. */
  method CollectSiblings<H>(hs: Hashing<H>, nodes: array<H>, nChunkBits: nat, chunkIdx: nat) returns (proofs: seq<H>)
    requires nodes.Length == Pow2(nChunkBits) && chunkIdx < nodes.Length
    modifies nodes
    ensures proofs == Siblings(hs, old(nodes[..]), nChunkBits, chunkIdx)
  {
    proofs := [];
    var n, idx: nat := nodes.Length, chunkIdx;
    ghost var bits: nat := nChunkBits;
    assert nodes[..n] == nodes[..];
    ghost var all := Siblings(hs, nodes[..], nChunkBits, chunkIdx);
    while n != 1
      invariant n == Pow2(bits) && n <= nodes.Length && idx < n
      invariant proofs + Siblings(hs, nodes[..n], bits, idx) == all
      decreases n
    {
      assert n == 2 * Pow2(bits - 1);
      Around(idx, Pow2(bits - 1));
      var half, up := n / 2, idx / 2;
      assert half == Pow2(bits - 1);
      ghost var cur, p := nodes[..n], proofs;
      var sibling := SiblingOf(idx);
      proofs := proofs + [nodes[sibling]];
      ReduceLevel(hs, nodes, n);
      SiblingsStep(hs, p, cur, nodes[..half], bits, idx);
      n, idx, bits := half, up, bits - 1;
    }
    OneLeaf(bits);
  }

  method SiblingOf(idx: nat) returns (s: nat)
    ensures s == Sibling(idx)
  {
    SiblingFormula(idx);
    s := idx / 2 * 2 + 1 - idx % 2;
  }

  lemma SiblingsStep<H>(hs: Hashing<H>, p: seq<H>, nodes: seq<H>, up: seq<H>, bits: nat, i: nat)
    requires bits > 0 && |nodes| == Pow2(bits) && i < |nodes| && up == Level(hs, nodes, Pow2(bits - 1))
    ensures 0 <= i / 2 < |up| && Sibling(i) < |nodes|
    ensures p + [nodes[Sibling(i)]] + Siblings(hs, up, bits - 1, i / 2) == p + Siblings(hs, nodes, bits, i)
  {
    Around(i, Pow2(bits - 1));
  }

  lemma OneLeaf(bits: nat)
    requires Pow2(bits) == 1
    ensures bits == 0
  {
  }

  method GetRootWithProof<H>(hs: Hashing<H>, dataHash: H, chunkIdx: nat, proofs: seq<H>) returns (r: FoldResult<H>)
    ensures r == FoldOf(hs, dataHash, chunkIdx, proofs)
  {
    if |proofs| == 0 {
      return Hash(dataHash);
    }
    if chunkIdx >= Pow2(|proofs|) {
      return Overflow;
    }
    var hash, idx := dataHash, chunkIdx;
    for i := 0 to |proofs|
      invariant Fold(hs, hash, idx, proofs[i..]) == Fold(hs, dataHash, chunkIdx, proofs)
    {
      assert proofs[i..] == [proofs[i]] + proofs[i + 1..];
      FoldStep(hs, hash, idx, proofs[i], proofs[i + 1..]);
      if idx % 2 == 0 {
        hash := hs.pair(hash, proofs[i]);
      } else {
        hash := hs.pair(proofs[i], hash);
      }
      idx := idx / 2;
    }
    return Hash(hash);
  }

  method GetRoot<H>(hs: Hashing<H>, data: Data, chunkPerKV: nat, chunkSize: nat) returns (root: H)
    requires chunkPerKV >= 1
    ensures root == RootOf(hs, data, chunkPerKV, chunkSize)
  {
    if |data| == 0 {
      return hs.zero;
    }
    var nodes := HashForRoot(hs, data, chunkSize, chunkPerKV);
    var n := chunkPerKV;
    assert nodes[..n] == nodes[..];
    while n != 1
      invariant 1 <= n <= nodes.Length
      invariant Root(hs, nodes[..n]) == RootOf(hs, data, chunkPerKV, chunkSize)
      invariant fresh(nodes)
      decreases n
    {
      ReduceLevel(hs, nodes, n);
      n := n / 2;
    }
    return nodes[0];
  }

  method HashForRoot<H>(hs: Hashing<H>, data: Data, chunkSize: nat, n: nat) returns (nodes: array<H>)
    ensures fresh(nodes) && nodes.Length == n && nodes[..] == RootLeaves(hs, data, chunkSize, n)
  {
    nodes := new H[n](_ => hs.zero);
    var i := 0;
    while i < n && i * chunkSize < |data|
      invariant 0 <= i <= n
      invariant forall k :: 0 <= k < i ==> nodes[k] == RootLeaf(hs, data, chunkSize, k)
      invariant forall k :: i <= k < n ==> nodes[k] == hs.zero
    {
      var off := i * chunkSize;
      var size := Min(|data| - off, chunkSize);
      assert data[off..off + size] == ChunkAt(data, chunkSize, i);
      nodes[i] := hs.chunk(data[off..off + size]);
      i := i + 1;
    }
    forall k | i <= k < n ensures k * chunkSize >= |data| { MulMonotone(i, k, chunkSize); }
  }

  // ---------------------------------------------------------------- the smallest tree

  /** How many chunks the data takes. */
  function Chunks(len: nat, size: nat): nat
    requires size >= 1
  {
    (len + size - 1) / size
  }

  /** The number of levels of the smallest tree with at least n + 1 leaves. */
  function Bits(n: nat): nat { if n == 0 then 0 else 1 + Bits(n / 2) }

  lemma {:induction false} BitsCover(n: nat)
    ensures n < Pow2(Bits(n))
    ensures n > 0 ==> Pow2(Bits(n) - 1) <= n
  {
    if n > 0 { BitsCover(n / 2); }
  }

  /** The smallest power of two that holds all chunks, and its exponent; nothing for no data. */
  method FindNChunk(dataLen: nat, chunkSize: nat) returns (nChunks: nat, nChunkBits: nat)
    requires chunkSize >= 1
    ensures dataLen == 0 ==> nChunks == nChunkBits == 0
    ensures dataLen > 0 ==> nChunkBits == MinBits(dataLen, chunkSize) && nChunks == Pow2(nChunkBits)
    ensures dataLen > 0 ==> Chunks(dataLen, chunkSize) <= nChunks
    ensures dataLen > 0 && nChunkBits > 0 ==> Pow2(nChunkBits - 1) < Chunks(dataLen, chunkSize)
  {
    if dataLen == 0 {
      return 0, 0;
    }
    SomeChunk(dataLen, chunkSize);
    var n := Chunks(dataLen, chunkSize) - 1;
    BitsCover(n);
    nChunkBits := 0;
    while n != 0
      invariant n >= 0 && nChunkBits + Bits(n) == MinBits(dataLen, chunkSize)
    {
      nChunkBits := nChunkBits + 1;
      n := n / 2;
    }
    nChunks := Pow2(nChunkBits);
  }

  lemma SomeChunk(len: nat, size: nat)
    requires len >= 1 && size >= 1
    ensures Chunks(len, size) >= 1
  {
  }

  function MinBits(len: nat, size: nat): nat
    requires len >= 1 && size >= 1
  {
    SomeChunk(len, size);
    Bits(Chunks(len, size) - 1)
  }

  /** A chunk outside the smallest tree has the empty proof. */
  function MinProofOf<H>(hs: Hashing<H>, data: Data, bits: nat, i: nat, size: nat): ProofResult<H>
    requires size >= 1
  {
    if data == [] then Proof([])
    else if i >= Pow2(bits) then OutOfScope
    else if i >= Pow2(MinBits(|data|, size)) then Proof([])
    else ProofOf(hs, data, MinBits(|data|, size), i, size)
  }

  function MinRootOf<H>(hs: Hashing<H>, data: Data, size: nat): H
    requires size >= 1
  {
    if data == [] then hs.zero else RootOf(hs, data, Pow2(MinBits(|data|, size)), size)
  }

  method GetMinProof<H>(hs: Hashing<H>, data: Data, nChunkBits: nat, chunkIdx: nat, chunkSize: nat)
      returns (r: ProofResult<H>)
    requires chunkSize >= 1
    ensures r == MinProofOf(hs, data, nChunkBits, chunkIdx, chunkSize)
  {
    if |data| == 0 {
      return Proof([]);
    }
    if chunkIdx >= Pow2(nChunkBits) {
      return OutOfScope;
    }
    var nMinChunks, nMinChunkBits := FindNChunk(|data|, chunkSize);
    if chunkIdx >= nMinChunks {
      return Proof([]);
    }
    r := GetProof(hs, data, nMinChunkBits, chunkIdx, chunkSize);
  }

  method GetMinRoot<H>(hs: Hashing<H>, data: Data, chunkSize: nat) returns (root: H)
    requires chunkSize >= 1
    ensures root == MinRootOf(hs, data, chunkSize)
  {
    if |data| == 0 {
      return hs.zero;
    }
    var nMinChunks, _ := FindNChunk(|data|, chunkSize);
    root := GetRoot(hs, data, nMinChunks, chunkSize);
  }

  /** In the smallest tree the data ends at an inner leaf exactly if it fills its chunks but not the tree. */
  lemma MinEnd(data: Data, size: nat)
    requires data != [] && size >= 1
    ensures var n := Pow2(MinBits(|data|, size));
            EndsAt(data, size, n, EndOf(data, size)) <==> |data| % size == 0 && Chunks(|data|, size) != n
  {
    var len, e, chunks := |data|, EndOf(data, size), Chunks(|data|, size);
    SomeChunk(len, size);
    BitsCover(chunks - 1);
    if len % size == 0 {
      FullChunks(len, size);
    } else {
      Exact(len, size, e);
    }
  }

  lemma FullChunks(len: nat, size: nat)
    requires size >= 1 && len % size == 0
    ensures Chunks(len, size) == len / size && len / size * size == len
  {
    DivModUnique(len + size - 1, size, len / size, size - 1);
  }

  lemma Exact(len: nat, size: nat, e: nat)
    requires size >= 1 && len % size != 0
    ensures e * size != len
  {
    if e * size == len {
      DivModUnique(len, size, e, 0);
    }
  }

  /** Proofs in the smallest tree fold to its root unless the data fills its chunks but not the tree. */
  lemma MinProofFolds<H>(hs: Hashing<H>, data: Data, bits: nat, i: nat, size: nat)
    requires data != [] && size >= 1 && i < Pow2(bits) && i < Pow2(MinBits(|data|, size))
    requires |data| % size != 0 || Chunks(|data|, size) == Pow2(MinBits(|data|, size)) || i == EndOf(data, size)
    ensures FoldOf(hs, RootLeaf(hs, data, size, i), i, MinProofOf(hs, data, bits, i, size).hashes)
            == Hash(MinRootOf(hs, data, size))
  {
    MinEnd(data, size);
    ProofFolds(hs, data, MinBits(|data|, size), i, size);
  }

  /** Exactly when a proof in the smallest tree folds to its root, for every hash. */
  lemma MinProofFoldsExactly<H>(hs: Hashing<H>, data: Data, bits: nat, i: nat, size: nat)
    requires data != [] && size >= 1 && i < Pow2(bits) && i < Pow2(MinBits(|data|, size))
    ensures var min, e := MinBits(|data|, size), EndOf(data, size);
            var n := Pow2(min);
            FoldOf(hs, RootLeaf(hs, data, size, i), i, MinProofOf(hs, data, bits, i, size).hashes)
              == Hash(MinRootOf(hs, data, size))
            <==> |data| % size != 0 || Chunks(|data|, size) == n || i == e || hs.chunk([]) == hs.zero
                 || CollidesOnPath(hs, ProofTree(hs, data, size, n, i), RootLeaves(hs, data, size, n), min, e)
  {
    MinEnd(data, size);
    ProofFoldsExactly(hs, data, MinBits(|data|, size), i, size);
  }
}
