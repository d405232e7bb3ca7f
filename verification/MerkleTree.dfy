/**
 Merkle trees over the chunks of a value: roots, sibling proofs and the folding of a proof.

 Hashing is a parameter: a hash for chunks, a hash for pairs of nodes and the zero hash of an empty leaf.
 */
module MerkleTree {
  import opened Arith
  import opened Bytes
  import opened PowersOfTwo

  datatype Hashing<!H> = Hashing(chunk: Data -> H, pair: (H, H) -> H, zero: H)

  // ---------------------------------------------------------------- trees

  /** The nodes one level up: n of them, from the first 2n nodes. */
  function Level<H>(hs: Hashing<H>, nodes: seq<H>, n: nat): (up: seq<H>)
    requires 2 * n <= |nodes|
    ensures |up| == n
  {
    if n == 0 then [] else Level(hs, nodes, n - 1) + [hs.pair(nodes[2 * n - 2], nodes[2 * n - 1])]
  }

  lemma {:induction false} LevelAt<H>(hs: Hashing<H>, nodes: seq<H>, n: nat, i: nat)
    requires 2 * n <= |nodes| && i < n
    ensures Level(hs, nodes, n)[i] == hs.pair(nodes[2 * i], nodes[2 * i + 1])
    decreases n
  {
    if i < n - 1 { LevelAt(hs, nodes, n - 1, i); }
  }

  /** The nodes are paired level by level; an unpaired last node of a level is dropped. */
  function Root<H>(hs: Hashing<H>, nodes: seq<H>): H
    requires |nodes| >= 1
    decreases |nodes|
  {
    if |nodes| == 1 then nodes[0] else Root(hs, Level(hs, nodes, |nodes| / 2))
  }

  /** The root of a full tree. */
  function FullRoot<H>(hs: Hashing<H>, nodes: seq<H>, bits: nat): H
    requires |nodes| == Pow2(bits)
    decreases bits
  {
    if bits == 0 then nodes[0] else FullRoot(hs, Level(hs, nodes, Pow2(bits - 1)), bits - 1)
  }

  lemma RootStep<H>(hs: Hashing<H>, nodes: seq<H>, n: nat)
    requires n >= 1 && |nodes| == 2 * n
    ensures Root(hs, nodes) == Root(hs, Level(hs, nodes, n))
  {
    assert |nodes| / 2 == n;
  }

  lemma {:induction false} RootIsFullRoot<H>(hs: Hashing<H>, nodes: seq<H>, bits: nat)
    requires |nodes| == Pow2(bits)
    ensures Root(hs, nodes) == FullRoot(hs, nodes, bits)
    decreases bits
  {
    if bits > 0 {
      RootStep(hs, nodes, Pow2(bits - 1));
      RootIsFullRoot(hs, Level(hs, nodes, Pow2(bits - 1)), bits - 1);
    }
  }

  lemma LevelHalves<H>(hs: Hashing<H>, a: seq<H>, b: seq<H>, n: nat)
    requires |a| == |b| == 2 * n
    ensures Level(hs, a + b, 2 * n) == Level(hs, a, n) + Level(hs, b, n)
  {
    var whole := Level(hs, a + b, 2 * n);
    forall i | 0 <= i < 2 * n ensures whole[i] == (Level(hs, a, n) + Level(hs, b, n))[i] {
      LevelAt(hs, a + b, 2 * n, i);
      if i < n { LevelAt(hs, a, n, i); } else { LevelAt(hs, b, n, i - n); }
    }
  }

  /** The root of a tree is the hash of the roots of its left and its right half. */
  lemma {:induction false} RootOfHalves<H>(hs: Hashing<H>, a: seq<H>, b: seq<H>, bits: nat)
    requires |a| == |b| == Pow2(bits)
    ensures |a + b| == Pow2(bits + 1)
    ensures Root(hs, a + b) == hs.pair(Root(hs, a), Root(hs, b))
    decreases bits
  {
    RootStep(hs, a + b, Pow2(bits));
    if bits == 0 {
      assert Level(hs, a + b, 1) == [hs.pair(a[0], b[0])];
    } else {
      var n := Pow2(bits - 1);
      LevelHalves(hs, a, b, n);
      RootStep(hs, a, n);
      RootStep(hs, b, n);
      RootOfHalves(hs, Level(hs, a, n), Level(hs, b, n), bits - 1);
    }
  }

  function Sibling(i: nat): nat { if i % 2 == 0 then i + 1 else i - 1 }

  /** The sibling as it is computed. */
  lemma SiblingFormula(i: nat)
    ensures i / 2 * 2 + 1 - i % 2 == Sibling(i)
  {
  }

  /** Where the parent and the sibling of node i are. */
  lemma Around(i: nat, n: nat)
    requires i < 2 * n
    ensures 0 <= i / 2 < n && Sibling(i) < 2 * n && Sibling(i) != i
  {
  }

  /** The siblings on the way from leaf i to the root. */
  function Siblings<H>(hs: Hashing<H>, nodes: seq<H>, bits: nat, i: nat): (p: seq<H>)
    requires |nodes| == Pow2(bits) && i < |nodes|
    ensures |p| == bits
    decreases bits
  {
    if bits == 0 then []
    else
      Around(i, Pow2(bits - 1));
      [nodes[Sibling(i)]] + Siblings(hs, Level(hs, nodes, Pow2(bits - 1)), bits - 1, i / 2)
  }

  /** The parent of node i with hash h and a sibling. */
  function Parent<H>(hs: Hashing<H>, h: H, i: nat, sibling: H): H {
    if i % 2 == 0 then hs.pair(h, sibling) else hs.pair(sibling, h)
  }

  function Fold<H>(hs: Hashing<H>, h: H, i: nat, proof: seq<H>): H
    decreases |proof|
  {
    if proof == [] then h
    else Fold(hs, Parent(hs, h, i, proof[0]), i / 2, proof[1..])
  }

  lemma FoldStep<H>(hs: Hashing<H>, h: H, i: nat, sibling: H, rest: seq<H>)
    ensures Fold(hs, h, i, [sibling] + rest) == Fold(hs, Parent(hs, h, i, sibling), i / 2, rest)
  {
    assert ([sibling] + rest)[1..] == rest;
  }

  /** The parent of two siblings is the node above them. */
  lemma StepUp<H>(hs: Hashing<H>, nodes: seq<H>, i: nat, n: nat)
    requires |nodes| == 2 * n && i < 2 * n
    ensures 0 <= i / 2 < n && Sibling(i) < 2 * n
    ensures Parent(hs, nodes[i], i, nodes[Sibling(i)]) == Level(hs, nodes, n)[i / 2]
  {
    Around(i, n);
    var k := i / 2;
    LevelAt(hs, nodes, n, k);
    assert i == 2 * k || i == 2 * k + 1;
  }

  /** Folding over a leaf goes on as folding over its parent. */
  lemma FoldLevel<H>(hs: Hashing<H>, nodes: seq<H>, n: nat, i: nat, rest: seq<H>)
    requires |nodes| == 2 * n && i < 2 * n
    ensures 0 <= i / 2 < n && Sibling(i) < 2 * n
    ensures Fold(hs, nodes[i], i, [nodes[Sibling(i)]] + rest) == Fold(hs, Level(hs, nodes, n)[i / 2], i / 2, rest)
  {
    StepUp(hs, nodes, i, n);
    FoldStep(hs, nodes[i], i, nodes[Sibling(i)], rest);
  }

  /** Folding the siblings of a leaf over that leaf gives the root. */
  lemma {:induction false} FoldIsRoot<H>(hs: Hashing<H>, nodes: seq<H>, bits: nat, i: nat)
    requires |nodes| == Pow2(bits) && i < |nodes|
    ensures Fold(hs, nodes[i], i, Siblings(hs, nodes, bits, i)) == FullRoot(hs, nodes, bits)
    decreases bits
  {
    if bits > 0 {
      var n, k := Pow2(bits - 1), i / 2;
      Around(i, n);
      var up := Level(hs, nodes, n);
      var rest := Siblings(hs, up, bits - 1, k);
      FoldIsRoot(hs, up, bits - 1, k);
      FoldLevel(hs, nodes, n, i, rest);
    }
  }

  /** A changed leaf changes its parent only. */
  lemma LevelUpdate<H>(hs: Hashing<H>, nodes: seq<H>, n: nat, i: nat, h: H)
    requires |nodes| == 2 * n && i < 2 * n
    ensures 0 <= i / 2 < n
            && Level(hs, nodes[i := h], n) == Level(hs, nodes, n)[i / 2 := Level(hs, nodes[i := h], n)[i / 2]]
  {
    var a, b := Level(hs, nodes, n), Level(hs, nodes[i := h], n);
    forall k | 0 <= k < n && k != i / 2 ensures a[k] == b[k] {
      LevelAt(hs, nodes, n, k);
      LevelAt(hs, nodes[i := h], n, k);
    }
  }

  /** The siblings of a leaf do not depend on that leaf. */
  lemma {:induction false} SiblingsIgnoreLeaf<H>(hs: Hashing<H>, nodes: seq<H>, bits: nat, i: nat, h: H)
    requires |nodes| == Pow2(bits) && i < |nodes|
    ensures Siblings(hs, nodes[i := h], bits, i) == Siblings(hs, nodes, bits, i)
    decreases bits
  {
    if bits > 0 {
      var n, k := Pow2(bits - 1), i / 2;
      Around(i, n);
      LevelUpdate(hs, nodes, n, i, h);
      SiblingsIgnoreLeaf(hs, Level(hs, nodes, n), bits - 1, k, Level(hs, nodes[i := h], n)[k]);
    }
  }

  /** Folding a proof over any hash gives the root of the tree with that hash as the leaf. */
  lemma FoldIsRootWith<H>(hs: Hashing<H>, nodes: seq<H>, bits: nat, i: nat, h: H)
    requires |nodes| == Pow2(bits) && i < |nodes|
    ensures Fold(hs, h, i, Siblings(hs, nodes, bits, i)) == Root(hs, nodes[i := h])
  {
    SiblingsIgnoreLeaf(hs, nodes, bits, i, h);
    FoldIsRoot(hs, nodes[i := h], bits, i);
    RootIsFullRoot(hs, nodes[i := h], bits);
  }

  /** Pair k of two levels: different nodes with the same hash. */
  predicate Collides<H(==)>(hs: Hashing<H>, a: seq<H>, b: seq<H>, k: nat) {
    && 2 * k + 1 < |a| && |a| == |b| && (a[2 * k] != b[2 * k] || a[2 * k + 1] != b[2 * k + 1])
    && hs.pair(a[2 * k], a[2 * k + 1]) == hs.pair(b[2 * k], b[2 * k + 1])
  }

  /** The level l steps above the leaves. */
  function Up<H>(hs: Hashing<H>, nodes: seq<H>, bits: nat, l: nat): (up: seq<H>)
    requires |nodes| == Pow2(bits) && l <= bits
    ensures |up| == Pow2(bits - l)
    decreases l
  {
    if l == 0 then nodes else Up(hs, Level(hs, nodes, Pow2(bits - 1)), bits - 1, l - 1)
  }

  /** Two levels that are equal one step up, though different, collide. */
  lemma LevelCollision<H>(hs: Hashing<H>, a: seq<H>, b: seq<H>, n: nat) returns (k: nat)
    requires |a| == |b| == 2 * n && Level(hs, a, n) == Level(hs, b, n) && a != b
    ensures k < n && Collides(hs, a, b, k)
  {
    var i :| 0 <= i < |a| && a[i] != b[i];
    k := i / 2;
    LevelAt(hs, a, n, k);
    LevelAt(hs, b, n, k);
  }

  /** Different trees with the same root have, on some level, different pairs of nodes with the same hash. */
  lemma {:induction false} RootCollision<H>(hs: Hashing<H>, a: seq<H>, b: seq<H>, bits: nat) returns (l: nat, k: nat)
    requires |a| == |b| == Pow2(bits) && FullRoot(hs, a, bits) == FullRoot(hs, b, bits) && a != b
    ensures l < bits && Collides(hs, Up(hs, a, bits, l), Up(hs, b, bits, l), k)
    decreases bits
  {
    if bits == 0 {
      assert false;
    } else {
      var n := Pow2(bits - 1);
      if Level(hs, a, n) == Level(hs, b, n) {
        k := LevelCollision(hs, a, b, n);
        l := 0;
      } else {
        l, k := RootCollision(hs, Level(hs, a, n), Level(hs, b, n), bits - 1);
        l := l + 1;
      }
    }
  }

  /** Pair k of a level has the hash of another pair x, y. */
  predicate CollidesWith<H(==)>(hs: Hashing<H>, a: seq<H>, k: nat, x: H, y: H) {
    2 * k + 1 < |a| && (x != a[2 * k] || y != a[2 * k + 1]) && hs.pair(x, y) == hs.pair(a[2 * k], a[2 * k + 1])
  }

  /** A proof that folds to the root over a hash that is not the leaf has a pair with the hash of one of the tree. */
  lemma {:induction false} FoldBinds<H>(hs: Hashing<H>, nodes: seq<H>, bits: nat, i: nat, h: H, proof: seq<H>)
    returns (l: nat, k: nat, x: H, y: H)
    requires |nodes| == Pow2(bits) && i < |nodes| && |proof| == bits
    requires Fold(hs, h, i, proof) == FullRoot(hs, nodes, bits) && h != nodes[i]
    ensures l < bits && CollidesWith(hs, Up(hs, nodes, bits, l), k, x, y)
    decreases bits
  {
    if bits == 0 {
      assert false;
    } else {
      var n := Pow2(bits - 1);
      var up, p := Level(hs, nodes, n), Parent(hs, h, i, proof[0]);
      Around(i, n);
      LevelAt(hs, nodes, n, i / 2);
      if p == up[i / 2] {
        l, k := 0, i / 2;
        x, y := if i % 2 == 0 then h else proof[0], if i % 2 == 0 then proof[0] else h;
        assert i == 2 * k || i == 2 * k + 1;
      } else {
        l, k, x, y := FoldBinds(hs, up, bits - 1, i / 2, p, proof[1..]);
        l := l + 1;
      }
    }
  }

  /** On the way from leaf e up, a pair of nodes of one tree has the hash of a different pair of the other tree. */
  predicate CollidesOnPath<H(==)>(hs: Hashing<H>, a: seq<H>, b: seq<H>, bits: nat, e: nat)
    requires |a| == |b| == Pow2(bits)
    decreases bits
  {
    bits > 0 &&
    var n := Pow2(bits - 1);
    Collides(hs, a, b, e / 2) || CollidesOnPath(hs, Level(hs, a, n), Level(hs, b, n), bits - 1, e / 2)
  }

  /** Levels over nodes that differ at e only. */
  lemma LevelDiffers<H>(hs: Hashing<H>, a: seq<H>, b: seq<H>, n: nat, e: nat)
    requires |a| == |b| == 2 * n && e < 2 * n && forall k :: 0 <= k < 2 * n && k != e ==> a[k] == b[k]
    ensures e / 2 < n
    ensures forall k :: 0 <= k < n && k != e / 2 ==> Level(hs, a, n)[k] == Level(hs, b, n)[k]
    ensures Level(hs, a, n) == Level(hs, b, n) <==> a == b || Collides(hs, a, b, e / 2)
  {
    var u, v := Level(hs, a, n), Level(hs, b, n);
    forall k | 0 <= k < n
      ensures u[k] == hs.pair(a[2 * k], a[2 * k + 1]) && v[k] == hs.pair(b[2 * k], b[2 * k + 1])
    {
      LevelAt(hs, a, n, k);
      LevelAt(hs, b, n, k);
    }
    if a != b { assert a[e] != b[e]; }
    assert e == 2 * (e / 2) || e == 2 * (e / 2) + 1;
  }

  /**
   Trees that differ at one leaf only have the same root if and only if there is a collision on the way up from it.
   */
  lemma {:induction false} OneLeafDiffers<H>(hs: Hashing<H>, a: seq<H>, b: seq<H>, bits: nat, e: nat)
    requires |a| == |b| == Pow2(bits) && e < |a| && forall k :: 0 <= k < |a| && k != e ==> a[k] == b[k]
    ensures FullRoot(hs, a, bits) == FullRoot(hs, b, bits) <==> a == b || CollidesOnPath(hs, a, b, bits, e)
    decreases bits
  {
    if bits == 0 {
      assert a == [a[0]] && b == [b[0]];
    } else {
      var n := Pow2(bits - 1);
      LevelDiffers(hs, a, b, n, e);
      OneLeafDiffers(hs, Level(hs, a, n), Level(hs, b, n), bits - 1, e / 2);
    }
  }

  // ---------------------------------------------------------------- the leaves of a value

  function ChunkAt(data: Data, size: nat, i: nat): Data
    requires i * size <= |data|
  {
    data[i * size..if |data| - i * size < size then |data| else i * size + size]
  }

  /** A leaf as the root sees it: beyond the data it is zero. */
  function RootLeaf<H>(hs: Hashing<H>, data: Data, size: nat, i: nat): H {
    if i * size >= |data| then hs.zero else hs.chunk(ChunkAt(data, size, i))
  }

  /** A leaf as the proof sees it: where the data ends at a chunk boundary, the empty chunk is hashed. */
  function ProofLeaf<H>(hs: Hashing<H>, data: Data, size: nat, i: nat): H {
    if i * size > |data| then hs.zero else hs.chunk(ChunkAt(data, size, i))
  }

  function RootLeaves<H>(hs: Hashing<H>, data: Data, size: nat, n: nat): (s: seq<H>)
    ensures |s| == n
  {
    seq(n, i requires 0 <= i < n => RootLeaf(hs, data, size, i))
  }

  function ProofLeaves<H>(hs: Hashing<H>, data: Data, size: nat, n: nat): (s: seq<H>)
    ensures |s| == n
  {
    seq(n, i requires 0 <= i < n => ProofLeaf(hs, data, size, i))
  }

  function RootOf<H>(hs: Hashing<H>, data: Data, n: nat, size: nat): H
    requires n >= 1
  {
    if data == [] then hs.zero else Root(hs, RootLeaves(hs, data, size, n))
  }

  /** What a leaf stands for: the bytes of chunk i, the last of which may be shorter. */
  function Piece(data: Data, size: nat, i: nat): Data {
    if i * size >= |data| then [] else data[i * size..Min(|data|, i * size + size)]
  }

  /** The hash of a piece; no bytes, the zero hash. */
  function LeafOf<H>(hs: Hashing<H>, piece: Data): H { if piece == [] then hs.zero else hs.chunk(piece) }

  lemma LeafOfPiece<H>(hs: Hashing<H>, data: Data, size: nat, i: nat)
    requires size >= 1
    ensures RootLeaf(hs, data, size, i) == LeafOf(hs, Piece(data, size, i))
  {
    if i * size < |data| { assert ChunkAt(data, size, i) == Piece(data, size, i); }
  }

  /** Where byte j of a value is. */
  lemma ByteInPiece(data: Data, size: nat, n: nat, j: nat)
    requires size >= 1 && j < |data| <= n * size
    ensures 0 <= j / size < n && j % size < |Piece(data, size, j / size)|
    ensures Piece(data, size, j / size)[j % size] == data[j]
  {
    var i := j / size;
    assert j == i * size + j % size;
    if i >= n { MulMonotone(n, i, size); assert false; }
  }

  lemma LongerHasMore(a: Data, b: Data, size: nat, n: nat)
    requires size >= 1 && |a| < |b| <= n * size
    ensures 0 <= |a| / size < n && |Piece(a, size, |a| / size)| < |Piece(b, size, |a| / size)|
  {
    ByteInPiece(b, size, n, |a|);
    var i, m := |a| / size, |a| / size * size;
    assert |a| == m + |a| % size;
    PieceSize(a, size, i, m);
    PieceSize(b, size, i, m);
  }

  lemma PieceSize(data: Data, size: nat, i: nat, m: nat)
    requires m == i * size
    ensures |Piece(data, size, i)| == if m >= |data| then 0 else Min(|data|, m + size) - m
  {
  }

  /** Values with the same pieces are the same. */
  lemma SamePieces(a: Data, b: Data, size: nat, n: nat)
    requires size >= 1 && |a| <= n * size && |b| <= n * size
    requires forall i :: 0 <= i < n ==> Piece(a, size, i) == Piece(b, size, i)
    ensures a == b
  {
    if |a| < |b| { LongerHasMore(a, b, size, n); }
    if |b| < |a| { LongerHasMore(b, a, size, n); }
    forall j | 0 <= j < |a| && j < |b| ensures a[j] == b[j] {
      ByteInPiece(a, size, n, j);
      ByteInPiece(b, size, n, j);
    }
  }

  /** Different pieces of two values that make the same leaf. */
  predicate PiecesCollide<H(==)>(hs: Hashing<H>, a: Data, b: Data, size: nat, i: nat) {
    Piece(a, size, i) != Piece(b, size, i) && LeafOf(hs, Piece(a, size, i)) == LeafOf(hs, Piece(b, size, i))
  }

  /**
   The root binds the whole value: if two values that fit have the same root, there are two pairs of nodes with the same
   hash on some level, or two different pieces with the same leaf. The root of no bytes at all is the zero hash.
   */
  lemma RootBindsValue<H>(hs: Hashing<H>, a: Data, b: Data, bits: nat, size: nat) returns (pairs: bool, l: nat, k: nat)
    requires size >= 1 && |a| <= Pow2(bits) * size && |b| <= Pow2(bits) * size && a != b
    requires RootOf(hs, a, Pow2(bits), size) == RootOf(hs, b, Pow2(bits), size)
    ensures var n := Pow2(bits);
            var u, v := RootLeaves(hs, a, size, n), RootLeaves(hs, b, size, n);
            if a == [] then Root(hs, v) == hs.zero
            else if b == [] then Root(hs, u) == hs.zero
            else if pairs then l < bits && Collides(hs, Up(hs, u, bits, l), Up(hs, v, bits, l), k)
            else k < n && PiecesCollide(hs, a, b, size, k)
  {
    var n := Pow2(bits);
    var u, v := RootLeaves(hs, a, size, n), RootLeaves(hs, b, size, n);
    pairs, l, k := u != v, 0, 0;
    if a != [] && b != [] {
      if u != v {
        RootIsFullRoot(hs, u, bits);
        RootIsFullRoot(hs, v, bits);
        l, k := RootCollision(hs, u, v, bits);
      } else {
        k := PieceCollision(hs, a, b, n, size);
      }
    }
  }

  lemma PieceCollision<H>(hs: Hashing<H>, a: Data, b: Data, n: nat, size: nat) returns (k: nat)
    requires size >= 1 && |a| <= n * size && |b| <= n * size && a != b
    requires RootLeaves(hs, a, size, n) == RootLeaves(hs, b, size, n)
    ensures k < n && PiecesCollide(hs, a, b, size, k)
  {
    if forall i :: 0 <= i < n ==> Piece(a, size, i) == Piece(b, size, i) {
      SamePieces(a, b, size, n);
      assert false;
    }
    k :| 0 <= k < n && Piece(a, size, k) != Piece(b, size, k);
    LeafOfPiece(hs, a, size, k);
    LeafOfPiece(hs, b, size, k);
    assert RootLeaves(hs, a, size, n)[k] == RootLeaves(hs, b, size, n)[k];
  }

  datatype ProofResult<H> = Proof(hashes: seq<H>) | OutOfScope

  function ProofOf<H>(hs: Hashing<H>, data: Data, bits: nat, i: nat, size: nat): ProofResult<H> {
    if data == [] then Proof([])
    else if i >= Pow2(bits) then OutOfScope
    else Proof(Siblings(hs, ProofLeaves(hs, data, size, Pow2(bits)), bits, i))
  }

  datatype FoldResult<H> = Hash(hash: H) | Overflow

  function FoldOf<H>(hs: Hashing<H>, h: H, i: nat, proof: seq<H>): FoldResult<H> {
    if proof == [] then Hash(h)
    else if i >= Pow2(|proof|) then Overflow
    else Hash(Fold(hs, h, i, proof))
  }

  /** Proofs are made for the leaves of the tree only, and folded for indices of leaves only. */
  lemma InScope<H>(hs: Hashing<H>, data: Data, bits: nat, i: nat, size: nat, h: H, proof: seq<H>)
    requires data != [] && proof != []
    ensures ProofOf(hs, data, bits, i, size).Proof? <==> i < Pow2(bits)
    ensures FoldOf(hs, h, i, proof).Hash? <==> i < Pow2(|proof|)
  {
  }

  /** Leaf e is where the data ends at a chunk boundary inside the tree. */
  predicate EndsAt(data: Data, size: nat, n: nat, e: nat) { e < n && e * size == |data| }

  function EndOf(data: Data, size: nat): nat
    requires size >= 1
  {
    |data| / size
  }

  /** A leaf other than i at which the two views of the leaves differ. */
  predicate EndsElsewhere(data: Data, size: nat, n: nat, i: nat)
    requires size >= 1
  {
    var e := EndOf(data, size);
    EndsAt(data, size, n, e) && e != i
  }

  lemma EndIsUnique(data: Data, size: nat, n: nat, e: nat)
    requires size >= 1 && EndsAt(data, size, n, e)
    ensures e == EndOf(data, size)
  {
    DivModUnique(|data|, size, e, 0);
  }

  /**
   A proof of chunk i, folded over the leaf of chunk i, gives the root of the value, whenever the value does not end
   at the boundary of another leaf.
   */
  lemma ProofFolds<H>(hs: Hashing<H>, data: Data, bits: nat, i: nat, size: nat)
    requires data != [] && size >= 1 && i < Pow2(bits) && !EndsElsewhere(data, size, Pow2(bits), i)
    ensures FoldOf(hs, RootLeaf(hs, data, size, i), i, ProofOf(hs, data, bits, i, size).hashes)
            == Hash(RootOf(hs, data, Pow2(bits), size))
  {
    var n, h := Pow2(bits), RootLeaf(hs, data, size, i);
    var nodes, leaves := ProofLeaves(hs, data, size, n), RootLeaves(hs, data, size, n);
    FoldIsRootWith(hs, nodes, bits, i, h);
    forall k | 0 <= k < n ensures nodes[i := h][k] == leaves[k] {
      if EndsAt(data, size, n, k) { EndIsUnique(data, size, n, k); }
    }
    assert nodes[i := h] == leaves;
  }

  /** The leaf at which the data ends is zero for the root and the hash of nothing for the proof. */
  lemma EndLeaves<H>(hs: Hashing<H>, data: Data, size: nat, e: nat)
    requires e * size == |data|
    ensures RootLeaf(hs, data, size, e) == hs.zero && ProofLeaf(hs, data, size, e) == hs.chunk([])
  {
    assert ChunkAt(data, size, e) == [];
  }

  /** The tree that a proof of chunk i folds up, and the tree of the root. */
  function ProofTree<H>(hs: Hashing<H>, data: Data, size: nat, n: nat, i: nat): (nodes: seq<H>)
    requires i < n
    ensures |nodes| == n
  {
    ProofLeaves(hs, data, size, n)[i := RootLeaf(hs, data, size, i)]
  }

  /** They differ where the data ends, if that is not at chunk i, and nowhere else. */
  lemma TreesDiffer<H>(hs: Hashing<H>, data: Data, size: nat, n: nat, i: nat)
    requires size >= 1 && i < n && EndsElsewhere(data, size, n, i)
    ensures var e, a, b := EndOf(data, size), ProofTree(hs, data, size, n, i), RootLeaves(hs, data, size, n);
            && e < n && a[e] == hs.chunk([]) && b[e] == hs.zero
            && (forall k :: 0 <= k < n && k != e ==> a[k] == b[k])
            && (a == b <==> hs.chunk([]) == hs.zero)
  {
    var e, a, b := EndOf(data, size), ProofTree(hs, data, size, n, i), RootLeaves(hs, data, size, n);
    EndLeaves(hs, data, size, e);
    forall k | 0 <= k < n && k != e ensures a[k] == b[k] {
      if EndsAt(data, size, n, k) { EndIsUnique(data, size, n, k); }
    }
  }

  /**
   Exactly when a proof folds to the root, for every hash: the value does not end at the boundary of another leaf, or
   the hash of nothing is the zero hash, or the pair hash has a collision on the way up from the leaf at which the
   value ends.
   */
  lemma ProofFoldsExactly<H>(hs: Hashing<H>, data: Data, bits: nat, i: nat, size: nat)
    requires data != [] && size >= 1 && i < Pow2(bits)
    ensures var n, e := Pow2(bits), EndOf(data, size);
            FoldOf(hs, RootLeaf(hs, data, size, i), i, ProofOf(hs, data, bits, i, size).hashes)
              == Hash(RootOf(hs, data, n, size))
            <==> !EndsElsewhere(data, size, n, i) || hs.chunk([]) == hs.zero
                 || CollidesOnPath(hs, ProofTree(hs, data, size, n, i), RootLeaves(hs, data, size, n), bits, e)
  {
    if EndsElsewhere(data, size, Pow2(bits), i) {
      var n := Pow2(bits);
      var a, b := ProofTree(hs, data, size, n, i), RootLeaves(hs, data, size, n);
      FoldIsRootWith(hs, ProofLeaves(hs, data, size, n), bits, i, RootLeaf(hs, data, size, i));
      TreesDiffer(hs, data, size, n, i);
      RootIsFullRoot(hs, a, bits);
      RootIsFullRoot(hs, b, bits);
      OneLeafDiffers(hs, a, b, bits, EndOf(data, size));
    } else {
      ProofFolds(hs, data, bits, i, size);
    }
  }

  /** A chunk that fills one leaf of a tree with two: its proof does not fold to the root. */
  lemma FullChunkBreaksProof()
    ensures var hs: Hashing<nat> := Hashing(d => |d| + 1, (a, b) => 10 * a + b, 0);
            var data: Data := [7];
            EndsElsewhere(data, 1, Pow2(1), 0)
            && FoldOf(hs, RootLeaf(hs, data, 1, 0), 0, ProofOf(hs, data, 1, 0, 1).hashes)
               != Hash(RootOf(hs, data, Pow2(1), 1))
  {
    var hs: Hashing<nat> := Hashing(d => |d| + 1, (a, b) => 10 * a + b, 0);
    var data: Data := [7];
    assert Pow2(1) == 2 && EndOf(data, 1) == 1;
    TreesDiffer(hs, data, 1, 2, 0);
    ProofFoldsExactly(hs, data, 1, 0, 1);
    assert !Collides(hs, ProofTree(hs, data, 1, 2, 0), RootLeaves(hs, data, 1, 2), 0);
  }
}
