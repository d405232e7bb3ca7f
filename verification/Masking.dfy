/**
 How chunks are encoded for a storage provider: each byte is combined with a mask that depends on the encode type, the
 chunk index, the commit and the provider's address.

 The hash and the two expensive masks are parameters.
 */
module Masking {
  import opened Bytes
  import opened Disk

  datatype EncodeType = NoEncode | Keccak256 | Ethash | BlobPoseidon

  type Hash = d: Data | |d| == 32 witness Zeros(32)

  /**
   Byte i of an ethash mask depends on the key only, so that a shorter mask is a prefix of a longer one; byte i of a
   poseidon mask depends on the size of the mask too.
   */
  datatype Masks = Masks(keccak: Data -> Hash, ethash: (Hash, nat) -> byte, poseidon: (Hash, nat, nat) -> byte)

  const ADDRESS_SIZE: nat := 20

  /** Bytes as a word of 32: cut on the left, or filled up with zeros there. */
  function Word(b: Data): Hash { if |b| >= 32 then b[|b| - 32..] else Zeros(32 - |b|) + b }

  /** Only the first 24 bytes of the commit go into the key. */
  function EncodeKey(m: Masks, commit: Data, chunkIdx: nat, miner: Data): Hash
    requires |commit| == META_SIZE
  {
    m.keccak(KeyInput(commit, chunkIdx, miner))
  }

  function KeyInput(commit: Data, chunkIdx: nat, miner: Data): (p: Data)
    requires |commit| == META_SIZE
    ensures |p| == 96
  {
    Pad(commit[..HASH_SIZE], META_SIZE) + Word(miner) + BigEndian(chunkIdx, 32)
  }

  /** What the key is the hash of, byte by byte: hash, zeros, address, chunk index. */
  lemma KeyIsHashOf(m: Masks, commit: Data, chunkIdx: nat, miner: Data, p: Data)
    requires |commit| == META_SIZE && |miner| == ADDRESS_SIZE && |p| == 96
    requires p[..24] == commit[..24] && p[24..44] == Zeros(20) && p[44..64] == miner && Number(p[64..]) == chunkIdx
    ensures EncodeKey(m, commit, chunkIdx, miner) == m.keccak(p)
  {
    NumberRoundTrip(p[64..]);
    var q := KeyInput(commit, chunkIdx, miner);
    forall i | 0 <= i < 96 ensures p[i] == q[i] {
      if i < 24 {
        assert p[..24][i] == commit[..24][i];
      } else if i < 44 {
        assert p[24..44][i - 24] == 0;
      } else if i < 64 {
        assert p[44..64][i - 44] == miner[i - 44];
      } else {
        assert p[64..][i - 64] == BigEndian(chunkIdx, 32)[i - 64];
      }
    }
    assert p == q;
  }

  /** Keys of chunks are the same whatever the hash if and only if commit, provider and chunk index are. */
  lemma KeysDiffer(a: Data, i: nat, minerA: Data, b: Data, j: nat, minerB: Data)
    requires |a| == |b| == META_SIZE && |minerA| == |minerB| == ADDRESS_SIZE && i < Pow256(32) && j < Pow256(32)
    ensures (forall m: Masks :: EncodeKey(m, a, i, minerA) == EncodeKey(m, b, j, minerB))
       <==> a[..HASH_SIZE] == b[..HASH_SIZE] && minerA == minerB && i == j
  {
    InputParts(a, i, minerA);
    InputParts(b, j, minerB);
    BigEndianRoundTrip(i, 32);
    BigEndianRoundTrip(j, 32);
    var p, q := KeyInput(a, i, minerA), KeyInput(b, j, minerB);
    if p != q {
      var m := TellApart(p);
      assert m.keccak(p) != m.keccak(q);
      assert EncodeKey(m, a, i, minerA) != EncodeKey(m, b, j, minerB);
    }
  }

  lemma InputParts(commit: Data, chunkIdx: nat, miner: Data)
    requires |commit| == META_SIZE && |miner| == ADDRESS_SIZE
    ensures var p := KeyInput(commit, chunkIdx, miner);
            p[..24] == commit[..HASH_SIZE] && p[44..64] == miner && p[64..] == BigEndian(chunkIdx, 32)
  {
  }

  /** A hash that is one for p and another for everything else. */
  function TellApart(p: Data): (m: Masks)
    ensures forall q :: q != p ==> m.keccak(q) != m.keccak(p)
  {
    var one: Hash := Zeros(32)[0 := 1];
    assert one[0] != Zeros(32)[0];
    Masks((d: Data) => if d == p then Zeros(32) else one, (k: Hash, i: nat) => 0, (k: Hash, s: nat, i: nat) => 0)
  }

  /** Byte i of a mask of the given size; the bytes of the key itself are used again and again. */
  function MaskByte(m: Masks, t: EncodeType, key: Hash, size: nat, i: nat): byte {
    match t
    case NoEncode => 0
    case Keccak256 => key[i % 32]
    case Ethash => m.ethash(key, i)
    case BlobPoseidon => m.poseidon(key, size, i)
  }

  /** The first n bytes of a mask of the given size. */
  function MaskUpTo(m: Masks, t: EncodeType, key: Hash, size: nat, n: nat): (mask: Data)
    ensures |mask| == n
  {
    if n == 0 then [] else MaskUpTo(m, t, key, size, n - 1) + [MaskByte(m, t, key, size, n - 1)]
  }

  function Mask(m: Masks, t: EncodeType, key: Hash, size: nat): (mask: Data)
    ensures |mask| == size
  {
    MaskUpTo(m, t, key, size, size)
  }

  lemma {:induction false} MaskAt(m: Masks, t: EncodeType, key: Hash, size: nat, n: nat, i: nat)
    requires i < n
    ensures MaskUpTo(m, t, key, size, n)[i] == MaskByte(m, t, key, size, i)
    decreases n
  {
    if i < n - 1 { MaskAt(m, t, key, size, n - 1, i); }
  }

  /** The first n bytes of two byte strings, combined bit by bit. */
  function XorUpTo(a: Data, b: Data, n: nat): (x: Data)
    requires n <= |a| && n <= |b|
    ensures |x| == n
  {
    if n == 0 then [] else XorUpTo(a, b, n - 1) + [a[n - 1] ^ b[n - 1]]
  }

  function Xor(a: Data, b: Data): (x: Data)
    requires |a| <= |b|
    ensures |x| == |a|
  {
    XorUpTo(a, b, |a|)
  }

  lemma {:induction false} XorAt(a: Data, b: Data, n: nat, i: nat)
    requires i < n <= |a| && n <= |b|
    ensures XorUpTo(a, b, n)[i] == a[i] ^ b[i]
    decreases n
  {
    if i < n - 1 { XorAt(a, b, n - 1, i); }
  }

  lemma XorByte(a: byte, b: byte)
    ensures (a ^ b) ^ b == a
  {
  }

  /** A byte string is the combination of two others if each of its bytes is. */
  lemma XorIs(a: Data, b: Data, x: Data)
    requires |x| == |a| <= |b| && forall i :: 0 <= i < |x| ==> x[i] == a[i] ^ b[i]
    ensures x == Xor(a, b)
  {
    forall i | 0 <= i < |x| ensures x[i] == Xor(a, b)[i] { XorAt(a, b, |a|, i); }
  }

  /** Encoding pads to the chunk size and masks. */
  function EncodeChunk(m: Masks, size: nat, bs: Data, t: EncodeType, key: Hash): (e: Data)
    requires |bs| <= size
    ensures |e| == size
  {
    Xor(Pad(bs, size), Mask(m, t, key, size))
  }

  /** Each byte of an encoded chunk, for each encode type: the padded data combined with the key or the mask. */
  lemma EncodedBytes(m: Masks, size: nat, bs: Data, t: EncodeType, key: Hash, i: nat) returns (b: byte, mask: byte)
    requires |bs| <= size && i < size
    ensures EncodeChunk(m, size, bs, t, key)[i] == b ^ mask
    ensures b == if i < |bs| then bs[i] else 0
    ensures mask == match t
                    case NoEncode => 0
                    case Keccak256 => key[i % 32]
                    case Ethash => m.ethash(key, i)
                    case BlobPoseidon => m.poseidon(key, size, i)
  {
    b, mask := Pad(bs, size)[i], MaskByte(m, t, key, size, i);
    EncodeChunkAt(m, size, bs, t, key, i);
    PadAt(bs, size, i);
  }

  lemma EncodeChunkAt(m: Masks, size: nat, bs: Data, t: EncodeType, key: Hash, x: nat)
    requires |bs| <= size && x < size
    ensures EncodeChunk(m, size, bs, t, key)[x] == Pad(bs, size)[x] ^ MaskByte(m, t, key, size, x)
  {
    MaskAt(m, t, key, size, size, x);
    XorAt(Pad(bs, size), Mask(m, t, key, size), size, x);
  }

  /** Decoding unmasks what was read, which may be the start of a chunk only. */
  function DecodeChunk(m: Masks, size: nat, bs: Data, t: EncodeType, key: Hash): (d: Data)
    requires |bs| <= size
    ensures |d| == |bs|
  {
    Xor(bs, Mask(m, t, key, if t == BlobPoseidon then size else |bs|))
  }

  /** For every encode type, the first k bytes of an encoded chunk decode to the first k bytes of the padded chunk. */
  lemma DecodeInvertsEncode(m: Masks, size: nat, bs: Data, t: EncodeType, key: Hash, k: nat)
    requires |bs| <= size && k <= size
    ensures DecodeChunk(m, size, EncodeChunk(m, size, bs, t, key)[..k], t, key) == Pad(bs, size)[..k]
  {
    var mask, p := Mask(m, t, key, size), Pad(bs, size);
    var e, part := Xor(p, mask), Mask(m, t, key, if t == BlobPoseidon then size else k);
    forall i | 0 <= i < k ensures p[..k][i] == e[..k][i] ^ part[i] {
      MaskAt(m, t, key, size, size, i);
      MaskAt(m, t, key, |part|, |part|, i);
      XorAt(p, mask, |p|, i);
      XorByte(p[i], mask[i]);
    }
    XorIs(e[..k], part, p[..k]);
  }

  /** A commit prepared for storage gives the same key as the raw commit. */
  lemma KeyIgnoresMark(m: Masks, commit: Data, chunkIdx: nat, miner: Data)
    requires |commit| == META_SIZE
    ensures EncodeKey(m, PrepareCommit(commit), chunkIdx, miner) == EncodeKey(m, commit, chunkIdx, miner)
  {
  }

  // ---------------------------------------------------------------- as it runs

  /** Masks the user data over the mask, in place; the mask is left where there is no data. */
  method MaskDataInPlace(maskData: array<byte>, userData: Data)
    requires |userData| <= maskData.Length
    modifies maskData
    ensures maskData[..] == Xor(Pad(userData, maskData.Length), old(maskData[..]))
  {
    for i := 0 to |userData|
      invariant forall k :: 0 <= k < i ==> maskData[k] == old(maskData[k]) ^ userData[k]
      invariant forall k :: i <= k < maskData.Length ==> maskData[k] == old(maskData[k])
    {
      maskData[i] := maskData[i] ^ userData[i];
    }
    forall k | 0 <= k < maskData.Length
      ensures maskData[k] == Pad(userData, maskData.Length)[k] ^ old(maskData[k])
    {
      XorCommutes(old(maskData[k]), Pad(userData, maskData.Length)[k]);
    }
    XorIs(Pad(userData, maskData.Length), old(maskData[..]), maskData[..]);
  }

  lemma XorCommutes(a: byte, b: byte)
    ensures a ^ b == b ^ a && 0 ^ a == a
  {
  }

  /** Unmasks in place and cuts the mask to the length of the data. */
  method UnmaskDataInPlace(userData: Data, maskData: array<byte>) returns (r: Data)
    requires |userData| <= maskData.Length
    modifies maskData
    ensures r == Xor(userData, old(maskData[..]))
  {
    for i := 0 to |userData|
      invariant forall k :: 0 <= k < i ==> maskData[k] == old(maskData[k]) ^ userData[k]
      invariant forall k :: i <= k < maskData.Length ==> maskData[k] == old(maskData[k])
    {
      maskData[i] := maskData[i] ^ userData[i];
    }
    r := maskData[..|userData|];
    forall k | 0 <= k < |userData| ensures r[k] == userData[k] ^ old(maskData[k]) {
      XorCommutes(old(maskData[k]), userData[k]);
    }
    XorIs(userData, old(maskData[..]), r);
  }

  lemma NextInKey(i: nat)
    ensures (i + 1) % 32 == if i % 32 + 1 >= 32 then 0 else i % 32 + 1
  {
  }

  /** The key is run through again and again, a byte at a time. */
  method XorWithKey(m: Masks, bs: Data, size: nat, key: Hash) returns (output: Data)
    requires |bs| <= size
    ensures output == Xor(Pad(bs, size), Mask(m, Keccak256, key, size))
  {
    output := [];
    var j := 0;
    ghost var p, mask := Pad(bs, size), Mask(m, Keccak256, key, size);
    for i := 0 to size
      invariant j == i % 32 && output == XorUpTo(p, mask, i)
    {
      var b: byte := if i < |bs| then bs[i] else 0;
      MaskAt(m, Keccak256, key, size, size, i);
      NextInKey(i);
      output := output + [b ^ key[j]];
      j := j + 1;
      if j >= 32 {
        j := 0;
      }
    }
  }

  method EncodeChunkBytes(m: Masks, size: nat, bs: Data, t: EncodeType, key: Hash) returns (output: Data)
    requires |bs| <= size
    ensures output == EncodeChunk(m, size, bs, t, key)
  {
    match t
    case Keccak256 =>
      output := XorWithKey(m, bs, size, key);
    case NoEncode =>
      output := Pad(bs, size);
      XorNoMask(m, output, key);
    case Ethash =>
      output := MaskWith(Mask(m, t, key, size), bs);
    case BlobPoseidon =>
      output := MaskWith(Mask(m, t, key, size), bs);
  }

  method MaskWith(mask: Data, bs: Data) returns (output: Data)
    requires |bs| <= |mask|
    ensures output == Xor(Pad(bs, |mask|), mask)
  {
    var buffer := new byte[|mask|](i requires 0 <= i < |mask| => mask[i]);
    assert buffer[..] == mask;
    MaskDataInPlace(buffer, bs);
    output := buffer[..];
  }

  method UnmaskWith(mask: Data, bs: Data) returns (output: Data)
    requires |bs| <= |mask|
    ensures output == Xor(bs, mask)
  {
    var buffer := new byte[|mask|](i requires 0 <= i < |mask| => mask[i]);
    assert buffer[..] == mask;
    output := UnmaskDataInPlace(bs, buffer);
  }

  lemma XorNoMask(m: Masks, a: Data, key: Hash)
    ensures Xor(a, Mask(m, NoEncode, key, |a|)) == a
  {
    var mask := Mask(m, NoEncode, key, |a|);
    forall i | 0 <= i < |a| ensures a[i] == a[i] ^ mask[i] {
      MaskAt(m, NoEncode, key, |a|, |a|, i);
      XorCommutes(a[i], 0);
    }
    XorIs(a, mask, a);
  }

  method DecodeChunkBytes(m: Masks, size: nat, bs: Data, t: EncodeType, key: Hash) returns (output: Data)
    requires |bs| <= size
    ensures output == DecodeChunk(m, size, bs, t, key)
  {
    match t
    case Keccak256 =>
      output := XorWithKey(m, bs, |bs|, key);
      assert Pad(bs, |bs|) == bs;
    case NoEncode =>
      output := bs;
      XorNoMask(m, output, key);
    case Ethash =>
      output := UnmaskWith(Mask(m, t, key, |bs|), bs);
    case BlobPoseidon =>
      output := UnmaskWith(Mask(m, t, key, size), bs);
  }
}
