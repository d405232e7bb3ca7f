/** Values coded chunk by chunk: what is stored for a value, and the ways to get there. */
module KvCoding {
  import opened Arith
  import opened Bytes
  import opened Disk
  import opened Masking

  /** A chunk passed through f with its chunk index. */
  function Code(f: (Data, nat) -> Data, c: Data, i: nat): Data { f(c, i) }

  /** The bytes cut into chunks, each passed through f with its chunk index. */
  function Chunked(f: (Data, nat) -> Data, bytes: Data, cs: nat, first: nat): Data
    requires cs >= 1
    decreases |bytes|
  {
    if bytes == [] then []
    else
      var n := Min(|bytes|, cs);
      Code(f, bytes[..n], first) + Chunked(f, bytes[n..], cs, first + 1)
  }

  function Encoder(m: Masks, cs: nat, t: EncodeType, commit: Data, miner: Data): (Data, nat) -> Data
    requires |commit| == META_SIZE
  {
    (c: Data, i: nat) => if |c| > cs then [] else EncodeChunk(m, cs, c, t, EncodeKey(m, commit, i, miner))
  }

  function Decoder(m: Masks, cs: nat, t: EncodeType, commit: Data, miner: Data): (Data, nat) -> Data
    requires |commit| == META_SIZE
  {
    (c: Data, i: nat) => if |c| > cs then [] else DecodeChunk(m, cs, c, t, EncodeKey(m, commit, i, miner))
  }

  /** A function that fills chunks: given a whole chunk it returns a whole chunk. */
  ghost predicate Fills(f: (Data, nat) -> Data, cs: nat) {
    forall c: Data, i: nat :: |c| == cs ==> |Code(f, c, i)| == cs
  }

  /** Bytes that can be cut into whole chunks. */
  predicate Whole(bytes: Data, cs: nat)
    requires cs >= 1
    decreases |bytes|
  {
    bytes == [] || (cs <= |bytes| && Whole(bytes[cs..], cs))
  }

  lemma {:induction false} WholeMultiple(bytes: Data, cs: nat, n: nat)
    requires cs >= 1 && |bytes| == n * cs
    ensures Whole(bytes, cs)
    decreases n
  {
    if n > 0 {
      assert n * cs == cs + (n - 1) * cs;
      MulAtLeast(n, cs);
      WholeMultiple(bytes[cs..], cs, n - 1);
    }
  }

  lemma {:induction false} ChunkedSize(f: (Data, nat) -> Data, bytes: Data, cs: nat, first: nat)
    requires cs >= 1 && Whole(bytes, cs) && Fills(f, cs)
    ensures |Chunked(f, bytes, cs, first)| == |bytes|
    decreases |bytes|
  {
    if bytes != [] {
      ChunkedSize(f, bytes[cs..], cs, first + 1);
    }
  }

  function Identity(): (Data, nat) -> Data { (c: Data, i: nat) => c }

  lemma {:induction false} ChunkedIdentity(bytes: Data, cs: nat, first: nat)
    requires cs >= 1
    ensures Chunked(Identity(), bytes, cs, first) == bytes
    decreases |bytes|
  {
    if bytes != [] {
      var n := Min(|bytes|, cs);
      ChunkedIdentity(bytes[n..], cs, first + 1);
      assert bytes == bytes[..n] + bytes[n..];
    }
  }

  /** Pad of a whole chunk changes nothing. */
  lemma PadFull(c: Data, size: nat)
    requires |c| == size
    ensures Pad(c, size) == c
  {
  }

  /** The first chunk and the others. */
  lemma EncodedSplit(m: Masks, cs: nat, t: EncodeType, commit: Data, miner: Data, value: Data, first: nat)
    requires |commit| == META_SIZE && cs >= 1 && value != [] && Whole(value, cs)
    ensures var enc := Encoder(m, cs, t, commit, miner);
            && Chunked(enc, value, cs, first)
               == EncodeChunk(m, cs, value[..cs], t, EncodeKey(m, commit, first, miner))
                 + Chunked(enc, value[cs..], cs, first + 1)
            && |Chunked(enc, value[cs..], cs, first + 1)| == |value[cs..]|
  {
    ChunkedSize(Encoder(m, cs, t, commit, miner), value[cs..], cs, first + 1);
  }

  /** The first k bytes of what f makes of a chunk become the first k bytes of the chunk by g. */
  ghost predicate InvertsAt(g: (Data, nat) -> Data, f: (Data, nat) -> Data, c: Data, i: nat, k: nat) {
    k <= |c| == |Code(f, c, i)| && Code(g, Code(f, c, i)[..k], i) == c[..k]
  }

  ghost predicate Inverts(g: (Data, nat) -> Data, f: (Data, nat) -> Data, cs: nat) {
    forall c: Data, i: nat, k: nat :: |c| == cs && k <= cs ==> InvertsAt(g, f, c, i, k)
  }

  /** What is inverted chunk by chunk is inverted for any prefix of a value. */
  lemma {:induction false} ChunkedRoundTrip(g: (Data, nat) -> Data, f: (Data, nat) -> Data, cs: nat, value: Data,
                                            first: nat, k: nat)
    requires cs >= 1 && Inverts(g, f, cs) && Whole(value, cs) && k <= |value|
    ensures var e := Chunked(f, value, cs, first);
            |e| == |value| && Chunked(g, e[..k], cs, first) == value[..k]
    decreases |value|
  {
    if value != [] {
      var head, tail := value[..cs], value[cs..];
      assert InvertsAt(g, f, head, first, if k < cs then k else cs);
      ChunkedRoundTrip(g, f, cs, tail, first + 1, if k < cs then 0 else k - cs);
      PrefixDecodes(g, cs, head, tail, Code(f, head, first), Chunked(f, tail, cs, first + 1), first, k);
      assert value == head + tail;
    }
  }

  lemma PrefixDecodes(g: (Data, nat) -> Data, cs: nat, head: Data, tail: Data, a: Data, b: Data, first: nat, k: nat)
    requires |head| == |a| == cs >= 1 && |b| == |tail| && k <= cs + |b|
    requires k <= cs ==> Code(g, a[..k], first) == head[..k]
    requires k > cs ==> Code(g, a[..cs], first) == head[..cs]
    requires k > cs ==> Chunked(g, b[..k - cs], cs, first + 1) == tail[..k - cs]
    ensures Chunked(g, (a + b)[..k], cs, first) == (head + tail)[..k]
  {
    var p := (a + b)[..k];
    if 0 < k <= cs {
      assert p == a[..k] && p[..k] == p && p[k..] == [] && (head + tail)[..k] == head[..k];
    } else if k > cs {
      assert p[..cs] == a[..cs] && p[cs..] == b[..k - cs] && (head + tail)[..k] == head + tail[..k - cs];
    }
  }

  lemma DecoderInverts(m: Masks, cs: nat, t: EncodeType, commit: Data, miner: Data)
    requires |commit| == META_SIZE
    ensures Inverts(Decoder(m, cs, t, commit, miner), Encoder(m, cs, t, commit, miner), cs)
  {
    var g, f := Decoder(m, cs, t, commit, miner), Encoder(m, cs, t, commit, miner);
    forall c: Data, i: nat, k: nat | |c| == cs && k <= cs ensures InvertsAt(g, f, c, i, k) {
      PadFull(c, cs);
      DecodeInvertsEncode(m, cs, c, t, EncodeKey(m, commit, i, miner), k);
    }
  }

  /** Any prefix of an encoded value decodes to the same prefix of the value. */
  lemma KvRoundTrip(m: Masks, cs: nat, t: EncodeType, commit: Data, miner: Data, value: Data, first: nat, k: nat)
    requires |commit| == META_SIZE && cs >= 1 && Whole(value, cs) && k <= |value|
    ensures var e := Chunked(Encoder(m, cs, t, commit, miner), value, cs, first);
            |e| == |value| && Chunked(Decoder(m, cs, t, commit, miner), e[..k], cs, first) == value[..k]
  {
    DecoderInverts(m, cs, t, commit, miner);
    ChunkedRoundTrip(Decoder(m, cs, t, commit, miner), Encoder(m, cs, t, commit, miner), cs, value, first, k);
  }

  lemma SameCode(m: Masks, cs: nat, t: EncodeType, a: Data, b: Data, miner: Data, c: Data, i: nat)
    requires |a| == |b| == META_SIZE && a[..HASH_SIZE] == b[..HASH_SIZE]
    ensures Code(Encoder(m, cs, t, a, miner), c, i) == Code(Encoder(m, cs, t, b, miner), c, i)
  {
    assert EncodeKey(m, a, i, miner) == EncodeKey(m, b, i, miner);
  }

  /** The chunks of a value whatever of the commit lies behind its first 24 bytes. */
  lemma {:induction false} EncodedByHash(m: Masks, cs: nat, t: EncodeType, a: Data, b: Data, miner: Data, value: Data,
                                         first: nat)
    requires |a| == |b| == META_SIZE && a[..HASH_SIZE] == b[..HASH_SIZE] && cs >= 1
    ensures Chunked(Encoder(m, cs, t, a, miner), value, cs, first)
            == Chunked(Encoder(m, cs, t, b, miner), value, cs, first)
    decreases |value|
  {
    if value != [] {
      var n := Min(|value|, cs);
      SameCode(m, cs, t, a, b, miner, value[..n], first);
      EncodedByHash(m, cs, t, a, b, miner, value[n..], first + 1);
    }
  }

  // ---------------------------------------------------------------- the ways to encode a value

  /** What DataShard.Write stores for a value. */
  function Stored(m: Masks, kvSize: nat, cs: nat, t: EncodeType, commit: Data, miner: Data, b: Data, first: nat): Data
    requires |commit| == META_SIZE && cs >= 1 && |b| <= kvSize
  {
    Chunked(Encoder(m, cs, t, commit, miner), Pad(b, kvSize), cs, first)
  }

  /** The same bytes are stored whether the commit is raw or prepared for storage. */
  lemma StoredByHash(m: Masks, kvSize: nat, cs: nat, t: EncodeType, commit: Data, miner: Data, b: Data, first: nat)
    requires |commit| == META_SIZE && cs >= 1 && |b| <= kvSize
    ensures Stored(m, kvSize, cs, t, PrepareCommit(commit), miner, b, first)
            == Stored(m, kvSize, cs, t, commit, miner, b, first)
  {
    EncodedByHash(m, cs, t, PrepareCommit(commit), commit, miner, Pad(b, kvSize), first);
  }

  /** What is stored for a value is read back as the padded value. */
  lemma StoredReadsBack(m: Masks, cpk: nat, cs: nat, t: EncodeType, commit: Data, miner: Data, b: Data, first: nat)
    requires |commit| == META_SIZE && cs >= 1 && |b| <= cpk * cs
    ensures var size := cpk * cs;
            Chunked(Decoder(m, cs, t, commit, miner), Stored(m, size, cs, t, commit, miner, b, first), cs, first)
              == Pad(b, size)
  {
    var size := cpk * cs;
    var v, e := Pad(b, size), Stored(m, size, cs, t, commit, miner, b, first);
    WholeMultiple(v, cs, cpk);
    KvRoundTrip(m, cs, t, commit, miner, v, first, |v|);
    assert e[..|v|] == e && v[..|v|] == v;
  }

  lemma SameDecode(m: Masks, cs: nat, t: EncodeType, a: Data, b: Data, miner: Data, c: Data, i: nat)
    requires |a| == |b| == META_SIZE && a[..HASH_SIZE] == b[..HASH_SIZE]
    ensures Code(Decoder(m, cs, t, a, miner), c, i) == Code(Decoder(m, cs, t, b, miner), c, i)
  {
    assert EncodeKey(m, a, i, miner) == EncodeKey(m, b, i, miner);
  }

  /** Decoding looks at the first 24 bytes of the commit only. */
  lemma {:induction false} DecodedByHash(m: Masks, cs: nat, t: EncodeType, a: Data, b: Data, miner: Data, bytes: Data,
                                         first: nat)
    requires |a| == |b| == META_SIZE && a[..HASH_SIZE] == b[..HASH_SIZE] && cs >= 1
    ensures Chunked(Decoder(m, cs, t, a, miner), bytes, cs, first)
            == Chunked(Decoder(m, cs, t, b, miner), bytes, cs, first)
    decreases |bytes|
  {
    if bytes != [] {
      var n := Min(|bytes|, cs);
      SameDecode(m, cs, t, a, b, miner, bytes[..n], first);
      DecodedByHash(m, cs, t, a, b, miner, bytes[n..], first + 1);
    }
  }

  /**
   What is stored under one form of a commit is read back under any other form with the same hash, raw or prepared.
   */
  lemma ReadBackByHash(m: Masks, cpk: nat, cs: nat, t: EncodeType, a: Data, c: Data, miner: Data, b: Data, first: nat)
    requires |a| == |c| == META_SIZE && a[..HASH_SIZE] == c[..HASH_SIZE] && cs >= 1 && |b| <= cpk * cs
    ensures var size := cpk * cs;
            Chunked(Decoder(m, cs, t, c, miner), Stored(m, size, cs, t, a, miner, b, first), cs, first) == Pad(b, size)
  {
    StoredReadsBack(m, cpk, cs, t, a, miner, b, first);
    DecodedByHash(m, cs, t, c, a, miner, Stored(m, cpk * cs, cs, t, a, miner, b, first), first);
  }

  /** EncodeBlob: the whole value as one chunk under the index of the value. */
  function EncodeBlob(m: Masks, size: nat, t: EncodeType, commit: Data, miner: Data, blob: Data, kv: nat): Data
    requires |commit| == META_SIZE && |blob| <= size
  {
    EncodeChunk(m, size, blob, t, EncodeKey(m, commit, kv, miner))
  }

  /** With one chunk per value EncodeBlob makes what is stored, from the raw and from the prepared commit. */
  lemma EncodeBlobIsStored(m: Masks, kvSize: nat, t: EncodeType, commit: Data, miner: Data, b: Data, kv: nat)
    requires |commit| == META_SIZE && kvSize >= 1 && |b| <= kvSize
    ensures EncodeBlob(m, kvSize, t, commit, miner, b, kv) == Stored(m, kvSize, kvSize, t, commit, miner, b, kv)
    ensures EncodeBlob(m, kvSize, t, commit, miner, b, kv)
            == Stored(m, kvSize, kvSize, t, PrepareCommit(commit), miner, b, kv)
  {
    var v := Pad(b, kvSize);
    PadFull(v, kvSize);
    assert v[..kvSize] == v && v[kvSize..] == [];
    EncodedByHash(m, kvSize, t, commit, PrepareCommit(commit), miner, v, kv);
  }

  /** The byte that the write path combines with byte j of chunk i of a value. */
  function ChunkMask(m: Masks, t: EncodeType, commit: Data, miner: Data, cs: nat, first: nat, i: nat, j: nat): byte
    requires |commit| == META_SIZE
  {
    MaskByte(m, t, EncodeKey(m, commit, first + i, miner), cs, j)
  }

  /** The byte that EncodeBlob combines with byte x of a value. */
  function ValueMask(m: Masks, t: EncodeType, commit: Data, miner: Data, size: nat, kv: nat, x: nat): byte
    requires |commit| == META_SIZE
  {
    MaskByte(m, t, EncodeKey(m, commit, kv, miner), size, x)
  }

  lemma FirstAndRest(f: (Data, nat) -> Data, bytes: Data, cs: nat, first: nat, a: Data, rest: Data)
    requires cs >= 1 && Whole(bytes, cs) && Fills(f, cs) && cs <= |bytes|
    requires a == Code(f, bytes[..cs], first) && rest == Chunked(f, bytes[cs..], cs, first + 1)
    ensures |a| == cs && |rest| == |bytes| - cs && Chunked(f, bytes, cs, first) == a + rest
  {
    ChunkedSize(f, bytes[cs..], cs, first + 1);
  }

  lemma Shifted(a: Data, b: Data, o: nat, p: nat, n: nat)
    requires o == p + |a| && p + n <= |b|
    ensures (a + b)[o..o + n] == b[p..p + n]
  {
  }

  /** Chunk i of what a value is turned into, at offset i chunks. */
  lemma {:induction false} ChunkedPart(f: (Data, nat) -> Data, bytes: Data, cs: nat, first: nat, i: nat, o: nat)
    requires cs >= 1 && Whole(bytes, cs) && Fills(f, cs) && o == i * cs && o + cs <= |bytes|
    ensures |Chunked(f, bytes, cs, first)| == |bytes|
    ensures Chunked(f, bytes, cs, first)[o..o + cs] == Code(f, bytes[o..o + cs], first + i)
    decreases i
  {
    var head, tail := bytes[..cs], bytes[cs..];
    var a, rest := Code(f, head, first), Chunked(f, tail, cs, first + 1);
    FirstAndRest(f, bytes, cs, first, a, rest);
    if i == 0 {
      assert (a + rest)[0..cs] == a && bytes[0..cs] == head;
    } else {
      var p := OneChunkBack(i, cs, o);
      ChunkedPart(f, tail, cs, first + 1, i - 1, p);
      Shifted(a, rest, o, p, cs);
      assert bytes == head + tail;
      Shifted(head, tail, o, p, cs);
    }
  }

  lemma OneChunkBack(i: nat, cs: nat, o: nat) returns (p: nat)
    requires i >= 1 && o == i * cs
    ensures o == p + cs && p == (i - 1) * cs
  {
    p := (i - 1) * cs;
    assert i * cs == p + cs;
  }

  /** Byte j of chunk i of an encoded value. */
  lemma EncodedAt(m: Masks, cs: nat, t: EncodeType, commit: Data, miner: Data,
                  value: Data, first: nat, i: nat, j: nat, o: nat)
    requires |commit| == META_SIZE && cs >= 1 && Whole(value, cs) && j < cs && o == i * cs && o + cs <= |value|
    ensures var e := Chunked(Encoder(m, cs, t, commit, miner), value, cs, first);
            |e| == |value| && e[o + j] == value[o + j] ^ ChunkMask(m, t, commit, miner, cs, first, i, j)
  {
    InEncoded(m, cs, t, commit, miner, value, first, i, j, o);
    WholeChunkAt(m, cs, value[o..o + cs], t, EncodeKey(m, commit, first + i, miner), j, value[o + j]);
  }

  lemma InEncoded(m: Masks, cs: nat, t: EncodeType, commit: Data, miner: Data,
                  value: Data, first: nat, i: nat, j: nat, o: nat)
    requires |commit| == META_SIZE && cs >= 1 && Whole(value, cs) && j < cs && o == i * cs && o + cs <= |value|
    ensures var e := Chunked(Encoder(m, cs, t, commit, miner), value, cs, first);
            && |e| == |value|
            && e[o + j] == EncodeChunk(m, cs, value[o..o + cs], t, EncodeKey(m, commit, first + i, miner))[j]
  {
    var f := Encoder(m, cs, t, commit, miner);
    var e := Chunked(f, value, cs, first);
    ChunkedPart(f, value, cs, first, i, o);
    assert e[o..o + cs][j] == e[o + j];
  }

  lemma WholeChunkAt(m: Masks, cs: nat, c: Data, t: EncodeType, key: Hash, j: nat, b: byte)
    requires |c| == cs && j < cs && b == c[j]
    ensures EncodeChunk(m, cs, c, t, key)[j] == b ^ MaskByte(m, t, key, cs, j)
  {
    PadFull(c, cs);
    EncodeChunkAt(m, cs, c, t, key, j);
  }

  lemma XorCancels(a: byte, b: byte, c: byte)
    requires a ^ b == a ^ c
    ensures b == c
  {
  }

  /** Chunk by chunk, the mask of the value is that of its chunks. */
  ghost predicate MasksAgree(m: Masks, t: EncodeType, commit: Data, miner: Data, kv: nat, cpk: nat, cs: nat)
    requires |commit| == META_SIZE
  {
    var p, q := ChunkMasks(m, t, commit, miner, cs, kv * cpk), ValueMasks(m, t, commit, miner, cpk * cs, kv);
    forall i: nat, j: nat :: i < cpk && j < cs ==> p(i, j) == q(Slot(i, j, cs))
  }

  function ChunkMasks(m: Masks, t: EncodeType, commit: Data, miner: Data, cs: nat, first: nat): (nat, nat) -> byte
    requires |commit| == META_SIZE
  {
    (i: nat, j: nat) => ChunkMask(m, t, commit, miner, cs, first, i, j)
  }

  function ValueMasks(m: Masks, t: EncodeType, commit: Data, miner: Data, size: nat, kv: nat): nat -> byte
    requires |commit| == META_SIZE
  {
    (x: nat) => ValueMask(m, t, commit, miner, size, kv, x)
  }

  lemma EncodeBlobAt(m: Masks, size: nat, t: EncodeType, commit: Data, miner: Data, b: Data, kv: nat, x: nat)
    requires |commit| == META_SIZE && |b| <= size && x < size
    ensures EncodeBlob(m, size, t, commit, miner, b, kv)[x]
            == Pad(b, size)[x] ^ ValueMask(m, t, commit, miner, size, kv, x)
  {
    EncodeChunkAt(m, size, b, t, EncodeKey(m, commit, kv, miner), x);
  }

  lemma StoredAt(m: Masks, size: nat, cpk: nat, cs: nat, t: EncodeType, commit: Data, miner: Data, b: Data, first: nat,
                 i: nat, j: nat, x: nat)
    requires |commit| == META_SIZE && cs >= 1 && size == cpk * cs && |b| <= size && i < cpk && j < cs && x == i * cs + j
    ensures x < size == |Stored(m, size, cs, t, commit, miner, b, first)|
    ensures Stored(m, size, cs, t, commit, miner, b, first)[x]
            == Pad(b, size)[x] ^ ChunkMask(m, t, commit, miner, cs, first, i, j)
  {
    MulMonotone(i + 1, cpk, cs);
    assert (i + 1) * cs == i * cs + cs;
    WholeMultiple(Pad(b, size), cs, cpk);
    EncodedAt(m, cs, t, commit, miner, Pad(b, size), first, i, j, i * cs);
  }

  lemma StoredSize(m: Masks, size: nat, cpk: nat, cs: nat, t: EncodeType, commit: Data, miner: Data, b: Data,
                   first: nat)
    requires |commit| == META_SIZE && cs >= 1 && size == cpk * cs && |b| <= size
    ensures |Stored(m, size, cs, t, commit, miner, b, first)| == size
  {
    WholeMultiple(Pad(b, size), cs, cpk);
    ChunkedSize(Encoder(m, cs, t, commit, miner), Pad(b, size), cs, first);
  }

  /** Byte j of chunk i, counted in the whole value. */
  function Slot(i: nat, j: nat, cs: nat): nat { i * cs + j }

  /**
   The same bytes under two masks, one by chunks and one for the whole: they are equal if and only if the masks are.
   */
  lemma CompareMasks(e: Data, s: Data, v: Data, cpk: nat, cs: nat, p: (nat, nat) -> byte, q: nat -> byte)
    requires cs >= 1 && |e| == |s| == |v| == cpk * cs
    requires forall i: nat, j: nat :: i < cpk && j < cs ==>
               Slot(i, j, cs) < |s| && s[Slot(i, j, cs)] == v[Slot(i, j, cs)] ^ p(i, j)
    requires forall x: nat :: x < |e| ==> e[x] == v[x] ^ q(x)
    ensures e == s <==> forall i: nat, j: nat :: i < cpk && j < cs ==> p(i, j) == q(Slot(i, j, cs))
  {
    if e == s {
      forall i: nat, j: nat | i < cpk && j < cs ensures p(i, j) == q(Slot(i, j, cs)) {
        var x := Slot(i, j, cs);
        XorCancels(v[x], p(i, j), q(x));
      }
    }
    if forall i: nat, j: nat :: i < cpk && j < cs ==> p(i, j) == q(Slot(i, j, cs)) {
      forall x | 0 <= x < |e| ensures e[x] == s[x] {
        var i, j := ChunkOf(x, cpk, cs);
        assert Slot(i, j, cs) == x && p(i, j) == q(x);
      }
    }
  }

  /** EncodeBlob makes what the write path stores if and only if the masks agree, whatever the data. */
  lemma EncodeBlobExact(m: Masks, t: EncodeType, commit: Data, miner: Data, b: Data, kv: nat, cpk: nat, cs: nat)
    requires |commit| == META_SIZE && cs >= 1 && |b| <= cpk * cs
    ensures EncodeBlob(m, cpk * cs, t, commit, miner, b, kv) == Stored(m, cpk * cs, cs, t, commit, miner, b, kv * cpk)
            <==> MasksAgree(m, t, commit, miner, kv, cpk, cs)
  {
    BlobExact(m, t, commit, miner, b, kv, cpk, cs, cpk * cs, kv * cpk);
  }

  lemma BlobExact(m: Masks, t: EncodeType, commit: Data, miner: Data, b: Data, kv: nat, cpk: nat, cs: nat, size: nat,
                  first: nat)
    requires |commit| == META_SIZE && cs >= 1 && size == cpk * cs && |b| <= size
    ensures var p, q := ChunkMasks(m, t, commit, miner, cs, first), ValueMasks(m, t, commit, miner, size, kv);
            EncodeBlob(m, size, t, commit, miner, b, kv) == Stored(m, size, cs, t, commit, miner, b, first)
            <==> forall i: nat, j: nat :: i < cpk && j < cs ==> p(i, j) == q(Slot(i, j, cs))
  {
    var e, s := EncodeBlob(m, size, t, commit, miner, b, kv), Stored(m, size, cs, t, commit, miner, b, first);
    var p, q := ChunkMasks(m, t, commit, miner, cs, first), ValueMasks(m, t, commit, miner, size, kv);
    StoredSize(m, size, cpk, cs, t, commit, miner, b, first);
    forall i: nat, j: nat | i < cpk && j < cs
      ensures Slot(i, j, cs) < |s| && s[Slot(i, j, cs)] == Pad(b, size)[Slot(i, j, cs)] ^ p(i, j)
    {
      StoredAt(m, size, cpk, cs, t, commit, miner, b, first, i, j, Slot(i, j, cs));
    }
    forall x: nat | x < |e| ensures e[x] == Pad(b, size)[x] ^ q(x) {
      EncodeBlobAt(m, size, t, commit, miner, b, kv, x);
    }
    CompareMasks(e, s, Pad(b, size), cpk, cs, p, q);
  }

  /** The chunk a byte is in. */
  lemma ChunkOf(x: nat, cpk: nat, cs: nat) returns (i: nat, j: nat)
    requires x < cpk * cs && cs >= 1
    ensures i < cpk && j < cs && x == i * cs + j
  {
    DivNonNegative(x, cs);
    i, j := x / cs, x % cs;
    if i >= cpk { MulMonotone(cpk, i, cs); }
  }

  /** Without encoding the two always agree. */
  lemma PlainBlobIsStored(m: Masks, commit: Data, miner: Data, b: Data, kv: nat, cpk: nat, cs: nat)
    requires |commit| == META_SIZE && cs >= 1 && |b| <= cpk * cs
    ensures EncodeBlob(m, cpk * cs, NoEncode, commit, miner, b, kv)
            == Stored(m, cpk * cs, cs, NoEncode, commit, miner, b, kv * cpk)
  {
    EncodeBlobExact(m, NoEncode, commit, miner, b, kv, cpk, cs);
  }

  /**
   A Keccak256 chunk that is a multiple of the key size: the two agree if and only if all keys in question are one.
   */
  lemma KeccakBlobExact(m: Masks, commit: Data, miner: Data, b: Data, kv: nat, cpk: nat, cs: nat)
    requires |commit| == META_SIZE && cs >= 32 && cs % 32 == 0 && |b| <= cpk * cs
    ensures EncodeBlob(m, cpk * cs, Keccak256, commit, miner, b, kv)
            == Stored(m, cpk * cs, cs, Keccak256, commit, miner, b, kv * cpk)
            <==> forall i: nat :: i < cpk ==> KeyAt(m, commit, miner, kv * cpk, i) == EncodeKey(m, commit, kv, miner)
  {
    EncodeBlobExact(m, Keccak256, commit, miner, b, kv, cpk, cs);
    KeccakMasks(m, commit, miner, kv, kv * cpk, cpk, cs, cpk * cs);
  }

  /** The key of chunk i of a value. */
  function KeyAt(m: Masks, commit: Data, miner: Data, first: nat, i: nat): Hash
    requires |commit| == META_SIZE
  {
    EncodeKey(m, commit, first + i, miner)
  }

  /** The masks agree if and only if the keys do. */
  lemma KeccakMasks(m: Masks, commit: Data, miner: Data, kv: nat, first: nat, cpk: nat, cs: nat, size: nat)
    requires |commit| == META_SIZE && cs >= 32 && cs % 32 == 0
    ensures var p := ChunkMasks(m, Keccak256, commit, miner, cs, first);
            var q := ValueMasks(m, Keccak256, commit, miner, size, kv);
            (forall i: nat, j: nat :: i < cpk && j < cs ==> p(i, j) == q(Slot(i, j, cs)))
            <==> (forall i: nat :: i < cpk ==> KeyAt(m, commit, miner, first, i) == EncodeKey(m, commit, kv, miner))
  {
    var p, q := ChunkMasks(m, Keccak256, commit, miner, cs, first), ValueMasks(m, Keccak256, commit, miner, size, kv);
    var key := EncodeKey(m, commit, kv, miner);
    forall i: nat, j: nat | i < cpk && j < cs
      ensures p(i, j) == KeyAt(m, commit, miner, first, i)[j % 32] && q(Slot(i, j, cs)) == key[j % 32]
    {
      InKey(i, j, cs);
    }
    if forall i: nat, j: nat :: i < cpk && j < cs ==> p(i, j) == q(Slot(i, j, cs)) {
      forall i: nat | i < cpk ensures KeyAt(m, commit, miner, first, i) == key {
        forall j: nat | j < 32 ensures KeyAt(m, commit, miner, first, i)[j] == key[j] {
          assert p(i, j) == q(Slot(i, j, cs)) && j % 32 == j;
        }
      }
    }
  }

  lemma InKey(i: nat, j: nat, cs: nat)
    requires cs % 32 == 0
    ensures (i * cs + j) % 32 == j % 32 && (j < 32 ==> j % 32 == j)
  {
    var q := cs / 32;
    MulAssoc(i, q, 32);
    ModShift(i * q, j, 32);
  }

  /**
   If the hash tells the chunks of the value apart, Keccak256 agrees with one chunk per value and with no other number.
   */
  lemma KeccakNeedsOneChunk(m: Masks, commit: Data, miner: Data, b: Data, kv: nat, cpk: nat, cs: nat)
    requires |commit| == META_SIZE && cs >= 32 && cs % 32 == 0 && |b| <= cpk * cs && cpk >= 1
    requires forall i: nat, j: nat :: i < j < cpk ==>
               KeyAt(m, commit, miner, kv * cpk, i) != KeyAt(m, commit, miner, kv * cpk, j)
    ensures EncodeBlob(m, cpk * cs, Keccak256, commit, miner, b, kv)
            == Stored(m, cpk * cs, cs, Keccak256, commit, miner, b, kv * cpk)
            <==> cpk == 1
  {
    KeccakBlobExact(m, commit, miner, b, kv, cpk, cs);
    OneKey(m, commit, miner, kv, kv * cpk, cpk);
  }

  lemma OneKey(m: Masks, commit: Data, miner: Data, kv: nat, first: nat, cpk: nat)
    requires |commit| == META_SIZE && cpk >= 1 && first == kv * cpk
    requires forall i: nat, j: nat :: i < j < cpk ==>
               KeyAt(m, commit, miner, first, i) != KeyAt(m, commit, miner, first, j)
    ensures (forall i: nat :: i < cpk ==> KeyAt(m, commit, miner, first, i) == EncodeKey(m, commit, kv, miner))
       <==> cpk == 1
  {
    if cpk == 1 {
      assert KeyAt(m, commit, miner, first, 0) == EncodeKey(m, commit, kv, miner);
    } else {
      assert KeyAt(m, commit, miner, first, 0) != KeyAt(m, commit, miner, first, 1);
    }
  }

  /** A hash that shows the last byte of what it is given. */
  function LastByte(): Data -> Hash {
    (d: Data) => if d == [] then Zeros(32) else Zeros(32)[0 := d[|d| - 1]]
  }

  function ShowIndex(): Masks { Masks(LastByte(), (k: Hash, i: nat) => 0, (k: Hash, s: nat, i: nat) => 0) }

  lemma ShownIndex(commit: Data, miner: Data, i: nat, size: nat)
    requires |commit| == META_SIZE && i < 256 && size >= 1
    ensures EncodeChunk(ShowIndex(), size, Zeros(size), Keccak256, EncodeKey(ShowIndex(), commit, i, miner))[0]
            == ToByte(i)
  {
    var be := BigEndian(i, 32);
    assert be[31] == ToByte(i % 256);
    var key := EncodeKey(ShowIndex(), commit, i, miner);
    assert key[0] == be[31];
    PadFull(Zeros(size), size);
    MaskAt(ShowIndex(), Keccak256, key, size, size, 0);
    XorAt(Zeros(size), Mask(ShowIndex(), Keccak256, key, size), size, 0);
    XorCommutes(key[0], 0);
  }

  /** With two chunks per value EncodeBlob and the write path store different bytes. */
  lemma EncodeBlobNeedsOneChunk(commit: Data, miner: Data)
    requires |commit| == META_SIZE
    ensures EncodeBlob(ShowIndex(), 64, Keccak256, commit, miner, Zeros(64), 1)
            != Stored(ShowIndex(), 64, 32, Keccak256, commit, miner, Zeros(64), 2)
  {
    var v := Zeros(64);
    PadFull(v, 64);
    WholeMultiple(v, 32, 2);
    EncodedSplit(ShowIndex(), 32, Keccak256, commit, miner, v, 2);
    assert v[..32] == Zeros(32);
    ShownIndex(commit, miner, 1, 64);
    ShownIndex(commit, miner, 2, 32);
    assert ToByte(1) != ToByte(2);
  }
}
