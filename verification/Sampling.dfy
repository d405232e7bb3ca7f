/** The random samples a miner reads: which samples, and where they are. */
module Sampling {
  import opened Arith
  import opened Bytes
  import opened Disk
  import opened DataShards
  import opened DataFiles
  import opened Masking
  import opened PowersOfTwo

  /** The number of samples of a shard is 2 to the rowBits. */
  function SampleIdx(hash: Hash, shardIdx: nat, rowBits: nat): nat {
    Number(hash) % Pow2(rowBits) + shardIdx * Pow2(rowBits)
  }

  datatype Mined = Mined(hash: Hash, samples: seq<nat>) | ReadFailed

  /** The chain of samples: each hash selects a sample, and hash and sample give the next hash. */
  function Chain(keccak: Data -> Hash, read: nat -> SampleResult, hash: Hash, shardIdx: nat, rowBits: nat,
                 n: nat): Mined
    decreases n
  {
    if n == 0 then Mined(hash, [])
    else
      var s := SampleIdx(hash, shardIdx, rowBits);
      match read(s)
      case NoSample => ReadFailed
      case Sample(data) =>
        match Chain(keccak, read, keccak(hash + data), shardIdx, rowBits, n - 1)
        case ReadFailed => ReadFailed
        case Mined(h, rest) => Mined(h, [s] + rest)
  }

  datatype SampleResult = NoSample | Sample(data: Data)

  method Hashimoto(kvEntriesBits: nat, kvSizeBits: nat, shardIdx: nat, randomChecks: nat, keccak: Data -> Hash,
                   read: nat -> SampleResult, hash0: Hash) returns (r: Mined)
    requires kvSizeBits >= 5
    ensures r == Chain(keccak, read, hash0, shardIdx, kvEntriesBits + kvSizeBits - 5, randomChecks)
    ensures r.Mined? ==> |r.samples| == randomChecks
    ensures r.Mined? ==> forall i :: 0 <= i < |r.samples| ==> InShard(r.samples[i], kvEntriesBits, kvSizeBits, shardIdx)
  {
    var rowBits := kvEntriesBits + kvSizeBits - 5;
    var hash: Hash, samples: seq<nat> := hash0, [];
    ghost var whole := Chain(keccak, read, hash0, shardIdx, rowBits, randomChecks);
    PrependNothing(whole);
    ChainInShard(keccak, read, hash0, kvEntriesBits, kvSizeBits, shardIdx, randomChecks);
    for i := 0 to randomChecks
      invariant Prepend(samples, Chain(keccak, read, hash, shardIdx, rowBits, randomChecks - i)) == whole
    {
      var sampleIdx := SampleIdx(hash, shardIdx, rowBits);
      var sample := read(sampleIdx);
      if sample.NoSample? {
        return ReadFailed;
      }
      ChainStep(keccak, read, hash, shardIdx, rowBits, randomChecks - i, samples, sample.data);
      hash := keccak(hash + sample.data);
      samples := samples + [sampleIdx];
    }
    return Mined(hash, samples);
  }

  /** The samples of a chain are as many as asked for, and all in the shard. */
  lemma {:induction false} ChainInShard(keccak: Data -> Hash, read: nat -> SampleResult, hash: Hash, kvEntriesBits: nat,
                                        kvSizeBits: nat, shardIdx: nat, n: nat)
    requires kvSizeBits >= 5
    ensures var r := Chain(keccak, read, hash, shardIdx, kvEntriesBits + kvSizeBits - 5, n);
            r.Mined? ==>
              && |r.samples| == n
              && forall i :: 0 <= i < n ==> InShard(r.samples[i], kvEntriesBits, kvSizeBits, shardIdx)
    decreases n
  {
    if n > 0 {
      var s := SampleIdx(hash, shardIdx, kvEntriesBits + kvSizeBits - 5);
      SampleInShard(hash, kvEntriesBits, kvSizeBits, shardIdx);
      if read(s).Sample? {
        ChainInShard(keccak, read, keccak(hash + read(s).data), kvEntriesBits, kvSizeBits, shardIdx, n - 1);
      }
    }
  }

  lemma PrependNothing(m: Mined)
    ensures Prepend([], m) == m
  {
    match m
    case ReadFailed =>
    case Mined(h, rest) => assert [] + rest == rest;
  }

  lemma ChainStep(keccak: Data -> Hash, read: nat -> SampleResult, hash: Hash, shardIdx: nat, rowBits: nat, n: nat,
                  samples: seq<nat>, data: Data)
    requires n >= 1 && read(SampleIdx(hash, shardIdx, rowBits)) == Sample(data)
    ensures Prepend(samples, Chain(keccak, read, hash, shardIdx, rowBits, n))
            == Prepend(samples + [SampleIdx(hash, shardIdx, rowBits)],
                       Chain(keccak, read, keccak(hash + data), shardIdx, rowBits, n - 1))
  {
    var s, rest := SampleIdx(hash, shardIdx, rowBits),
                   Chain(keccak, read, keccak(hash + data), shardIdx, rowBits, n - 1);
    match rest
    case ReadFailed =>
    case Mined(h, more) => assert samples + ([s] + more) == samples + [s] + more;
  }

  function Prepend(s: seq<nat>, m: Mined): Mined {
    match m
    case ReadFailed => ReadFailed
    case Mined(h, rest) => Mined(h, s + rest)
  }

  /** The index of the value a sample is in. */
  function KvOfSample(sampleIdx: nat, kvSizeBits: nat): nat
    requires kvSizeBits >= 5
  {
    DivNonNegative(sampleIdx, Pow2(kvSizeBits - 5));
    sampleIdx / Pow2(kvSizeBits - 5)
  }

  predicate InShard(sampleIdx: nat, kvEntriesBits: nat, kvSizeBits: nat, shardIdx: nat)
    requires kvSizeBits >= 5
  {
    KvOfSample(sampleIdx, kvSizeBits) / Pow2(kvEntriesBits) == shardIdx
  }

  /** Every sample that is selected lies in the shard it is selected for. */
  lemma SampleInShard(hash: Hash, kvEntriesBits: nat, kvSizeBits: nat, shardIdx: nat)
    requires kvSizeBits >= 5
    ensures InShard(SampleIdx(hash, shardIdx, kvEntriesBits + kvSizeBits - 5), kvEntriesBits, kvSizeBits, shardIdx)
  {
    var a, b := Pow2(kvSizeBits - 5), Pow2(kvEntriesBits);
    Pow2Add(kvEntriesBits, kvSizeBits - 5);
    var row := Number(hash) % (b * a);
    DivDiv(row + shardIdx * (b * a), a, b);
    DivModUnique(row + shardIdx * (b * a), b * a, shardIdx, row);
  }

  /** Value and position of a sample by shifts are value and position by bytes. */
  lemma SampleByBytes(sampleIdx: nat, kvSizeBits: nat)
    requires kvSizeBits >= 5
    ensures Pow2(kvSizeBits) % 32 == 0
    ensures KvOfSample(sampleIdx, kvSizeBits) == sampleIdx * 32 / Pow2(kvSizeBits)
    ensures sampleIdx % Pow2(kvSizeBits - 5) * 32 == sampleIdx * 32 % Pow2(kvSizeBits)
  {
    var a := Pow2(kvSizeBits - 5);
    Pow2Add(5, kvSizeBits - 5);
    assert Pow2(5) == 32;
    var q, r := sampleIdx / a, sampleIdx % a;
    assert sampleIdx * 32 == q * (32 * a) + r * 32 by { assert sampleIdx == q * a + r; }
    DivModUnique(sampleIdx * 32, 32 * a, q, r * 32);
    DivModUnique(32 * a, 32, a, 0);
  }

  // ---------------------------------------------------------------- which samples

  /** The hash, as a number, draws the sample: its remainder is the position in the shard. */
  predicate Draws(hash: Hash, shardIdx: nat, rowBits: nat, sampleIdx: nat) {
    sampleIdx / Pow2(rowBits) == shardIdx && sampleIdx % Pow2(rowBits) == Number(hash) % Pow2(rowBits)
  }

  lemma SampleIsDrawn(hash: Hash, shardIdx: nat, rowBits: nat)
    ensures Draws(hash, shardIdx, rowBits, SampleIdx(hash, shardIdx, rowBits))
  {
    DivModUnique(SampleIdx(hash, shardIdx, rowBits), Pow2(rowBits), shardIdx, Number(hash) % Pow2(rowBits));
  }

  lemma {:induction false} Pow2Below(n: nat, k: nat)
    requires n <= 8 * k
    ensures Pow2(n) <= Pow256(k)
  {
    if n > 8 {
      Pow2Below(n - 8, k - 1);
      Pow2Add(8, n - 8);
      assert Pow2(8) == 256;
    } else if n > 0 {
      assert Pow2(8) == 256;
      Pow2Add(n, 8 - n);
      MulMonotone(1, Pow2(8 - n), Pow2(n));
      assert Pow256(k) >= 256 * Pow256(k - 1) && Pow256(k - 1) >= 1;
    }
  }

  /** Every sample of a shard is drawn by some hash. */
  lemma EverySampleIsDrawn(shardIdx: nat, rowBits: nat, sampleIdx: nat) returns (hash: Hash)
    requires rowBits <= 256 && sampleIdx / Pow2(rowBits) == shardIdx
    ensures SampleIdx(hash, shardIdx, rowBits) == sampleIdx
  {
    var row := sampleIdx % Pow2(rowBits);
    Pow2Below(rowBits, 32);
    hash := BigEndian(row, 32);
    BigEndianRoundTrip(row, 32);
    DrawnRow(sampleIdx, Pow2(rowBits), shardIdx, row);
  }

  lemma DrawnRow(sampleIdx: nat, n: nat, shardIdx: nat, row: nat)
    requires n > 0 && sampleIdx / n == shardIdx && sampleIdx % n == row
    ensures row % n + shardIdx * n == sampleIdx
  {
    DivModUnique(row, n, 0, row);
  }

  /** A chain of hashes: each draws a sample, and the next one is the hash of it and of what is read there. */
  predicate Linked(keccak: Data -> Hash, read: nat -> SampleResult, shardIdx: nat, rowBits: nat, hashes: seq<Hash>,
                   samples: seq<nat>)
  {
    && |hashes| == |samples| + 1
    && forall i :: 0 <= i < |samples| ==>
         && Draws(hashes[i], shardIdx, rowBits, samples[i]) && read(samples[i]).Sample?
         && hashes[i + 1] == keccak(hashes[i] + read(samples[i]).data)
  }

  /**
   The hashes of a run, index by index. It ends with the last of them after as many samples as asked for, or at a hash
   whose sample cannot be read.
   */
  lemma {:induction false} ChainExact(keccak: Data -> Hash, read: nat -> SampleResult, hash: Hash, shardIdx: nat,
                                      rowBits: nat, n: nat) returns (hashes: seq<Hash>, samples: seq<nat>)
    ensures Linked(keccak, read, shardIdx, rowBits, hashes, samples) && hashes[0] == hash
    ensures match Chain(keccak, read, hash, shardIdx, rowBits, n)
            case Mined(h, drawn) => |samples| == n && h == hashes[n] && drawn == samples
            case ReadFailed =>
              |samples| < n && exists s :: Draws(hashes[|samples|], shardIdx, rowBits, s) && read(s).NoSample?
    decreases n
  {
    hashes, samples := [hash], [];
    if n > 0 {
      var s := SampleIdx(hash, shardIdx, rowBits);
      SampleIsDrawn(hash, shardIdx, rowBits);
      if read(s).Sample? {
        var next := keccak(hash + read(s).data);
        var hs, ss := ChainExact(keccak, read, next, shardIdx, rowBits, n - 1);
        LinkFirst(keccak, read, shardIdx, rowBits, hash, s, hs, ss);
        hashes, samples := [hash] + hs, [s] + ss;
        assert hashes[|samples|] == hs[|ss|];
      }
    }
  }

  lemma LinkFirst(keccak: Data -> Hash, read: nat -> SampleResult, shardIdx: nat, rowBits: nat, hash: Hash, s: nat,
                  hs: seq<Hash>, ss: seq<nat>)
    requires Draws(hash, shardIdx, rowBits, s) && read(s).Sample?
    requires Linked(keccak, read, shardIdx, rowBits, hs, ss) && hs[0] == keccak(hash + read(s).data)
    ensures Linked(keccak, read, shardIdx, rowBits, [hash] + hs, [s] + ss)
  {
    var hashes, samples := [hash] + hs, [s] + ss;
    forall i | 0 <= i < |samples|
      ensures && Draws(hashes[i], shardIdx, rowBits, samples[i]) && read(samples[i]).Sample?
              && hashes[i + 1] == keccak(hashes[i] + read(samples[i]).data)
    {
      if i > 0 { assert hashes[i] == hs[i - 1] && samples[i] == ss[i - 1] && hashes[i + 1] == hs[i]; }
    }
  }

  // ---------------------------------------------------------------- samples of a complete shard

  /** A shard with all its chunks, of the size that the bits say. */
  ghost predicate Complete(ds: DataShard, kvEntriesBits: nat, kvSizeBits: nat)
    reads ds, ds.dataFiles
  {
    && ds.Valid() && kvSizeBits >= 5 && ds.kvSize == Pow2(kvSizeBits) && ds.kvEntries == Pow2(kvEntriesBits)
    && forall c: nat :: ds.StartChunkIdx() <= c < (ds.shardIdx + 1) * ds.chunksPerKv * ds.kvEntries ==>
         HasChunk(ds.dataFiles, c)
  }

  /** Where in its value a sample begins. */
  function SampleOffset(sampleIdx: nat, kvSizeBits: nat): nat
    requires kvSizeBits >= 5
  {
    sampleIdx % Pow2(kvSizeBits - 5) * 32
  }

  /** The 32 bytes of a value that a sample is. */
  function SliceOf(values: map<nat, Record>, kvSizeBits: nat, sampleIdx: nat): SampleResult
    requires kvSizeBits >= 5
  {
    var k, j := KvOfSample(sampleIdx, kvSizeBits), SampleOffset(sampleIdx, kvSizeBits);
    if k in values && j + 32 <= |values[k].data| then Sample(values[k].data[j..j + 32]) else NoSample
  }

  /** A sample of the shard is in a value that the shard holds. */
  lemma SampleHeld(ds: DataShard, kvEntriesBits: nat, kvSizeBits: nat, sampleIdx: nat)
    requires Complete(ds, kvEntriesBits, kvSizeBits) && InShard(sampleIdx, kvEntriesBits, kvSizeBits, ds.shardIdx)
    ensures KvOfSample(sampleIdx, kvSizeBits) in ds.Contents()
  {
    ds.CompleteHoldsAll();
    var k, e := KvOfSample(sampleIdx, kvSizeBits), ds.kvEntries;
    assert k == k / e * e + k % e;
    assert (ds.shardIdx + 1) * e == ds.shardIdx * e + e;
    assert ds.Contains(k);
  }

  /**
   Reading a sample of a complete shard never fails, and gives its 32 bytes of the stored value, for every layout of
   files.
   */
  method ReadDrawn(ds: DataShard, kvEntriesBits: nat, kvSizeBits: nat, sampleIdx: nat) returns (data: Data)
    requires Complete(ds, kvEntriesBits, kvSizeBits) && InShard(sampleIdx, kvEntriesBits, kvSizeBits, ds.shardIdx)
    ensures SliceOf(ds.Contents(), kvSizeBits, sampleIdx) == Sample(data) && |data| == 32
  {
    SampleHeld(ds, kvEntriesBits, kvSizeBits, sampleIdx);
    SampleByBytes(sampleIdx, kvSizeBits);
    var r := ds.ReadSample(sampleIdx);
    data := r.value;
  }

  /** Mining on a complete shard: every sample drawn is one of the shard's, so the chain of samples never breaks off. */
  lemma {:induction false} CompleteShardMines(ds: DataShard, kvEntriesBits: nat, kvSizeBits: nat, keccak: Data -> Hash,
                                              hash: Hash, n: nat)
    requires Complete(ds, kvEntriesBits, kvSizeBits)
    ensures var values := ds.Contents();
            var read := (s: nat) => SliceOf(values, kvSizeBits, s);
            Chain(keccak, read, hash, ds.shardIdx, kvEntriesBits + kvSizeBits - 5, n).Mined?
    decreases n
  {
    if n > 0 {
      var values, rowBits := ds.Contents(), kvEntriesBits + kvSizeBits - 5;
      var s := SampleIdx(hash, ds.shardIdx, rowBits);
      SampleInShard(hash, kvEntriesBits, kvSizeBits, ds.shardIdx);
      SampleHeld(ds, kvEntriesBits, kvSizeBits, s);
      ds.ValueSize(KvOfSample(s, kvSizeBits));
      OffsetFits(s, kvSizeBits);
      var data := SliceOf(values, kvSizeBits, s).data;
      CompleteShardMines(ds, kvEntriesBits, kvSizeBits, keccak, keccak(hash + data), n - 1);
    }
  }

  lemma OffsetFits(sampleIdx: nat, kvSizeBits: nat)
    requires kvSizeBits >= 5
    ensures SampleOffset(sampleIdx, kvSizeBits) + 32 <= Pow2(kvSizeBits)
  {
    var a := Pow2(kvSizeBits - 5);
    Pow2Add(5, kvSizeBits - 5);
    assert Pow2(5) == 32;
    MulMonotone(sampleIdx % a + 1, a, 32);
  }
}
