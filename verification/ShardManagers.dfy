/** The shards of a node: which shard an index belongs to, and the encoded and raw ways to write and read a value. */
module ShardManagers {
  import opened Arith
  import opened Bytes
  import opened Disk
  import opened Masking
  import opened KvCoding
  import opened DataFiles
  import opened DataShards
  import opened PowersOfTwo

  datatype ReadResult = Missing | Mismatch | Value(data: Data)

  datatype FileCheck = ShardNotFound | Checked(check: AddCheck)

  const NO_MINER: Data := Zeros(ADDRESS_SIZE)

  lemma IdentityFills(cs: nat)
    ensures Fills(Identity(), cs)
  {
  }

  lemma DecoderFills(m: Masks, cs: nat, t: EncodeType, commit: Data, miner: Data)
    requires |commit| == META_SIZE
    ensures Fills(Decoder(m, cs, t, commit, miner), cs)
  {
  }

  lemma EncoderFills(m: Masks, cs: nat, t: EncodeType, commit: Data, miner: Data)
    requires |commit| == META_SIZE
    ensures Fills(Encoder(m, cs, t, commit, miner), cs)
  {
  }

  /** What is in range of a shard is divided into it. */
  lemma ShardOf(k: nat, kvEntries: nat, s: nat)
    requires kvEntries >= 1
    ensures s * kvEntries <= k < (s + 1) * kvEntries <==> k / kvEntries == s
  {
    var q := k / kvEntries;
    if s * kvEntries <= k < (s + 1) * kvEntries { DivModUnique(k, kvEntries, s, k - s * kvEntries); }
  }

  class ShardManager {
    const masks: Masks
    const kvSize: nat
    const chunksPerKv: nat
    const kvEntries: nat
    const chunkSize: nat
    var shardMap: map<nat, DataShard>
    ghost var files: set<DataFile> // the files of all shards

    function ShardIdx(kvIdx: nat): nat
      requires kvEntries >= 1
    {
      kvIdx / kvEntries
    }

    function ChunkIdxOf(kvIdx: nat): nat { kvIdx * chunksPerKv }

    /** The files belong to the shard in which they start, so no file is in two shards. */
    ghost predicate Owned(s: nat, ds: DataShard)
      reads ds
    {
      && ds.shardIdx == s && ds.kvSize == kvSize && ds.chunksPerKv == chunksPerKv
      && ds.kvEntries == kvEntries && ds.chunkSize == chunkSize
      && chunksPerKv >= 1 && kvEntries >= 1
      && forall i :: 0 <= i < |ds.dataFiles| ==> ds.dataFiles[i].chunkIdxStart / chunksPerKv / kvEntries == s
    }

    ghost predicate Valid()
      reads this, shardMap.Values, files
    {
      && chunkSize >= 1 && chunksPerKv >= 1 && kvEntries >= 1 && kvSize == chunksPerKv * chunkSize
      && (forall s :: s in shardMap ==> Owned(s, shardMap[s]))
      && (forall s :: s in shardMap ==> InFiles(shardMap[s]) && shardMap[s].Valid())
    }

    /** Sizes that are not powers of two, or chunks larger than a value, make the code panic. */
    constructor (masks: Masks, kvSize: nat, kvEntries: nat, chunkSize: nat)
      requires IsPow2n(kvSize) && IsPow2n(kvEntries) && IsPow2n(chunkSize) && chunkSize <= kvSize
      ensures Valid() && shardMap == map[] && this.masks == masks && this.kvSize == kvSize
      ensures this.kvEntries == kvEntries && this.chunkSize == chunkSize && files == {}
    {
      this.masks, this.kvSize, this.kvEntries, this.chunkSize := masks, kvSize, kvEntries, chunkSize;
      chunksPerKv := kvSize / chunkSize;
      shardMap, files := map[], {};
      SmallerDivides(chunkSize, kvSize);
    }

    /** A new shard has no files; the other shards stay. */
    method AddDataShard(shardIdx: nat) returns (added: bool)
      requires Valid()
      modifies this`shardMap
      ensures Valid() && (added <==> shardIdx !in old(shardMap))
      ensures !added ==> shardMap == old(shardMap)
      ensures added ==> shardMap.Keys == old(shardMap).Keys + {shardIdx} && shardMap[shardIdx].dataFiles == []
      ensures forall s :: s in old(shardMap) ==> s in shardMap && shardMap[s] == old(shardMap[s])
    {
      if shardIdx in shardMap {
        return false;
      }
      Divides();
      var ds := new DataShard(shardIdx, kvSize, kvEntries, chunkSize);
      Cancel(ds.chunksPerKv, chunksPerKv, chunkSize);
      shardMap := shardMap[shardIdx := ds];
      forall s | s in shardMap ensures Owned(s, shardMap[s]) && InFiles(shardMap[s]) && shardMap[s].Valid() {
        if s != shardIdx { assert Owned(s, shardMap[s]) && InFiles(shardMap[s]); }
      }
      return true;
    }

    lemma Divides()
      requires Valid()
      ensures kvSize % chunkSize == 0 && kvSize >= chunkSize
    {
      DivModUnique(kvSize, chunkSize, chunksPerKv, 0);
      MulAtLeast(chunksPerKv, chunkSize);
    }

    ghost predicate InFiles(ds: DataShard)
      reads this, ds
    {
      forall i :: 0 <= i < |ds.dataFiles| ==> ds.dataFiles[i] in files
    }

    /** Files of different shards are different. */
    lemma Separate(s: nat, t: nat)
      requires Valid() && s in shardMap && t in shardMap && s != t
      ensures forall i, j :: 0 <= i < |shardMap[s].dataFiles| && 0 <= j < |shardMap[t].dataFiles| ==>
                shardMap[s].dataFiles[i] != shardMap[t].dataFiles[j]
    {
    }

    /** The values of all shards as they are after a write of one value. */
    twostate predicate Updated(kvIdx: nat, data: Data, commit: Data)
      requires old(Valid()) && Valid() && shardMap == old(shardMap)
      reads this, shardMap.Values, files
    {
      forall s :: s in shardMap ==>
        shardMap[s].Contents() ==
        if s == ShardIdx(kvIdx) then Put(old(shardMap[s].Contents()), kvSize, kvIdx, data, commit)
        else old(shardMap[s].Contents())
    }

    /** A write with any encoder is an update of the map of values with what the encoder makes of the data. */
    method WriteIn(kvIdx: nat, b: Data, commit: Data, encoder: (Data, nat) -> Data) returns (r: Outcome<()>)
      requires Valid() && |commit| == META_SIZE && Fills(encoder, chunkSize) && ShardIdx(kvIdx) in shardMap
      modifies files
      ensures Valid()
      ensures r.Ok? <==> Fits(old(shardMap[ShardIdx(kvIdx)].Contents()), kvSize, kvIdx, b)
      ensures Updated(kvIdx,
                      if |b| > kvSize then b else Chunked(encoder, Pad(b, kvSize), chunkSize, ChunkIdxOf(kvIdx)),
                      commit)
    {
      if |b| <= kvSize { FullSize(b, encoder, ChunkIdxOf(kvIdx)); }
      r := WriteShard(kvIdx, b, commit, encoder);
    }

    /** Only the shard of the value changes. */
    method WriteShard(kvIdx: nat, b: Data, commit: Data, encoder: (Data, nat) -> Data) returns (r: Outcome<()>)
      requires Valid() && |commit| == META_SIZE && Fills(encoder, chunkSize) && ShardIdx(kvIdx) in shardMap
      modifies files
      ensures Valid()
      ensures forall s :: s in shardMap && s != ShardIdx(kvIdx) ==>
                shardMap[s].Contents() == old(shardMap[s].Contents())
      ensures var before := old(shardMap[ShardIdx(kvIdx)].Contents());
              var data := Chunked(encoder, if |b| <= kvSize then Pad(b, kvSize) else b, chunkSize, ChunkIdxOf(kvIdx));
              && (r.Ok? <==> kvIdx in before && |b| <= kvSize)
              && shardMap[ShardIdx(kvIdx)].Contents() == if r.Ok? then before[kvIdx := Record(data, commit)] else before
    {
      var shardIdx := ShardIdx(kvIdx);
      var ds := shardMap[shardIdx];
      forall s | s in shardMap && s != shardIdx
        ensures forall i, j :: 0 <= i < |shardMap[s].dataFiles| && 0 <= j < |ds.dataFiles| ==>
                  shardMap[s].dataFiles[i] != ds.dataFiles[j]
      {
        Separate(s, shardIdx);
      }
      r := ds.WriteWith(kvIdx, b, commit, encoder);
      forall s | s in shardMap && s != shardIdx
        ensures shardMap[s].Valid() && shardMap[s].Contents() == old(shardMap[s].Contents())
      {
        assert shardMap[s].FileBytes() == old(shardMap[s].FileBytes());
      }
    }

    /** What an encoder makes of a padded value has the size of a value. */
    lemma FullSize(b: Data, encoder: (Data, nat) -> Data, first: nat)
      requires Valid() && |b| <= kvSize && Fills(encoder, chunkSize)
      ensures var data := Chunked(encoder, Pad(b, kvSize), chunkSize, first);
              |data| == kvSize && Pad(data, kvSize) == data
    {
      WholeMultiple(Pad(b, kvSize), chunkSize, chunksPerKv);
      ChunkedSize(encoder, Pad(b, kvSize), chunkSize, first);
    }

    /** A write of encoded data is an update of the map of values. */
    method TryWriteEncoded(kvIdx: nat, b: Data, commit: Data) returns (managed: bool, r: Outcome<()>)
      requires Valid() && |commit| == META_SIZE
      modifies files
      ensures Valid()
      ensures managed <==> ShardIdx(kvIdx) in shardMap
      ensures managed ==> (r.Ok? <==> Fits(old(shardMap[ShardIdx(kvIdx)].Contents()), kvSize, kvIdx, b))
      ensures Updated(kvIdx, b, commit)
    {
      if ShardIdx(kvIdx) in shardMap {
        IdentityFills(chunkSize);
        if |b| <= kvSize {
          ChunkedIdentity(Pad(b, kvSize), chunkSize, ChunkIdxOf(kvIdx));
          PadFull(Pad(b, kvSize), kvSize);
        }
        r := WriteIn(kvIdx, b, commit, Identity());
        return true, r;
      }
      return false, Ok(());
    }

    /** The provider and encode type of a shard are those of its first file. */
    ghost function MinerOf(s: nat): Data
      reads this, shardMap.Values
    {
      if s in shardMap && shardMap[s].dataFiles != [] then shardMap[s].dataFiles[0].miner else NO_MINER
    }

    ghost function EncodeTypeOf(s: nat): EncodeType
      reads this, shardMap.Values
    {
      if s in shardMap && shardMap[s].dataFiles != [] then shardMap[s].dataFiles[0].encodeType else NoEncode
    }

    method Params(ds: DataShard) returns (miner: Data, t: EncodeType)
      ensures miner == (if ds.dataFiles != [] then ds.dataFiles[0].miner else NO_MINER)
      ensures t == (if ds.dataFiles != [] then ds.dataFiles[0].encodeType else NoEncode)
    {
      if |ds.dataFiles| == 0 {
        return NO_MINER, NoEncode;
      }
      return ds.dataFiles[0].miner, ds.dataFiles[0].encodeType;
    }

    /** A raw write stores the value encoded for the shard's provider. */
    method TryWrite(kvIdx: nat, b: Data, commit: Data) returns (managed: bool, r: Outcome<()>)
      requires Valid() && |commit| == META_SIZE
      modifies files
      ensures Valid()
      ensures managed <==> ShardIdx(kvIdx) in shardMap
      ensures managed ==> (r.Ok? <==> Fits(old(shardMap[ShardIdx(kvIdx)].Contents()), kvSize, kvIdx, b))
      ensures var s := ShardIdx(kvIdx);
              Updated(kvIdx,
                      if |b| > kvSize then b
                      else Stored(masks, kvSize, chunkSize, EncodeTypeOf(s), commit, MinerOf(s), b, ChunkIdxOf(kvIdx)),
                      commit)
    {
      var shardIdx := ShardIdx(kvIdx);
      if shardIdx in shardMap {
        var miner, t := Params(shardMap[shardIdx]);
        EncoderFills(masks, chunkSize, t, commit, miner);
        r := WriteIn(kvIdx, b, commit, Encoder(masks, chunkSize, t, commit, miner));
        assert t == EncodeTypeOf(shardIdx) && miner == MinerOf(shardIdx);
        return true, r;
      }
      return false, Ok(());
    }

    /** Chunk by chunk through encoder or decoder; what lies beyond the size of a value is not looked at. */
    method DecodeOrEncodeKV(kvIdx: nat, b: Data, hash: Data, miner: Data, encode: bool, t: EncodeType)
      returns (managed: bool, data: Data)
      requires Valid() && |hash| == META_SIZE
      ensures managed <==> ShardIdx(kvIdx) in shardMap
      ensures managed ==>
                data == Chunked(Coder(hash, miner, encode, t), b[..Min(|b|, kvSize)], chunkSize, ChunkIdxOf(kvIdx))
    {
      if ShardIdx(kvIdx) !in shardMap {
        return false, [];
      }
      data := CodeChunks(b[..Min(|b|, kvSize)], ChunkIdxOf(kvIdx), Coder(hash, miner, encode, t));
      return true, data;
    }

    /** The loop over the chunks, with the coder chosen for all of them. */
    method CodeChunks(bytes: Data, first: nat, coder: (Data, nat) -> Data) returns (data: Data)
      requires Valid() && |bytes| <= kvSize
      ensures data == Chunked(coder, bytes, chunkSize, first)
    {
      ReadingStart(coder, bytes, chunkSize, first);
      var p := Progress(0, 0, |bytes|, []);
      while p.i < chunksPerKv && p.left != 0
        invariant p.i <= chunksPerKv && (p.left != 0 ==> p.off == p.i * chunkSize)
                  && Reading(coder, bytes, chunkSize, first, p)
      {
        p := CodeNext(bytes, p, first, coder);
      }
      ReadingEnd(coder, bytes, chunkSize, chunksPerKv, first, p);
      return p.data;
    }

    /** One turn of the loop over the chunks. */
    method CodeNext(bytes: Data, p: Progress, first: nat, coder: (Data, nat) -> Data) returns (next: Progress)
      requires chunkSize >= 1 && p.left != 0 && p.off == p.i * chunkSize && Reading(coder, bytes, chunkSize, first, p)
      ensures next.i == p.i + 1 && (next.left != 0 ==> next.off == next.i * chunkSize)
      ensures Reading(coder, bytes, chunkSize, first, next)
    {
      var n := Min(p.left, chunkSize);
      ChunkEnd(p.i, p.i + 1, chunkSize);
      var c := bytes[p.off..p.off + n];
      next := Progress(p.i + 1, p.off + n, p.left - n, p.data + Code(coder, c, first + p.i));
      ReadingNext(coder, bytes, chunkSize, first, p, n, c, next);
    }

    function Coder(hash: Data, miner: Data, encode: bool, t: EncodeType): (Data, nat) -> Data
      requires |hash| == META_SIZE
    {
      if encode then Encoder(masks, chunkSize, t, hash, miner) else Decoder(masks, chunkSize, t, hash, miner)
    }

    /** Encoding apart from writing: the same bytes as a raw write stores. */
    method TryEncodeKV(kvIdx: nat, b: Data, hash: Data) returns (managed: bool, data: Data)
      requires Valid() && |hash| == META_SIZE
      ensures managed <==> ShardIdx(kvIdx) in shardMap
      ensures var s := ShardIdx(kvIdx);
              managed ==>
                data == Stored(masks, kvSize, chunkSize, EncodeTypeOf(s), hash, MinerOf(s), b[..Min(|b|, kvSize)],
                               ChunkIdxOf(kvIdx))
    {
      var shardIdx := ShardIdx(kvIdx);
      if shardIdx !in shardMap {
        return false, [];
      }
      var miner, t := Params(shardMap[shardIdx]);
      var cb := if |b| <= kvSize then Pad(b, kvSize) else b[..kvSize];
      managed, data := DecodeOrEncodeKV(kvIdx, cb, hash, miner, true, t);
      assert cb[..kvSize] == cb == Pad(b[..Min(|b|, kvSize)], kvSize);
    }

    /** A read decodes the stored bytes of the value and hands out the start of them if they match the commit. */
    method TryRead(kvIdx: nat, readLen: nat, commit: Data, matches: (Data, Data) -> bool)
        returns (managed: bool, r: ReadResult)
      requires Valid() && |commit| == META_SIZE && readLen <= kvSize
      ensures managed <==> ShardIdx(kvIdx) in shardMap
      ensures managed ==>
                var s := ShardIdx(kvIdx);
                if kvIdx !in shardMap[s].Contents() then r == Missing
                else
                  var decoder := Decoder(masks, chunkSize, EncodeTypeOf(s), commit, MinerOf(s));
                  var value := Chunked(decoder, shardMap[s].Contents()[kvIdx].data, chunkSize, ChunkIdxOf(kvIdx));
                  |value| == kvSize && r == if !matches(commit, value) then Mismatch else Value(value[..readLen])
    {
      var shardIdx := ShardIdx(kvIdx);
      if shardIdx !in shardMap {
        return false, Missing;
      }
      var ds := shardMap[shardIdx];
      var miner, t := Params(ds);
      ShardOf(kvIdx, kvEntries, shardIdx);
      NonEmpty();
      var bs := ds.ReadWith(kvIdx, kvSize, Decoder(masks, chunkSize, t, commit, miner));
      if bs.Failed? {
        return true, Missing;
      }
      ghost var stored := ds.Contents()[kvIdx].data;
      assert stored[..kvSize] == stored;
      WholeMultiple(stored, chunkSize, chunksPerKv);
      DecoderFills(masks, chunkSize, t, commit, miner);
      ChunkedSize(Decoder(masks, chunkSize, t, commit, miner), stored, chunkSize, ChunkIdxOf(kvIdx));
      if !matches(commit, bs.value) {
        return true, Mismatch;
      }
      return true, Value(bs.value[..readLen]);
    }

    /**
     What a raw write has stored for a value is decoded by a read to the value padded with zeros, whichever of raw and
     prepared commit the write and the read are given.
     */
    lemma WrittenIsReadBack(kvIdx: nat, b: Data, written: Data, read: Data)
      requires Valid() && |written| == |read| == META_SIZE && written[..HASH_SIZE] == read[..HASH_SIZE] && |b| <= kvSize
      requires ShardIdx(kvIdx) in shardMap && kvIdx in shardMap[ShardIdx(kvIdx)].Contents()
      requires var s := ShardIdx(kvIdx);
               shardMap[s].Contents()[kvIdx].data
               == Stored(masks, kvSize, chunkSize, EncodeTypeOf(s), written, MinerOf(s), b, ChunkIdxOf(kvIdx))
      ensures var s := ShardIdx(kvIdx);
              var decoder := Decoder(masks, chunkSize, EncodeTypeOf(s), read, MinerOf(s));
              Chunked(decoder, shardMap[s].Contents()[kvIdx].data, chunkSize, ChunkIdxOf(kvIdx)) == Pad(b, kvSize)
    {
      var s := ShardIdx(kvIdx);
      ReadBackByHash(masks, chunksPerKv, chunkSize, EncodeTypeOf(s), written, read, MinerOf(s), b, ChunkIdxOf(kvIdx));
    }

    /**
     A value written raw and read with a commit of the same hash: the start of the padded value, if it passes the
     check.
     */
    method WriteThenRead(kvIdx: nat, b: Data, written: Data, read: Data, readLen: nat, matches: (Data, Data) -> bool)
      returns (r: ReadResult)
      requires Valid() && |written| == |read| == META_SIZE && written[..HASH_SIZE] == read[..HASH_SIZE]
               && readLen <= kvSize
      requires ShardIdx(kvIdx) in shardMap && Fits(shardMap[ShardIdx(kvIdx)].Contents(), kvSize, kvIdx, b)
      modifies files
      ensures Valid()
      ensures r == if !matches(read, Pad(b, kvSize)) then Mismatch else Value(Pad(b, kvSize)[..readLen])
    {
      var managed, w := TryWrite(kvIdx, b, written);
      StoredFull(kvIdx, b, written);
      WrittenIsReadBack(kvIdx, b, written, read);
      r := ReadManaged(kvIdx, readLen, read, matches, Pad(b, kvSize));
    }

    method ReadManaged(kvIdx: nat, readLen: nat, commit: Data, matches: (Data, Data) -> bool, ghost value: Data)
        returns (r: ReadResult)
      requires Valid() && |commit| == META_SIZE && readLen <= kvSize
      requires ShardIdx(kvIdx) in shardMap && kvIdx in shardMap[ShardIdx(kvIdx)].Contents()
      requires var s := ShardIdx(kvIdx);
               var decoder := Decoder(masks, chunkSize, EncodeTypeOf(s), commit, MinerOf(s));
               value == Chunked(decoder, shardMap[s].Contents()[kvIdx].data, chunkSize, ChunkIdxOf(kvIdx))
      ensures |value| == kvSize && r == if !matches(commit, value) then Mismatch else Value(value[..readLen])
    {
      var managed;
      managed, r := TryRead(kvIdx, readLen, commit, matches);
    }

    lemma StoredFull(kvIdx: nat, b: Data, commit: Data)
      requires Valid() && |commit| == META_SIZE && |b| <= kvSize
      ensures var s := ShardIdx(kvIdx);
              var data := Stored(masks, kvSize, chunkSize, EncodeTypeOf(s), commit, MinerOf(s), b, ChunkIdxOf(kvIdx));
              |data| == kvSize && Pad(data, kvSize) == data
    {
      var s := ShardIdx(kvIdx);
      EncoderFills(masks, chunkSize, EncodeTypeOf(s), commit, MinerOf(s));
      FullSize(b, Encoder(masks, chunkSize, EncodeTypeOf(s), commit, MinerOf(s)), ChunkIdxOf(kvIdx));
    }

    lemma NonEmpty()
      requires Valid()
      ensures kvSize >= 1
    {
      MulAtLeast(chunksPerKv, chunkSize);
    }

    /** The shard a file starts in. */
    function ShardOfFile(df: DataFile): nat
      requires chunksPerKv >= 1 && kvEntries >= 1
    {
      DivNonNegative(df.chunkIdxStart, chunksPerKv);
      DivNonNegative(df.chunkIdxStart / chunksPerKv, kvEntries);
      df.chunkIdxStart / chunksPerKv / kvEntries
    }

    /**
     A file goes to the shard it starts in, if that is there and the file matches its first one, and to no other shard.
     No value that was there is lost or changed.
     */
    method AddDataFile(df: DataFile) returns (r: FileCheck)
      requires Valid() && df.Valid() && df.chunkSize == chunkSize && df.maxKvSize == kvSize
      modifies shardMap.Values, this`files
      ensures Valid() && shardMap == old(shardMap)
      ensures r == ShardNotFound <==> ShardOfFile(df) !in shardMap
      ensures forall s :: s in shardMap && !(s == ShardOfFile(df) && r == Checked(Added)) ==>
                            shardMap[s].dataFiles == old(shardMap[s].dataFiles)
      ensures r.Checked? ==>
                var before := old(shardMap[ShardOfFile(df)].dataFiles);
                && (r.check == Added
                    <==> before == [] || (before[0].miner == df.miner && before[0].encodeType == df.encodeType))
                && (r.check == Added ==> shardMap[ShardOfFile(df)].dataFiles == before + [df])
      ensures forall s :: s in shardMap ==> Extends(old(shardMap[s].Contents()), shardMap[s].Contents())
    {
      var shardIdx := ShardOfFile(df);
      if shardIdx !in shardMap {
        return ShardNotFound;
      }
      files := files + {df};
      assert forall s :: s in shardMap ==> shardMap[s].Contents() == old(shardMap[s].Contents());
      var added := AddToShard(shardIdx, df);
      return Checked(added);
    }

    /** Only the shard of the file changes. */
    method AddToShard(shardIdx: nat, df: DataFile) returns (added: AddCheck)
      requires Valid() && df.Valid() && df.chunkSize == chunkSize && df.maxKvSize == kvSize && df in files
      requires shardIdx in shardMap && ShardOfFile(df) == shardIdx
      modifies shardMap.Values
      ensures Valid()
      ensures added != Added ==> shardMap[shardIdx].dataFiles == old(shardMap[shardIdx].dataFiles)
      ensures var before := old(shardMap[shardIdx].dataFiles);
              && (added == Added
                  <==> before == [] || (before[0].miner == df.miner && before[0].encodeType == df.encodeType))
              && (added == Added ==> shardMap[shardIdx].dataFiles == before + [df])
      ensures forall s :: s in shardMap && s != shardIdx ==>
                shardMap[s].dataFiles == old(shardMap[s].dataFiles)
                && shardMap[s].Contents() == old(shardMap[s].Contents())
      ensures forall s :: s in shardMap ==> Extends(old(shardMap[s].Contents()), shardMap[s].Contents())
    {
      var ds := shardMap[shardIdx];
      forall s | s in shardMap && s != shardIdx ensures shardMap[s] != ds { }
      added := ds.AddDataFile(df);
      forall s | s in shardMap && s != shardIdx
        ensures shardMap[s].Valid() && shardMap[s].Contents() == old(shardMap[s].Contents())
      {
        assert shardMap[s].FileBytes() == old(shardMap[s].FileBytes());
      }
    }
  }
}
