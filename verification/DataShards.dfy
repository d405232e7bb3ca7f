/**
 A shard: values kept in one or more data files. A lookup takes the first file that contains what is looked for, so
 files may overlap.
 */
module DataShards {
  import opened Arith
  import opened Bytes
  import opened Disk
  import opened FileLayout
  import opened KvCoding
  import opened DataFiles

  // ---------------------------------------------------------------- lookups

  /** The position of the first file with the chunk; the number of files if there is none. */
  function FirstChunk(files: seq<DataFile>, c: nat): (j: nat)
    ensures j <= |files| && (j < |files| ==> files[j].Contains(c))
  {
    if files == [] then 0 else if files[0].Contains(c) then 0 else 1 + FirstChunk(files[1..], c)
  }

  predicate HasChunk(files: seq<DataFile>, c: nat) { exists i :: 0 <= i < |files| && files[i].Contains(c) }

  lemma {:induction false} FirstChunkIsFirst(files: seq<DataFile>, c: nat, i: nat)
    requires i < FirstChunk(files, c)
    ensures !files[i].Contains(c)
  {
    if i > 0 { FirstChunkIsFirst(files[1..], c, i - 1); }
  }

  /** Files of whole values of the given sizes. */
  ghost predicate Fitting(files: seq<DataFile>, cpk: nat, cs: nat) {
    forall i :: 0 <= i < |files| ==> files[i].Shaped() && files[i].lay.cpk == cpk && files[i].lay.cs == cs
  }

  ghost function FirstKv(files: seq<DataFile>, k: nat): (j: nat)
    requires forall i :: 0 <= i < |files| ==> files[i].Shaped()
    ensures j <= |files| && (j < |files| ==> Holds(files[j].lay, k))
  {
    if files == [] then 0 else if Holds(files[0].lay, k) then 0 else 1 + FirstKv(files[1..], k)
  }

  /** All chunks of a value are looked up in the file in which its meta is looked up. */
  lemma {:induction false} SameFile(files: seq<DataFile>, cpk: nat, cs: nat, k: nat, i: nat)
    requires Fitting(files, cpk, cs) && i < cpk
    ensures FirstChunk(files, k * cpk + i) == FirstKv(files, k)
  {
    if files != [] {
      files[0].ChunkRange(k, i);
      SameFile(files[1..], cpk, cs, k, i);
    }
  }

  /** A file added at the end does not take over what is already found. */
  lemma {:induction false} FirstKvKept(files: seq<DataFile>, df: DataFile, k: nat)
    requires (forall i :: 0 <= i < |files| ==> files[i].Shaped()) && df.Shaped() && FirstKv(files, k) < |files|
    ensures FirstKv(files + [df], k) == FirstKv(files, k)
  {
    assert (files + [df])[1..] == files[1..] + [df];
    if !Holds(files[0].lay, k) { FirstKvKept(files[1..], df, k); }
  }

  // ---------------------------------------------------------------- contents

  /** The bytes of the files, of the sizes that were allocated. */
  ghost predicate Allocated(files: seq<DataFile>, bytes: seq<Data>) {
    |bytes| == |files| && forall i :: 0 <= i < |files| ==> files[i].Shaped() && |bytes[i]| == FileSize(files[i].lay)
  }

  ghost predicate Covered(files: seq<DataFile>, k: nat)
    requires forall i :: 0 <= i < |files| ==> files[i].Shaped()
  {
    FirstKv(files, k) < |files|
  }

  ghost function ValueOf(files: seq<DataFile>, bytes: seq<Data>, k: nat): Record
    requires Allocated(files, bytes) && Covered(files, k)
  {
    var j := FirstKv(files, k);
    ValueAt(files[j].lay, bytes[j], k)
  }

  /** The shard as a map: the values of its range that some file holds. */
  ghost function ContentsOf(files: seq<DataFile>, bytes: seq<Data>, lo: nat, hi: nat): map<nat, Record>
    requires Allocated(files, bytes)
  {
    map k: nat | lo <= k < hi && Covered(files, k) :: ValueOf(files, bytes, k)
  }

  predicate Extends(a: map<nat, Record>, b: map<nat, Record>) { forall k :: k in a ==> k in b && b[k] == a[k] }

  /** A value written into the file where it is looked up; the same file may be listed more than once. */
  ghost predicate WrittenTo(files: seq<DataFile>, before: seq<Data>, after: seq<Data>, k: nat, data: Data, meta: Data)
    requires Allocated(files, before) && Allocated(files, after) && Covered(files, k)
    requires |data| == KvSize(files[FirstKv(files, k)].lay) && |meta| == META_SIZE
  {
    var df := files[FirstKv(files, k)];
    forall i :: 0 <= i < |files| ==>
      after[i] == if files[i] == df then WriteValue(df.lay, before[i], k, data, meta) else before[i]
  }

  /** Writing a value changes that value in the map and nothing else, and no header. */
  lemma WriteIsUpdate(files: seq<DataFile>, before: seq<Data>, after: seq<Data>, lo: nat, hi: nat, k: nat, data: Data,
                      meta: Data)
    requires Allocated(files, before) && Allocated(files, after) && lo <= k < hi && Covered(files, k)
    requires |data| == KvSize(files[FirstKv(files, k)].lay) && |meta| == META_SIZE
    requires WrittenTo(files, before, after, k, data, meta)
    ensures ContentsOf(files, after, lo, hi) == ContentsOf(files, before, lo, hi)[k := Record(data, meta)]
  {
    forall x: nat | lo <= x < hi && Covered(files, x)
      ensures ValueOf(files, after, x) == if x == k then Record(data, meta) else ValueOf(files, before, x)
    {
      var j, w := FirstKv(files, x), FirstKv(files, k);
      if files[j] == files[w] { WriteValueIsUpdate(files[j].lay, before[j], k, data, meta, x); }
    }
  }

  function Headers(bytes: seq<Data>): (h: seq<Data>)
    ensures |h| == |bytes|
  {
    seq(|bytes|, i requires 0 <= i < |bytes| => if |bytes[i]| < HEADER_SIZE then bytes[i] else bytes[i][..HEADER_SIZE])
  }

  lemma WriteKeepsHeaders(files: seq<DataFile>, before: seq<Data>, after: seq<Data>, k: nat, data: Data, meta: Data)
    requires Allocated(files, before) && Allocated(files, after) && Covered(files, k)
    requires |data| == KvSize(files[FirstKv(files, k)].lay) && |meta| == META_SIZE
    requires WrittenTo(files, before, after, k, data, meta)
    ensures Headers(after) == Headers(before)
  {
    forall i | 0 <= i < |files| ensures Headers(after)[i] == Headers(before)[i] {
      var df := files[FirstKv(files, k)];
      if files[i] == df { WriteValueIsUpdate(df.lay, before[i], k, data, meta, k); }
    }
  }

  /** The chunk that comes next, and what comes after it. */
  lemma NextChunk(f: (Data, nat) -> Data, bytes: Data, cs: nat, off: nat, idx: nat)
    requires cs >= 1 && off + cs <= |bytes|
    ensures Chunked(f, bytes[off..], cs, idx)
            == Code(f, bytes[off..off + cs], idx) + Chunked(f, bytes[off + cs..], cs, idx + 1)
  {
    var rest := bytes[off..];
    assert rest[..cs] == bytes[off..off + cs] && rest[cs..] == bytes[off + cs..];
  }

  /** Chunks read, offset, bytes still to be read, and what has been decoded. */
  datatype Progress = Progress(i: nat, off: nat, left: nat, data: Data)

  ghost predicate Reading(f: (Data, nat) -> Data, bytes: Data, cs: nat, first: nat, p: Progress)
    requires cs >= 1
  {
    p.off + p.left == |bytes| && p.data + Chunked(f, bytes[p.off..], cs, first + p.i) == Chunked(f, bytes, cs, first)
  }

  lemma ReadingStart(f: (Data, nat) -> Data, bytes: Data, cs: nat, first: nat)
    requires cs >= 1
    ensures Reading(f, bytes, cs, first, Progress(0, 0, |bytes|, []))
  {
    assert bytes[0..] == bytes;
  }

  /** One more chunk of those to be read. */
  lemma ReadingNext(f: (Data, nat) -> Data, bytes: Data, cs: nat, first: nat, p: Progress, n: nat, c: Data,
                    next: Progress)
    requires cs >= 1 && Reading(f, bytes, cs, first, p) && 0 < n == Min(p.left, cs) && c == bytes[p.off..p.off + n]
    requires next == Progress(p.i + 1, p.off + n, p.left - n, p.data + Code(f, c, first + p.i))
    ensures Reading(f, bytes, cs, first, next)
  {
    var rest := bytes[p.off..];
    assert rest[..n] == c && rest[n..] == bytes[p.off + n..];
  }

  lemma ReadingEnd(f: (Data, nat) -> Data, bytes: Data, cs: nat, n: nat, first: nat, p: Progress)
    requires cs >= 1 && |bytes| <= n * cs && Reading(f, bytes, cs, first, p)
    requires p.left == 0 || (p.i == n && p.off == n * cs)
    ensures p.left == 0 && p.data == Chunked(f, bytes, cs, first)
  {
    assert bytes[p.off..] == [];
  }

  /** The chunks coded so far, at chunk i and offset i chunks, and those to come make up the whole. */
  ghost predicate Coded(f: (Data, nat) -> Data, bytes: Data, cs: nat, first: nat, i: nat, off: nat, done: Data)
    requires cs >= 1
  {
    off == i * cs && off <= |bytes| && |done| == off
    && done + Chunked(f, bytes[off..], cs, first + i) == Chunked(f, bytes, cs, first)
  }

  lemma CodedStart(f: (Data, nat) -> Data, bytes: Data, cs: nat, first: nat)
    requires cs >= 1
    ensures Coded(f, bytes, cs, first, 0, 0, [])
  {
    assert bytes[0..] == bytes;
  }

  lemma CodedNext(f: (Data, nat) -> Data, bytes: Data, cs: nat, n: nat, first: nat, i: nat, off: nat, done: Data)
    requires cs >= 1 && i < n && |bytes| == n * cs && Coded(f, bytes, cs, first, i, off, done) && Fills(f, cs)
    ensures off + cs <= |bytes|
            && Coded(f, bytes, cs, first, i + 1, off + cs, done + Code(f, bytes[off..off + cs], first + i))
  {
    ChunkEnd(i, n, cs);
    NextChunk(f, bytes, cs, off, first + i);
    assert |bytes[off..off + cs]| == cs;
  }

  lemma CodedEnd(f: (Data, nat) -> Data, bytes: Data, cs: nat, n: nat, first: nat, off: nat, done: Data)
    requires cs >= 1 && |bytes| == n * cs && Coded(f, bytes, cs, first, n, off, done)
    ensures done == Chunked(f, bytes, cs, first) && |done| == |bytes|
  {
    assert bytes[off..] == [];
  }

  lemma ChunkEnd(i: nat, n: nat, cs: nat)
    requires i < n
    ensures (i + 1) * cs == i * cs + cs <= n * cs
  {
    MulMonotone(i + 1, n, cs);
  }

  // ---------------------------------------------------------------- the shard

  datatype AddCheck = Added | MismatchedMiner | MismatchedEncodeType | MismatchedKvSize

  class DataShard {
    const shardIdx: nat
    const kvSize: nat
    const chunksPerKv: nat
    const kvEntries: nat
    const chunkSize: nat
    var dataFiles: seq<DataFile>

    ghost predicate Valid()
      reads this, dataFiles
    {
      && chunkSize >= 1 && chunksPerKv >= 1 && kvSize == chunksPerKv * chunkSize
      && Fitting(dataFiles, chunksPerKv, chunkSize)
      && forall i :: 0 <= i < |dataFiles| ==> dataFiles[i].Valid()
    }

    constructor (shardIdx: nat, kvSize: nat, kvEntries: nat, chunkSize: nat)
      requires chunkSize >= 1 && kvSize >= chunkSize && kvSize % chunkSize == 0
      ensures Valid() && dataFiles == [] && this.shardIdx == shardIdx && this.kvSize == kvSize
      ensures this.kvEntries == kvEntries && this.chunkSize == chunkSize
    {
      this.shardIdx, this.kvSize, this.kvEntries, this.chunkSize := shardIdx, kvSize, kvEntries, chunkSize;
      chunksPerKv := kvSize / chunkSize;
      dataFiles := [];
      Exactly(kvSize, chunkSize);
    }

    /** The chunks of a value are numbered from here. */
    function ChunkIdxOf(kvIdx: nat): nat { kvIdx * chunksPerKv }

    function Lo(): nat { shardIdx * kvEntries }

    function Hi(): nat { (shardIdx + 1) * kvEntries }

    predicate Contains(kvIdx: nat) { Lo() <= kvIdx < Hi() }

    ghost function FileBytes(): (bytes: seq<Data>)
      reads this, dataFiles
      ensures |bytes| == |dataFiles| && forall i :: 0 <= i < |dataFiles| ==> bytes[i] == dataFiles[i].file
    {
      seq(|dataFiles|, i requires 0 <= i < |dataFiles| reads this, dataFiles => dataFiles[i].file)
    }

    ghost function Contents(): map<nat, Record>
      requires Valid()
      reads this, dataFiles
    {
      ContentsOf(dataFiles, FileBytes(), Lo(), Hi())
    }

    /** A file is refused if it does not match the first one; a file that is added hides no value. */
    method AddDataFile(df: DataFile) returns (r: AddCheck)
      requires Valid() && df.Valid() && df.chunkSize == chunkSize && (dataFiles == [] ==> df.maxKvSize == kvSize)
      modifies this`dataFiles
      ensures Valid()
      ensures r == Added <==> old(dataFiles) == []
                              || (old(dataFiles)[0].miner == df.miner && old(dataFiles)[0].encodeType == df.encodeType
                                  && kvSize == df.maxKvSize)
      ensures r != Added ==> dataFiles == old(dataFiles)
      ensures r == Added ==> dataFiles == old(dataFiles) + [df]
      ensures Extends(old(Contents()), Contents())
    {
      if |dataFiles| != 0 {
        if dataFiles[0].miner != df.miner {
          return MismatchedMiner;
        }
        if dataFiles[0].encodeType != df.encodeType {
          return MismatchedEncodeType;
        }
        if dataFiles[0].maxKvSize != df.maxKvSize {
          return MismatchedKvSize;
        }
      }
      ghost var files, bytes := dataFiles, FileBytes();
      Cancel(df.lay.cpk, chunksPerKv, chunkSize);
      dataFiles := dataFiles + [df];
      forall k: nat | Lo() <= k < Hi() && Covered(files, k)
        ensures Covered(dataFiles, k) && ValueOf(dataFiles, FileBytes(), k) == ValueOf(files, bytes, k)
      {
        FirstKvKept(files, df, k);
      }
      return Added;
    }

    function StartChunkIdx(): nat { shardIdx * chunksPerKv * kvEntries }

    /** Whether every chunk of the shard's range is in some file. */
    method IsComplete() returns (complete: bool)
      ensures complete <==> forall c: nat :: StartChunkIdx() <= c < (shardIdx + 1) * chunksPerKv * kvEntries ==>
                HasChunk(dataFiles, c)
    {
      var chunkIdx, chunkIdxEnd := StartChunkIdx(), (shardIdx + 1) * chunksPerKv * kvEntries;
      while chunkIdx < chunkIdxEnd
        invariant chunkIdx >= StartChunkIdx()
        invariant forall c: nat :: StartChunkIdx() <= c < chunkIdx ==> HasChunk(dataFiles, c)
      {
        var found := false;
        ghost var before := chunkIdx;
        for j := 0 to |dataFiles|
          invariant if found then chunkIdx > before
                    else chunkIdx == before && forall i :: 0 <= i < j ==> !dataFiles[i].Contains(before)
          invariant forall c: nat :: StartChunkIdx() <= c < chunkIdx ==> HasChunk(dataFiles, c)
        {
          if dataFiles[j].Contains(chunkIdx) {
            forall c: nat | chunkIdx <= c < dataFiles[j].ChunkIdxEnd() ensures HasChunk(dataFiles, c) {
              assert dataFiles[j].Contains(c);
            }
            chunkIdx := dataFiles[j].ChunkIdxEnd();
            found := true;
          }
        }
        if !found {
          assert !HasChunk(dataFiles, chunkIdx);
          return false;
        }
      }
      return true;
    }

    method ReadChunk(chunkIdx: nat, readLen: nat) returns (r: Outcome<Data>)
      requires Valid() && readLen <= chunkSize
      ensures var j := FirstChunk(dataFiles, chunkIdx);
              if j == |dataFiles| then r == Failed(NotFound)
              else var df := dataFiles[j];
                   && df.ChunkOffset(chunkIdx) + readLen <= |df.file|
                   && r == Ok(df.file[df.ChunkOffset(chunkIdx)..df.ChunkOffset(chunkIdx) + readLen])
    {
      for j := 0 to |dataFiles|
        invariant FirstChunk(dataFiles, chunkIdx) == j + FirstChunk(dataFiles[j..], chunkIdx)
      {
        assert dataFiles[j..][1..] == dataFiles[j + 1..];
        if dataFiles[j].Contains(chunkIdx) {
          r := dataFiles[j].Read(chunkIdx, readLen);
          return;
        }
      }
      return Failed(NotFound);
    }

    method WriteChunk(chunkIdx: nat, b: Data) returns (r: Outcome<()>)
      requires Valid() && |b| == chunkSize
      modifies dataFiles
      ensures Valid()
      ensures var j := FirstChunk(dataFiles, chunkIdx);
              if j == |dataFiles| then r == Failed(NotFound) && forall i :: 0 <= i < |dataFiles| ==>
                  dataFiles[i].file == old(dataFiles[i].file)
              else var df := dataFiles[j];
                   && r == Ok(()) && df.ChunkOffset(chunkIdx) + |b| <= |old(df.file)|
                   && df.file == Splice(old(df.file), df.ChunkOffset(chunkIdx), b)
                   && forall i :: 0 <= i < |dataFiles| && dataFiles[i] != df ==>
                        dataFiles[i].file == old(dataFiles[i].file)
    {
      for j := 0 to |dataFiles|
        invariant FirstChunk(dataFiles, chunkIdx) == j + FirstChunk(dataFiles[j..], chunkIdx)
        invariant Valid() && forall i :: 0 <= i < |dataFiles| ==> dataFiles[i].file == old(dataFiles[i].file)
      {
        assert dataFiles[j..][1..] == dataFiles[j + 1..];
        if dataFiles[j].Contains(chunkIdx) {
          r := dataFiles[j].Write(chunkIdx, b);
          return;
        }
      }
      return Failed(NotFound);
    }

    method ReadMeta(kvIdx: nat) returns (r: Outcome<Data>)
      requires Valid()
      ensures !Covered(dataFiles, kvIdx) ==> r == Failed(NotFound)
      ensures Covered(dataFiles, kvIdx) ==> r == Ok(ValueOf(dataFiles, FileBytes(), kvIdx).meta)
    {
      for j := 0 to |dataFiles|
        invariant FirstKv(dataFiles, kvIdx) == j + FirstKv(dataFiles[j..], kvIdx)
      {
        assert dataFiles[j..][1..] == dataFiles[j + 1..];
        dataFiles[j].KvRange(kvIdx);
        if dataFiles[j].ContainsKv(kvIdx) {
          r := dataFiles[j].ReadMeta(kvIdx);
          return;
        }
      }
      return Failed(NotFound);
    }

    method WriteMeta(kvIdx: nat, b: Data) returns (r: Outcome<()>)
      requires Valid() && |b| == META_SIZE
      modifies dataFiles
      ensures Valid()
      ensures !Covered(dataFiles, kvIdx) ==>
                r == Failed(NotFound) && forall i :: 0 <= i < |dataFiles| ==>
                    dataFiles[i].file == old(dataFiles[i].file)
      ensures Covered(dataFiles, kvIdx) ==>
                var df := dataFiles[FirstKv(dataFiles, kvIdx)];
                && r == Ok(()) && MetaOffset(df.lay, kvIdx) + |b| <= |old(df.file)|
                && df.file == Splice(old(df.file), MetaOffset(df.lay, kvIdx), b)
                && forall i :: 0 <= i < |dataFiles| && dataFiles[i] != df ==>
                     dataFiles[i].file == old(dataFiles[i].file)
    {
      for j := 0 to |dataFiles|
        invariant FirstKv(dataFiles, kvIdx) == j + FirstKv(dataFiles[j..], kvIdx)
        invariant Valid() && forall i :: 0 <= i < |dataFiles| ==> dataFiles[i].file == old(dataFiles[i].file)
      {
        assert dataFiles[j..][1..] == dataFiles[j + 1..];
        dataFiles[j].KvRange(kvIdx);
        if dataFiles[j].ContainsKv(kvIdx) {
          r := dataFiles[j].WriteMeta(kvIdx, b);
          return;
        }
      }
      return Failed(NotFound);
    }

    /**
     Writes a value chunk by chunk, then its meta: all of it or, where the shard does not hold the value, nothing. The
     map of values changes for this value only, and no header changes.
     */
    method WriteWith(kvIdx: nat, b: Data, commit: Data, encoder: (Data, nat) -> Data) returns (r: Outcome<()>)
      requires Valid() && |commit| == META_SIZE && Fills(encoder, chunkSize)
      modifies dataFiles
      ensures Valid()
      ensures r.Ok? <==> kvIdx in old(Contents()) && |b| <= kvSize
      ensures r.Failed? ==> Contents() == old(Contents())
      ensures r == Failed(TooLarge) <==> Contains(kvIdx) && |b| > kvSize
      ensures kvIdx in old(Contents()) && |b| <= kvSize ==>
                Contents()
                  == old(Contents())[kvIdx := Record(Chunked(encoder, Pad(b, kvSize), chunkSize, ChunkIdxOf(kvIdx)),
                                                     commit)]
      ensures Headers(FileBytes()) == old(Headers(FileBytes()))
    {
      if !Contains(kvIdx) {
        return Failed(NotFound);
      }
      if |b| > kvSize {
        return Failed(TooLarge);
      }
      ghost var before := FileBytes();
      r := WriteBoth(kvIdx, Pad(b, kvSize), commit, encoder);
      if r.Ok? {
        ghost var data := Chunked(encoder, Pad(b, kvSize), chunkSize, ChunkIdxOf(kvIdx));
        WriteIsUpdate(dataFiles, before, FileBytes(), Lo(), Hi(), kvIdx, data, commit);
        WriteKeepsHeaders(dataFiles, before, FileBytes(), kvIdx, data, commit);
      }
    }

    /** Chunks and meta go to the same file. */
    method WriteBoth(kvIdx: nat, cb: Data, commit: Data, encoder: (Data, nat) -> Data) returns (r: Outcome<()>)
      requires Valid() && |cb| == kvSize && |commit| == META_SIZE && Fills(encoder, chunkSize)
      modifies dataFiles
      ensures Valid()
      ensures !Covered(dataFiles, kvIdx) ==> r == Failed(NotFound) && FileBytes() == old(FileBytes())
      ensures Covered(dataFiles, kvIdx) ==>
                var data := Chunked(encoder, cb, chunkSize, ChunkIdxOf(kvIdx));
                r == Ok(()) && |data| == kvSize
                  && WrittenTo(dataFiles, old(FileBytes()), FileBytes(), kvIdx, data, commit)
    {
      r := WriteChunks(kvIdx, cb, encoder);
      if r.Ok? {
        r := WriteMeta(kvIdx, commit);
      }
    }

    method WriteChunks(kvIdx: nat, cb: Data, encoder: (Data, nat) -> Data) returns (r: Outcome<()>)
      requires Valid() && |cb| == kvSize && Fills(encoder, chunkSize)
      modifies dataFiles
      ensures Valid()
      ensures !Covered(dataFiles, kvIdx) ==> r == Failed(NotFound) && FileBytes() == old(FileBytes())
      ensures Covered(dataFiles, kvIdx) ==>
                var data := Chunked(encoder, cb, chunkSize, ChunkIdxOf(kvIdx));
                r == Ok(()) && |data| == kvSize
                  && PartlyWritten(FirstKv(dataFiles, kvIdx), kvIdx, old(FileBytes()), data)
    {
      ghost var first, orig := ChunkIdxOf(kvIdx), FileBytes();
      CodedStart(encoder, cb, chunkSize, first);
      StartWriting(kvIdx);
      ghost var off, done;
      r, off, done := WriteEach(kvIdx, cb, encoder, orig);
      if r.Ok? {
        CodedEnd(encoder, cb, chunkSize, chunksPerKv, first, off, done);
      }
    }

    /** The loop over the chunks. */
    method WriteEach(kvIdx: nat, cb: Data, encoder: (Data, nat) -> Data, ghost orig: seq<Data>)
      returns (r: Outcome<()>, ghost end: nat, ghost done: Data)
      requires Valid() && |cb| == kvSize && Fills(encoder, chunkSize)
      requires Coded(encoder, cb, chunkSize, ChunkIdxOf(kvIdx), 0, 0, []) && Writing(kvIdx, orig, [], 0)
      modifies dataFiles
      ensures Valid() && r == if Covered(dataFiles, kvIdx) then Ok(()) else Failed(NotFound)
      ensures r.Failed? ==> FileBytes() == orig
      ensures r.Ok? ==>
                && Coded(encoder, cb, chunkSize, ChunkIdxOf(kvIdx), chunksPerKv, end, done)
                && Writing(kvIdx, orig, done, chunksPerKv)
    {
      var i: nat, off: nat := 0, 0;
      done := [];
      while i < chunksPerKv
        invariant i <= chunksPerKv && Valid() && (i > 0 ==> Covered(dataFiles, kvIdx))
        invariant Coded(encoder, cb, chunkSize, ChunkIdxOf(kvIdx), i, off, done)
        invariant Writing(kvIdx, orig, done, i)
      {
        r, off, done := EncodeAndWrite(kvIdx, i, off, cb, encoder, orig, done);
        if r.Failed? {
          return r, off, done;
        }
        i := i + 1;
      }
      return Ok(()), off, done;
    }

    lemma StartWriting(kvIdx: nat)
      requires Valid()
      ensures Writing(kvIdx, FileBytes(), [], 0)
    {
      var j := FirstKv(dataFiles, kvIdx);
      if j < |dataFiles| {
        Bounds(dataFiles[j].lay, kvIdx);
        SpliceNothing(dataFiles[j].file, KvOffset(dataFiles[j].lay, kvIdx));
      }
    }

    /** The start of a value has been written over the original bytes of its file. */
    ghost predicate PartlyWritten(j: nat, kvIdx: nat, orig: seq<Data>, done: Data)
      requires Valid() && j < |dataFiles|
      reads this, dataFiles
    {
      var df := dataFiles[j];
      && Holds(df.lay, kvIdx) && |orig| == |dataFiles| && |orig[j]| == FileSize(df.lay)
      && KvOffset(df.lay, kvIdx) + |done| <= |orig[j]|
      && df.file == Splice(orig[j], KvOffset(df.lay, kvIdx), done)
      && forall x :: 0 <= x < |dataFiles| && dataFiles[x] != df ==> dataFiles[x].file == orig[x]
    }

    /** How far the writing of chunks has come; where no file holds the value, not even the first chunk is written. */
    ghost predicate Writing(kvIdx: nat, orig: seq<Data>, done: Data, i: nat)
      requires Valid()
      reads this, dataFiles
    {
      if Covered(dataFiles, kvIdx) then PartlyWritten(FirstKv(dataFiles, kvIdx), kvIdx, orig, done)
      else i == 0 && FileBytes() == orig
    }

    /** One turn of the loop over the chunks. */
    method EncodeAndWrite(kvIdx: nat, i: nat, off: nat, cb: Data, encoder: (Data, nat) -> Data, ghost orig: seq<Data>,
                          ghost done: Data)
      returns (r: Outcome<()>, end: nat, ghost next: Data)
      requires Valid() && i < chunksPerKv && |cb| == kvSize && Fills(encoder, chunkSize)
      requires Coded(encoder, cb, chunkSize, ChunkIdxOf(kvIdx), i, off, done) && Writing(kvIdx, orig, done, i)
      modifies dataFiles
      ensures Valid() && r == if Covered(dataFiles, kvIdx) then Ok(()) else Failed(NotFound)
      ensures !Covered(dataFiles, kvIdx) ==> FileBytes() == orig
      ensures Coded(encoder, cb, chunkSize, ChunkIdxOf(kvIdx), i + 1, end, next)
      ensures Covered(dataFiles, kvIdx) ==> Writing(kvIdx, orig, next, i + 1)
    {
      CodedNext(encoder, cb, chunkSize, chunksPerKv, ChunkIdxOf(kvIdx), i, off, done);
      end := off + chunkSize;
      var encodedChunk := Code(encoder, cb[off..end], ChunkIdxOf(kvIdx) + i);
      next := done + encodedChunk;
      r := WriteNext(kvIdx, i, off, encodedChunk, orig, done);
    }

    method WriteNext(kvIdx: nat, i: nat, ghost off: nat, e: Data, ghost orig: seq<Data>, ghost done: Data)
        returns (r: Outcome<()>)
      requires Valid() && |e| == chunkSize && i < chunksPerKv && |done| == off == i * chunkSize
      requires Writing(kvIdx, orig, done, i)
      modifies dataFiles
      ensures Valid() && r == if Covered(dataFiles, kvIdx) then Ok(()) else Failed(NotFound)
      ensures !Covered(dataFiles, kvIdx) ==> FileBytes() == orig
      ensures Covered(dataFiles, kvIdx) ==> Writing(kvIdx, orig, done + e, i + 1)
    {
      ghost var j := FirstKv(dataFiles, kvIdx);
      SameFile(dataFiles, chunksPerKv, chunkSize, kvIdx, i);
      ghost var o := 0;
      if j < |dataFiles| {
        ChunkFits(j, kvIdx, i);
        Bounds(dataFiles[j].lay, kvIdx);
        o := KvOffset(dataFiles[j].lay, kvIdx);
        SpliceAppend(orig[j], o, done, e);
      }
      r := WriteChunk(ChunkIdxOf(kvIdx) + i, e);
      if j < |dataFiles| {
        assert dataFiles[j].file == Splice(orig[j], o, done + e);
      }
    }

    lemma ChunkFits(j: nat, kvIdx: nat, i: nat)
      requires Valid() && j < |dataFiles| && Holds(dataFiles[j].lay, kvIdx) && i < chunksPerKv
      ensures dataFiles[j].Contains(ChunkIdxOf(kvIdx) + i)
      ensures dataFiles[j].ChunkOffset(ChunkIdxOf(kvIdx) + i) == KvOffset(dataFiles[j].lay, kvIdx) + i * chunkSize
      ensures i * chunkSize + chunkSize <= kvSize
    {
      dataFiles[j].ChunkPlace(kvIdx, i);
    }

    /** Reads the start of a value chunk by chunk; the last chunk read may be cut short. */
    method ReadWith(kvIdx: nat, readLen: nat, decoder: (Data, nat) -> Data) returns (r: Outcome<Data>)
      requires Valid()
      ensures r.Ok? <==> Contains(kvIdx) && readLen <= kvSize && (readLen > 0 ==> kvIdx in Contents())
      ensures r == Failed(TooLarge) <==> Contains(kvIdx) && readLen > kvSize
      ensures r.Ok? && readLen == 0 ==> r.value == []
      ensures r.Ok? && readLen > 0 ==>
                && |Contents()[kvIdx].data| == kvSize
                && r.value == Chunked(decoder, Contents()[kvIdx].data[..readLen], chunkSize, ChunkIdxOf(kvIdx))
    {
      if !Contains(kvIdx) {
        return Failed(NotFound);
      }
      if readLen > kvSize {
        return Failed(TooLarge);
      }
      if readLen == 0 {
        return Ok([]);
      }
      r := ReadChunks(kvIdx, readLen, decoder);
    }

    method ReadChunks(kvIdx: nat, readLen: nat, decoder: (Data, nat) -> Data) returns (r: Outcome<Data>)
      requires Valid() && 0 < readLen <= kvSize
      ensures !Covered(dataFiles, kvIdx) ==> r == Failed(NotFound)
      ensures Covered(dataFiles, kvIdx) ==>
                var value := ValueOf(dataFiles, FileBytes(), kvIdx).data;
                |value| == kvSize && r == Ok(Chunked(decoder, value[..readLen], chunkSize, ChunkIdxOf(kvIdx)))
    {
      ghost var value, first := [], ChunkIdxOf(kvIdx);
      if Covered(dataFiles, kvIdx) {
        value := ValueOf(dataFiles, FileBytes(), kvIdx).data[..readLen];
        ReadingStart(decoder, value, chunkSize, first);
      }
      var p := Progress(0, 0, readLen, []);
      while p.i < chunksPerKv && p.left != 0
        invariant p.i <= chunksPerKv && (p.left != 0 ==> p.off == p.i * chunkSize && p.off + p.left == readLen)
        invariant !Covered(dataFiles, kvIdx) ==> p == Progress(0, 0, readLen, [])
        invariant Covered(dataFiles, kvIdx) ==> Reading(decoder, value, chunkSize, first, p)
      {
        r, p := ReadAndDecode(kvIdx, p, decoder, value);
        if r.Failed? {
          return;
        }
      }
      ReadingEnd(decoder, value, chunkSize, chunksPerKv, first, p);
      r := Ok(p.data);
    }

    /** One turn of the loop over the chunks. */
    method ReadAndDecode(kvIdx: nat, p: Progress, decoder: (Data, nat) -> Data, ghost value: Data)
      returns (r: Outcome<Data>, next: Progress)
      requires Valid() && p.i < chunksPerKv && p.left != 0 && p.off == p.i * chunkSize
      requires Covered(dataFiles, kvIdx) ==>
                 && |value| <= kvSize && value == ValueOf(dataFiles, FileBytes(), kvIdx).data[..|value|]
                 && Reading(decoder, value, chunkSize, ChunkIdxOf(kvIdx), p)
      ensures !Covered(dataFiles, kvIdx) ==> r == Failed(NotFound)
      ensures next.i <= chunksPerKv
              && (next.left != 0 ==> next.off == next.i * chunkSize && next.off + next.left == p.off + p.left)
      ensures Covered(dataFiles, kvIdx) ==> r.Ok? && Reading(decoder, value, chunkSize, ChunkIdxOf(kvIdx), next)
      ensures next.i == p.i + 1
    {
      var n := Min(p.left, chunkSize);
      ChunkEnd(p.i, chunksPerKv, chunkSize);
      next := p.(i := p.i + 1, off := p.off + n, left := p.left - n);
      r := ReadNext(kvIdx, p.i, p.off, n);
      if r.Ok? {
        next := next.(data := p.data + Code(decoder, r.value, ChunkIdxOf(kvIdx) + p.i));
        assert r.value == value[p.off..p.off + n];
        ReadingNext(decoder, value, chunkSize, ChunkIdxOf(kvIdx), p, n, r.value, next);
      }
    }

    /** One chunk, or the start of one, read from the file of its value. */
    method ReadNext(kvIdx: nat, i: nat, off: nat, n: nat) returns (r: Outcome<Data>)
      requires Valid() && i < chunksPerKv && off == i * chunkSize && n <= chunkSize
      ensures !Covered(dataFiles, kvIdx) ==> r == Failed(NotFound)
      ensures Covered(dataFiles, kvIdx) ==>
                var value := ValueOf(dataFiles, FileBytes(), kvIdx).data;
                |value| == kvSize && off + n <= kvSize && r == Ok(value[off..off + n])
    {
      r := ReadChunk(ChunkIdxOf(kvIdx) + i, n);
      ghost var j := FirstKv(dataFiles, kvIdx);
      SameFile(dataFiles, chunksPerKv, chunkSize, kvIdx, i);
      if j < |dataFiles| {
        ghost var df := dataFiles[j];
        ChunkFits(j, kvIdx, i);
        Bounds(df.lay, kvIdx);
        ghost var o := KvOffset(df.lay, kvIdx);
        SliceOfSlice(df.file, o, o + kvSize, off, off + n);
      }
    }

    /** A sample is a 32-byte slice of the stored bytes of its value, for every layout of files. */
    method ReadSample(sampleIdx: nat) returns (r: Outcome<Data>)
      requires Valid() && kvSize % 32 == 0
      ensures var k, j := sampleIdx * 32 / kvSize, sampleIdx * 32 % kvSize;
              && (!Covered(dataFiles, k) ==> r == Failed(NotFound))
              && (Covered(dataFiles, k) ==>
                    j + 32 <= kvSize && r == Ok(ValueOf(dataFiles, FileBytes(), k).data[j..j + 32]))
    {
      ghost var k := sampleIdx * 32 / kvSize;
      for i := 0 to |dataFiles|
        invariant FirstKv(dataFiles, k) == i + FirstKv(dataFiles[i..], k)
      {
        assert dataFiles[i..][1..] == dataFiles[i + 1..];
        dataFiles[i].SampleContained(sampleIdx);
        if dataFiles[i].ContainsSample(sampleIdx) {
          r := dataFiles[i].ReadSample(sampleIdx);
          return;
        }
      }
      return Failed(NotFound);
    }

    /** A stored value has the size of a value. */
    lemma ValueSize(k: nat)
      requires Valid() && k in Contents()
      ensures |Contents()[k].data| == kvSize
    {
    }

    /** A complete shard holds every value of its range. */
    lemma CompleteHoldsAll()
      requires Valid()
      requires forall c: nat :: StartChunkIdx() <= c < (shardIdx + 1) * chunksPerKv * kvEntries ==>
                 HasChunk(dataFiles, c)
      ensures forall k: nat :: Contains(k) ==> k in Contents()
    {
      forall k: nat | Contains(k) ensures Covered(dataFiles, k) {
        var c := k * chunksPerKv;
        FirstOfValue(k);
        SameFile(dataFiles, chunksPerKv, chunkSize, k, 0);
        if FirstChunk(dataFiles, c) == |dataFiles| {
          assert HasChunk(dataFiles, c);
          var i :| 0 <= i < |dataFiles| && dataFiles[i].Contains(c);
          FirstChunkIsFirst(dataFiles, c, i);
          assert false;
        }
      }
    }

    /** The first chunk of a value of the shard is in the shard's range of chunks. */
    lemma FirstOfValue(k: nat)
      requires Contains(k) && chunksPerKv >= 1
      ensures StartChunkIdx() <= k * chunksPerKv < (shardIdx + 1) * chunksPerKv * kvEntries
    {
      MulMonotone(Lo(), k, chunksPerKv);
      MulMonotone(k + 1, Hi(), chunksPerKv);
      assert Lo() * chunksPerKv == shardIdx * chunksPerKv * kvEntries;
      assert Hi() * chunksPerKv == (shardIdx + 1) * chunksPerKv * kvEntries;
      assert (k + 1) * chunksPerKv == k * chunksPerKv + chunksPerKv;
    }
  }
}
