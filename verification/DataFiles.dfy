/** A storage file: a header, the chunks of consecutive values, then the metas of those values. */
module DataFiles {
  import opened Arith
  import opened Bytes
  import opened Disk
  import opened FileLayout
  import opened Masking
  import opened PowersOfTwo

  datatype Fault = NotFound | TooLarge

  datatype Outcome<T> = Ok(value: T) | Failed(fault: Fault)

  datatype Check = Passed | ChunkLargerThanKv | LengthNotAligned | StartNotAligned | NotPowersOfTwo

  /** The checks before a file is created, in their order. */
  function CreateCheck(start: nat, len: nat, maxKvSize: nat, chunkSize: nat): Check
    requires maxKvSize >= 1
  {
    if chunkSize > maxKvSize then ChunkLargerThanKv
    else if (len * chunkSize) % maxKvSize != 0 then LengthNotAligned
    else if (start * chunkSize) % maxKvSize != 0 then StartNotAligned
    else if !IsPow2n(chunkSize) || !IsPow2n(maxKvSize) then NotPowersOfTwo
    else Passed
  }

  /** Sizes and ranges in whole values. */
  predicate Matches(l: Layout, start: nat, len: nat, maxKvSize: nat, chunkSize: nat) {
    Proper(l) && chunkSize == l.cs && maxKvSize == KvSize(l) && start == l.k0 * l.cpk && len == l.kn * l.cpk
  }

  function LayoutOf(start: nat, len: nat, maxKvSize: nat, chunkSize: nat): Layout
    requires 1 <= chunkSize <= maxKvSize
  {
    var cpk := maxKvSize / chunkSize;
    assert cpk >= 1 by { if cpk < 1 { MulMonotone(cpk, 0, chunkSize); } }
    Layout(cpk, chunkSize, start / cpk, len / cpk)
  }

  /** A multiple of the value size in bytes is a multiple of the value size in chunks. */
  lemma WholeValues(n: nat, cpk: nat, cs: nat)
    requires cpk >= 1 && cs >= 1 && cpk * cs >= 1 && (n * cs) % (cpk * cs) == 0
    ensures n == n / cpk * cpk
  {
    var q := n * cs / (cpk * cs);
    Exactly(n * cs, cpk * cs);
    MulAssoc(q, cpk, cs);
    Cancel(n, q * cpk, cs);
    DivModUnique(n, cpk, q, 0);
  }

  /** A file that passes the checks holds whole values. */
  lemma CreatedIsAligned(start: nat, len: nat, maxKvSize: nat, chunkSize: nat)
    requires maxKvSize >= 1 && CreateCheck(start, len, maxKvSize, chunkSize) == Passed
    ensures chunkSize >= 1 && Matches(LayoutOf(start, len, maxKvSize, chunkSize), start, len, maxKvSize, chunkSize)
  {
    SmallerDivides(chunkSize, maxKvSize);
    var cpk := maxKvSize / chunkSize;
    WholeValues(start, cpk, chunkSize);
    WholeValues(len, cpk, chunkSize);
  }

  /** Every file of whole values, with sizes that are powers of two, passes the checks. */
  lemma AlignedIsCreated(l: Layout, start: nat, len: nat, maxKvSize: nat, chunkSize: nat, a: nat, b: nat)
    requires Matches(l, start, len, maxKvSize, chunkSize) && chunkSize == Pow2(a) && maxKvSize == Pow2(b)
    ensures CreateCheck(start, len, maxKvSize, chunkSize) == Passed
  {
    Pow2Passes(a);
    Pow2Passes(b);
    MulAtLeast(l.cpk, l.cs);
    MulAssoc(l.kn, l.cpk, l.cs);
    MulAssoc(l.k0, l.cpk, l.cs);
    DivModUnique(len * chunkSize, maxKvSize, l.kn, 0);
    DivModUnique(start * chunkSize, maxKvSize, l.k0, 0);
  }

  /** The size that is allocated is the size of the layout. */
  lemma CreatedSize(start: nat, len: nat, maxKvSize: nat, chunkSize: nat)
    requires maxKvSize >= 1 && CreateCheck(start, len, maxKvSize, chunkSize) == Passed
    ensures 1 <= chunkSize <= maxKvSize
    ensures FileSize(LayoutOf(start, len, maxKvSize, chunkSize)) == HEADER_SIZE + (chunkSize + 32) * len
  {
    CreatedIsAligned(start, len, maxKvSize, chunkSize);
  }

  class DataFile {
    const chunkIdxStart: nat
    const chunkIdxLen: nat
    const maxKvSize: nat
    const chunkSize: nat
    const encodeType: EncodeType
    const miner: Data
    ghost const lay: Layout
    var file: Data

    function ChunkIdxEnd(): nat { chunkIdxStart + chunkIdxLen }

    predicate Contains(chunkIdx: nat) { chunkIdxStart <= chunkIdx < ChunkIdxEnd() }

    function KvIdxStart(): nat
      requires maxKvSize >= 1
    {
      chunkIdxStart * chunkSize / maxKvSize
    }

    function KvIdxEnd(): nat
      requires maxKvSize >= 1
    {
      KvIdxStart() + chunkIdxLen * chunkSize / maxKvSize
    }

    predicate ContainsKv(kvIdx: nat)
      requires maxKvSize >= 1
    {
      KvIdxStart() <= kvIdx < KvIdxEnd()
    }

    predicate ContainsSample(sampleIdx: nat)
      requires chunkSize >= 1
    {
      Contains(sampleIdx * 32 / chunkSize)
    }

    ghost predicate Shaped() { Matches(lay, chunkIdxStart, chunkIdxLen, maxKvSize, chunkSize) }

    ghost predicate Valid()
      reads this
    {
      Shaped() && |file| == FileSize(lay)
    }

    /** The range of values is the range of the layout. */
    lemma KvRange(kvIdx: nat)
      requires Shaped()
      ensures maxKvSize >= 1 && KvIdxStart() == lay.k0 && (ContainsKv(kvIdx) <==> Holds(lay, kvIdx))
    {
      var l := lay;
      MulAtLeast(l.cpk, l.cs);
      assert chunkIdxStart * chunkSize == l.k0 * maxKvSize by { MulAssoc(l.k0, l.cpk, l.cs); }
      assert chunkIdxLen * chunkSize == l.kn * maxKvSize by { MulAssoc(l.kn, l.cpk, l.cs); }
      DivModUnique(chunkIdxStart * chunkSize, maxKvSize, l.k0, 0);
      DivModUnique(chunkIdxLen * chunkSize, maxKvSize, l.kn, 0);
    }

    /** A file contains all chunks of a value or none, and it does exactly if it contains the value. */
    lemma ChunkRange(kvIdx: nat, i: nat)
      requires Shaped() && i < lay.cpk
      ensures Contains(kvIdx * lay.cpk + i) <==> Holds(lay, kvIdx)
    {
      var l := lay;
      assert chunkIdxStart == l.k0 * l.cpk && ChunkIdxEnd() == (l.k0 + l.kn) * l.cpk;
      if kvIdx < l.k0 {
        MulMonotone(kvIdx + 1, l.k0, l.cpk);
      } else if kvIdx < l.k0 + l.kn {
        MulMonotone(l.k0, kvIdx, l.cpk);
        MulMonotone(kvIdx + 1, l.k0 + l.kn, l.cpk);
      } else {
        MulMonotone(l.k0 + l.kn, kvIdx, l.cpk);
      }
      assert (kvIdx + 1) * l.cpk == kvIdx * l.cpk + l.cpk;
    }

    function ChunkOffset(chunkIdx: nat): nat
      requires Contains(chunkIdx)
    {
      HEADER_SIZE + (chunkIdx - chunkIdxStart) * chunkSize
    }

    /** Chunk i of a value starts i chunks into the value and ends inside it. */
    lemma ChunkPlace(kvIdx: nat, i: nat)
      requires Shaped() && i < lay.cpk && Holds(lay, kvIdx)
      ensures Contains(kvIdx * lay.cpk + i)
      ensures ChunkOffset(kvIdx * lay.cpk + i) == KvOffset(lay, kvIdx) + i * chunkSize
      ensures i * chunkSize + chunkSize <= maxKvSize
    {
      ChunkRange(kvIdx, i);
      OffsetSplit(kvIdx, lay.k0, i, lay.cpk, chunkSize);
      MulMonotone(i + 1, lay.cpk, chunkSize);
      assert (i + 1) * chunkSize == i * chunkSize + chunkSize;
    }

    /** Every chunk of the file is a chunk of one of its values. */
    lemma ChunkInBounds(chunkIdx: nat)
      requires Shaped() && Contains(chunkIdx)
      ensures ChunkOffset(chunkIdx) + chunkSize <= FileSize(lay)
    {
      var l := lay;
      var k, i := chunkIdx / l.cpk, chunkIdx % l.cpk;
      assert chunkIdx == k * l.cpk + i;
      ChunkRange(k, i);
      ChunkPlace(k, i);
      Bounds(l, k);
    }

    constructor (start: nat, len: nat, maxKvSize: nat, encodeType: EncodeType, miner: Data, chunkSize: nat,
                 header: Data)
      requires maxKvSize >= 1 && CreateCheck(start, len, maxKvSize, chunkSize) == Passed && |header| <= HEADER_SIZE
      ensures Valid() && chunkIdxStart == start && chunkIdxLen == len && this.maxKvSize == maxKvSize
      ensures this.chunkSize == chunkSize && this.encodeType == encodeType && this.miner == miner
      ensures file[..|header|] == header && forall i :: |header| <= i < |file| ==> file[i] == 0
    {
      chunkIdxStart, chunkIdxLen, this.maxKvSize, this.chunkSize := start, len, maxKvSize, chunkSize;
      this.encodeType, this.miner := encodeType, miner;
      CreatedIsAligned(start, len, maxKvSize, chunkSize);
      lay := LayoutOf(start, len, maxKvSize, chunkSize);
      CreatedSize(start, len, maxKvSize, chunkSize);
      file := Pad(header, HEADER_SIZE + (chunkSize + 32) * len);
    }

    method Read(chunkIdx: nat, len: nat) returns (r: Outcome<Data>)
      requires Valid()
      ensures !Contains(chunkIdx) ==> r == Failed(NotFound)
      ensures Contains(chunkIdx) && len > chunkSize ==> r == Failed(TooLarge)
      ensures Contains(chunkIdx) && len <= chunkSize ==>
                ChunkOffset(chunkIdx) + len <= |file|
                  && r == Ok(file[ChunkOffset(chunkIdx)..ChunkOffset(chunkIdx) + len])
    {
      if !Contains(chunkIdx) {
        return Failed(NotFound);
      }
      if len > chunkSize {
        return Failed(TooLarge);
      }
      ChunkInBounds(chunkIdx);
      return Ok(file[ChunkOffset(chunkIdx)..ChunkOffset(chunkIdx) + len]);
    }

    /** The write never leaves the allocated file. */
    method Write(chunkIdx: nat, b: Data) returns (r: Outcome<()>)
      requires Valid()
      modifies this`file
      ensures Valid()
      ensures !Contains(chunkIdx) ==> r == Failed(NotFound) && file == old(file)
      ensures Contains(chunkIdx) && |b| > chunkSize ==> r == Failed(TooLarge) && file == old(file)
      ensures Contains(chunkIdx) && |b| <= chunkSize ==>
                && r == Ok(()) && ChunkOffset(chunkIdx) + |b| <= |old(file)|
                && file == Splice(old(file), ChunkOffset(chunkIdx), b)
    {
      if !Contains(chunkIdx) {
        return Failed(NotFound);
      }
      if |b| > chunkSize {
        return Failed(TooLarge);
      }
      ChunkInBounds(chunkIdx);
      file := Splice(file, ChunkOffset(chunkIdx), b);
      return Ok(());
    }

    method ReadMeta(kvIdx: nat) returns (r: Outcome<Data>)
      requires Valid()
      ensures !Holds(lay, kvIdx) ==> r == Failed(NotFound)
      ensures Holds(lay, kvIdx) ==> r == Ok(ValueAt(lay, file, kvIdx).meta)
    {
      KvRange(kvIdx);
      if !ContainsKv(kvIdx) {
        return Failed(NotFound);
      }
      Bounds(lay, kvIdx);
      var off := MetaStart(kvIdx);
      return Ok(file[off..off + META_SIZE]);
    }

    /** The offset of a meta as the code computes it. */
    function MetaStart(kvIdx: nat): (off: nat)
      requires Shaped() && Holds(lay, kvIdx)
      ensures off == MetaOffset(lay, kvIdx)
    {
      KvRange(kvIdx);
      MulAssoc(lay.kn, lay.cpk, lay.cs);
      HEADER_SIZE + chunkIdxLen * chunkSize + (kvIdx - KvIdxStart()) * META_SIZE
    }

    method WriteMeta(kvIdx: nat, b: Data) returns (r: Outcome<()>)
      requires Valid()
      modifies this`file
      ensures Valid()
      ensures !Holds(lay, kvIdx) ==> r == Failed(NotFound) && file == old(file)
      ensures Holds(lay, kvIdx) && |b| > META_SIZE ==> r == Failed(TooLarge) && file == old(file)
      ensures Holds(lay, kvIdx) && |b| <= META_SIZE ==>
                && r == Ok(()) && MetaOffset(lay, kvIdx) + |b| <= |old(file)|
                && file == Splice(old(file), MetaOffset(lay, kvIdx), b)
    {
      KvRange(kvIdx);
      if !ContainsKv(kvIdx) {
        return Failed(NotFound);
      }
      if |b| > META_SIZE {
        return Failed(TooLarge);
      }
      Bounds(lay, kvIdx);
      file := Splice(file, MetaStart(kvIdx), b);
      return Ok(());
    }

    /** A sample is the matching 32-byte slice of its value, whatever the chunk size. */
    method ReadSample(sampleIdx: nat) returns (r: Outcome<Data>)
      requires Valid() && maxKvSize >= 1 && maxKvSize % 32 == 0
      ensures var k, j := sampleIdx * 32 / maxKvSize, sampleIdx * 32 % maxKvSize;
              && (ContainsSample(sampleIdx) <==> Holds(lay, k))
              && (!Holds(lay, k) ==> r == Failed(NotFound))
              && (Holds(lay, k) ==> j + 32 <= maxKvSize && r == Ok(ValueAt(lay, file, k).data[j..j + 32]))
    {
      SampleInside(sampleIdx, maxKvSize);
      SampleContained(sampleIdx);
      if !ContainsSample(sampleIdx) {
        return Failed(NotFound);
      }
      var off := HEADER_SIZE + sampleIdx * 32 - chunkIdxStart * chunkSize;
      ghost var k := sampleIdx * 32 / maxKvSize;
      SampleOffset(sampleIdx * 32);
      Bounds(lay, k);
      ghost var o, j := KvOffset(lay, k), sampleIdx * 32 % maxKvSize;
      SliceOfSlice(file, o, o + maxKvSize, j, j + 32);
      return Ok(file[off..off + 32]);
    }

    lemma SampleContained(sampleIdx: nat)
      requires Shaped()
      ensures maxKvSize >= 1 && (ContainsSample(sampleIdx) <==> Holds(lay, sampleIdx * 32 / maxKvSize))
    {
      var l, x := lay, sampleIdx * 32;
      DivDiv(x, l.cs, l.cpk);
      var c := x / l.cs;
      var k, i := c / l.cpk, c % l.cpk;
      assert c == k * l.cpk + i;
      ChunkRange(k, i);
    }

    lemma SampleOffset(x: nat)
      requires Shaped() && maxKvSize >= 1 && Holds(lay, x / maxKvSize)
      ensures HEADER_SIZE + x - chunkIdxStart * chunkSize == KvOffset(lay, x / maxKvSize) + x % maxKvSize
    {
      var l, k := lay, x / maxKvSize;
      MulAssoc(l.k0, l.cpk, l.cs);
      assert (k - l.k0) * maxKvSize == k * maxKvSize - l.k0 * maxKvSize;
    }
  }

  lemma OffsetSplit(k: nat, k0: nat, i: nat, cpk: nat, cs: nat)
    ensures (k * cpk + i - k0 * cpk) * cs == (k - k0) * (cpk * cs) + i * cs
  {
    var j := k - k0;
    assert k * cpk - k0 * cpk == j * cpk;
    assert (j * cpk + i) * cs == (j * cpk) * cs + i * cs;
    MulAssoc(j, cpk, cs);
  }

  lemma Exactly(a: nat, b: nat)
    requires b >= 1 && a % b == 0
    ensures a == a / b * b
  {
  }

  lemma Cancel(a: int, b: int, c: int)
    requires c >= 1 && a * c == b * c
    ensures a == b
  {
    DivModUnique(a * c, c, a, 0);
    DivModUnique(b * c, c, b, 0);
  }

  /** A sample does not cross the end of a value. */
  lemma SampleInside(sampleIdx: nat, size: nat)
    requires size >= 1 && size % 32 == 0
    ensures sampleIdx * 32 % size + 32 <= size
  {
    var x, n := sampleIdx * 32, size / 32;
    var q := x / size;
    assert x % size == x - q * size;
    assert q * size == 32 * (q * n);
    assert x % size == 32 * (sampleIdx - q * n);
  }
}
