/** Where a data file keeps its values and their metas, for files that hold whole values. */
module FileLayout {
  import opened Arith
  import opened Bytes
  import opened Disk

  const HEADER_SIZE: nat := 4096

  /** Chunks per value, chunk size, first value and number of values of a file. */
  datatype Layout = Layout(cpk: nat, cs: nat, k0: nat, kn: nat)

  predicate Proper(l: Layout) { l.cpk >= 1 && l.cs >= 1 }

  function KvSize(l: Layout): nat { l.cpk * l.cs }

  predicate Holds(l: Layout, k: nat) { l.k0 <= k < l.k0 + l.kn }

  function KvOffset(l: Layout, k: nat): nat
    requires Holds(l, k)
  {
    HEADER_SIZE + (k - l.k0) * KvSize(l)
  }

  function MetaOffset(l: Layout, k: nat): nat
    requires Holds(l, k)
  {
    HEADER_SIZE + l.kn * KvSize(l) + (k - l.k0) * META_SIZE
  }

  /** What is allocated for the file. */
  function FileSize(l: Layout): (size: nat)
    ensures size >= HEADER_SIZE
  {
    HEADER_SIZE + (l.cs + 32) * (l.kn * l.cpk)
  }

  lemma SizeSplit(cs: nat, kn: nat, cpk: nat)
    ensures (cs + 32) * (kn * cpk) == kn * (cpk * cs) + 32 * (kn * cpk)
  {
    MulAssoc(kn, cpk, cs);
    assert (cs + 32) * (kn * cpk) == cs * (kn * cpk) + 32 * (kn * cpk);
  }

  /** Values lie between header and metas, metas inside the allocated size. */
  lemma Bounds(l: Layout, k: nat)
    requires Proper(l) && Holds(l, k)
    ensures HEADER_SIZE <= KvOffset(l, k)
    ensures KvOffset(l, k) + KvSize(l) <= HEADER_SIZE + l.kn * KvSize(l) <= MetaOffset(l, k)
    ensures MetaOffset(l, k) + META_SIZE <= FileSize(l)
  {
    var j, s := k - l.k0, KvSize(l);
    MulMonotone(j + 1, l.kn, s);
    assert (j + 1) * s == j * s + s;
    MulAtLeast(l.cpk, l.kn);
    SizeSplit(l.cs, l.kn, l.cpk);
  }

  /** Different values have disjoint places, and so have their metas. */
  lemma Apart(l: Layout, k: nat, j: nat)
    requires Holds(l, k) && Holds(l, j) && k < j
    ensures KvOffset(l, k) + KvSize(l) <= KvOffset(l, j)
    ensures MetaOffset(l, k) + META_SIZE <= MetaOffset(l, j)
  {
    var a, b, s := k - l.k0, j - l.k0, KvSize(l);
    MulMonotone(a + 1, b, s);
    assert (a + 1) * s == a * s + s;
  }

  // ---------------------------------------------------------------- writing in place

  function Splice(file: Data, off: nat, b: Data): (f: Data)
    requires off + |b| <= |file|
    ensures |f| == |file|
  {
    file[..off] + b + file[off + |b|..]
  }

  lemma SpliceElsewhere(file: Data, off: nat, b: Data, lo: nat, hi: nat)
    requires off + |b| <= |file| && lo <= hi <= |file| && (hi <= off || off + |b| <= lo)
    ensures Splice(file, off, b)[lo..hi] == file[lo..hi]
  {
    var f := Splice(file, off, b);
    forall i | lo <= i < hi ensures f[i] == file[i] { }
  }

  lemma SpliceHere(file: Data, off: nat, b: Data)
    requires off + |b| <= |file|
    ensures Splice(file, off, b)[off..off + |b|] == b
  {
  }

  lemma SpliceAppend(file: Data, off: nat, a: Data, b: Data)
    requires off + |a| + |b| <= |file|
    ensures Splice(Splice(file, off, a), off + |a|, b) == Splice(file, off, a + b)
  {
    var g, h := Splice(Splice(file, off, a), off + |a|, b), Splice(file, off, a + b);
    forall i | 0 <= i < |file| ensures g[i] == h[i] { }
  }

  lemma SpliceNothing(file: Data, off: nat)
    requires off <= |file|
    ensures Splice(file, off, []) == file
  {
  }

  // ---------------------------------------------------------------- a file as a map of values

  function RecordAt(file: Data, o: nat, size: nat, p: nat): (r: Record)
    requires o + size <= |file| && p + META_SIZE <= |file|
    ensures |r.data| == size && |r.meta| == META_SIZE
  {
    Record(file[o..o + size], file[p..p + META_SIZE])
  }

  function ValueAt(l: Layout, file: Data, k: nat): (r: Record)
    requires Proper(l) && Holds(l, k) && |file| == FileSize(l)
    ensures |r.data| == KvSize(l) && |r.meta| == META_SIZE
  {
    Bounds(l, k);
    RecordAt(file, KvOffset(l, k), KvSize(l), MetaOffset(l, k))
  }

  function WriteAt(file: Data, o: nat, data: Data, p: nat, meta: Data): (f: Data)
    requires o + |data| <= |file| && p + |meta| <= |file|
    ensures |f| == |file|
  {
    Splice(Splice(file, o, data), p, meta)
  }

  /** A value and its meta written into the file. */
  function WriteValue(l: Layout, file: Data, k: nat, data: Data, meta: Data): (f: Data)
    requires Proper(l) && Holds(l, k) && |file| == FileSize(l) && |data| == KvSize(l) && |meta| == META_SIZE
    ensures |f| == |file|
  {
    Bounds(l, k);
    WriteAt(file, KvOffset(l, k), data, MetaOffset(l, k), meta)
  }

  /** A written value is read back, every other value of the file is as before, and so is the header. */
  lemma WriteValueIsUpdate(l: Layout, file: Data, k: nat, data: Data, meta: Data, j: nat)
    requires Proper(l) && Holds(l, k) && Holds(l, j) && |file| == FileSize(l) && |data| == KvSize(l)
             && |meta| == META_SIZE
    ensures ValueAt(l, WriteValue(l, file, k, data, meta), j)
            == if j == k then Record(data, meta) else ValueAt(l, file, j)
    ensures HEADER_SIZE <= |file| && WriteValue(l, file, k, data, meta)[..HEADER_SIZE] == file[..HEADER_SIZE]
  {
    var o, p, oj, pj := Places(l, k, j);
    WriteTwice(file, o, data, p, meta, oj, pj, j == k);
  }

  lemma Places(l: Layout, k: nat, j: nat) returns (o: nat, p: nat, oj: nat, pj: nat)
    requires Proper(l) && Holds(l, k) && Holds(l, j)
    ensures o == KvOffset(l, k) && p == MetaOffset(l, k) && oj == KvOffset(l, j) && pj == MetaOffset(l, j)
    ensures HEADER_SIZE <= o && HEADER_SIZE <= oj && p + META_SIZE <= FileSize(l) && pj + META_SIZE <= FileSize(l)
    ensures var s := KvSize(l); o + s <= p && o + s <= pj && oj + s <= p && oj + s <= pj
    ensures j == k ==> oj == o && pj == p
    ensures j != k ==>
              pj != p && (oj + KvSize(l) <= o || o + KvSize(l) <= oj) && (pj + META_SIZE <= p || p + META_SIZE <= pj)
  {
    o, p, oj, pj := KvOffset(l, k), MetaOffset(l, k), KvOffset(l, j), MetaOffset(l, j);
    Bounds(l, k);
    Bounds(l, j);
    if j < k { Apart(l, j, k); } else if k < j { Apart(l, k, j); }
  }

  lemma WriteTwice(file: Data, o: nat, data: Data, p: nat, meta: Data, oj: nat, pj: nat, same: bool)
    requires HEADER_SIZE <= o && o + |data| <= p && p + |meta| <= |file| && |meta| == META_SIZE
    requires HEADER_SIZE <= oj && oj + |data| <= p && o + |data| <= pj && oj + |data| <= pj && pj + |meta| <= |file|
    requires same ==> oj == o && pj == p
    requires !same ==> (oj + |data| <= o || o + |data| <= oj) && (pj + |meta| <= p || p + |meta| <= pj)
    ensures WriteAt(file, o, data, p, meta)[..HEADER_SIZE] == file[..HEADER_SIZE]
    ensures RecordAt(WriteAt(file, o, data, p, meta), oj, |data|, pj)
            == if same then Record(data, meta) else RecordAt(file, oj, |data|, pj)
  {
    var g := Splice(file, o, data);
    SpliceElsewhere(file, o, data, 0, HEADER_SIZE);
    SpliceElsewhere(g, p, meta, 0, HEADER_SIZE);
    SpliceElsewhere(g, p, meta, oj, oj + |data|);
    if same {
      SpliceHere(file, o, data);
      SpliceHere(g, p, meta);
    } else {
      SpliceElsewhere(file, o, data, oj, oj + |data|);
      SpliceElsewhere(g, p, meta, pj, pj + |meta|);
      SpliceElsewhere(file, o, data, pj, pj + |meta|);
    }
  }

  // ---------------------------------------------------------------- the format

  /** The first n values of a file, one after the other. */
  function ValuesUpTo(l: Layout, file: Data, n: nat): Data
    requires Proper(l) && |file| == FileSize(l) && n <= l.kn
  {
    if n == 0 then [] else ValuesUpTo(l, file, n - 1) + ValueAt(l, file, l.k0 + n - 1).data
  }

  function MetasUpTo(l: Layout, file: Data, n: nat): Data
    requires Proper(l) && |file| == FileSize(l) && n <= l.kn
  {
    if n == 0 then [] else MetasUpTo(l, file, n - 1) + ValueAt(l, file, l.k0 + n - 1).meta
  }

  /** After 4096 bytes of header come the values in order, without gaps, and then their metas of 32 bytes each. */
  lemma FileInOrder(l: Layout, file: Data, width: nat)
    requires Proper(l) && |file| == FileSize(l) && width == l.kn * KvSize(l)
    ensures 4096 + width + l.kn * 32 <= |file|
    ensures file[4096..4096 + width] == ValuesUpTo(l, file, l.kn)
    ensures file[4096 + width..4096 + width + l.kn * 32] == MetasUpTo(l, file, l.kn)
  {
    MetasFit(l);
    ValuesInOrder(l, file, l.kn, width);
    MetasInOrder(l, file, l.kn, 4096 + width);
  }

  lemma MetasFit(l: Layout)
    requires Proper(l)
    ensures 4096 + l.kn * KvSize(l) + l.kn * 32 <= FileSize(l)
  {
    MulAtLeast(l.cpk, l.kn);
    SizeSplit(l.cs, l.kn, l.cpk);
  }

  lemma {:induction false} ValuesInOrder(l: Layout, file: Data, n: nat, width: nat)
    requires Proper(l) && |file| == FileSize(l) && n <= l.kn && width == n * KvSize(l)
    ensures 4096 + width <= |file| && file[4096..4096 + width] == ValuesUpTo(l, file, n)
  {
    if n > 0 {
      var k, s := l.k0 + n - 1, KvSize(l);
      assert width == (n - 1) * s + s;
      Bounds(l, k);
      ValuesInOrder(l, file, n - 1, (n - 1) * s);
      assert file[4096..4096 + width] == file[4096..4096 + (n - 1) * s] + file[KvOffset(l, k)..KvOffset(l, k) + s];
    }
  }

  lemma {:induction false} MetasInOrder(l: Layout, file: Data, n: nat, at: nat)
    requires Proper(l) && |file| == FileSize(l) && n <= l.kn && at == 4096 + l.kn * KvSize(l)
    requires at + l.kn * 32 <= |file|
    ensures file[at..at + n * 32] == MetasUpTo(l, file, n)
  {
    if n > 0 {
      var k := l.k0 + n - 1;
      Bounds(l, k);
      MetasInOrder(l, file, n - 1, at);
      assert file[at..at + n * 32] == file[at..at + (n - 1) * 32] + file[MetaOffset(l, k)..MetaOffset(l, k) + 32];
    }
  }
}
