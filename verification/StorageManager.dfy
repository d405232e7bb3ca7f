/**
 The storage manager's code with its loops and updates in place. Each method runs under the manager's mutex and
 is proved to take the view from one value to the next as `StorageView` says.
 */
module StorageManager {
  import opened Arith
  import opened Bytes
  import opened Disk
  import opened Downloads
  import opened Options
  import V = StorageView

  // ---------------------------------------------------------------- one worker after the other

  /** Batch entries written in the order of the given positions. */
  function PutPositions(disk: map<nat, Record>, kvSize: nat, items: seq<Item>, positions: seq<nat>): map<nat, Record>
    requires forall q :: q in positions ==> q < |items|
    decreases |positions|
  {
    if positions == [] then disk
    else
      var q := positions[0];
      assert q in positions && forall r :: r in positions[1..] ==> r in positions;
      PutPositions(Put(disk, kvSize, items[q].kv, items[q].data, items[q].meta), kvSize, items, positions[1..])
  }

  lemma {:induction false} PutPositionsAt(disk: map<nat, Record>, kvSize: nat, items: seq<Item>, positions: seq<nat>,
                                          kv: nat)
    requires DistinctItems(items)
    requires forall q :: q in positions ==> q < |items| && Fits(disk, kvSize, items[q].kv, items[q].data)
    ensures var after := PutPositions(disk, kvSize, items, positions);
            && after.Keys == disk.Keys
            && (forall q :: q in positions && items[q].kv == kv ==>
                              kv in after && |items[q].data| <= kvSize
                                && after[kv] == Record(Pad(items[q].data, kvSize), items[q].meta))
            && (kv in disk && (forall q :: q in positions ==> items[q].kv != kv) ==> after[kv] == disk[kv])
    decreases |positions|
  {
    if positions != [] {
      var q0, rest := positions[0], positions[1..];
      assert q0 in positions && forall r :: r in rest ==> r in positions;
      assert forall r :: r in positions ==> r == q0 || r in rest;
      var d := Put(disk, kvSize, items[q0].kv, items[q0].data, items[q0].meta);
      assert d.Keys == disk.Keys;
      PutPositionsAt(d, kvSize, items, rest, kv);
      if items[q0].kv == kv && q0 !in rest {
        assert forall r :: r in rest ==> items[r].kv != kv;
      }
    }
  }

  /** The stripes of the first w workers, one after the other. */
  function Stripes(disk: map<nat, Record>, kvSize: nat, items: seq<Item>, n: nat, w: nat): seq<nat>
    requires n > 0
  {
    if w == 0 then [] else Stripes(disk, kvSize, items, n, w - 1) + Stripe(disk, kvSize, items, w - 1, n)
  }

  lemma {:induction false} InStripes(disk: map<nat, Record>, kvSize: nat, items: seq<Item>, n: nat, w: nat, q: nat)
    requires n > 0 && w <= n
    ensures q in Stripes(disk, kvSize, items, n, w) <==> q % n < w && WrittenPos(disk, kvSize, items, q, n)
  {
    if w > 0 {
      InStripes(disk, kvSize, items, n, w - 1, q);
      StripeExact(disk, kvSize, items, w - 1, q, n);
      StripeOf(w - 1, q, n);
    }
  }

  lemma {:induction false} PutPositionsConcat(disk: map<nat, Record>, kvSize: nat, items: seq<Item>, a: seq<nat>,
                                              b: seq<nat>)
    requires forall q :: q in a + b ==> q < |items|
    ensures (forall q :: q in a ==> q < |items|) && (forall q :: q in b ==> q < |items|)
    ensures PutPositions(disk, kvSize, items, a + b)
            == PutPositions(PutPositions(disk, kvSize, items, a), kvSize, items, b)
    decreases |a|
  {
    assert (forall q :: q in a ==> q in a + b) && (forall q :: q in b ==> q in a + b);
    if a == [] {
      assert a + b == b;
    } else {
      assert (a + b)[1..] == a[1..] + b && (a + b)[0] == a[0];
      assert forall r :: r in a[1..] ==> r in a;
      var q := a[0];
      assert q in a;
      PutPositionsConcat(Put(disk, kvSize, items[q].kv, items[q].data, items[q].meta), kvSize, items, a[1..], b);
    }
  }

  /** Running the workers one after the other is one of the ways to write a batch. */
  lemma SequentialWorkers(disk: map<nat, Record>, kvSize: nat, items: seq<Item>, n: nat, w: nat)
    requires n > 0 && w <= n && (w == n || w >= |items|) && DistinctItems(items)
    ensures forall q :: q in Stripes(disk, kvSize, items, n, w) ==> q < |items|
    ensures PutPositions(disk, kvSize, items, Stripes(disk, kvSize, items, n, w)) == AfterBatch(disk, kvSize, items, n)
  {
    var positions := Stripes(disk, kvSize, items, n, w);
    forall q: nat ensures q in positions <==> q < |items| && WrittenPos(disk, kvSize, items, q, n) {
      InStripes(disk, kvSize, items, n, w, q);
      if q < |items| && w < n { DivModUnique(q, n, 0, q); }
    }
    var a, b := PutPositions(disk, kvSize, items, positions), AfterBatch(disk, kvSize, items, n);
    PutPositionsAt(disk, kvSize, items, positions, 0);
    PutUpToAt(disk, kvSize, items, n, |items|, 0);
    forall kv | kv in disk ensures a[kv] == b[kv] {
      PutPositionsAt(disk, kvSize, items, positions, kv);
      PutUpToAt(disk, kvSize, items, n, |items|, kv);
    }
  }

  lemma InBatch(disk: map<nat, Record>, kvSize: nat, items: seq<Item>, p: nat, n: nat)
    requires n > 0
    ensures forall q :: q in Stripe(disk, kvSize, items, p, n) ==> q < |items|
  {
    forall q | q in Stripe(disk, kvSize, items, p, n) ensures q < |items| { StripeExact(disk, kvSize, items, p, q, n); }
  }

  /** A stripe without failure at its first entry: that entry, if it is local, and the stripe from the next one. */
  lemma StripeSplit(was: map<nat, Record>, kvSize: nat, items: seq<Item>, p: nat, n: nat, next: nat)
    requires n > 0 && p < |items| && next == p + n && !TooLarge(was, kvSize, items[p])
    ensures Stripe(was, kvSize, items, p, n)
            == (if items[p].kv in was then [p] else []) + Stripe(was, kvSize, items, next, n)
  {
  }

  lemma PutFirst(disk: map<nat, Record>, kvSize: nat, items: seq<Item>, p: nat, head: seq<nat>, tail: seq<nat>)
    requires p < |items| && (forall q :: q in tail ==> q < |items|)
    requires head == (if items[p].kv in disk then [p] else []) + tail
    ensures forall q :: q in head ==> q < |items|
    ensures PutPositions(disk, kvSize, items, head) ==
            PutPositions(Put(disk, kvSize, items[p].kv, items[p].data, items[p].meta), kvSize, items, tail)
  {
    if items[p].kv in disk {
      assert head[0] == p && head[1..] == tail;
    } else {
      assert head == tail;
      assert Put(disk, kvSize, items[p].kv, items[p].data, items[p].meta) == disk;
    }
  }

  /** The first entry of a stripe that does not fail is written before the rest. */
  lemma StripeTurn(was: map<nat, Record>, disk: map<nat, Record>, kvSize: nat, items: seq<Item>, p: nat, n: nat,
                   next: nat)
    requires n > 0 && p < |items| && next == p + n && disk.Keys == was.Keys && !TooLarge(was, kvSize, items[p])
    ensures forall q :: q in Stripe(was, kvSize, items, p, n) ==> q < |items|
    ensures forall q :: q in Stripe(was, kvSize, items, next, n) ==> q < |items|
    ensures PutPositions(disk, kvSize, items, Stripe(was, kvSize, items, p, n)) ==
            PutPositions(Put(disk, kvSize, items[p].kv, items[p].data, items[p].meta), kvSize, items,
                         Stripe(was, kvSize, items, next, n))
  {
    InBatch(was, kvSize, items, next, n);
    StripeSplit(was, kvSize, items, p, n, next);
    assert items[p].kv in disk <==> items[p].kv in was;
    PutFirst(disk, kvSize, items, p, Stripe(was, kvSize, items, p, n), Stripe(was, kvSize, items, next, n));
  }

  /** The metas less those from a up to b. */
  ghost function Without(metas: map<nat, Data>, a: nat, b: nat): map<nat, Data> {
    map k | k in metas && !(a <= k < b) :: metas[k]
  }

  lemma WithoutNext(metas: map<nat, Data>, a: nat, b: nat)
    requires a <= b
    ensures Without(metas, a, b) - {b} == Without(metas, a, b + 1)
  {
  }

  lemma TrimIsWithout(metas: map<nat, Data>, count: nat, i: nat)
    requires V.ValuesSized(metas) && (i == |metas| || |metas| <= i == count)
    ensures Without(metas, count, i) == V.TrimMetas(metas, count)
    ensures V.ValuesSized(Without(metas, count, i))
  {
  }

  // ---------------------------------------------------------------- the manager

  class StorageManager {
    const l1: V.History
    const kvSize: nat
    const downloadThreadNum: nat
    const encodeEmpty: V.Encoder
    var localL1: int
    var kvEntryCount: nat
    var blobMetas: map<nat, Data>
    var disk: map<nat, Record>

    /** The view as a value; fetches belong to the goroutines that make them. */
    ghost function View(): V.Manager
      reads this
    {
      V.Manager(localL1, kvEntryCount, blobMetas, disk, [])
    }

    ghost predicate Valid()
      reads this
    {
      downloadThreadNum > 0 && V.MetasSized(disk) && V.ValuesSized(blobMetas)
    }

    /** Set up the view on the files found at start-up; Reset reads the entry count of the block to start from. */
    constructor (l1: V.History, kvSize: nat, threads: nat, enc: V.Encoder, disk: map<nat, Record>, newL1: int)
      requires threads > 0 && V.MetasSized(disk)
      ensures Valid() && this.l1 == l1 && this.kvSize == kvSize && encodeEmpty == enc && downloadThreadNum == threads
      ensures View() == V.Manager(newL1, l1.count(newL1), map[], disk, [])
    {
      this.l1, this.kvSize, downloadThreadNum, encodeEmpty := l1, kvSize, threads, enc;
      localL1, kvEntryCount, blobMetas := newL1, l1.count(newL1), map[];
      this.disk := disk;
    }

    method GetKvMetas(kvs: seq<nat>) returns (r: Option<seq<Data>>)
      ensures r == V.GetKvMetas(View(), kvs)
    {
      var metas, n := [], 0;
      while n < |kvs|
        invariant n <= |kvs| && V.GetKvMetas(View(), kvs[..n]) == Some(metas)
      {
        var i: nat := kvs[n];
        assert kvs[..n + 1][..n] == kvs[..n];
        if i in blobMetas {
          metas := metas + [blobMetas[i]];
        } else if i >= kvEntryCount {
          metas := metas + [V.LocalMeta(i, Zeros(HASH_SIZE))];
        } else {
          MissingMeta(kvs, n);
          return None;
        }
        n := n + 1;
      }
      assert kvs[..n] == kvs;
      r := Some(metas);
    }

    lemma MissingMeta(kvs: seq<nat>, n: nat)
      requires n < |kvs| && V.KvMeta(View(), kvs[n]).None?
      ensures V.GetKvMetas(View(), kvs).None?
    {
      V.GetKvMetasAt(View(), kvs);
    }

    method CommitEncodedBlob(kv: nat, data: Data, commit: Data, contractMeta: Data) returns (o: V.Outcome)
      requires Valid() && |commit| == META_SIZE && |contractMeta| == META_SIZE
      modifies this`disk
      ensures Valid() && (View(), o) == V.CommitEncoded(old(View()), kvSize, kv, data, commit, contractMeta)
    {
      if contractMeta[META_SIZE - HASH_SIZE..] != commit[..HASH_SIZE] { return V.Mismatch; }
      if kv !in disk { return V.Failed; }
      var contractKvIdx := Number(contractMeta[..V.INDEX_SIZE]);
      if contractKvIdx != kv { return V.Failed; }
      var localMeta := disk[kv].meta;
      if localMeta[..HASH_SIZE] == commit[..HASH_SIZE] && localMeta[HASH_SIZE] & FILLED != 0 { return V.Committed; }
      var c := PrepareCommit(commit);
      if |data| > kvSize { return V.Failed; }
      disk := disk[kv := Record(Pad(data, kvSize), c)];
      o := V.Committed;
    }

    method CommitBlobs(blobs: seq<V.Blob>) returns (inserted: Option<seq<nat>>)
      requires Valid() && V.BlobsOk(blobs)
      modifies this`disk
      ensures Valid() && (View(), inserted) == V.CommitBlobs(old(View()), kvSize, blobs)
    {
      var r := GetKvMetas(V.Kvs(blobs));
      if r.None? { return None; }
      V.MetasAreSized(View(), V.Kvs(blobs));
      var metas, ins, n := r.value, [], 0;
      ghost var was := View();
      while n < |blobs|
        invariant n <= |blobs| && Valid() && disk.Keys == was.disk.Keys
        invariant (View(), ins) == V.CommitUpTo(was, kvSize, blobs, metas, n)
      {
        if blobs[n].kv in disk {
          var o := CommitEncodedBlob(blobs[n].kv, blobs[n].data, blobs[n].commit, metas[n]);
          if o.Committed? { ins := ins + [blobs[n].kv]; }
        }
        n := n + 1;
      }
      inserted := Some(ins);
    }

    method CommitEmptyBlobs(start: nat, limit: nat) returns (inserted: nat, next: nat)
      requires Valid()
      modifies this`disk
      ensures Valid() && V.Filled(View(), inserted, next)
              == V.CommitEmptyBlobs(old(View()), kvSize, encodeEmpty, start, limit)
    {
      var end := LocalEnd(start, limit);
      var r := GetKvMetas(V.Range(start, end));
      if r.None? { return 0, start; }
      V.MetasAreSized(View(), V.Range(start, end));
      inserted, next := FillRange(start, end, r.value);
    }

    /** Encode ahead until an index is not managed here. */
    method LocalEnd(start: nat, limit: nat) returns (end: nat)
      ensures start <= end && end == V.LocalEnd(disk, start, limit)
    {
      end := start;
      while end <= limit && end in disk
        invariant start <= end && V.LocalEnd(disk, end, limit) == V.LocalEnd(disk, start, limit)
        decreases limit + 1 - end
      {
        end := end + 1;
      }
    }

    method FillRange(start: nat, end: nat, metas: seq<Data>) returns (inserted: nat, next: nat)
      requires Valid() && start <= end && |metas| == end - start && forall j :: 0 <= j < |metas| ==>
                 |metas[j]| == META_SIZE
      modifies this`disk
      ensures Valid() && V.Filled(View(), inserted, next)
              == V.FillFrom(old(View()), kvSize, encodeEmpty, start, end, metas)
    {
      inserted, next := 0, start;
      var left := metas;
      ghost var all := V.FillFrom(View(), kvSize, encodeEmpty, start, end, metas);
      ghost var rest := all;
      while next < end
        invariant start <= next <= end && Valid()
        invariant |left| == end - next && forall j :: 0 <= j < |left| ==> |left[j]| == META_SIZE
        invariant rest == V.FillFrom(View(), kvSize, encodeEmpty, next, end, left) && V.Counted(all, rest, inserted)
        decreases end - next
      {
        V.FillUnfolds(View(), kvSize, encodeEmpty, next, end, left, rest);
        var o := CommitEncodedBlob(next, encodeEmpty(next), Zeros(META_SIZE), left[0]);
        if o.Failed? { return; }
        if o.Committed? { inserted := inserted + 1; }
        next, left := next + 1, left[1..];
        rest := V.FillFrom(View(), kvSize, encodeEmpty, next, end, left);
      }
    }

    method FillFileWithEmptyBlob(countRead: nat, start: nat, limit: nat) returns (next: nat)
      requires Valid()
      modifies this`disk
      ensures Valid() && View() == V.FillEmpty(old(View()), kvSize, encodeEmpty, countRead, start, limit).m
      ensures next == V.FillEmpty(old(View()), kvSize, encodeEmpty, countRead, start, limit).next
    {
      if countRead > limit { return limit + 1; }
      var from := start;
      if from < countRead { from := countRead; }
      var inserted;
      inserted, next := CommitEmptyBlobs(from, limit);
    }

    /** What a fetch does when its reply is there: install it, unless the view has moved. */
    method InstallMetas(l1Read: int, from: nat, limit: nat)
      requires Valid() && forall i :: from <= i < limit ==> |l1.meta(l1Read, i)| == META_SIZE
      modifies this`blobMetas
      ensures Valid()
      ensures blobMetas
              == if l1Read == localL1 then V.Install(l1, old(blobMetas), l1Read, from, limit) else old(blobMetas)
    {
      if l1Read != localL1 { return; }
      var i := from;
      while i < limit
        invariant from <= i && Valid()
        invariant V.Install(l1, blobMetas, l1Read, i, limit) == V.Install(l1, old(blobMetas), l1Read, from, limit)
        decreases limit - i
      {
        blobMetas := blobMetas[i := l1.meta(l1Read, i)];
        i := i + 1;
      }
    }

    method UpdateLocalMetas(kvs: seq<nat>, commits: seq<Data>)
      requires Valid() && |kvs| == |commits| && forall i :: 0 <= i < |commits| ==> |commits[i]| == META_SIZE
      modifies this`blobMetas
      ensures Valid() && blobMetas == V.TrimMetas(V.UpdateMetas(old(blobMetas), kvs, commits), kvEntryCount)
    {
      var n := 0;
      while n < |kvs|
        invariant n <= |kvs| && Valid() && blobMetas == V.UpdateMetas(old(blobMetas), kvs[..n], commits[..n])
      {
        assert kvs[..n + 1][..n] == kvs[..n] && commits[..n + 1][..n] == commits[..n];
        blobMetas := blobMetas[kvs[n] := V.LocalMeta(kvs[n], commits[n][..HASH_SIZE])];
        n := n + 1;
      }
      assert kvs[..n] == kvs && commits[..n] == commits;
      TrimLocalMetas();
    }

    /** Drop metas beyond the entry count, looking at indices below the number of metas. */
    method TrimLocalMetas()
      requires Valid()
      modifies this`blobMetas
      ensures Valid() && blobMetas == V.TrimMetas(old(blobMetas), kvEntryCount)
    {
      var localMetaLen, i := |blobMetas|, kvEntryCount;
      ghost var was := blobMetas;
      assert Without(was, kvEntryCount, i) == was;
      while i < localMetaLen
        invariant kvEntryCount <= i && (i <= localMetaLen || i == kvEntryCount)
        invariant blobMetas == Without(was, kvEntryCount, i)
        decreases localMetaLen - i
      {
        WithoutNext(was, kvEntryCount, i);
        blobMetas := blobMetas - {i};
        i := i + 1;
      }
      TrimIsWithout(was, kvEntryCount, i);
    }

    /** Write a batch stripe by stripe; a worker gives up at its first failed write. */
    method WriteBatch(items: seq<Item>)
      requires Valid() && DistinctItems(items) && forall i :: 0 <= i < |items| ==> |items[i].meta| == META_SIZE
      modifies this`disk
      ensures Valid() && disk == AfterBatch(old(disk), kvSize, items, downloadThreadNum)
    {
      var n, taskIdx := downloadThreadNum, 0;
      ghost var was := disk;
      while taskIdx < n && taskIdx < |items|
        invariant taskIdx <= n && Valid() && disk.Keys == was.Keys
        invariant forall q :: q in Stripes(was, kvSize, items, n, taskIdx) ==> q < |items|
        invariant disk == PutPositions(was, kvSize, items, Stripes(was, kvSize, items, n, taskIdx))
        decreases n - taskIdx
      {
        InBatch(was, kvSize, items, taskIdx, n);
        WriteStripe(items, taskIdx, was);
        PutPositionsConcat(was, kvSize, items, Stripes(was, kvSize, items, n, taskIdx),
                           Stripe(was, kvSize, items, taskIdx, n));
        taskIdx := taskIdx + 1;
      }
      SequentialWorkers(was, kvSize, items, n, taskIdx);
    }

    /** The entries of one worker, up to its first failed write. */
    method WriteStripe(items: seq<Item>, taskIdx: nat, ghost was: map<nat, Record>)
      requires Valid() && disk.Keys == was.Keys && forall i :: 0 <= i < |items| ==> |items[i].meta| == META_SIZE
      requires forall q :: q in Stripe(was, kvSize, items, taskIdx, downloadThreadNum) ==> q < |items|
      modifies this`disk
      ensures Valid() && disk.Keys == was.Keys
      ensures disk == PutPositions(old(disk), kvSize, items, Stripe(was, kvSize, items, taskIdx, downloadThreadNum))
    {
      var n, p := downloadThreadNum, taskIdx;
      ghost var all := PutPositions(disk, kvSize, items, Stripe(was, kvSize, items, taskIdx, n));
      while p < |items|
        invariant Valid() && disk.Keys == was.Keys
        invariant forall q :: q in Stripe(was, kvSize, items, p, n) ==> q < |items|
        invariant PutPositions(disk, kvSize, items, Stripe(was, kvSize, items, p, n)) == all
        decreases |items| - p
      {
        if items[p].kv in disk && |items[p].data| > kvSize { break; }
        StripeTurn(was, disk, kvSize, items, p, n, p + n);
        disk := Put(disk, kvSize, items[p].kv, items[p].data, items[p].meta);
        p := p + n;
      }
    }

    /** Returns whether the call reports success; `countRead` is the answer to the entry count query, if any. */
    method DownloadFinished(newL1: int, kvs: seq<nat>, datas: seq<Data>, commits: seq<Data>, countRead: Option<nat>)
        returns (ok: bool)
      requires Valid() && Distinct(kvs)
      requires forall i :: 0 <= i < |commits| ==> |commits[i]| == META_SIZE
      requires countRead.Some? ==> countRead.value == l1.count(newL1)
      modifies this
      ensures Valid()
      ensures ok <==> |kvs| == |datas| == |commits| && newL1 > old(localL1) && countRead.Some?
      ensures ok ==>
                View() == V.DownloadFinished(l1, old(View()), kvSize, downloadThreadNum, newL1, kvs, datas, commits)
      ensures !ok && !(|kvs| == |datas| == |commits| && newL1 > old(localL1)) ==> View() == old(View())
      ensures !ok && |kvs| == |datas| == |commits| && newL1 > old(localL1) ==>
                View() == old(View()).(disk := AfterBatch(old(disk), kvSize, Items(kvs, datas, commits),
                                                          downloadThreadNum))
    {
      if |kvs| != |datas| || |datas| != |commits| { return false; }
      if newL1 <= localL1 { return false; }
      WriteBatch(Items(kvs, datas, commits));
      if countRead.None? { return false; }
      kvEntryCount := countRead.value;
      localL1 := newL1;
      UpdateLocalMetas(kvs, commits);
      ok := true;
    }
  }
}
