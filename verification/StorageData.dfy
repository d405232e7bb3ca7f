/**
 What the storage files hold, beyond the hashes: exactly which empty blobs a fill writes, and that in every run each
 filled record has the bytes of a blob that was handed over for its index and hash.
 */
module StorageData {
  import opened Bytes
  import opened Disk
  import opened Downloads
  import opened Options
  import opened StorageView
  import opened StorageRuns

  // ---------------------------------------------------------------- empty fills

  /** The contract has no hash for the index. */
  ghost predicate Empty(h: History, l1: int, x: nat)
    requires Genuine(h)
  {
    ContractHash(h, l1, x) == Zeros(HASH_SIZE)
  }

  ghost function EmptyIn(h: History, l1: int, i: nat, n: nat): set<nat>
    requires Genuine(h)
  {
    set x: nat | i <= x < n && Empty(h, l1, x)
  }

  /** An empty blob that is still to be written and does not fit. */
  ghost predicate Stuck(h: History, m: Manager, kvSize: nat, enc: Encoder, x: nat)
    requires Genuine(h) && MetasSized(m.disk)
  {
    Empty(h, m.localL1, x) && !HoldsHash(h, m, x) && |enc(x)| > kvSize
  }

  /** The record of an index after its empty blob has been seen to. */
  ghost function WithEmpty(h: History, m: Manager, kvSize: nat, enc: Encoder, x: nat): Record
    requires Genuine(h) && MetasSized(m.disk) && x in m.disk
  {
    if Empty(h, m.localL1, x) && !HoldsHash(h, m, x) && |enc(x)| <= kvSize
    then Record(Pad(enc(x), kvSize), PrepareCommit(Zeros(META_SIZE)))
    else m.disk[x]
  }

  /**
   The fill has passed exactly [i, n). It has counted the indices there that the contract has empty, and written an
   empty blob for each of them that had none; nothing else has changed.
   */
  ghost predicate FilledUp(h: History, m: Manager, kvSize: nat, enc: Encoder, i: nat, n: nat, f: Filled)
    requires Genuine(h) && MetasSized(m.disk)
  {
    && f.next == n && f.inserted == |EmptyIn(h, m.localL1, i, n)|
    && f.m == m.(disk := f.m.disk) && f.m.disk.Keys == m.disk.Keys
    && (forall x :: x in m.disk && i <= x < n ==> f.m.disk[x] == WithEmpty(h, m, kvSize, enc, x))
    && (forall x :: x in m.disk && !(i <= x < n) ==> f.m.disk[x] == m.disk[x])
  }

  /** n is the first index from i on that is stuck, or the end. */
  ghost predicate StopsAt(h: History, m: Manager, kvSize: nat, enc: Encoder, i: nat, end: nat, n: nat)
    requires Genuine(h) && MetasSized(m.disk)
  {
    i <= n <= end && (forall x :: i <= x < n ==> !Stuck(h, m, kvSize, enc, x))
    && (n < end ==> Stuck(h, m, kvSize, enc, n))
  }

  /** One index of the fill. */
  lemma FillOneExact(h: History, top: int, m: Manager, kvSize: nat, enc: Encoder, i: nat, meta: Data)
    requires ViewInv(h, top, m) && i in m.disk && MetaAt(h, m.localL1, i, meta)
    ensures var (m1, o) := CommitEncoded(m, kvSize, i, enc(i), Zeros(META_SIZE), meta);
            && (o.Failed? <==> Stuck(h, m, kvSize, enc, i))
            && (o.Committed? <==> Empty(h, m.localL1, i) && !Stuck(h, m, kvSize, enc, i))
            && m1 == m.(disk := m.disk[i := WithEmpty(h, m, kvSize, enc, i)])
  {
    assert Zeros(META_SIZE)[..HASH_SIZE] == Zeros(HASH_SIZE);
    CommitStores(h, top, m, kvSize, i, enc(i), Zeros(META_SIZE), meta);
    CommitEncodedInv(h, top, m, kvSize, i, enc(i), Zeros(META_SIZE), meta);
    var (m1, o) := CommitEncoded(m, kvSize, i, enc(i), Zeros(META_SIZE), meta);
    assert m1.disk == m.disk[i := WithEmpty(h, m, kvSize, enc, i)];
  }

  /** What the fill looks at is the same after a change of an earlier record. */
  lemma OthersAlike(h: History, m: Manager, m1: Manager, kvSize: nat, enc: Encoder, i: nat, x: nat)
    requires Genuine(h) && MetasSized(m.disk) && MetasSized(m1.disk) && m1.localL1 == m.localL1 && x != i
    requires m1.disk.Keys == m.disk.Keys && forall y :: y in m.disk && y != i ==> m1.disk[y] == m.disk[y]
    ensures Stuck(h, m1, kvSize, enc, x) <==> Stuck(h, m, kvSize, enc, x)
    ensures x in m.disk ==> WithEmpty(h, m1, kvSize, enc, x) == WithEmpty(h, m, kvSize, enc, x)
  {
  }

  lemma EmptyInFirst(h: History, l1: int, i: nat, n: nat)
    requires Genuine(h) && i < n
    ensures |EmptyIn(h, l1, i, n)| == |EmptyIn(h, l1, i + 1, n)| + if Empty(h, l1, i) then 1 else 0
  {
    var rest := EmptyIn(h, l1, i + 1, n);
    if Empty(h, l1, i) {
      assert EmptyIn(h, l1, i, n) == rest + {i};
    } else {
      assert EmptyIn(h, l1, i, n) == rest;
    }
  }

  /** The first index, and then the rest. */
  lemma FilledUpFirst(h: History, m: Manager, m1: Manager, kvSize: nat, enc: Encoder, i: nat, n: nat, rest: Filled,
                      f: Filled)
    requires Genuine(h) && MetasSized(m.disk) && MetasSized(m1.disk) && i in m.disk && i < n
    requires m1 == m.(disk := m.disk[i := WithEmpty(h, m, kvSize, enc, i)])
    requires FilledUp(h, m1, kvSize, enc, i + 1, n, rest)
    requires Counted(f, rest, if Empty(h, m.localL1, i) then 1 else 0)
    ensures FilledUp(h, m, kvSize, enc, i, n, f)
  {
    EmptyInFirst(h, m.localL1, i, n);
    assert m1.disk.Keys == m.disk.Keys;
    forall x | x in m.disk && i <= x < n ensures f.m.disk[x] == WithEmpty(h, m, kvSize, enc, x) {
      if x > i { OthersAlike(h, m, m1, kvSize, enc, i, x); }
    }
  }

  lemma FilledUpNothing(h: History, m: Manager, kvSize: nat, enc: Encoder, i: nat)
    requires Genuine(h) && MetasSized(m.disk)
    ensures FilledUp(h, m, kvSize, enc, i, i, Filled(m, 0, i))
  {
    assert EmptyIn(h, m.localL1, i, i) == {};
  }

  lemma {:induction false} FillFromExact(h: History, top: int, m: Manager, kvSize: nat, enc: Encoder, i: nat, end: nat,
                                         metas: seq<Data>, n: nat, f: Filled)
    requires Fillable(h, top, m, i, end, metas) && StopsAt(h, m, kvSize, enc, i, end, n)
    requires f == FillFrom(m, kvSize, enc, i, end, metas)
    ensures FilledUp(h, m, kvSize, enc, i, n, f)
    decreases end - i
  {
    if i == end {
      FilledUpNothing(h, m, kvSize, enc, i);
    } else {
      var (m1, o) := CommitEncoded(m, kvSize, i, enc(i), Zeros(META_SIZE), metas[0]);
      FillOneExact(h, top, m, kvSize, enc, i, metas[0]);
      FillUnfolds(m, kvSize, enc, i, end, metas, f);
      if i == n {
        assert m1.disk == m.disk;
        FilledUpNothing(h, m, kvSize, enc, i);
      } else {
        FillFirst(h, top, m, kvSize, enc, i, end, metas);
        var rest := FillFrom(m1, kvSize, enc, i + 1, end, metas[1..]);
        forall x: nat | x > i ensures Stuck(h, m1, kvSize, enc, x) <==> Stuck(h, m, kvSize, enc, x) {
          OthersAlike(h, m, m1, kvSize, enc, i, x);
        }
        FillFromExact(h, top, m1, kvSize, enc, i + 1, end, metas[1..], n, rest);
        FilledUpFirst(h, m, m1, kvSize, enc, i, n, rest, f);
      }
    }
  }

  /** end is the first index from start on that is beyond limit or not local. */
  predicate LocalUpTo(m: Manager, start: nat, limit: nat, end: nat) {
    && start <= end && (start < end ==> end <= limit + 1) && (forall x :: start <= x < end ==> x in m.disk)
    && (end > limit || end !in m.disk)
  }

  lemma {:induction false} LocalEndIs(m: Manager, start: nat, limit: nat, end: nat)
    requires LocalUpTo(m, start, limit, end)
    ensures LocalEnd(m.disk, start, limit) == end
    decreases end - start
  {
    if start < end {
      assert start in m.disk;
      LocalEndIs(m, start + 1, limit, end);
    }
  }

  /**
   Exactly what a fill of empty blobs does. If the meta of an index is missing, nothing. Otherwise it goes on to the
   first index that is not local, beyond the limit or stuck, and writes an empty blob wherever one is missing.
   */
  lemma CommitEmptyExact(h: History, top: int, m: Manager, kvSize: nat, enc: Encoder, start: nat, limit: nat, end: nat,
                         n: nat)
    requires ViewInv(h, top, m) && LocalUpTo(m, start, limit, end) && StopsAt(h, m, kvSize, enc, start, end, n)
    ensures var f := CommitEmptyBlobs(m, kvSize, enc, start, limit);
            if forall x :: start <= x < end ==> KvMeta(m, x).Some? then FilledUp(h, m, kvSize, enc, start, n, f)
            else f == Filled(m, 0, start)
  {
    LocalEndIs(m, start, limit, end);
    GetKvMetasAt(m, Range(start, end));
    if forall x :: start <= x < end ==> KvMeta(m, x).Some? {
      RangeMetas(h, top, m, start, end);
      var metas := GetKvMetas(m, Range(start, end)).value;
      FillFromExact(h, top, m, kvSize, enc, start, end, metas, n, FillFrom(m, kvSize, enc, start, end, metas));
    } else {
      var x :| start <= x < end && KvMeta(m, x).None?;
      assert Range(start, end)[x - start] == x;
    }
  }

  /** With the entry count that was read: indices below it are passed over, and the rest is filled. */
  lemma FillEmptyExact(h: History, top: int, m: Manager, kvSize: nat, enc: Encoder, countRead: nat, start: nat,
                       limit: nat, from: nat, end: nat, n: nat)
    requires ViewInv(h, top, m) && from == (if start < countRead then countRead else start)
    requires LocalUpTo(m, from, limit, end) && StopsAt(h, m, kvSize, enc, from, end, n)
    ensures var f := FillEmpty(m, kvSize, enc, countRead, start, limit);
            if countRead > limit then f == Filled(m, 0, limit + 1)
            else if forall x :: from <= x < end ==> KvMeta(m, x).Some? then FilledUp(h, m, kvSize, enc, from, n, f)
            else f == Filled(m, 0, from)
  {
    CommitEmptyExact(h, top, m, kvSize, enc, from, limit, end, n);
  }

  // ---------------------------------------------------------------- bytes over runs

  /** Which bytes may be stored for an index with a hash. */
  type Rule = (nat, Data, Data) -> bool

  /** Every filled record has bytes that the rule allows for its index and hash. */
  ghost predicate Follows(rule: Rule, disk: map<nat, Record>)
    requires MetasSized(disk)
  {
    forall k :: k in disk && IsFilled(disk[k].meta) ==> rule(k, disk[k].meta[..HASH_SIZE], disk[k].data)
  }

  /** What is stored for the data is allowed, if the data fits. */
  predicate Allowed(rule: Rule, kvSize: nat, kv: nat, data: Data, commit: Data)
    requires |commit| == META_SIZE
  {
    |data| <= kvSize ==> rule(kv, commit[..HASH_SIZE], Pad(data, kvSize))
  }

  ghost predicate BlobsAllowed(rule: Rule, kvSize: nat, blobs: seq<Blob>)
    requires BlobsOk(blobs)
  {
    forall i :: 0 <= i < |blobs| ==> Allowed(rule, kvSize, blobs[i].kv, blobs[i].data, blobs[i].commit)
  }

  ghost predicate EmptiesAllowed(rule: Rule, kvSize: nat, enc: Encoder) {
    forall x: nat :: Allowed(rule, kvSize, x, enc(x), Zeros(META_SIZE))
  }

  ghost predicate BatchAllowed(rule: Rule, kvSize: nat, kvs: seq<nat>, datas: seq<Data>, commits: seq<Data>)
    requires |kvs| == |datas| == |commits| && forall i :: 0 <= i < |commits| ==> |commits[i]| == META_SIZE
  {
    forall i :: 0 <= i < |kvs| ==> Allowed(rule, kvSize, kvs[i], datas[i], commits[i])
  }

  lemma CommitFollows(rule: Rule, m: Manager, kvSize: nat, kv: nat, data: Data, commit: Data, meta: Data)
    requires MetasSized(m.disk) && Follows(rule, m.disk) && |commit| == META_SIZE && |meta| == META_SIZE
    requires Allowed(rule, kvSize, kv, data, commit)
    ensures var m' := CommitEncoded(m, kvSize, kv, data, commit, meta).0;
            MetasSized(m'.disk) && Follows(rule, m'.disk)
  {
  }

  lemma {:induction false} CommitUpToFollows(rule: Rule, m: Manager, kvSize: nat, blobs: seq<Blob>, metas: seq<Data>,
                                             k: nat)
    requires MetasSized(m.disk) && Follows(rule, m.disk) && BlobsOk(blobs) && BlobsAllowed(rule, kvSize, blobs)
    requires k <= |blobs| == |metas| && forall i :: 0 <= i < |metas| ==> |metas[i]| == META_SIZE
    ensures Follows(rule, CommitUpTo(m, kvSize, blobs, metas, k).0.disk)
  {
    if k > 0 {
      CommitUpToFollows(rule, m, kvSize, blobs, metas, k - 1);
      var b, m1 := blobs[k - 1], CommitUpTo(m, kvSize, blobs, metas, k - 1).0;
      CommitFollows(rule, m1, kvSize, b.kv, b.data, b.commit, metas[k - 1]);
    }
  }

  lemma CommitBlobsFollows(rule: Rule, m: Manager, kvSize: nat, blobs: seq<Blob>)
    requires MetasSized(m.disk) && ValuesSized(m.blobMetas) && Follows(rule, m.disk)
    requires BlobsOk(blobs) && BlobsAllowed(rule, kvSize, blobs)
    ensures var m' := CommitBlobs(m, kvSize, blobs).0;
            MetasSized(m'.disk) && Follows(rule, m'.disk)
  {
    var metas := GetKvMetas(m, Kvs(blobs));
    if metas.Some? {
      MetasAreSized(m, Kvs(blobs));
      CommitUpToFollows(rule, m, kvSize, blobs, metas.value, |blobs|);
    }
  }

  lemma {:induction false} FillFromFollows(rule: Rule, m: Manager, kvSize: nat, enc: Encoder, i: nat, end: nat,
                                           metas: seq<Data>, f: Filled)
    requires MetasSized(m.disk) && Follows(rule, m.disk) && EmptiesAllowed(rule, kvSize, enc)
    requires i <= end && |metas| == end - i && forall j :: 0 <= j < |metas| ==> |metas[j]| == META_SIZE
    requires f == FillFrom(m, kvSize, enc, i, end, metas)
    ensures MetasSized(f.m.disk) && Follows(rule, f.m.disk)
    decreases end - i
  {
    if i < end {
      FillUnfolds(m, kvSize, enc, i, end, metas, f);
      CommitFollows(rule, m, kvSize, i, enc(i), Zeros(META_SIZE), metas[0]);
      var (m1, o) := CommitEncoded(m, kvSize, i, enc(i), Zeros(META_SIZE), metas[0]);
      if !o.Failed? {
        FillFromFollows(rule, m1, kvSize, enc, i + 1, end, metas[1..],
                        FillFrom(m1, kvSize, enc, i + 1, end, metas[1..]));
      }
    }
  }

  lemma FillEmptyFollows(rule: Rule, m: Manager, kvSize: nat, enc: Encoder, countRead: nat, start: nat, limit: nat)
    requires MetasSized(m.disk) && ValuesSized(m.blobMetas) && Follows(rule, m.disk)
    requires EmptiesAllowed(rule, kvSize, enc)
    ensures var m' := FillEmpty(m, kvSize, enc, countRead, start, limit).m;
            MetasSized(m'.disk) && Follows(rule, m'.disk)
  {
    if countRead <= limit {
      var from := if start < countRead then countRead else start;
      LocalEndAt(m.disk, from, limit);
      var end := LocalEnd(m.disk, from, limit);
      var metas := GetKvMetas(m, Range(from, end));
      if metas.Some? {
        MetasAreSized(m, Range(from, end));
        FillFromFollows(rule, m, kvSize, enc, from, end, metas.value, FillFrom(m, kvSize, enc, from, end, metas.value));
      }
    }
  }

  lemma BatchFollows(rule: Rule, h: History, m: Manager, kvSize: nat, threads: nat, newL1: int, kvs: seq<nat>,
                     datas: seq<Data>, commits: seq<Data>)
    requires MetasSized(m.disk) && Follows(rule, m.disk) && threads > 0
    requires BatchRight(h, m, kvSize, newL1, kvs, datas, commits) && BatchAllowed(rule, kvSize, kvs, datas, commits)
    ensures var after := AfterBatch(m.disk, kvSize, Items(kvs, datas, commits), threads);
            MetasSized(after) && Follows(rule, after)
  {
    var after := AfterBatch(m.disk, kvSize, Items(kvs, datas, commits), threads);
    BatchOnDisk(m.disk, kvSize, threads, kvs, datas, commits, 0);
    forall k | k in after
      ensures |after[k].meta| == META_SIZE
      ensures IsFilled(after[k].meta) ==> rule(k, after[k].meta[..HASH_SIZE], after[k].data)
    {
      BatchOnDisk(m.disk, kvSize, threads, kvs, datas, commits, k);
      if k in kvs {
        var i :| 0 <= i < |kvs| && kvs[i] == k;
        assert Allowed(rule, kvSize, kvs[i], datas[i], commits[i]);
      }
    }
  }

  /** All that a step hands over is allowed. */
  ghost predicate Brings(rule: Rule, u: Setup, v: View, step: Step)
    requires Enabled(u, v, step)
  {
    match step
    case Download(_, kvs, datas, commits) => BatchAllowed(rule, u.kvSize, kvs, datas, commits)
    case DownloadFails(_, kvs, datas, commits) => BatchAllowed(rule, u.kvSize, kvs, datas, commits)
    case Commit(blobs) => BlobsAllowed(rule, u.kvSize, blobs)
    case Fill(_, _, _) => EmptiesAllowed(rule, u.kvSize, u.enc)
    case _ => true
  }

  lemma StepFollows(rule: Rule, u: Setup, v: View, step: Step)
    requires Ok(u, v) && Enabled(u, v, step) && Brings(rule, u, v, step) && Follows(rule, v.m.disk)
    ensures Ok(u, Next(u, v, step)) && Follows(rule, Next(u, v, step).m.disk)
  {
    StepInv(u, v, step);
    match step
    case Download(newL1, kvs, datas, commits) =>
      BatchFollows(rule, u.h, v.m, u.kvSize, u.threads, newL1, kvs, datas, commits);
    case DownloadFails(newL1, kvs, datas, commits) =>
      BatchFollows(rule, u.h, v.m, u.kvSize, u.threads, newL1, kvs, datas, commits);
    case Commit(blobs) => CommitBlobsFollows(rule, v.m, u.kvSize, blobs);
    case Fill(countRead, start, limit) => FillEmptyFollows(rule, v.m, u.kvSize, u.enc, countRead, start, limit);
    case _ =>
  }

  ghost predicate AllBring(rule: Rule, u: Setup, v: View, run: seq<Step>)
    requires Legal(u, v, run)
    decreases |run|
  {
    run == [] || (Brings(rule, u, v, run[0]) && AllBring(rule, u, Next(u, v, run[0]), run[1..]))
  }

  /**
   Whatever relates index, hash and bytes of all blobs that are handed over, in downloads, failed ones included, by
   peers and as empty blobs, relates index, hash and bytes of every filled record after any run.
   */
  lemma {:induction false} RunFollows(rule: Rule, u: Setup, v: View, run: seq<Step>)
    requires Ok(u, v) && Legal(u, v, run) && AllBring(rule, u, v, run) && Follows(rule, v.m.disk)
    ensures Ok(u, Exec(u, v, run)) && Follows(rule, Exec(u, v, run).m.disk)
    decreases |run|
  {
    if run != [] {
      StepFollows(rule, u, v, run[0]);
      RunFollows(rule, u, Next(u, v, run[0]), run[1..]);
    }
  }
}
