/**
 What the storage manager keeps under every interleaving of meta fetches, finished downloads and commits: the
 metas it answers with and the hashes of the blobs it has filled are those of the contract at its L1 view.
 */
module StorageRuns {
  import opened Bytes
  import opened Disk
  import opened Downloads
  import opened Options
  import opened StorageView

  // ---------------------------------------------------------------- the invariant

  /** Metas known for local indices are the contract's, in index and hash. */
  ghost predicate MetasAgree(h: History, m: Manager)
    requires Genuine(h) && ValuesSized(m.blobMetas)
  {
    forall k :: k in m.blobMetas && k in m.disk ==>
                  MetaOk(m.blobMetas[k], k) && HashOf(m.blobMetas[k]) == ContractHash(h, m.localL1, k)
  }

  /** A hash that the contract has for an index at some block from l1 to top. */
  ghost predicate HashWithin(h: History, l1: int, top: int, k: nat, hash: Data)
    requires Genuine(h)
  {
    exists b :: l1 <= b <= top && ContractHash(h, b, k) == hash
  }

  /** A local blob that is filled carries a hash of the contract, no older than the view and no newer than top. */
  ghost predicate DiskAgrees(h: History, l1: int, top: int, disk: map<nat, Record>)
    requires Genuine(h) && MetasSized(disk)
  {
    forall k :: k in disk && IsFilled(disk[k].meta) ==> HashWithin(h, l1, top, k, disk[k].meta[..HASH_SIZE])
  }

  /** What the manager knows of the contract is right for the block of its view. */
  ghost predicate MetasInv(h: History, m: Manager) {
    && Genuine(h) && ValuesSized(m.blobMetas) && MetasSized(m.disk)
    && (forall k :: k in m.disk ==> k < MAX_INDEX)
    && m.kvEntryCount == h.count(m.localL1)
    && (forall j :: 0 <= j < |m.fetches| ==> m.fetches[j].limit <= h.count(m.fetches[j].l1))
    && MetasAgree(h, m)
  }

  /**
   The files may be ahead of the view after a crash or a failed download, up to block top. If top is the block of the
   view itself, each filled blob has the hash that the contract has there.
   */
  ghost predicate ViewInv(h: History, top: int, m: Manager) {
    MetasInv(h, m) && m.localL1 <= top && DiskAgrees(h, m.localL1, top, m.disk)
  }

  lemma CurrentHash(h: History, top: int, m: Manager, k: nat)
    requires ViewInv(h, top, m) && top == m.localL1 && FilledAt(m, k)
    ensures m.disk[k].meta[..HASH_SIZE] == ContractHash(h, m.localL1, k)
  {
    assert HashWithin(h, m.localL1, top, k, m.disk[k].meta[..HASH_SIZE]);
  }

  /** Whenever the manager answers for a local index, it answers what the contract says at its L1 view. */
  lemma MetaIsContracts(h: History, m: Manager, kv: nat)
    requires MetasInv(h, m) && kv in m.disk && KvMeta(m, kv).Some?
    ensures MetaOk(KvMeta(m, kv).value, kv)
    ensures HashOf(KvMeta(m, kv).value) == ContractHash(h, m.localL1, kv)
  {
    if kv !in m.blobMetas { LocalMetaOk(kv, Zeros(HASH_SIZE)); }
  }

  // ---------------------------------------------------------------- fetches

  lemma {:induction false} InstallAt(h: History, metas: map<nat, Data>, l1: int, from: nat, limit: nat, k: nat)
    ensures k in Install(h, metas, l1, from, limit) <==> k in metas || from <= k < limit
    ensures from <= k < limit ==> Install(h, metas, l1, from, limit)[k] == h.meta(l1, k)
    ensures k in metas && !(from <= k < limit) ==> Install(h, metas, l1, from, limit)[k] == metas[k]
    decreases limit - from
  {
    if from < limit {
      InstallAt(h, metas[from := h.meta(l1, from)], l1, from + 1, limit, k);
    }
  }

  lemma BeginFetchInv(h: History, top: int, m: Manager, from: nat, to: nat, batchSize: nat)
    requires ViewInv(h, top, m)
    ensures ViewInv(h, top, BeginFetch(m, from, to, batchSize))
  {
  }

  /** A fetch that ends after the view has moved is dropped; one that ends in time brings the right metas. */
  lemma EndFetchInv(h: History, top: int, m: Manager, j: nat)
    requires ViewInv(h, top, m) && j < |m.fetches|
    ensures ViewInv(h, top, EndFetch(h, m, j))
  {
    var f, m' := m.fetches[j], EndFetch(h, m, j);
    if f.l1 == m.localL1 {
      forall k | k in m'.blobMetas
        ensures |m'.blobMetas[k]| == META_SIZE
        ensures k in m.disk ==> MetaOk(m'.blobMetas[k], k) && HashOf(m'.blobMetas[k]) == ContractHash(h, m.localL1, k)
      {
        InstallAt(h, m.blobMetas, f.l1, f.from, f.limit, k);
      }
    }
  }

  /** Exactly what a fetch brings if the view does not move meanwhile. */
  lemma FetchExact(h: History, m: Manager, from: nat, to: nat, batchSize: nat, k: nat)
    ensures var m1 := BeginFetch(m, from, to, batchSize);
            |m1.fetches| == |m.fetches| + 1 &&
            var m2 := EndFetch(h, m1, |m.fetches|);
            var fetched := from <= k < from + batchSize && k < to && k < m.kvEntryCount;
            && m2 == m.(blobMetas := m2.blobMetas)
            && (k in m2.blobMetas <==> k in m.blobMetas || fetched)
            && (k in m2.blobMetas ==> m2.blobMetas[k] == if fetched then h.meta(m.localL1, k) else m.blobMetas[k])
  {
    var m1, j := BeginFetch(m, from, to, batchSize), |m.fetches|;
    InstallAt(h, m.blobMetas, m.localL1, from, m1.fetches[j].limit, k);
    assert m1.fetches[..j] + m1.fetches[j + 1..] == m.fetches;
  }

  // ---------------------------------------------------------------- commits

  /** The indices whose blob is filled. */
  predicate FilledAt(m: Manager, k: nat)
    requires MetasSized(m.disk)
  {
    k in m.disk && IsFilled(m.disk[k].meta)
  }

  /** Nothing that was filled becomes unfilled, and the set of local indices stays. */
  ghost predicate KeepsFilled(m: Manager, m': Manager)
    requires MetasSized(m.disk) && MetasSized(m'.disk)
  {
    m.disk.Keys == m'.disk.Keys && forall k :: FilledAt(m, k) ==> FilledAt(m', k)
  }

  /** The blob is filled with the hash that the contract has at the view. */
  ghost predicate HoldsHash(h: History, m: Manager, k: nat)
    requires Genuine(h) && MetasSized(m.disk)
  {
    FilledAt(m, k) && m.disk[k].meta[..HASH_SIZE] == ContractHash(h, m.localL1, k)
  }

  /** A local blob with the contract's hash that fits, or that is there already. */
  ghost predicate Acceptable(h: History, m: Manager, kvSize: nat, kv: nat, data: Data, commit: Data)
    requires Genuine(h) && MetasSized(m.disk) && |commit| == META_SIZE
  {
    kv in m.disk && commit[..HASH_SIZE] == ContractHash(h, m.localL1, kv) && (|data| <= kvSize || HoldsHash(h, m, kv))
  }

  /** What a commit writes: the blob and its hash, unless the hash is there already; every other record stays. */
  lemma CommitStores(h: History, top: int, m: Manager, kvSize: nat, kv: nat, data: Data, commit: Data, meta: Data)
    requires ViewInv(h, top, m) && |commit| == META_SIZE && |meta| == META_SIZE
    requires kv in m.disk ==> MetaOk(meta, kv) && HashOf(meta) == ContractHash(h, m.localL1, kv)
    ensures var (m', o) := CommitEncoded(m, kvSize, kv, data, commit, meta);
            && m' == m.(disk := m'.disk)
            && if Acceptable(h, m, kvSize, kv, data, commit) && !HoldsHash(h, m, kv)
               then o.Committed? && m'.disk == m.disk[kv := Record(Pad(data, kvSize), PrepareCommit(commit))]
               else m'.disk == m.disk
  {
  }

  /** A commit succeeds exactly for an acceptable blob, and changes nothing but that blob. */
  lemma CommitEncodedInv(h: History, top: int, m: Manager, kvSize: nat, kv: nat, data: Data, commit: Data, meta: Data)
    requires ViewInv(h, top, m) && |commit| == META_SIZE && |meta| == META_SIZE
    requires kv in m.disk ==> MetaOk(meta, kv) && HashOf(meta) == ContractHash(h, m.localL1, kv)
    ensures var (m', o) := CommitEncoded(m, kvSize, kv, data, commit, meta);
            && ViewInv(h, top, m') && KeepsFilled(m, m') && m' == m.(disk := m'.disk)
            && (forall k :: HoldsHash(h, m', k) <==> HoldsHash(h, m, k) || (k == kv && kv in m.disk && o.Committed?))
            && (kv in m.disk ==> (o.Committed? <==> Acceptable(h, m, kvSize, kv, data, commit)))
            && (kv in m.disk ==> (o.Mismatch? <==> commit[..HASH_SIZE] != ContractHash(h, m.localL1, kv)))
            && (forall k :: k in m.disk && k != kv ==> m'.disk[k] == m.disk[k])
            && (kv in m.disk && o.Committed? && !HoldsHash(h, m, kv) ==>
                  |data| <= kvSize && m'.disk[kv].data == Pad(data, kvSize))
            && (kv in m.disk && (!o.Committed? || HoldsHash(h, m, kv)) ==> m'.disk[kv] == m.disk[kv])
  {
    var (m', o) := CommitEncoded(m, kvSize, kv, data, commit, meta);
    forall k | k in m'.disk && IsFilled(m'.disk[k].meta)
      ensures HashWithin(h, m.localL1, top, k, m'.disk[k].meta[..HASH_SIZE])
    {
      if m'.disk[k] == m.disk[k] {
        assert HashWithin(h, m.localL1, top, k, m.disk[k].meta[..HASH_SIZE]);
      } else {
        assert ContractHash(h, m.localL1, k) == m'.disk[k].meta[..HASH_SIZE];
      }
    }
  }

  /** The metas are those of the contract for the local ones of the blobs. */
  ghost predicate MetasOf(h: History, m: Manager, blobs: seq<Blob>, metas: seq<Data>)
    requires Genuine(h)
  {
    && |blobs| == |metas| && (forall i :: 0 <= i < |metas| ==> |metas[i]| == META_SIZE)
    && (forall i :: 0 <= i < |blobs| && blobs[i].kv in m.disk ==> MetaAt(h, m.localL1, blobs[i].kv, metas[i]))
  }

  /** One of the first n blobs is for index x and acceptable. */
  ghost predicate Offered(h: History, m: Manager, kvSize: nat, blobs: seq<Blob>, n: nat, x: nat)
    requires Genuine(h) && MetasSized(m.disk) && BlobsOk(blobs) && n <= |blobs|
  {
    exists i :: 0 <= i < n && blobs[i].kv == x && Acceptable(h, m, kvSize, x, blobs[i].data, blobs[i].commit)
  }

  lemma OfferedNext(h: History, m: Manager, kvSize: nat, blobs: seq<Blob>, n: nat, x: nat)
    requires Genuine(h) && MetasSized(m.disk) && BlobsOk(blobs) && n < |blobs|
    ensures var b := blobs[n];
            Offered(h, m, kvSize, blobs, n + 1, x) <==>
            Offered(h, m, kvSize, blobs, n, x) || (b.kv == x && Acceptable(h, m, kvSize, x, b.data, b.commit))
  {
  }

  /** The manager and the indices reported after the first k blobs. */
  ghost predicate CommittedTo(h: History, top: int, m: Manager, kvSize: nat, blobs: seq<Blob>, k: nat,
                              m': Manager, ins: seq<nat>)
    requires ViewInv(h, top, m) && BlobsOk(blobs) && k <= |blobs|
  {
    && ViewInv(h, top, m') && KeepsFilled(m, m') && m' == m.(disk := m'.disk)
    && (forall x :: x in ins <==> Offered(h, m, kvSize, blobs, k, x))
    && (forall x :: HoldsHash(h, m', x) <==> HoldsHash(h, m, x) || x in ins)
  }

  lemma CommitNext(h: History, top: int, m: Manager, kvSize: nat, blobs: seq<Blob>, meta: Data, k: nat,
                   m1: Manager, ins: seq<nat>, m2: Manager, ins2: seq<nat>)
    requires ViewInv(h, top, m) && BlobsOk(blobs) && k < |blobs| && CommittedTo(h, top, m, kvSize, blobs, k, m1, ins)
    requires |meta| == META_SIZE && (blobs[k].kv in m.disk ==> MetaAt(h, m.localL1, blobs[k].kv, meta))
    requires (m2, ins2) == CommitOne(m, kvSize, blobs[k], meta, m1, ins)
    ensures CommittedTo(h, top, m, kvSize, blobs, k + 1, m2, ins2)
  {
    var b := blobs[k];
    forall x ensures Offered(h, m, kvSize, blobs, k + 1, x)
                     <==> Offered(h, m, kvSize, blobs, k, x)
                          || (b.kv == x && Acceptable(h, m, kvSize, x, b.data, b.commit))
    {
      OfferedNext(h, m, kvSize, blobs, k, x);
    }
    if b.kv in m.disk { CommitEncodedInv(h, top, m1, kvSize, b.kv, b.data, b.commit, meta); }
  }

  lemma {:induction false} CommitUpToInv(h: History, top: int, m: Manager, kvSize: nat, blobs: seq<Blob>,
                                         metas: seq<Data>, k: nat, m': Manager, ins: seq<nat>)
    requires ViewInv(h, top, m) && BlobsOk(blobs) && MetasOf(h, m, blobs, metas) && k <= |blobs|
    requires (m', ins) == CommitUpTo(m, kvSize, blobs, metas, k)
    ensures CommittedTo(h, top, m, kvSize, blobs, k, m', ins)
  {
    if k == 0 {
      CommittedNone(h, top, m, kvSize, blobs);
    } else {
      var (m1, ins1) := CommitUpTo(m, kvSize, blobs, metas, k - 1);
      CommitUpToInv(h, top, m, kvSize, blobs, metas, k - 1, m1, ins1);
      CommitNext(h, top, m, kvSize, blobs, metas[k - 1], k - 1, m1, ins1, m', ins);
    }
  }

  lemma CommittedNone(h: History, top: int, m: Manager, kvSize: nat, blobs: seq<Blob>)
    requires ViewInv(h, top, m) && BlobsOk(blobs)
    ensures CommittedTo(h, top, m, kvSize, blobs, 0, m, [])
  {
  }

  /**
   Committing peers' blobs keeps the view. Unless a meta is missing, exactly the acceptable blobs are reported as
   inserted, and those reported are then filled with the contract's hash.
   */
  lemma CommitBlobsInv(h: History, top: int, m: Manager, kvSize: nat, blobs: seq<Blob>)
    requires ViewInv(h, top, m) && BlobsOk(blobs)
    ensures var (m', ins) := CommitBlobs(m, kvSize, blobs);
            && ViewInv(h, top, m') && KeepsFilled(m, m') && m' == m.(disk := m'.disk)
            && (ins.None? <==> exists i :: 0 <= i < |blobs| && KvMeta(m, blobs[i].kv).None?)
            && (ins.None? ==> m' == m)
            && (ins.Some? ==>
                  forall x :: && (x in ins.value <==> Offered(h, m, kvSize, blobs, |blobs|, x))
                              && (x in ins.value ==> HoldsHash(h, m', x)))
  {
    var kvs := Kvs(blobs);
    var metas := GetKvMetas(m, kvs);
    GetKvMetasAt(m, kvs);
    assert forall i :: 0 <= i < |blobs| ==> kvs[i] == blobs[i].kv;
    if metas.Some? {
      MetasAreSized(m, kvs);
      forall i | 0 <= i < |blobs| && blobs[i].kv in m.disk ensures MetaAt(h, m.localL1, blobs[i].kv, metas.value[i]) {
        assert KvMeta(m, kvs[i]) == Some(metas.value[i]);
        MetaIsContracts(h, m, blobs[i].kv);
      }
      var (m', ins) := CommitUpTo(m, kvSize, blobs, metas.value, |blobs|);
      CommitUpToInv(h, top, m, kvSize, blobs, metas.value, |blobs|, m', ins);
    } else {
      var i :| 0 <= i < |kvs| && KvMeta(m, kvs[i]).None?;
      assert KvMeta(m, blobs[i].kv).None?;
    }
  }

  // ---------------------------------------------------------------- empty blobs

  /** Why the empty fill may pass an index over. */
  ghost predicate Settled(h: History, m: Manager, count: nat, x: nat)
    requires Genuine(h) && MetasSized(m.disk)
  {
    x < count || FilledAt(m, x) || ContractHash(h, m.localL1, x) != Zeros(HASH_SIZE)
  }

  ghost predicate MetaAt(h: History, l1: int, i: nat, meta: Data)
    requires Genuine(h)
  {
    MetaOk(meta, i) && HashOf(meta) == ContractHash(h, l1, i)
  }

  /** The metas are those of the contract for i, i + 1, ... */
  ghost predicate MetasFrom(h: History, l1: int, i: nat, metas: seq<Data>)
    requires Genuine(h)
    ensures MetasFrom(h, l1, i, metas) ==> forall j :: 0 <= j < |metas| ==> |metas[j]| == META_SIZE
    decreases |metas|
  {
    metas == [] || (MetaAt(h, l1, i, metas[0]) && MetasFrom(h, l1, i + 1, metas[1..]))
  }

  lemma {:induction false} MetasFromEach(h: History, l1: int, i: nat, metas: seq<Data>)
    requires Genuine(h) && forall j :: 0 <= j < |metas| ==> MetaAt(h, l1, i + j, metas[j])
    ensures MetasFrom(h, l1, i, metas)
    decreases |metas|
  {
    if metas != [] {
      var rest := metas[1..];
      assert MetaAt(h, l1, i + 0, metas[0]);
      forall j | 0 <= j < |rest| ensures MetaAt(h, l1, i + 1 + j, rest[j]) {
        assert MetaAt(h, l1, i + (j + 1), metas[j + 1]);
      }
      MetasFromEach(h, l1, i + 1, rest);
    }
  }

  ghost predicate FillOk(h: History, top: int, m: Manager, i: nat, end: nat, f: Filled)
    requires ViewInv(h, top, m)
  {
    && ViewInv(h, top, f.m) && KeepsFilled(m, f.m) && f.m == m.(disk := f.m.disk)
    && i <= f.next <= end && f.inserted <= f.next - i
    && (forall x :: i <= x < f.next ==> Settled(h, f.m, 0, x))
  }

  /** The manager after some commits: the view still agrees, and what was filled is filled. */
  ghost predicate Grows(h: History, top: int, m: Manager, m': Manager)
    requires ViewInv(h, top, m)
  {
    ViewInv(h, top, m') && KeepsFilled(m, m') && m' == m.(disk := m'.disk)
  }

  lemma GrowsSelf(h: History, top: int, m: Manager)
    requires ViewInv(h, top, m)
    ensures Grows(h, top, m, m)
  {
  }

  lemma GrowsOn(h: History, top: int, a: Manager, b: Manager, c: Manager)
    requires ViewInv(h, top, a) && Grows(h, top, a, b) && Grows(h, top, b, c)
    ensures Grows(h, top, a, c)
  {
    assert forall k :: FilledAt(a, k) ==> FilledAt(b, k);
  }

  lemma SettledStays(h: History, top: int, a: Manager, b: Manager, x: nat)
    requires ViewInv(h, top, a) && Grows(h, top, a, b) && Settled(h, a, 0, x)
    ensures Settled(h, b, 0, x)
  {
  }

  ghost predicate Fillable(h: History, top: int, m: Manager, i: nat, end: nat, metas: seq<Data>) {
    && ViewInv(h, top, m) && i <= end && |metas| == end - i && MetasFrom(h, m.localL1, i, metas)
    && (forall j :: i <= j < end ==> j in m.disk)
  }

  /** The first index of the fill, and the fill of the rest. */
  lemma FillFirst(h: History, top: int, m: Manager, kvSize: nat, enc: Encoder, i: nat, end: nat, metas: seq<Data>)
    requires Fillable(h, top, m, i, end, metas) && i < end
    ensures var (m1, o) := CommitEncoded(m, kvSize, i, enc(i), Zeros(META_SIZE), metas[0]);
            Grows(h, top, m, m1)
              && (!o.Failed? ==> Settled(h, m1, 0, i) && Fillable(h, top, m1, i + 1, end, metas[1..]))
  {
    FillOne(h, top, m, kvSize, enc(i), i, metas[0]);
  }

  /** How far the fill from i has come, and the manager it leaves. */
  ghost predicate FillGrows(h: History, top: int, m: Manager, i: nat, end: nat, f: Filled)
    requires ViewInv(h, top, m)
  {
    Grows(h, top, m, f.m) && i <= f.next <= end && f.inserted <= f.next - i
  }

  lemma FillGrowsOn(h: History, top: int, m: Manager, m1: Manager, i: nat, end: nat, rest: Filled, f: Filled)
    requires ViewInv(h, top, m) && Grows(h, top, m, m1) && FillGrows(h, top, m1, i + 1, end, rest)
    requires f.m == rest.m && f.next == rest.next && f.inserted <= rest.inserted + 1
    ensures FillGrows(h, top, m, i, end, f)
  {
    GrowsOn(h, top, m, m1, rest.m);
  }

  lemma {:induction false} FillFromGrows(h: History, top: int, m: Manager, kvSize: nat, enc: Encoder, i: nat, end: nat,
                                         metas: seq<Data>, f: Filled)
    requires Fillable(h, top, m, i, end, metas) && f == FillFrom(m, kvSize, enc, i, end, metas)
    ensures FillGrows(h, top, m, i, end, f)
    decreases end - i
  {
    if i == end {
      GrowsSelf(h, top, m);
    } else {
      var (m1, o) := CommitEncoded(m, kvSize, i, enc(i), Zeros(META_SIZE), metas[0]);
      FillFirst(h, top, m, kvSize, enc, i, end, metas);
      FillUnfolds(m, kvSize, enc, i, end, metas, f);
      if o.Failed? {
        FillGrowsNone(h, top, m, m1, i, end, f);
      } else {
        var rest := FillFrom(m1, kvSize, enc, i + 1, end, metas[1..]);
        FillFromGrows(h, top, m1, kvSize, enc, i + 1, end, metas[1..], rest);
        FillGrowsOn(h, top, m, m1, i, end, rest, f);
      }
    }
  }

  lemma FillGrowsNone(h: History, top: int, m: Manager, m1: Manager, i: nat, end: nat, f: Filled)
    requires ViewInv(h, top, m) && Grows(h, top, m, m1) && f == Filled(m1, 0, i) && i <= end
    ensures FillGrows(h, top, m, i, end, f)
  {
  }

  /** Every index the fill has passed is settled. */
  lemma {:induction false} FillFromSettles(h: History, top: int, m: Manager, kvSize: nat, enc: Encoder, i: nat,
                                           end: nat, metas: seq<Data>, f: Filled, x: nat)
    requires Fillable(h, top, m, i, end, metas) && f == FillFrom(m, kvSize, enc, i, end, metas) && i < end
             && i <= x < f.next
    requires ViewInv(h, top, f.m)
    ensures Settled(h, f.m, 0, x)
    decreases end - i
  {
    FillFirst(h, top, m, kvSize, enc, i, end, metas);
    FillUnfolds(m, kvSize, enc, i, end, metas, f);
    var (m1, o) := CommitEncoded(m, kvSize, i, enc(i), Zeros(META_SIZE), metas[0]);
    assert !o.Failed?;
    var rest := FillFrom(m1, kvSize, enc, i + 1, end, metas[1..]);
    FillFromGrows(h, top, m1, kvSize, enc, i + 1, end, metas[1..], rest);
    if x == i {
      SettledStays(h, top, m1, rest.m, i);
    } else {
      FillFromSettles(h, top, m1, kvSize, enc, i + 1, end, metas[1..], rest, x);
    }
  }

  lemma FillFromInv(h: History, top: int, m: Manager, kvSize: nat, enc: Encoder, i: nat, end: nat, metas: seq<Data>)
    requires Fillable(h, top, m, i, end, metas)
    ensures FillOk(h, top, m, i, end, FillFrom(m, kvSize, enc, i, end, metas))
  {
    var f := FillFrom(m, kvSize, enc, i, end, metas);
    FillFromGrows(h, top, m, kvSize, enc, i, end, metas, f);
    forall x: nat | i <= x < f.next ensures Settled(h, f.m, 0, x) {
      FillFromSettles(h, top, m, kvSize, enc, i, end, metas, f, x);
    }
  }

  /** One index of the empty fill: committed, or passed over for its hash. */
  lemma FillOne(h: History, top: int, m: Manager, kvSize: nat, data: Data, i: nat, meta: Data)
    requires ViewInv(h, top, m) && i in m.disk && MetaOk(meta, i) && HashOf(meta) == ContractHash(h, m.localL1, i)
    ensures var (m1, o) := CommitEncoded(m, kvSize, i, data, Zeros(META_SIZE), meta);
            Grows(h, top, m, m1) && (!o.Failed? ==> Settled(h, m1, 0, i))
  {
    CommitEncodedInv(h, top, m, kvSize, i, data, Zeros(META_SIZE), meta);
    assert Zeros(META_SIZE)[..HASH_SIZE] == Zeros(HASH_SIZE);
  }

  lemma RangeMetas(h: History, top: int, m: Manager, from: nat, end: nat)
    requires ViewInv(h, top, m) && from <= end && GetKvMetas(m, Range(from, end)).Some?
    requires forall j :: from <= j < end ==> j in m.disk
    ensures var metas := GetKvMetas(m, Range(from, end)).value;
            |metas| == end - from && MetasFrom(h, m.localL1, from, metas)
  {
    var kvs := Range(from, end);
    GetKvMetasAt(m, kvs);
    MetasOfRange(h, top, m, from, kvs, GetKvMetas(m, kvs).value);
  }

  lemma MetasOfRange(h: History, top: int, m: Manager, from: nat, kvs: seq<nat>, metas: seq<Data>)
    requires ViewInv(h, top, m) && |metas| == |kvs| && forall j :: 0 <= j < |kvs| ==>
               KvMeta(m, kvs[j]) == Some(metas[j])
    requires forall j :: 0 <= j < |kvs| ==> kvs[j] == from + j && kvs[j] in m.disk
    ensures MetasFrom(h, m.localL1, from, metas)
  {
    forall j | 0 <= j < |metas| ensures MetaAt(h, m.localL1, from + j, metas[j]) {
      assert KvMeta(m, kvs[j]) == Some(metas[j]);
      MetaIsContracts(h, m, kvs[j]);
    }
    MetasFromEach(h, m.localL1, from, metas);
  }

  lemma CommitEmptyInv(h: History, top: int, m: Manager, kvSize: nat, enc: Encoder, start: nat, limit: nat)
    requires ViewInv(h, top, m) && start <= limit + 1
    ensures FillOk(h, top, m, start, limit + 1, CommitEmptyBlobs(m, kvSize, enc, start, limit))
  {
    LocalEndAt(m.disk, start, limit);
    var end := LocalEnd(m.disk, start, limit);
    if GetKvMetas(m, Range(start, end)).Some? {
      RangeMetas(h, top, m, start, end);
      var metas := GetKvMetas(m, Range(start, end)).value;
      FillFromInv(h, top, m, kvSize, enc, start, end, metas);
    }
  }

  /** Filling empty blobs keeps the view, and passes over nothing without a reason. */
  lemma FillEmptyInv(h: History, top: int, m: Manager, kvSize: nat, enc: Encoder, countRead: nat, start: nat,
                     limit: nat)
    requires ViewInv(h, top, m) && start <= limit + 1
    ensures var f := FillEmpty(m, kvSize, enc, countRead, start, limit);
            && ViewInv(h, top, f.m) && KeepsFilled(m, f.m) && f.m == m.(disk := f.m.disk)
            && start <= f.next <= limit + 1
            && (forall x :: start <= x < f.next ==> Settled(h, f.m, countRead, x))
  {
    if countRead <= limit {
      var from := if start < countRead then countRead else start;
      CommitEmptyInv(h, top, m, kvSize, enc, from, limit);
      var f := CommitEmptyBlobs(m, kvSize, enc, from, limit);
      forall x | start <= x < f.next ensures Settled(h, f.m, countRead, x) {
        if x >= from { assert Settled(h, f.m, 0, x); }
      }
    }
  }

  // ---------------------------------------------------------------- finished downloads

  /** Nothing but hashes of the contract at the block the batch is for. */
  ghost predicate BatchRight(h: History, m: Manager, kvSize: nat, newL1: int, kvs: seq<nat>, datas: seq<Data>,
                             commits: seq<Data>)
  {
    && Genuine(h) && |kvs| == |datas| == |commits| && Distinct(kvs)
    && (forall i :: 0 <= i < |commits| ==> |commits[i]| == META_SIZE)
    && (forall i :: 0 <= i < |kvs| && kvs[i] in m.disk ==> |datas[i]| <= kvSize)
    && (forall i :: 0 <= i < |kvs| && kvs[i] in m.disk ==> commits[i][..HASH_SIZE] == ContractHash(h, newL1, kvs[i]))
  }

  /**
   The batch has every local index whose hash changed since the manager's view. While files are ahead of the view, that
   includes an index whose hash changed and changed back.
   */
  ghost predicate BatchCovers(h: History, top: int, m: Manager, newL1: int, kvs: seq<nat>)
    requires Genuine(h)
  {
    forall k, b :: k in m.disk && k !in kvs && (b == newL1 || m.localL1 <= b <= Lower(newL1, top)) ==>
      ContractHash(h, b, k) == ContractHash(h, m.localL1, k)
  }

  function Lower(a: int, b: int): int { if a < b then a else b }

  function Higher(a: int, b: int): int { if a < b then b else a }

  ghost predicate BatchOk(h: History, top: int, m: Manager, kvSize: nat, newL1: int,
                          kvs: seq<nat>, datas: seq<Data>, commits: seq<Data>)
  {
    BatchRight(h, m, kvSize, newL1, kvs, datas, commits) && BatchCovers(h, top, m, newL1, kvs)
  }

  lemma {:induction false} UpdateMetasAt(metas: map<nat, Data>, kvs: seq<nat>, commits: seq<Data>, k: nat)
    requires |kvs| == |commits| && Distinct(kvs) && forall i :: 0 <= i < |commits| ==> |commits[i]| == META_SIZE
    ensures k in UpdateMetas(metas, kvs, commits) <==> k in metas || k in kvs
    ensures forall i :: 0 <= i < |kvs| && kvs[i] == k ==>
              UpdateMetas(metas, kvs, commits)[k] == LocalMeta(k, commits[i][..HASH_SIZE])
    ensures k in metas && k !in kvs ==> UpdateMetas(metas, kvs, commits)[k] == metas[k]
  {
    if kvs != [] {
      var n := |kvs| - 1;
      assert kvs == kvs[..n] + [kvs[n]];
      UpdateMetasAt(metas, kvs[..n], commits[..n], k);
      forall i | 0 <= i < n && kvs[i] == k
        ensures k in kvs[..n] && UpdateMetas(metas, kvs, commits)[k] == LocalMeta(k, commits[i][..HASH_SIZE])
      {
        assert kvs[..n][i] == k && commits[..n][i] == commits[i] && kvs[n] != k;
      }
    }
  }

  /** The files after a batch that fits: the batch's entries, and the rest as before. */
  lemma BatchOnDisk(disk: map<nat, Record>, kvSize: nat, threads: nat, kvs: seq<nat>, datas: seq<Data>,
                    commits: seq<Data>, k: nat)
    requires threads > 0 && |kvs| == |datas| == |commits| && Distinct(kvs)
    requires forall i :: 0 <= i < |commits| ==> |commits[i]| == META_SIZE
    requires forall i :: 0 <= i < |kvs| && kvs[i] in disk ==> |datas[i]| <= kvSize
    ensures var after := AfterBatch(disk, kvSize, Items(kvs, datas, commits), threads);
            && after.Keys == disk.Keys
            && (forall i :: 0 <= i < |kvs| && kvs[i] == k && k in disk ==>
                              after[k] == Record(Pad(datas[i], kvSize), PrepareCommit(commits[i])))
            && (k in disk && k !in kvs ==> after[k] == disk[k])
  {
    var items := Items(kvs, datas, commits);
    assert DistinctItems(items);
    PutUpToAt(disk, kvSize, items, threads, |items|, k);
    forall i | 0 <= i < |kvs| && kvs[i] == k && k in disk
      ensures AfterBatch(disk, kvSize, items, threads)[k] == Record(Pad(datas[i], kvSize), PrepareCommit(commits[i]))
    {
      EntryAfterBatch(disk, kvSize, items, threads, i);
      assert forall j :: 0 <= j < i ==> !TooLarge(disk, kvSize, items[j]);
    }
    if k in disk && k !in kvs {
      forall q | 0 <= q < |items| ensures items[q].kv != k { assert items[q].kv == kvs[q]; }
    }
  }

  /** The files after a batch, with the view still where it was. */
  lemma WrittenDisk(h: History, top: int, m: Manager, kvSize: nat, threads: nat, newL1: int,
                    kvs: seq<nat>, datas: seq<Data>, commits: seq<Data>)
    requires ViewInv(h, top, m) && threads > 0 && newL1 > m.localL1
    requires BatchRight(h, m, kvSize, newL1, kvs, datas, commits)
    ensures var after := AfterBatch(m.disk, kvSize, Items(kvs, datas, commits), threads);
            && after.Keys == m.disk.Keys && MetasSized(after) && DiskAgrees(h, m.localL1, Higher(top, newL1), after)
            && (forall k :: k in m.disk && (k in kvs || IsFilled(m.disk[k].meta)) ==> IsFilled(after[k].meta))
            && (forall k :: k in m.disk && k in kvs ==> after[k].meta[..HASH_SIZE] == ContractHash(h, newL1, k))
            && (forall k :: k in m.disk && k !in kvs ==> after[k] == m.disk[k])
  {
    var after := AfterBatch(m.disk, kvSize, Items(kvs, datas, commits), threads);
    BatchOnDisk(m.disk, kvSize, threads, kvs, datas, commits, 0);
    forall k | k in m.disk
      ensures |after[k].meta| == META_SIZE && (IsFilled(m.disk[k].meta) || k in kvs ==> IsFilled(after[k].meta))
      ensures if k in kvs then after[k].meta[..HASH_SIZE] == ContractHash(h, newL1, k) else after[k] == m.disk[k]
      ensures IsFilled(after[k].meta) ==> HashWithin(h, m.localL1, Higher(top, newL1), k, after[k].meta[..HASH_SIZE])
    {
      BatchOnDisk(m.disk, kvSize, threads, kvs, datas, commits, k);
      if k in kvs {
        var i :| 0 <= i < |kvs| && kvs[i] == k;
        assert after[k] == Record(Pad(datas[i], kvSize), PrepareCommit(commits[i]));
      } else if IsFilled(after[k].meta) {
        assert HashWithin(h, m.localL1, top, k, m.disk[k].meta[..HASH_SIZE]);
      }
    }
  }

  /** The files after a batch that has every change, seen from the new block. */
  lemma DownloadedDisk(h: History, top: int, m: Manager, kvSize: nat, threads: nat, newL1: int,
                       kvs: seq<nat>, datas: seq<Data>, commits: seq<Data>)
    requires ViewInv(h, top, m) && threads > 0 && newL1 > m.localL1
             && BatchOk(h, top, m, kvSize, newL1, kvs, datas, commits)
    ensures var after := AfterBatch(m.disk, kvSize, Items(kvs, datas, commits), threads);
            && after.Keys == m.disk.Keys && MetasSized(after) && DiskAgrees(h, newL1, Higher(top, newL1), after)
            && (forall k :: k in m.disk && IsFilled(m.disk[k].meta) ==> IsFilled(after[k].meta))
  {
    var after := AfterBatch(m.disk, kvSize, Items(kvs, datas, commits), threads);
    WrittenDisk(h, top, m, kvSize, threads, newL1, kvs, datas, commits);
    forall k | k in after && IsFilled(after[k].meta)
      ensures HashWithin(h, newL1, Higher(top, newL1), k, after[k].meta[..HASH_SIZE])
    {
      if k in kvs {
        assert ContractHash(h, newL1, k) == after[k].meta[..HASH_SIZE];
      } else {
        assert HashWithin(h, m.localL1, top, k, m.disk[k].meta[..HASH_SIZE]);
        var b :| m.localL1 <= b <= top && ContractHash(h, b, k) == m.disk[k].meta[..HASH_SIZE];
        assert b <= newL1 ==> ContractHash(h, b, k) == ContractHash(h, newL1, k);
      }
    }
  }

  /** A finished download moves files, metas and entry count to the new block together. */
  lemma DownloadFinishedInv(h: History, top: int, m: Manager, kvSize: nat, threads: nat, newL1: int,
                            kvs: seq<nat>, datas: seq<Data>, commits: seq<Data>)
    requires ViewInv(h, top, m) && threads > 0 && newL1 > m.localL1
             && BatchOk(h, top, m, kvSize, newL1, kvs, datas, commits)
    ensures var m' := DownloadFinished(h, m, kvSize, threads, newL1, kvs, datas, commits);
            ViewInv(h, Higher(top, newL1), m') && KeepsFilled(m, m')
  {
    var m' := DownloadFinished(h, m, kvSize, threads, newL1, kvs, datas, commits);
    DownloadedDisk(h, top, m, kvSize, threads, newL1, kvs, datas, commits);
    var updated := UpdateMetas(m.blobMetas, kvs, commits);
    forall k | k in m'.blobMetas
      ensures |m'.blobMetas[k]| == META_SIZE
      ensures k in m'.disk ==> MetaOk(m'.blobMetas[k], k) && HashOf(m'.blobMetas[k]) == ContractHash(h, newL1, k)
    {
      UpdateMetasAt(m.blobMetas, kvs, commits, k);
      assert m'.blobMetas[k] == updated[k];
      if k in kvs {
        var i :| 0 <= i < |kvs| && kvs[i] == k;
        if k in m.disk { LocalMetaOk(k, commits[i][..HASH_SIZE]); }
      }
    }
  }

  /**
   A download that writes its batch, or a part of it, and then fails leaves the view behind. The filled blobs
   still match the view exactly when every local blob written has the hash the old view had.
   */
  lemma FailedDownload(h: History, m: Manager, kvSize: nat, threads: nat, kvs: seq<nat>, datas: seq<Data>,
                       commits: seq<Data>)
    requires ViewInv(h, m.localL1, m) && threads > 0 && |kvs| == |datas| == |commits| && Distinct(kvs)
    requires forall i :: 0 <= i < |commits| ==> |commits[i]| == META_SIZE
    requires forall i :: 0 <= i < |kvs| && kvs[i] in m.disk ==> |datas[i]| <= kvSize
    ensures var after := AfterBatch(m.disk, kvSize, Items(kvs, datas, commits), threads);
            && MetasSized(after)
            && (DiskAgrees(h, m.localL1, m.localL1, after) <==>
                forall i :: 0 <= i < |kvs| && kvs[i] in m.disk ==>
                    commits[i][..HASH_SIZE] == ContractHash(h, m.localL1, kvs[i]))
  {
    var after := AfterBatch(m.disk, kvSize, Items(kvs, datas, commits), threads);
    BatchOnDisk(m.disk, kvSize, threads, kvs, datas, commits, 0);
    forall k | k in m.disk
      ensures |after[k].meta| == META_SIZE
      ensures k !in kvs ==> after[k] == m.disk[k]
    {
      BatchOnDisk(m.disk, kvSize, threads, kvs, datas, commits, k);
      if k in kvs { var i :| 0 <= i < |kvs| && kvs[i] == k; }
    }
    forall i | 0 <= i < |kvs| && kvs[i] in m.disk
      ensures after[kvs[i]].meta == PrepareCommit(commits[i])
    {
      BatchOnDisk(m.disk, kvSize, threads, kvs, datas, commits, kvs[i]);
    }
    if DiskAgrees(h, m.localL1, m.localL1, after) {
      forall i | 0 <= i < |kvs| && kvs[i] in m.disk
        ensures commits[i][..HASH_SIZE] == ContractHash(h, m.localL1, kvs[i])
      {
        assert kvs[i] in after && IsFilled(after[kvs[i]].meta);
        assert HashWithin(h, m.localL1, m.localL1, kvs[i], after[kvs[i]].meta[..HASH_SIZE]);
      }
    }
    if forall i :: 0 <= i < |kvs| && kvs[i] in m.disk ==>
        commits[i][..HASH_SIZE] == ContractHash(h, m.localL1, kvs[i]) {
      forall k | k in after && IsFilled(after[k].meta)
        ensures HashWithin(h, m.localL1, m.localL1, k, after[k].meta[..HASH_SIZE])
      {
        if k in kvs {
          var i :| 0 <= i < |kvs| && kvs[i] == k;
          assert ContractHash(h, m.localL1, k) == after[k].meta[..HASH_SIZE];
        } else {
          assert HashWithin(h, m.localL1, m.localL1, k, m.disk[k].meta[..HASH_SIZE]);
        }
      }
    }
  }

  // ---------------------------------------------------------------- restarts

  /** A new process: no metas, no fetches, and the view of the given block; the files are as they were. */
  function Restarted(h: History, m: Manager, block: int): Manager {
    Manager(block, h.count(block), map[], m.disk, [])
  }

  /** A restart at a block no newer than the view keeps what is known of the files. */
  lemma RestartInv(h: History, top: int, m: Manager, block: int)
    requires ViewInv(h, top, m) && block <= m.localL1
    ensures ViewInv(h, top, Restarted(h, m, block)) && KeepsFilled(m, Restarted(h, m, block))
  {
    forall k | k in m.disk && IsFilled(m.disk[k].meta)
      ensures HashWithin(h, block, top, k, m.disk[k].meta[..HASH_SIZE])
    {
      assert HashWithin(h, m.localL1, top, k, m.disk[k].meta[..HASH_SIZE]);
    }
  }

  /**
   After a restart at any block, older or newer than the view, the filled blobs match the view if and only if the
   hashes of the filled indices are the same at both blocks.
   */
  lemma RestartExact(h: History, m: Manager, block: int)
    requires ViewInv(h, m.localL1, m)
    ensures ViewInv(h, block, Restarted(h, m, block)) <==>
            forall k :: FilledAt(m, k) ==> ContractHash(h, block, k) == ContractHash(h, m.localL1, k)
  {
    var m' := Restarted(h, m, block);
    forall k | FilledAt(m, k)
      ensures HashWithin(h, block, block, k, m.disk[k].meta[..HASH_SIZE]) <==>
              ContractHash(h, block, k) == ContractHash(h, m.localL1, k)
    {
      CurrentHash(h, m.localL1, m, k);
    }
    if ViewInv(h, block, m') {
      forall k | FilledAt(m, k) ensures ContractHash(h, block, k) == ContractHash(h, m.localL1, k) {
        assert HashWithin(h, block, block, k, m'.disk[k].meta[..HASH_SIZE]);
      }
    }
  }

  /** Reducing a block range's events to one per index carries all its changes. */
  lemma DedupCovers(h: History, top: int, m: Manager, kvSize: nat, newL1: int, events: seq<Event>,
                    kvs: seq<nat>, datas: seq<Data>, commits: seq<Data>)
    requires Genuine(h) && EventsOk(events) && EventsFit(m.disk, kvSize, events) && Deduped(events, kvs, datas, commits)
    requires newL1 > m.localL1
    requires forall k :: k in m.disk && Mentioned(events, k) ==>
               ContractHash(h, newL1, k) == LastEvent(events, k).hash[..HASH_SIZE]
    requires forall k, b :: k in m.disk && !Mentioned(events, k) && m.localL1 <= b <= newL1 ==>
                              ContractHash(h, b, k) == ContractHash(h, m.localL1, k)
    ensures BatchOk(h, top, m, kvSize, newL1, kvs, datas, commits)
  {
    forall i | 0 <= i < |kvs| && kvs[i] in m.disk
      ensures |datas[i]| <= kvSize && commits[i][..HASH_SIZE] == ContractHash(h, newL1, kvs[i])
    {
      var e := LastEvent(events, kvs[i]);
      assert MetaOf(e.hash)[..HASH_SIZE] == e.hash[..HASH_SIZE];
    }
    forall k | k in m.disk && k !in kvs ensures !Mentioned(events, k) {
    }
  }

  // ---------------------------------------------------------------- runs

  datatype Step =
    | StartFetch(from: nat, to: nat, batchSize: nat)
    | FinishFetch(fetch: nat)
    | Download(newL1: int, kvs: seq<nat>, datas: seq<Data>, commits: seq<Data>)
    | DownloadFails(newL1: int, kvs: seq<nat>, datas: seq<Data>, commits: seq<Data>)
    | SaveBlock
    | Restart
    | Commit(blobs: seq<Blob>)
    | Fill(countRead: nat, start: nat, limit: nat)

  datatype Setup = Setup(h: History, kvSize: nat, threads: nat, enc: Encoder)

  /**
   The manager, the block that the downloader has saved to start from, the newest block whose blobs have been written,
   and the block with the largest entry count of those the view has been at.
   */
  datatype View = View(m: Manager, saved: int, top: int, peak: int)

  ghost predicate Ok(u: Setup, v: View) {
    ViewInv(u.h, v.top, v.m) && v.saved <= v.m.localL1 && v.peak <= v.top && v.m.kvEntryCount <= u.h.count(v.peak)
  }

  /** No file is ahead of the view. */
  predicate Current(v: View) { v.top == v.m.localL1 }

  ghost predicate Enabled(u: Setup, v: View, step: Step) {
    match step
    case StartFetch(_, _, _) => true
    case FinishFetch(j) => j < |v.m.fetches|
    case Download(newL1, kvs, datas, commits) =>
      u.threads > 0 && newL1 > v.m.localL1 && BatchOk(u.h, v.top, v.m, u.kvSize, newL1, kvs, datas, commits)
    case DownloadFails(newL1, kvs, datas, commits) =>
      u.threads > 0 && newL1 > v.m.localL1 && BatchRight(u.h, v.m, u.kvSize, newL1, kvs, datas, commits)
    case SaveBlock => true
    case Restart => true
    case Commit(blobs) => BlobsOk(blobs) && MetasSized(v.m.disk) && ValuesSized(v.m.blobMetas)
    case Fill(_, start, limit) => start <= limit + 1 && MetasSized(v.m.disk) && ValuesSized(v.m.blobMetas)
  }

  ghost function Next(u: Setup, v: View, step: Step): View
    requires Enabled(u, v, step)
  {
    match step
    case StartFetch(from, to, batchSize) => v.(m := BeginFetch(v.m, from, to, batchSize))
    case FinishFetch(j) => v.(m := EndFetch(u.h, v.m, j))
    case Download(newL1, kvs, datas, commits) =>
      View(DownloadFinished(u.h, v.m, u.kvSize, u.threads, newL1, kvs, datas, commits), v.saved, Higher(v.top, newL1),
           Peak(u.h, v.peak, newL1))
    case DownloadFails(newL1, kvs, datas, commits) =>
      v.(m := v.m.(disk := AfterBatch(v.m.disk, u.kvSize, Items(kvs, datas, commits), u.threads)),
         top := Higher(v.top, newL1))
    case SaveBlock => v.(saved := v.m.localL1)
    case Restart => v.(m := Restarted(u.h, v.m, v.saved), peak := Peak(u.h, v.peak, v.saved))
    case Commit(blobs) => v.(m := CommitBlobs(v.m, u.kvSize, blobs).0)
    case Fill(countRead, start, limit) => v.(m := FillEmpty(v.m, u.kvSize, u.enc, countRead, start, limit).m)
  }

  function Peak(h: History, a: int, b: int): int { if h.count(a) < h.count(b) then b else a }

  /**
   Every step keeps the view; files get ahead of it only by a crash or a failed download, until a download catches up.
   */
  lemma StepInv(u: Setup, v: View, step: Step)
    requires Ok(u, v) && Enabled(u, v, step)
    ensures var v' := Next(u, v, step);
            && Ok(u, v') && KeepsFilled(v.m, v'.m) && u.h.count(v.peak) <= u.h.count(v'.peak)
            && (Current(v) && !step.DownloadFails? && (step.Restart? ==> v.saved == v.m.localL1) ==> Current(v'))
            && (step.Download? && step.newL1 >= v.top ==> Current(v'))
  {
    match step
    case StartFetch(from, to, batchSize) => BeginFetchInv(u.h, v.top, v.m, from, to, batchSize);
    case FinishFetch(j) => EndFetchInv(u.h, v.top, v.m, j);
    case Download(newL1, kvs, datas, commits) =>
      DownloadFinishedInv(u.h, v.top, v.m, u.kvSize, u.threads, newL1, kvs, datas, commits);
    case DownloadFails(newL1, kvs, datas, commits) =>
      WrittenDisk(u.h, v.top, v.m, u.kvSize, u.threads, newL1, kvs, datas, commits);
    case SaveBlock =>
    case Restart => RestartInv(u.h, v.top, v.m, v.saved);
    case Commit(blobs) => CommitBlobsInv(u.h, v.top, v.m, u.kvSize, blobs);
    case Fill(countRead, start, limit) => FillEmptyInv(u.h, v.top, v.m, u.kvSize, u.enc, countRead, start, limit);
  }

  ghost predicate Legal(u: Setup, v: View, run: seq<Step>)
    decreases |run|
  {
    run == [] || (Enabled(u, v, run[0]) && Legal(u, Next(u, v, run[0]), run[1..]))
  }

  ghost function Exec(u: Setup, v: View, run: seq<Step>): View
    requires Legal(u, v, run)
    decreases |run|
  {
    if run == [] then v else Exec(u, Next(u, v, run[0]), run[1..])
  }

  lemma {:induction false} RunInv(u: Setup, v: View, run: seq<Step>)
    requires Ok(u, v) && Legal(u, v, run)
    ensures Ok(u, Exec(u, v, run)) && KeepsFilled(v.m, Exec(u, v, run).m)
            && u.h.count(v.peak) <= u.h.count(Exec(u, v, run).peak)
    decreases |run|
  {
    if run != [] {
      StepInv(u, v, run[0]);
      RunInv(u, Next(u, v, run[0]), run[1..]);
    }
  }

  /**
   After any run from a manager that starts in agreement with the contract, failed downloads and restarts included: the
   metas it answers with for local indices are the contract's at the block its view has reached. The hashes of its
   filled blobs are the contract's at a block from there up to the newest one written, and at the view's own block once
   it has caught up.
   */
  lemma ViewFollowsContract(u: Setup, v: View, run: seq<Step>, kvs: seq<nat>, i: nat)
    requires Ok(u, v) && Legal(u, v, run) && i < |kvs|
    ensures var v' := Exec(u, v, run);
            var m', answer := v'.m, GetKvMetas(v'.m, kvs);
            && (answer.Some? && kvs[i] in m'.disk ==>
                  && |answer.value| == |kvs| && MetaOk(answer.value[i], kvs[i])
                  && HashOf(answer.value[i]) == ContractHash(u.h, m'.localL1, kvs[i]))
            && MetasSized(m'.disk)
            && (FilledAt(m', kvs[i]) ==>
                  && HashWithin(u.h, m'.localL1, v'.top, kvs[i], m'.disk[kvs[i]].meta[..HASH_SIZE])
                  && (Current(v') ==> m'.disk[kvs[i]].meta[..HASH_SIZE] == ContractHash(u.h, m'.localL1, kvs[i])))
  {
    RunInv(u, v, run);
    var v' := Exec(u, v, run);
    var m' := v'.m;
    GetKvMetasAt(m', kvs);
    if GetKvMetas(m', kvs).Some? && kvs[i] in m'.disk {
      assert KvMeta(m', kvs[i]) == Some(GetKvMetas(m', kvs).value[i]);
      MetaIsContracts(u.h, m', kvs[i]);
    }
    if FilledAt(m', kvs[i]) && Current(v') { CurrentHash(u.h, v'.top, m', kvs[i]); }
  }

  /**
   As long as no download fails and each restart finds the block of the view saved, no file gets ahead of the view.
   */
  ghost predicate Orderly(u: Setup, v: View, run: seq<Step>)
    requires Legal(u, v, run)
    decreases |run|
  {
    run == [] || (!run[0].DownloadFails? && (run[0].Restart? ==> v.saved == v.m.localL1)
                  && Orderly(u, Next(u, v, run[0]), run[1..]))
  }

  lemma {:induction false} OrderlyStaysCurrent(u: Setup, v: View, run: seq<Step>)
    requires Ok(u, v) && Legal(u, v, run) && Current(v) && Orderly(u, v, run)
    ensures Current(Exec(u, v, run))
    decreases |run|
  {
    if run != [] {
      StepInv(u, v, run[0]);
      OrderlyStaysCurrent(u, Next(u, v, run[0]), run[1..]);
    }
  }

  // ---------------------------------------------------------------- limits of the view

  /** A contract whose only entry has a hash that changes with the block. */
  function Changing(): History {
    History(b => 1, (b: int, i: nat) => LocalMeta(if i < 1 then i else 0, HashAt(b)))
  }

  function HashAt(b: int): (hash: Data)
    ensures |hash| == HASH_SIZE
  {
    if b == 0 then Zeros(HASH_SIZE) else Zeros(HASH_SIZE)[0 := 1]
  }

  /** The batch has the index, with the hash that the contract has at the new block. */
  ghost predicate Carried(h: History, newL1: int, kvs: seq<nat>, commits: seq<Data>, k: nat)
    requires Genuine(h) && |kvs| == |commits| && forall i :: 0 <= i < |commits| ==> |commits[i]| == META_SIZE
  {
    exists i :: 0 <= i < |kvs| && kvs[i] == k && commits[i][..HASH_SIZE] == ContractHash(h, newL1, k)
  }

  /** No meta will be cached for the index: there is none and the batch has none, or it is trimmed. */
  ghost predicate Uncached(h: History, m: Manager, newL1: int, kvs: seq<nat>, k: nat) {
    (k !in m.blobMetas && k !in kvs) || h.count(newL1) <= k < |m.blobMetas.Keys + (set x | x in kvs)|
  }

  lemma UpdatedKeys(metas: map<nat, Data>, kvs: seq<nat>, commits: seq<Data>)
    requires |kvs| == |commits| && Distinct(kvs) && forall i :: 0 <= i < |commits| ==> |commits[i]| == META_SIZE
    ensures UpdateMetas(metas, kvs, commits).Keys == metas.Keys + (set x | x in kvs)
    ensures |UpdateMetas(metas, kvs, commits)| == |metas.Keys + (set x | x in kvs)|
  {
    var updated := UpdateMetas(metas, kvs, commits);
    forall k: nat ensures k in updated.Keys <==> k in metas.Keys + (set x | x in kvs) {
      UpdateMetasAt(metas, kvs, commits, k);
    }
  }

  /**
   When an answer after a download is right, for every index, local or not, and every batch: an index without a cached
   meta is beyond the entries and answered rightly. One whose cached meta was right before is answered rightly if and
   only if the batch carries its new hash, or the batch does not mention it and its hash is the same at both blocks.
   */
  lemma AnswerAfterDownload(h: History, m: Manager, kvSize: nat, threads: nat, newL1: int,
                            kvs: seq<nat>, datas: seq<Data>, commits: seq<Data>, k: nat)
    requires Genuine(h) && ValuesSized(m.blobMetas) && threads > 0 && newL1 > m.localL1
    requires |kvs| == |datas| == |commits| && Distinct(kvs)
    requires forall i :: 0 <= i < |commits| ==> |commits[i]| == META_SIZE
    requires k in m.blobMetas ==> HashOf(m.blobMetas[k]) == ContractHash(h, m.localL1, k)
    ensures var m' := DownloadFinished(h, m, kvSize, threads, newL1, kvs, datas, commits);
            KvMeta(m', k).Some? ==>
              && |KvMeta(m', k).value| == META_SIZE
              && (HashOf(KvMeta(m', k).value) == ContractHash(h, newL1, k) <==>
                  || Uncached(h, m, newL1, kvs, k)
                  || Carried(h, newL1, kvs, commits, k)
                  || (k !in kvs && ContractHash(h, m.localL1, k) == ContractHash(h, newL1, k)))
  {
    var m' := DownloadFinished(h, m, kvSize, threads, newL1, kvs, datas, commits);
    UpdateMetasAt(m.blobMetas, kvs, commits, k);
    UpdatedKeys(m.blobMetas, kvs, commits);
    assert k !in m'.blobMetas <==> Uncached(h, m, newL1, kvs, k);
    if k in m'.blobMetas {
      assert m'.blobMetas[k] == UpdateMetas(m.blobMetas, kvs, commits)[k];
      if k in kvs {
        var i :| 0 <= i < |kvs| && kvs[i] == k;
        assert m'.blobMetas[k] == LocalMeta(k, commits[i][..HASH_SIZE]);
      }
    }
  }

  /** An index that is not local may be answered with a stale hash: downloads do not carry its changes. */
  lemma NonLocalMayBeStale()
    ensures var u := Setup(Changing(), 1, 1, i => [0]);
            var v := View(Manager(0, 1, map[], map[], []), 0, 0, 0);
            var run := [StartFetch(0, 1, 1), FinishFetch(0), Download(1, [], [], [])];
            && Ok(u, v) && Legal(u, v, run)
            && KvMeta(Exec(u, v, run).m, 0).Some? && |KvMeta(Exec(u, v, run).m, 0).value| == META_SIZE
            && HashOf(KvMeta(Exec(u, v, run).m, 0).value) != ContractHash(u.h, Exec(u, v, run).m.localL1, 0)
  {
    var h := Changing();
    var u := Setup(h, 1, 1, i => [0]);
    var v0 := View(Manager(0, 1, map[], map[], []), 0, 0, 0);
    var run := [StartFetch(0, 1, 1), FinishFetch(0), Download(1, [], [], [])];
    ChangingIsGenuine();
    var v1 := Next(u, v0, run[0]);
    assert v1.m.fetches == [Fetch(0, 0, 1)];
    var v2 := Next(u, v1, run[1]);
    assert v2.m.blobMetas == map[0 := h.meta(0, 0)];
    var v3 := Next(u, v2, run[2]);
    assert UpdateMetas(v2.m.blobMetas, [], []) == v2.m.blobMetas;
    assert v3.m.blobMetas == v2.m.blobMetas;
    var r1, r2 := run[1..], run[2..];
    assert r2[1..] == [] && r2[0] == run[2] && r1[1..] == r2 && r1[0] == run[1];
    assert Exec(u, v3, []) == v3 && Legal(u, v3, []);
    assert Legal(u, v2, r2) && Exec(u, v2, r2) == v3;
    assert Legal(u, v1, r1) && Exec(u, v1, r1) == v3;
  }

  lemma ChangingIsGenuine()
    ensures Genuine(Changing())
    ensures ContractHash(Changing(), 0, 0) == Zeros(HASH_SIZE) != ContractHash(Changing(), 1, 0)
  {
    var h := Changing();
    forall b: int, i: nat ensures |h.meta(b, i)| == META_SIZE && (i < h.count(b) ==> MetaOk(h.meta(b, i), i)) {
      LocalMetaOk(0, HashAt(b));
    }
    ChangedHash(0);
    ChangedHash(1);
    assert HashAt(0)[0] == 0 != HashAt(1)[0];
  }

  lemma ChangedHash(b: int)
    ensures |Changing().meta(b, 0)| == META_SIZE && ContractHash(Changing(), b, 0) == HashAt(b)
  {
    assert Changing().meta(b, 0) == LocalMeta(0, HashAt(b));
  }

  /** A download that fails after it has written a changed blob leaves that blob ahead of the view. */
  lemma FailedDownloadIsAhead()
    ensures Genuine(Changing())
    ensures var h, m := Changing(), Manager(0, 1, map[], map[0 := Record([7], Zeros(META_SIZE))], []);
            var commits := [ContractHash(h, 1, 0) + Zeros(META_SIZE - HASH_SIZE)];
            && ViewInv(h, 0, m) && BatchRight(h, m, 1, 1, [0], [[8]], commits)
            && MetasSized(AfterBatch(m.disk, 1, Items([0], [[8]], commits), 1))
            && !DiskAgrees(h, 0, 0, AfterBatch(m.disk, 1, Items([0], [[8]], commits), 1))
  {
    var h, m := Changing(), Manager(0, 1, map[], map[0 := Record([7], Zeros(META_SIZE))], []);
    ChangingIsGenuine();
    var hash := ContractHash(h, 1, 0);
    var commits := [hash + Zeros(META_SIZE - HASH_SIZE)];
    assert commits[0][..HASH_SIZE] == hash;
    assert 0 & FILLED == 0;
    FailedDownload(h, m, 1, 1, [0], [[8]], commits);
    assert [0][0] in m.disk;
  }

  /** A restart at a block saved before a blob changed leaves that blob ahead of the view. */
  lemma RestartMayLag()
    ensures Genuine(Changing())
    ensures var h, c := Changing(), ContractHash(Changing(), 1, 0) + Zeros(META_SIZE - HASH_SIZE);
            var m := Manager(1, 1, map[], map[0 := Record([7], PrepareCommit(c))], []);
            ViewInv(h, 1, m) && !ViewInv(h, 0, Restarted(h, m, 0))
  {
    ChangingIsGenuine();
    var h, hash := Changing(), ContractHash(Changing(), 1, 0);
    var c := hash + Zeros(META_SIZE - HASH_SIZE);
    assert c[..HASH_SIZE] == hash;
    var m := Manager(1, 1, map[], map[0 := Record([7], PrepareCommit(c))], []);
    assert FilledAt(m, 0) && HashWithin(h, 1, 1, 0, m.disk[0].meta[..HASH_SIZE]);
    RestartExact(h, m, 0);
  }

  /** A single meta beyond the entry count, at an index that is not below the number of metas, is not trimmed. */
  lemma TrimLeavesGap()
    ensures 5 in TrimMetas(map[5 := Zeros(META_SIZE)], 1)
  {
    var metas := map[5 := Zeros(META_SIZE)];
    assert metas.Keys == {5};
    assert |metas| == 1;
  }

  /**
   The trimming loop removes every meta beyond the entry count exactly when none of them is an index as large
   as the number of metas; with metas missing in between, it leaves some behind.
   */
  lemma TrimExact(metas: map<nat, Data>, count: nat)
    ensures (forall k :: k in TrimMetas(metas, count) ==> k < count)
       <==> (forall k :: k in metas && k >= count ==> k < |metas|)
    ensures forall k :: k in metas && k < count ==> k in TrimMetas(metas, count)
  {
    var trimmed := TrimMetas(metas, count);
    if forall k :: k in trimmed ==> k < count {
      forall k | k in metas && k >= count ensures k < |metas| {
        assert k !in trimmed;
      }
    }
  }
}
