/**
 The storage manager as a replicated view of the L1 contract. What the contract said at each finalized block is
 a fixed history; the manager holds the number of the block it has caught up with, the metas it knows, and the
 storage files. Metas are fetched outside the manager's lock, so a fetch may end long after the view has moved.
 */
module StorageView {
  import opened Bytes
  import opened Disk
  import opened Downloads
  import opened Options

  /** The contract stores indices in 5 bytes. */
  const INDEX_SIZE: nat := 5

  const MAX_INDEX: nat := 0x100_0000_0000

  // ---------------------------------------------------------------- the contract

  /** The contract at every finalized block: the number of entries, and the 32-byte meta of each. */
  datatype History = History(count: int -> nat, meta: (int, nat) -> Data)

  /** An index in 5 bytes, a size in 3, and a hash in 24. */
  predicate MetaOk(m: Data, kv: nat) {
    |m| == META_SIZE && Number(m[..INDEX_SIZE]) == kv
  }

  function HashOf(m: Data): Data
    requires |m| == META_SIZE
  {
    m[META_SIZE - HASH_SIZE..]
  }

  ghost predicate Genuine(h: History) {
    forall b: int, i: nat :: |h.meta(b, i)| == META_SIZE && (i < h.count(b) ==> MetaOk(h.meta(b, i), i))
  }

  /** The hash the contract has for an index at a block; an index it has no entry for counts as empty. */
  function ContractHash(h: History, b: int, i: nat): (r: Data)
    requires i < h.count(b) ==> |h.meta(b, i)| == META_SIZE
  {
    if i < h.count(b) then HashOf(h.meta(b, i)) else Zeros(HASH_SIZE)
  }

  // ---------------------------------------------------------------- the manager

  /** A fetch of metas [from, limit) as of block l1, sent but not yet installed. */
  datatype Fetch = Fetch(l1: int, from: nat, limit: nat)

  datatype Manager = Manager(
    localL1: int,
    kvEntryCount: nat,
    blobMetas: map<nat, Data>,
    disk: map<nat, Record>,
    fetches: seq<Fetch>)

  /** A meta made up locally: index and hash, the size left zero. */
  function LocalMeta(kv: nat, hash: Data): (m: Data)
    requires |hash| == HASH_SIZE
    ensures |m| == META_SIZE && HashOf(m) == hash
  {
    BigEndian(kv, INDEX_SIZE) + Zeros(META_SIZE - HASH_SIZE - INDEX_SIZE) + hash
  }

  lemma LocalMetaOk(kv: nat, hash: Data)
    requires |hash| == HASH_SIZE && kv < MAX_INDEX
    ensures MetaOk(LocalMeta(kv, hash), kv)
  {
    assert Pow256(5) == MAX_INDEX;
    BigEndianRoundTrip(kv, INDEX_SIZE);
    assert LocalMeta(kv, hash)[..INDEX_SIZE] == BigEndian(kv, INDEX_SIZE);
  }

  /** The meta of one index, as getKvMetas looks it up. */
  function KvMeta(m: Manager, kv: nat): Option<Data> {
    if kv in m.blobMetas then Some(m.blobMetas[kv])
    else if kv >= m.kvEntryCount then Some(LocalMeta(kv, Zeros(HASH_SIZE)))
    else None
  }

  /** All of the metas, or nothing when one is missing. */
  function GetKvMetas(m: Manager, kvs: seq<nat>): Option<seq<Data>> {
    if kvs == [] then Some([])
    else
      var front := GetKvMetas(m, kvs[..|kvs| - 1]);
      var last := KvMeta(m, kvs[|kvs| - 1]);
      if front.None? || last.None? then None else Some(front.value + [last.value])
  }

  lemma {:induction false} GetKvMetasAt(m: Manager, kvs: seq<nat>)
    ensures GetKvMetas(m, kvs).Some? <==> forall i :: 0 <= i < |kvs| ==> KvMeta(m, kvs[i]).Some?
    ensures GetKvMetas(m, kvs).Some? ==>
              && |GetKvMetas(m, kvs).value| == |kvs|
              && forall i :: 0 <= i < |kvs| ==> KvMeta(m, kvs[i]) == Some(GetKvMetas(m, kvs).value[i])
  {
    if kvs != [] {
      var front := kvs[..|kvs| - 1];
      GetKvMetasAt(m, front);
      assert forall i :: 0 <= i < |front| ==> front[i] == kvs[i];
    }
  }

  // ---------------------------------------------------------------- committing blobs

  datatype Outcome = Committed | Mismatch | Failed

  /** commitEncodedBlob: write the blob if its commit is the one the contract has and it is not there yet. */
  function CommitEncoded(m: Manager, kvSize: nat, kv: nat, data: Data, commit: Data, contractMeta: Data)
    : (Manager, Outcome)
    requires |commit| == META_SIZE && |contractMeta| == META_SIZE
    requires forall k :: k in m.disk ==> |m.disk[k].meta| == META_SIZE
  {
    if HashOf(contractMeta) != commit[..HASH_SIZE] then (m, Mismatch)
    else if kv !in m.disk then (m, Failed)
    else if Number(contractMeta[..INDEX_SIZE]) != kv then (m, Failed)
    else if m.disk[kv].meta[..HASH_SIZE] == commit[..HASH_SIZE] && IsFilled(m.disk[kv].meta) then (m, Committed)
    else if !Fits(m.disk, kvSize, kv, data) then (m, Failed)
    else (m.(disk := Put(m.disk, kvSize, kv, data, PrepareCommit(commit))), Committed)
  }

  predicate MetasSized(disk: map<nat, Record>) {
    forall k :: k in disk ==> |disk[k].meta| == META_SIZE
  }

  /** A blob received from a peer, encoded for this node. */
  datatype Blob = Blob(kv: nat, data: Data, commit: Data)

  predicate BlobsOk(blobs: seq<Blob>) {
    forall i :: 0 <= i < |blobs| ==> |blobs[i].commit| == META_SIZE
  }

  /** One blob more; nothing happens if it is not local. */
  function CommitOne(m: Manager, kvSize: nat, b: Blob, meta: Data, m1: Manager, ins: seq<nat>): (r: (Manager, seq<nat>))
    requires MetasSized(m1.disk) && |b.commit| == META_SIZE && |meta| == META_SIZE
    ensures MetasSized(r.0.disk)
  {
    if b.kv !in m.disk then (m1, ins)
    else
      var (m2, o) := CommitEncoded(m1, kvSize, b.kv, b.data, b.commit, meta);
      (m2, if o.Committed? then ins + [b.kv] else ins)
  }

  /** Commit the first k blobs; the indices that were committed. */
  function CommitUpTo(m: Manager, kvSize: nat, blobs: seq<Blob>, metas: seq<Data>, k: nat): (r: (Manager, seq<nat>))
    requires BlobsOk(blobs) && MetasSized(m.disk) && k <= |blobs| == |metas|
    requires forall i :: 0 <= i < |metas| ==> |metas[i]| == META_SIZE
    ensures MetasSized(r.0.disk)
  {
    if k == 0 then (m, [])
    else
      var (m1, ins) := CommitUpTo(m, kvSize, blobs, metas, k - 1);
      CommitOne(m, kvSize, blobs[k - 1], metas[k - 1], m1, ins)
  }

  predicate ValuesSized(metas: map<nat, Data>) {
    forall k :: k in metas ==> |metas[k]| == META_SIZE
  }

  lemma MetasAreSized(m: Manager, kvs: seq<nat>)
    requires ValuesSized(m.blobMetas) && GetKvMetas(m, kvs).Some?
    ensures |GetKvMetas(m, kvs).value| == |kvs|
    ensures forall i :: 0 <= i < |kvs| ==> |GetKvMetas(m, kvs).value[i]| == META_SIZE
  {
    GetKvMetasAt(m, kvs);
    forall i | 0 <= i < |kvs| ensures |GetKvMetas(m, kvs).value[i]| == META_SIZE {
      assert KvMeta(m, kvs[i]) == Some(GetKvMetas(m, kvs).value[i]);
    }
  }

  function Kvs(blobs: seq<Blob>): seq<nat> { seq(|blobs|, i requires 0 <= i < |blobs| => blobs[i].kv) }

  /** CommitBlobs: nothing when a meta is missing, else the blobs that match the view. */
  function CommitBlobs(m: Manager, kvSize: nat, blobs: seq<Blob>): (Manager, Option<seq<nat>>)
    requires BlobsOk(blobs) && MetasSized(m.disk) && ValuesSized(m.blobMetas)
  {
    var metas := GetKvMetas(m, Kvs(blobs));
    if metas.None? then (m, None)
    else
      MetasAreSized(m, Kvs(blobs));
      var (m', ins) := CommitUpTo(m, kvSize, blobs, metas.value, |blobs|);
      (m', Some(ins))
  }

  // ---------------------------------------------------------------- filling empty blobs

  /** The encoded empty blob of an index. */
  type Encoder = nat -> Data

  /** The first index at or after i that is beyond limit or not managed here. */
  function LocalEnd(disk: map<nat, Record>, i: nat, limit: nat): nat
    decreases limit + 1 - i
  {
    if i > limit || i !in disk then i else LocalEnd(disk, i + 1, limit)
  }

  function Range(a: nat, b: nat): (r: seq<nat>)
    requires a <= b
    ensures |r| == b - a && forall i :: 0 <= i < |r| ==> r[i] == a + i
  {
    seq(b - a, i => a + i)
  }

  datatype Filled = Filled(m: Manager, inserted: nat, next: nat)

  /**
   Commit an empty blob at i, i + 1, ... up to end, stopping at the first that fails for another reason than its hash.
   */
  function FillFrom(m: Manager, kvSize: nat, enc: Encoder, i: nat, end: nat, metas: seq<Data>): Filled
    requires MetasSized(m.disk) && i <= end && |metas| == end - i
    requires forall j :: 0 <= j < |metas| ==> |metas[j]| == META_SIZE
    decreases end - i
  {
    if i == end then Filled(m, 0, i)
    else
      var (m1, o) := CommitEncoded(m, kvSize, i, enc(i), Zeros(META_SIZE), metas[0]);
      if o.Failed? then Filled(m1, 0, i)
      else
        var rest := FillFrom(m1, kvSize, enc, i + 1, end, metas[1..]);
        rest.(inserted := rest.inserted + if o.Committed? then 1 else 0)
  }

  /** The whole fill is the rest of it with what has been inserted so far added. */
  predicate Counted(all: Filled, rest: Filled, inserted: nat) {
    all.m == rest.m && all.next == rest.next && all.inserted == rest.inserted + inserted
  }

  /** A fill by its first index. */
  lemma FillUnfolds(m: Manager, kvSize: nat, enc: Encoder, i: nat, end: nat, metas: seq<Data>, f: Filled)
    requires MetasSized(m.disk) && i < end && |metas| == end - i
    requires forall j :: 0 <= j < |metas| ==> |metas[j]| == META_SIZE
    requires f == FillFrom(m, kvSize, enc, i, end, metas)
    ensures var (m1, o) := CommitEncoded(m, kvSize, i, enc(i), Zeros(META_SIZE), metas[0]);
            && MetasSized(m1.disk)
            && if o.Failed? then f == Filled(m1, 0, i)
               else Counted(f, FillFrom(m1, kvSize, enc, i + 1, end, metas[1..]), if o.Committed? then 1 else 0)
  {
  }

  lemma {:induction false} LocalEndAt(disk: map<nat, Record>, i: nat, limit: nat)
    ensures i <= LocalEnd(disk, i, limit)
    ensures i <= limit + 1 ==> LocalEnd(disk, i, limit) <= limit + 1
    ensures forall j :: i <= j < LocalEnd(disk, i, limit) ==> j in disk && j <= limit
    ensures LocalEnd(disk, i, limit) <= limit ==> LocalEnd(disk, i, limit) !in disk
    decreases limit + 1 - i
  {
    if i <= limit && i in disk { LocalEndAt(disk, i + 1, limit); }
  }

  function CommitEmptyBlobs(m: Manager, kvSize: nat, enc: Encoder, start: nat, limit: nat): Filled
    requires MetasSized(m.disk) && ValuesSized(m.blobMetas)
  {
    LocalEndAt(m.disk, start, limit);
    var end := LocalEnd(m.disk, start, limit);
    var metas := GetKvMetas(m, Range(start, end));
    if metas.None? then Filled(m, 0, start)
    else
      MetasAreSized(m, Range(start, end));
      FillFrom(m, kvSize, enc, start, end, metas.value)
  }

  /** FillFileWithEmptyBlob, with the entry count it read before taking the lock. */
  function FillEmpty(m: Manager, kvSize: nat, enc: Encoder, countRead: nat, start: nat, limit: nat): Filled
    requires MetasSized(m.disk) && ValuesSized(m.blobMetas)
  {
    if countRead > limit then Filled(m, 0, limit + 1)
    else CommitEmptyBlobs(m, kvSize, enc, if start < countRead then countRead else start, limit)
  }

  // ---------------------------------------------------------------- following the chain

  /** The metas of a batch put into the view. */
  function UpdateMetas(metas: map<nat, Data>, kvs: seq<nat>, commits: seq<Data>): map<nat, Data>
    requires |kvs| == |commits| && forall i :: 0 <= i < |commits| ==> |commits[i]| == META_SIZE
  {
    if kvs == [] then metas
    else
      var k := |kvs| - 1;
      UpdateMetas(metas, kvs[..k], commits[..k])[kvs[k] := LocalMeta(kvs[k], commits[k][..HASH_SIZE])]
  }

  /** The loop that drops metas beyond the entry count; it looks at indices below the number of metas only. */
  function TrimMetas(metas: map<nat, Data>, count: nat): map<nat, Data> {
    map k | k in metas && !(count <= k < |metas|) :: metas[k]
  }

  function DownloadFinished(h: History, m: Manager, kvSize: nat, threads: nat, newL1: int,
                            kvs: seq<nat>, datas: seq<Data>, commits: seq<Data>): Manager
    requires threads > 0 && |kvs| == |datas| == |commits|
    requires forall i :: 0 <= i < |commits| ==> |commits[i]| == META_SIZE
  {
    if newL1 <= m.localL1 then m
    else
      m.(disk := AfterBatch(m.disk, kvSize, Items(kvs, datas, commits), threads),
         kvEntryCount := h.count(newL1),
         localL1 := newL1,
         blobMetas := TrimMetas(UpdateMetas(m.blobMetas, kvs, commits), h.count(newL1)))
  }

  /** The metas a fetch brings, put into the view. */
  function Install(h: History, metas: map<nat, Data>, l1: int, from: nat, limit: nat): map<nat, Data>
    decreases limit - from
  {
    if from >= limit then metas else Install(h, metas[from := h.meta(l1, from)], l1, from + 1, limit)
  }

  function BeginFetch(m: Manager, from: nat, to: nat, batchSize: nat): Manager {
    var a := if from + batchSize < to then from + batchSize else to;
    m.(fetches := m.fetches + [Fetch(m.localL1, from, if a < m.kvEntryCount then a else m.kvEntryCount)])
  }

  /** A fetch ends: its metas are installed only if the view has not moved since it began. */
  function EndFetch(h: History, m: Manager, j: nat): Manager
    requires j < |m.fetches|
  {
    var f := m.fetches[j];
    var m1 := m.(fetches := m.fetches[..j] + m.fetches[j + 1..]);
    if f.l1 != m.localL1 then m1 else m1.(blobMetas := Install(h, m.blobMetas, f.l1, f.from, f.limit))
  }
}
