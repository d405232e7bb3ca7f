/**
 The storage files seen as a map from blob index to what is stored for it. Only locally managed indices are in
 the map. `DataShard` shows that the files behave like this map.
 */
module Disk {
  import opened Bytes

  /** Bytes of the commit kept by the contract. */
  const HASH_SIZE: nat := 24

  const META_SIZE: nat := 32

  /** Set in the byte after the hash once a blob has been filled in. */
  const FILLED: byte := 0x80

  datatype Record = Record(data: Data, meta: Data)

  /** Whether TryWriteEncoded writes: the shard is managed here and the data is not too large. */
  predicate Fits(disk: map<nat, Record>, kvSize: nat, kv: nat, data: Data) {
    kv in disk && |data| <= kvSize
  }

  /** A write of encoded data and its meta; without effect when it is refused. */
  function Put(disk: map<nat, Record>, kvSize: nat, kv: nat, data: Data, meta: Data): map<nat, Record> {
    if Fits(disk, kvSize, kv, data) then disk[kv := Record(Pad(data, kvSize), meta)] else disk
  }

  /** The commit as it is stored on disk: its first 24 bytes, then the filled mark. */
  function PrepareCommit(commit: Data): (c: Data)
    requires |commit| == META_SIZE
    ensures |c| == META_SIZE && c[..HASH_SIZE] == commit[..HASH_SIZE] && IsFilled(c)
  {
    commit[..HASH_SIZE] + [0 | FILLED] + Zeros(META_SIZE - HASH_SIZE - 1)
  }

  predicate IsFilled(meta: Data)
    requires |meta| == META_SIZE
  {
    meta[HASH_SIZE] & FILLED != 0
  }

  /** The stored commit byte by byte: the hash, the mark, zeros. */
  lemma PreparedBytes(commit: Data)
    requires |commit| == META_SIZE
    ensures PrepareCommit(commit)[..24] == commit[..24] && PrepareCommit(commit)[24..] == [0x80] + Zeros(7)
  {
  }

  /** Preparing looks at the hash only, so preparing twice changes nothing. */
  lemma PrepareSameHash(a: Data, b: Data)
    requires |a| == |b| == META_SIZE && a[..HASH_SIZE] == b[..HASH_SIZE]
    ensures PrepareCommit(a) == PrepareCommit(b)
    ensures PrepareCommit(PrepareCommit(a)) == PrepareCommit(a)
  {
  }
}
