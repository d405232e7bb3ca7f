/** The disk cache as it runs: the two tables and the store are changed together, in loops. */
module BlobDiskCache {
  import opened Bytes
  import opened Disk
  import opened BlobCache
  import opened Options

  class DiskCache {
    var blockLookup: map<nat, seq<Entry>>
    var kvIndexLookup: map<nat, nat>
    var store: map<nat, Data>

    function Value(): Cache
      reads this
    {
      Cache(blockLookup, kvIndexLookup, store)
    }

    constructor ()
      ensures Value() == EMPTY
    {
      blockLookup, kvIndexLookup, store := map[], map[], map[];
    }

    /** Sets the blobs of a block; stops at the first blob that the store refuses. */
    method SetBlockBlobs(number: nat, blobs: seq<Blob>, choose: Chooser, refused: nat -> bool) returns (ok: bool)
      modifies this
      ensures ok <==> forall i :: 0 <= i < |blobs| && blobs[i].Blob? ==> !refused(i)
      ensures ok ==> Value() == SetBlock(old(Value()), number, blobs, choose)
      ensures !ok ==> exists j :: 0 <= j < |blobs| && blobs[j].Blob? && refused(j)
                                  && (forall i :: 0 <= i < j && blobs[i].Blob? ==> !refused(i))
                                  && Value() == SetBlockFails(old(Value()), number, blobs[..j], choose)
    {
      ghost var before := Before(Value(), number);
      if number in blockLookup {
        DeleteAll(blockLookup[number]);
      }
      var entries: seq<Entry> := [];
      for i := 0 to |blobs|
        invariant blockLookup == old(blockLookup)
        invariant Filling(kvIndexLookup, store, entries) == PutAll(before, blobs[..i], choose)
        invariant forall j :: 0 <= j < i && blobs[j].Blob? ==> !refused(j)
      {
        assert blobs[..i + 1][..i] == blobs[..i];
        if blobs[i].Blob? {
          if refused(i) {
            return false;
          }
          var id := choose(store);
          store := store[id := blobs[i].data];
          kvIndexLookup := kvIndexLookup[blobs[i].kv := id];
          entries := entries + [Entry(blobs[i].kv, blobs[i].hash, id)];
        }
      }
      assert blobs[..|blobs|] == blobs;
      blockLookup := blockLookup[number := entries];
      return true;
    }

    method DeleteAll(entries: seq<Entry>)
      modifies this`store
      ensures store == old(store) - Ids(entries)
    {
      for i := 0 to |entries|
        invariant store == old(store) - Ids(entries[..i])
      {
        assert Ids(entries[..i + 1]) == Ids(entries[..i]) + {entries[i].id} by { IdsAppend(entries, i); }
        store := store - {entries[i].id};
      }
      assert entries[..|entries|] == entries;
    }

    /** The blobs of a block as they were set; nothing for a block that was not set or has been cleaned up. */
    method Blobs(number: nat) returns (r: Option<seq<Blob>>)
      requires Inv(Value())
      ensures r == if number in Meaning(Value()).blocks then Some(Meaning(Value()).blocks[number]) else None
    {
      if number !in blockLookup {
        return None;
      }
      InvReads(Value());
      var es, res := blockLookup[number], [];
      for i := 0 to |es|
        invariant |res| == i && forall j :: 0 <= j < i ==> res[j] == Blob(es[j].kv, es[j].hash, store[es[j].id])
      {
        if es[i].id !in store {
          assert false;
        }
        res := res + [Blob(es[i].kv, es[i].hash, store[es[i].id])];
      }
      assert res == BlobsOf(Value(), number);
      return Some(res);
    }

    /** A 32-byte sample of the blob set last for the index. */
    method GetSampleData(idx: nat, sampleIdx: nat) returns (r: Option<Data>)
      requires Inv(Value())
      ensures var latest := Meaning(Value()).latest;
              var at := sampleIdx * 32;
              r == if idx in latest && at + 32 <= |latest[idx]| then Some(latest[idx][at..at + 32]) else None
    {
      if idx !in kvIndexLookup {
        return None;
      }
      InvReads(Value());
      var data, off := store[kvIndexLookup[idx]], sampleIdx * 32;
      if off + 32 > |data| {
        return None;
      }
      return Some(data[off..off + 32]);
    }

    /** A cached blob with the index and the first 24 bytes of the hash, if there is one. */
    method GetKeyValueByIndex(idx: nat, hash: Data) returns (r: Option<Data>)
      requires Inv(Value())
      ensures r.Some? <==> exists n: nat, i :: At(Value(), n, i) && Wanted(blockLookup[n][i], idx, hash)
      ensures r.Some? ==> exists n: nat, i :: At(Value(), n, i) && Wanted(blockLookup[n][i], idx, hash)
                                              && blockLookup[n][i].id in store && r.value == store[blockLookup[n][i].id]
    {
      InvReads(Value());
      var todo := blockLookup.Keys;
      while todo != {}
        invariant todo <= blockLookup.Keys
        invariant forall n: nat, i :: At(Value(), n, i) && n !in todo ==> !Wanted(blockLookup[n][i], idx, hash)
        decreases |todo|
      {
        var n :| n in todo;
        for i := 0 to |blockLookup[n]|
          invariant forall j :: 0 <= j < i ==> !Wanted(blockLookup[n][j], idx, hash)
        {
          if Wanted(blockLookup[n][i], idx, hash) {
            assert At(Value(), n, i);
            return Some(store[blockLookup[n][i].id]);
          }
        }
        todo := todo - {n};
      }
      return None;
    }

    /** The blocks up to the final one are removed, in whatever order they are visited. */
    method Cleanup(finalized: nat)
      modifies this
      ensures Value() == BlobCache.Cleanup(old(Value()), finalized)
    {
      ghost var c: Cache, gone: set<nat> := Value(), {};
      WithoutNone(c);
      var todo := blockLookup.Keys;
      while todo != {}
        invariant todo <= c.blocks.Keys && Value() == Without(c, gone)
        invariant Cleaned(c, finalized, todo, gone)
        decreases |todo|
      {
        var n :| n in todo;
        if n <= finalized {
          CleanBlock(n, c, gone);
          gone := gone + {n};
        }
        todo := todo - {n};
      }
      AllCleaned(c, finalized, gone);
    }

    /** One block is removed with its data and the lookups of the indices it has. */
    method CleanBlock(n: nat, ghost c: Cache, ghost gone: set<nat>)
      requires Value() == Without(c, gone) && n in c.blocks && n !in gone
      modifies this
      ensures Value() == Without(c, gone + {n})
    {
      var es := blockLookup[n];
      blockLookup := blockLookup - {n};
      Forget(es);
      DeleteAll(es);
      WithoutMore(c, gone, n);
      assert blockLookup == c.blocks - (gone + {n});
    }

    method Forget(entries: seq<Entry>)
      modifies this`kvIndexLookup
      ensures kvIndexLookup == old(kvIndexLookup) - Kvs(entries)
    {
      for i := 0 to |entries|
        invariant kvIndexLookup == old(kvIndexLookup) - Kvs(entries[..i])
      {
        assert Kvs(entries[..i + 1]) == Kvs(entries[..i]) + {entries[i].kv} by { KvsAppend(entries, i); }
        kvIndexLookup := kvIndexLookup - {entries[i].kv};
      }
      assert entries[..|entries|] == entries;
    }
  }

  predicate Wanted(e: Entry, idx: nat, hash: Data) {
    e.kv == idx && |e.hash| >= HASH_SIZE && |hash| >= HASH_SIZE && e.hash[..HASH_SIZE] == hash[..HASH_SIZE]
  }

  lemma IdsAppend(entries: seq<Entry>, i: nat)
    requires i < |entries|
    ensures Ids(entries[..i + 1]) == Ids(entries[..i]) + {entries[i].id}
  {
    var a, b := entries[..i + 1], entries[..i];
    forall id | id in Ids(b) + {entries[i].id} ensures id in Ids(a) {
      if id in Ids(b) {
        var j :| 0 <= j < |b| && b[j].id == id;
        assert a[j].id == id;
      } else {
        assert a[i].id == id;
      }
    }
  }

  lemma KvsAppend(entries: seq<Entry>, i: nat)
    requires i < |entries|
    ensures Kvs(entries[..i + 1]) == Kvs(entries[..i]) + {entries[i].kv}
  {
    var a, b := entries[..i + 1], entries[..i];
    forall kv | kv in Kvs(b) + {entries[i].kv} ensures kv in Kvs(a) {
      if kv in Kvs(b) {
        var j :| 0 <= j < |b| && b[j].kv == kv;
        assert a[j].kv == kv;
      } else {
        assert a[i].kv == kv;
      }
    }
  }

  // ---------------------------------------------------------------- cleaning up block by block

  ghost function IdsIn(c: Cache, gone: set<nat>): set<nat> {
    set n, i | n in gone && n in c.blocks && 0 <= i < |c.blocks[n]| :: c.blocks[n][i].id
  }

  ghost function KvsIn(c: Cache, gone: set<nat>): set<nat> {
    set n, i | n in gone && n in c.blocks && 0 <= i < |c.blocks[n]| :: c.blocks[n][i].kv
  }

  ghost function Without(c: Cache, gone: set<nat>): Cache {
    Cache(c.blocks - gone, c.lookup - KvsIn(c, gone), c.store - IdsIn(c, gone))
  }

  lemma WithoutMore(c: Cache, gone: set<nat>, n: nat)
    requires n in c.blocks
    ensures IdsIn(c, gone + {n}) == IdsIn(c, gone) + Ids(c.blocks[n])
    ensures KvsIn(c, gone + {n}) == KvsIn(c, gone) + Kvs(c.blocks[n])
  {
    forall id | id in Ids(c.blocks[n]) ensures id in IdsIn(c, gone + {n}) {
      var i :| 0 <= i < |c.blocks[n]| && c.blocks[n][i].id == id;
    }
    forall kv | kv in Kvs(c.blocks[n]) ensures kv in KvsIn(c, gone + {n}) {
      var i :| 0 <= i < |c.blocks[n]| && c.blocks[n][i].kv == kv;
    }
  }

  lemma WithoutNone(c: Cache)
    ensures Without(c, {}) == c
  {
    assert IdsIn(c, {}) == {} && KvsIn(c, {}) == {};
    assert c.blocks - {} == c.blocks && c.lookup - {} == c.lookup && c.store - {} == c.store;
  }

  ghost predicate Cleaned(c: Cache, finalized: nat, todo: set<nat>, gone: set<nat>) {
    forall n :: n in gone <==> n in c.blocks && n <= finalized && n !in todo
  }

  lemma AllCleaned(c: Cache, finalized: nat, gone: set<nat>)
    requires Cleaned(c, finalized, {}, gone)
    ensures Without(c, gone) == BlobCache.Cleanup(c, finalized)
  {
    var stale := Stale(c, finalized);
    assert forall n: nat :: n in gone <==> n in stale;
    assert gone == stale;
    assert IdsIn(c, stale) == StaleIds(c, finalized);
    assert KvsIn(c, stale) == StaleKvs(c, finalized);
  }
}
