/**
 The disk cache of blobs that are not final yet: a store of byte strings under ids, a table from block to the blobs of
 the block, and a table from blob index to the id of the blob set last.
 */
module BlobCache {
  import opened Bytes

  /** A blob of a block as the downloader hands it over; a blob that was not downloaded has no data. */
  datatype Blob = Missing(kv: nat, hash: Data) | Blob(kv: nat, hash: Data, data: Data)

  datatype Entry = Entry(kv: nat, hash: Data, id: nat)

  datatype Cache = Cache(blocks: map<nat, seq<Entry>>, lookup: map<nat, nat>, store: map<nat, Data>)

  function Ids(entries: seq<Entry>): set<nat> { set i | 0 <= i < |entries| :: entries[i].id }

  function Kvs(entries: seq<Entry>): set<nat> { set i | 0 <= i < |entries| :: entries[i].kv }

  // ---------------------------------------------------------------- setting a block

  /** A block being set: the tables and the entries made so far. */
  datatype Filling = Filling(lookup: map<nat, nat>, store: map<nat, Data>, entries: seq<Entry>)

  /** The store chooses the id of what is put; it may use an id again after its data was deleted. */
  type Chooser = map<nat, Data> -> nat

  ghost predicate Fresh(choose: Chooser) { forall s: map<nat, Data> :: choose(s) !in s }

  function PutOne(f: Filling, b: Blob, choose: Chooser): Filling {
    if b.Missing? then f
    else
      var id := choose(f.store);
      Filling(f.lookup[b.kv := id], f.store[id := b.data], f.entries + [Entry(b.kv, b.hash, id)])
  }

  function PutAll(f: Filling, blobs: seq<Blob>, choose: Chooser): Filling
    decreases |blobs|
  {
    if blobs == [] then f else PutOne(PutAll(f, blobs[..|blobs| - 1], choose), blobs[|blobs| - 1], choose)
  }

  /** What is left of the store when the blobs of a block that is set again are deleted. */
  function Before(c: Cache, number: nat): Filling {
    Filling(c.lookup, if number in c.blocks then c.store - Ids(c.blocks[number]) else c.store, [])
  }

  function SetBlock(c: Cache, number: nat, blobs: seq<Blob>, choose: Chooser): Cache {
    var f := PutAll(Before(c, number), blobs, choose);
    Cache(c.blocks[number := f.entries], f.lookup, f.store)
  }

  /** The store refuses a blob after some were put: the tables keep what was done so far, the block is not entered. */
  function SetBlockFails(c: Cache, number: nat, done: seq<Blob>, choose: Chooser): Cache {
    var f := PutAll(Before(c, number), done, choose);
    Cache(c.blocks, f.lookup, f.store)
  }

  function Stale(c: Cache, finalized: nat): set<nat> { set n | n in c.blocks && n <= finalized }

  function StaleIds(c: Cache, finalized: nat): set<nat> {
    set n, i | n in Stale(c, finalized) && 0 <= i < |c.blocks[n]| :: c.blocks[n][i].id
  }

  function StaleKvs(c: Cache, finalized: nat): set<nat> {
    set n, i | n in Stale(c, finalized) && 0 <= i < |c.blocks[n]| :: c.blocks[n][i].kv
  }

  function Cleanup(c: Cache, finalized: nat): Cache {
    Cache(c.blocks - Stale(c, finalized), c.lookup - StaleKvs(c, finalized), c.store - StaleIds(c, finalized))
  }

  // ---------------------------------------------------------------- what the tables promise

  ghost predicate At(c: Cache, n: nat, i: int) { n in c.blocks && 0 <= i < |c.blocks[n]| }

  /** Every entry has its data, */
  ghost predicate NoneDangling(c: Cache) {
    forall n: nat, i :: At(c, n, i) ==> c.blocks[n][i].id in c.store
  }

  /** every id is the id of an entry, */
  ghost predicate NoneLeaked(c: Cache) {
    forall id :: id in c.store ==> exists n: nat, i :: At(c, n, i) && c.blocks[n][i].id == id
  }

  /** of one entry only, */
  ghost predicate NoneShared(c: Cache) {
    forall n: nat, i, m: nat, j :: At(c, n, i) && At(c, m, j) && c.blocks[n][i].id == c.blocks[m][j].id ==>
        n == m && i == j
  }

  /** and the lookup table leads to an entry for the index it is asked for. */
  ghost predicate LookupsLive(c: Cache) {
    forall k :: k in c.lookup ==> LookupLive(c, k)
  }

  ghost predicate LookupLive(c: Cache, k: nat)
    requires k in c.lookup
  {
    exists n: nat, i :: At(c, n, i) && c.blocks[n][i].kv == k && c.blocks[n][i].id == c.lookup[k]
  }

  ghost predicate Inv(c: Cache) { NoneDangling(c) && NoneLeaked(c) && NoneShared(c) && LookupsLive(c) }

  // ---------------------------------------------------------------- setting a block that is not there

  /** The filling in terms of the store it started from: its new ids are exactly those of its entries. */
  ghost predicate Filled(base: Filling, f: Filling) {
    && (forall id :: id in base.store ==> id in f.store && f.store[id] == base.store[id])
    && (forall id :: id in f.store ==> id in base.store || id in Ids(f.entries))
    && (forall i :: 0 <= i < |f.entries| ==> f.entries[i].id in f.store && f.entries[i].id !in base.store)
    && (forall i, j :: 0 <= i < j < |f.entries| ==> f.entries[i].id != f.entries[j].id)
    && (forall k :: k in f.lookup ==>
          (k in base.lookup && f.lookup[k] == base.lookup[k] && k !in Kvs(f.entries)) || LookupIn(f, k))
    && (forall k :: k in base.lookup || k in Kvs(f.entries) ==> k in f.lookup)
  }

  ghost predicate LookupIn(f: Filling, k: nat)
    requires k in f.lookup
  {
    exists i :: 0 <= i < |f.entries| && f.entries[i].kv == k && f.entries[i].id == f.lookup[k]
  }

  lemma FilledOne(base: Filling, f: Filling, b: Blob, choose: Chooser)
    requires Filled(base, f) && Fresh(choose)
    ensures Filled(base, PutOne(f, b, choose))
  {
    if b.Blob? {
      var g, n := PutOne(f, b, choose), |f.entries|;
      assert g.entries[n] == Entry(b.kv, b.hash, choose(f.store));
      assert forall i :: 0 <= i < n ==> g.entries[i] == f.entries[i];
      IdsGrow(f.entries, g.entries[n]);
      forall k | k in g.lookup
        ensures (k in base.lookup && g.lookup[k] == base.lookup[k] && k !in Kvs(g.entries)) || LookupIn(g, k)
      {
        LookupAfterPut(base, f, b, choose, k);
      }
    }
  }

  lemma IdsGrow(es: seq<Entry>, e: Entry)
    ensures Ids(es + [e]) == Ids(es) + {e.id} && Kvs(es + [e]) == Kvs(es) + {e.kv}
  {
    var all := es + [e];
    assert all[|es|] == e && forall i :: 0 <= i < |es| ==> all[i] == es[i];
    forall i | 0 <= i < |es| ensures es[i].id in Ids(all) && es[i].kv in Kvs(all) {
      assert all[i].id in Ids(all) && all[i].kv in Kvs(all);
    }
    assert all[|es|].id in Ids(all) && all[|es|].kv in Kvs(all);
  }

  lemma LookupAfterPut(base: Filling, f: Filling, b: Blob, choose: Chooser, k: nat)
    requires Filled(base, f) && Fresh(choose) && b.Blob? && k in PutOne(f, b, choose).lookup
    ensures var g := PutOne(f, b, choose);
            (k in base.lookup && g.lookup[k] == base.lookup[k] && k !in Kvs(g.entries)) || LookupIn(g, k)
  {
    var g, n := PutOne(f, b, choose), |f.entries|;
    assert g.entries[n] == Entry(b.kv, b.hash, choose(f.store));
    if k == b.kv {
      assert g.entries[n].kv == k && g.entries[n].id == g.lookup[k];
    } else if LookupIn(f, k) {
      var i :| 0 <= i < n && f.entries[i].kv == k && f.entries[i].id == f.lookup[k];
      assert g.entries[i].kv == k && g.entries[i].id == g.lookup[k];
    } else {
      IdsGrow(f.entries, g.entries[n]);
    }
  }

  lemma {:induction false} FilledAll(base: Filling, blobs: seq<Blob>, choose: Chooser)
    requires base.entries == [] && Fresh(choose)
    ensures Filled(base, PutAll(base, blobs, choose))
    decreases |blobs|
  {
    if blobs != [] {
      var rest := blobs[..|blobs| - 1];
      FilledAll(base, rest, choose);
      FilledOne(base, PutAll(base, rest, choose), blobs[|blobs| - 1], choose);
    }
  }

  /** The blobs that have data. */
  function Present(blobs: seq<Blob>): seq<Blob>
    decreases |blobs|
  {
    if blobs == [] then []
    else Present(blobs[..|blobs| - 1]) + if blobs[|blobs| - 1].Missing? then [] else [blobs[|blobs| - 1]]
  }

  ghost predicate Mirrors(f: Filling, blobs: seq<Blob>) {
    && |f.entries| == |blobs|
    && forall i :: 0 <= i < |blobs| ==>
         f.entries[i].id in f.store && blobs[i] == Blob(f.entries[i].kv, f.entries[i].hash, f.store[f.entries[i].id])
  }

  lemma {:induction false} PutAllMirrors(base: Filling, blobs: seq<Blob>, choose: Chooser)
    requires base.entries == [] && Fresh(choose)
    ensures Mirrors(PutAll(base, blobs, choose), Present(blobs))
    decreases |blobs|
  {
    if blobs != [] {
      PutAllMirrors(base, blobs[..|blobs| - 1], choose);
    }
  }

  /** The indices for which a block brings data. */
  ghost predicate Brings(blobs: seq<Blob>, k: nat) {
    exists i :: 0 <= i < |blobs| && blobs[i].Blob? && blobs[i].kv == k
  }

  lemma {:induction false} EntriesBring(base: Filling, blobs: seq<Blob>, choose: Chooser, k: nat)
    requires base.entries == []
    ensures k in Kvs(PutAll(base, blobs, choose).entries) <==> Brings(blobs, k)
    decreases |blobs|
  {
    if blobs != [] {
      var n := |blobs| - 1;
      var f, g := PutAll(base, blobs[..n], choose), PutAll(base, blobs, choose);
      EntriesBring(base, blobs[..n], choose, k);
      assert forall i :: 0 <= i < |f.entries| ==> g.entries[i] == f.entries[i];
      if Brings(blobs, k) {
        var i :| 0 <= i < |blobs| && blobs[i].Blob? && blobs[i].kv == k;
        if i < n {
          assert blobs[..n][i] == blobs[i];
          var j :| 0 <= j < |f.entries| && f.entries[j].kv == k;
          assert g.entries[j].kv == k;
        } else {
          assert g.entries[|f.entries|].kv == k;
        }
      }
      if k in Kvs(g.entries) && k !in Kvs(f.entries) {
        var j :| 0 <= j < |g.entries| && g.entries[j].kv == k;
        assert blobs[n].Blob? && blobs[n].kv == k;
      }
    }
  }

  // ---------------------------------------------------------------- the invariant, step by step

  /** No lookup leads into the block, or the blobs that are set lead it elsewhere. */
  ghost predicate Redirected(c: Cache, number: nat, blobs: seq<Blob>) {
    number in c.blocks ==>
      forall k :: k in c.lookup && c.lookup[k] in Ids(c.blocks[number]) ==> Brings(blobs, k)
  }

  lemma SetKeepsStore(c: Cache, number: nat, blobs: seq<Blob>, choose: Chooser)
    requires Inv(c) && Fresh(choose)
    ensures var d := SetBlock(c, number, blobs, choose); NoneDangling(d) && NoneLeaked(d) && NoneShared(d)
  {
    var base := Before(c, number);
    var f, d := PutAll(base, blobs, choose), SetBlock(c, number, blobs, choose);
    FilledAll(base, blobs, choose);
    forall n: nat, i | At(d, n, i)
      ensures d.blocks[n][i].id in d.store && (n != number ==> d.blocks[n][i].id in base.store)
    {
      if n != number {
        OtherKept(c, number, n, i);
      }
    }
    forall id | id in d.store ensures exists n: nat, i :: At(d, n, i) && d.blocks[n][i].id == id {
      if id in base.store {
        var n: nat, i :| At(c, n, i) && c.blocks[n][i].id == id;
        assert n != number;
        assert At(d, n, i) && d.blocks[n][i].id == id;
      } else {
        var i :| 0 <= i < |f.entries| && f.entries[i].id == id;
        assert At(d, number, i) && d.blocks[number][i].id == id;
      }
    }
    forall n: nat, i, m: nat, j | At(d, n, i) && At(d, m, j) && d.blocks[n][i].id == d.blocks[m][j].id
      ensures n == m && i == j
    {
      if n != number && m != number { assert At(c, n, i) && At(c, m, j); }
    }
  }

  /** Entries of other blocks keep their data when a block is set. */
  lemma OtherKept(c: Cache, number: nat, n: nat, i: int)
    requires Inv(c) && At(c, n, i) && n != number
    ensures c.blocks[n][i].id in Before(c, number).store
  {
    if number in c.blocks {
      forall j | 0 <= j < |c.blocks[number]| ensures c.blocks[number][j].id != c.blocks[n][i].id {
        assert At(c, number, j);
      }
    }
  }

  /** The lookup table stays sound exactly if it is redirected where the block was set before. */
  lemma SetLookups(c: Cache, number: nat, blobs: seq<Blob>, choose: Chooser)
    requires Inv(c) && Fresh(choose)
    ensures LookupsLive(SetBlock(c, number, blobs, choose)) <==> Redirected(c, number, blobs)
  {
    var base := Before(c, number);
    var f, d := PutAll(base, blobs, choose), SetBlock(c, number, blobs, choose);
    FilledAll(base, blobs, choose);
    forall k | k in d.lookup
      ensures LookupLive(d, k) <==>
              !(k in c.lookup && number in c.blocks && c.lookup[k] in Ids(c.blocks[number]) && !Brings(blobs, k))
    {
      EntriesBring(base, blobs, choose, k);
      SetLookup(c, number, blobs, choose, k);
    }
    if Redirected(c, number, blobs) {
      assert LookupsLive(d);
    } else {
      var k :| k in c.lookup && c.lookup[k] in Ids(c.blocks[number]) && !Brings(blobs, k);
      assert k in d.lookup && !LookupLive(d, k);
    }
  }

  lemma SetLookup(c: Cache, number: nat, blobs: seq<Blob>, choose: Chooser, k: nat)
    requires Inv(c) && Fresh(choose) && k in SetBlock(c, number, blobs, choose).lookup
    requires Filled(Before(c, number), PutAll(Before(c, number), blobs, choose))
    requires k in Kvs(PutAll(Before(c, number), blobs, choose).entries) <==> Brings(blobs, k)
    ensures LookupLive(SetBlock(c, number, blobs, choose), k) <==>
            !(k in c.lookup && number in c.blocks && c.lookup[k] in Ids(c.blocks[number]) && !Brings(blobs, k))
  {
    var f, d := PutAll(Before(c, number), blobs, choose), SetBlock(c, number, blobs, choose);
    if LookupIn(f, k) {
      var i :| 0 <= i < |f.entries| && f.entries[i].kv == k && f.entries[i].id == f.lookup[k];
      assert At(d, number, i) && d.blocks[number][i].kv == k;
      assert f.entries[i].kv in Kvs(f.entries);
    } else {
      var n: nat, i :| At(c, n, i) && c.blocks[n][i].kv == k && c.blocks[n][i].id == c.lookup[k];
      if n != number {
        assert At(d, n, i) && d.blocks[n][i].id == d.lookup[k];
        if number in c.blocks {
          forall j | 0 <= j < |c.blocks[number]| ensures c.blocks[number][j].id != c.lookup[k] {
            assert At(c, number, j);
          }
        }
      } else {
        assert c.lookup[k] in Ids(c.blocks[number]);
        forall m: nat, j | At(d, m, j) && d.blocks[m][j].kv == k ensures d.blocks[m][j].id != d.lookup[k] {
          if m != number { assert At(c, m, j); }
        }
      }
    }
  }

  /** Setting a block keeps the promises exactly if the lookup table is redirected; for a new block it always is. */
  lemma SetBlockInv(c: Cache, number: nat, blobs: seq<Blob>, choose: Chooser)
    requires Inv(c) && Fresh(choose)
    ensures Inv(SetBlock(c, number, blobs, choose)) <==> Redirected(c, number, blobs)
  {
    SetKeepsStore(c, number, blobs, choose);
    SetLookups(c, number, blobs, choose);
  }

  /** The entries a block has already. */
  function Old(c: Cache, number: nat): seq<Entry> { if number in c.blocks then c.blocks[number] else [] }

  /** The blobs put so far have the ids that the block's old entries had, and the lookups fit the old entries. */
  ghost predicate TakesOver(c: Cache, number: nat, f: Filling) {
    Ids(f.entries) <= Ids(Old(c, number)) && Ids(Old(c, number)) <= Ids(f.entries) && LookupsFit(c, number, f)
  }

  ghost predicate LookupsFit(c: Cache, number: nat, f: Filling) {
    forall k :: k in Kvs(f.entries) ==> k in f.lookup && InOld(c, number, k, f.lookup[k])
  }

  ghost predicate InOld(c: Cache, number: nat, k: nat, id: nat) {
    exists j :: 0 <= j < |Old(c, number)| && Old(c, number)[j].kv == k && Old(c, number)[j].id == id
  }

  /** The old entries of the block and the others, after blobs have been put. */
  lemma OldAndOthers(c: Cache, number: nat, f: Filling, n: nat, i: int)
    requires Inv(c) && Filled(Before(c, number), f) && At(c, n, i)
    ensures var id := c.blocks[n][i].id;
            if n == number then id in Ids(Old(c, number)) && id !in Before(c, number).store
            else id in Before(c, number).store && id !in Ids(f.entries)
  {
    if n != number { OtherKept(c, number, n, i); }
  }

  /** After a refused put: no entry dangles exactly if all old ids of the block have been put again. */
  lemma FailedDangling(c: Cache, number: nat, f: Filling, d: Cache)
    requires Inv(c) && Filled(Before(c, number), f) && d == Cache(c.blocks, f.lookup, f.store)
    ensures NoneDangling(d) <==> Ids(Old(c, number)) <= Ids(f.entries)
  {
    var es := Old(c, number);
    if NoneDangling(d) {
      forall id | id in Ids(es) ensures id in Ids(f.entries) {
        var i :| 0 <= i < |es| && es[i].id == id;
        assert At(d, number, i);
      }
    }
    if Ids(es) <= Ids(f.entries) {
      forall n: nat, i | At(d, n, i) ensures d.blocks[n][i].id in d.store {
        assert At(c, n, i);
        OldAndOthers(c, number, f, n, i);
      }
    }
  }

  /** After a refused put: nothing leaks exactly if no other ids have been put. */
  lemma FailedLeaks(c: Cache, number: nat, f: Filling, d: Cache)
    requires Inv(c) && Filled(Before(c, number), f) && d == Cache(c.blocks, f.lookup, f.store)
    ensures NoneLeaked(d) <==> Ids(f.entries) <= Ids(Old(c, number))
  {
    var es := Old(c, number);
    if NoneLeaked(d) {
      forall id | id in Ids(f.entries) ensures id in Ids(es) {
        var n: nat, i :| At(d, n, i) && d.blocks[n][i].id == id;
        assert At(c, n, i);
        OldAndOthers(c, number, f, n, i);
      }
    }
    if Ids(f.entries) <= Ids(es) {
      forall id | id in d.store ensures exists n: nat, i :: At(d, n, i) && d.blocks[n][i].id == id {
        if id in Ids(f.entries) {
          var i :| 0 <= i < |es| && es[i].id == id;
          assert At(d, number, i) && d.blocks[number][i].id == id;
        } else {
          var n: nat, i :| At(c, n, i) && c.blocks[n][i].id == id;
          assert At(d, n, i);
        }
      }
    }
  }

  /** After a refused put: a lookup that was led to a blob put before it. */
  lemma FailedLookup(c: Cache, number: nat, f: Filling, d: Cache, k: nat)
    requires Inv(c) && Filled(Before(c, number), f) && d == Cache(c.blocks, f.lookup, f.store) && k in d.lookup
    ensures LookupLive(d, k) <==> k in Kvs(f.entries) ==> InOld(c, number, k, f.lookup[k])
  {
    if k in Kvs(f.entries) {
      var es := Old(c, number);
      if LookupLive(d, k) {
        var n: nat, i :| At(d, n, i) && d.blocks[n][i].kv == k && d.blocks[n][i].id == d.lookup[k];
        assert At(c, n, i);
        OldAndOthers(c, number, f, n, i);
        assert es[i].kv == k && es[i].id == f.lookup[k];
      }
      if InOld(c, number, k, f.lookup[k]) {
        var i :| 0 <= i < |es| && es[i].kv == k && es[i].id == f.lookup[k];
        assert At(d, number, i);
      }
    } else {
      var n: nat, i :| At(c, n, i) && c.blocks[n][i].kv == k && c.blocks[n][i].id == c.lookup[k];
      assert At(d, n, i);
    }
  }

  lemma FailedLookups(c: Cache, number: nat, f: Filling, d: Cache)
    requires Inv(c) && Filled(Before(c, number), f) && d == Cache(c.blocks, f.lookup, f.store)
    ensures LookupsLive(d) <==> LookupsFit(c, number, f)
  {
    forall k | k in d.lookup ensures LookupLive(d, k) <==> k in Kvs(f.entries) ==> InOld(c, number, k, f.lookup[k]) {
      FailedLookup(c, number, f, d, k);
    }
  }

  lemma SameShared(c: Cache, d: Cache)
    requires NoneShared(c) && d.blocks == c.blocks
    ensures NoneShared(d)
  {
    forall n: nat, i, m: nat, j | At(d, n, i) && At(d, m, j) && d.blocks[n][i].id == d.blocks[m][j].id
      ensures n == m && i == j
    {
      assert At(c, n, i) && At(c, m, j);
    }
  }

  lemma FailedInv(c: Cache, number: nat, f: Filling, d: Cache)
    requires Inv(c) && Filled(Before(c, number), f) && d == Cache(c.blocks, f.lookup, f.store)
    ensures Inv(d) <==> TakesOver(c, number, f)
  {
    assert NoneDangling(d) <==> Ids(Old(c, number)) <= Ids(f.entries) by { FailedDangling(c, number, f, d); }
    assert NoneLeaked(d) <==> Ids(f.entries) <= Ids(Old(c, number)) by { FailedLeaks(c, number, f, d); }
    assert LookupsLive(d) <==> LookupsFit(c, number, f) by { FailedLookups(c, number, f, d); }
    assert NoneShared(d) by { SameShared(c, d); }
  }

  /**
   A refused put leaves the promises whole exactly if the blobs put before it have taken over the ids of the block's old
   entries. For a new block that is so exactly if none was put.
   */
  lemma SetBlockFailsInv(c: Cache, number: nat, done: seq<Blob>, choose: Chooser)
    requires Inv(c) && Fresh(choose)
    ensures Inv(SetBlockFails(c, number, done, choose))
            <==> TakesOver(c, number, PutAll(Before(c, number), done, choose))
    ensures number !in c.blocks ==>
              (Inv(SetBlockFails(c, number, done, choose)) <==> forall i :: 0 <= i < |done| ==> done[i].Missing?)
  {
    var f, d := PutAll(Before(c, number), done, choose), SetBlockFails(c, number, done, choose);
    FilledAll(Before(c, number), done, choose);
    FailedInv(c, number, f, d);
    if number !in c.blocks { NoneTakesOver(c, number, done, choose); }
  }

  lemma NoneTakesOver(c: Cache, number: nat, done: seq<Blob>, choose: Chooser)
    requires number !in c.blocks
    ensures TakesOver(c, number, PutAll(Before(c, number), done, choose))
            <==> forall i :: 0 <= i < |done| ==> done[i].Missing?
  {
    var base := Before(c, number);
    var f := PutAll(base, done, choose);
    if i :| 0 <= i < |done| && done[i].Blob? {
      EntriesBring(base, done, choose, done[i].kv);
      assert Brings(done, done[i].kv);
      var j :| 0 <= j < |f.entries| && f.entries[j].kv == done[i].kv;
      assert f.entries[j].id in Ids(f.entries);
    } else {
      NothingPut(base, done, choose);
    }
  }

  lemma {:induction false} NothingPut(f: Filling, blobs: seq<Blob>, choose: Chooser)
    requires forall i :: 0 <= i < |blobs| ==> blobs[i].Missing?
    ensures PutAll(f, blobs, choose) == f
    decreases |blobs|
  {
    if blobs != [] { NothingPut(f, blobs[..|blobs| - 1], choose); }
  }

  /** Cleaning up keeps the promises, whatever the blocks have in common. */
  lemma CleanupInv(c: Cache, finalized: nat)
    requires Inv(c)
    ensures Inv(Cleanup(c, finalized))
  {
    var d := Cleanup(c, finalized);
    forall n: nat, i | At(d, n, i) ensures d.blocks[n][i].id in d.store { KeptInStore(c, finalized, n, i); }
    forall id | id in d.store ensures exists n: nat, i :: At(d, n, i) && d.blocks[n][i].id == id {
      var n: nat, i :| At(c, n, i) && c.blocks[n][i].id == id;
      assert At(d, n, i) && d.blocks[n][i].id == id;
    }
    forall n: nat, i, m: nat, j | At(d, n, i) && At(d, m, j) && d.blocks[n][i].id == d.blocks[m][j].id
      ensures n == m && i == j
    {
      assert At(c, n, i) && At(c, m, j);
    }
    forall k | k in d.lookup ensures LookupLive(d, k) {
      var n: nat, i :| At(c, n, i) && c.blocks[n][i].kv == k && c.blocks[n][i].id == c.lookup[k];
      assert At(d, n, i) && d.blocks[n][i].kv == k;
    }
  }

  lemma KeptInStore(c: Cache, finalized: nat, n: nat, i: int)
    requires Inv(c) && At(c, n, i) && n > finalized
    ensures c.blocks[n][i].id !in StaleIds(c, finalized) && c.blocks[n][i].id in c.store
  {
    forall m, j | m in Stale(c, finalized) && 0 <= j < |c.blocks[m]| ensures c.blocks[m][j].id != c.blocks[n][i].id {
      assert At(c, m, j);
    }
  }

  // ---------------------------------------------------------------- the cache as a map of blocks

  /** The blobs of a block, read through the store. */
  function BlobsOf(c: Cache, n: nat): seq<Blob>
    requires n in c.blocks && forall i :: 0 <= i < |c.blocks[n]| ==> c.blocks[n][i].id in c.store
  {
    var es := c.blocks[n];
    seq(|es|, i requires 0 <= i < |es| => Blob(es[i].kv, es[i].hash, c.store[es[i].id]))
  }

  /** What the cache stands for: the blobs of each block, and the data handed out for samples of an index. */
  datatype Abstract = Abstract(blocks: map<nat, seq<Blob>>, latest: map<nat, Data>)

  /** The data the lookup table leads to. */
  function LatestOf(lookup: map<nat, nat>, store: map<nat, Data>): map<nat, Data>
    requires forall k :: k in lookup ==> lookup[k] in store
  {
    map k | k in lookup :: store[lookup[k]]
  }

  lemma InvReads(c: Cache)
    requires Inv(c)
    ensures forall n, i :: n in c.blocks && 0 <= i < |c.blocks[n]| ==> c.blocks[n][i].id in c.store
    ensures forall k :: k in c.lookup ==> c.lookup[k] in c.store
  {
    forall n, i | n in c.blocks && 0 <= i < |c.blocks[n]| ensures c.blocks[n][i].id in c.store { assert At(c, n, i); }
    forall k | k in c.lookup ensures c.lookup[k] in c.store { assert LookupLive(c, k); }
  }

  ghost function Meaning(c: Cache): Abstract
    requires Inv(c)
  {
    InvReads(c);
    Abstract(map n | n in c.blocks :: BlobsOf(c, n), LatestOf(c.lookup, c.store))
  }

  function Latest(m: map<nat, Data>, blobs: seq<Blob>): map<nat, Data>
    decreases |blobs|
  {
    if blobs == [] then m
    else
      var n := |blobs| - 1;
      if blobs[n].Missing? then Latest(m, blobs[..n]) else Latest(m, blobs[..n])[blobs[n].kv := blobs[n].data]
  }

  function AbstractSet(a: Abstract, number: nat, blobs: seq<Blob>): Abstract {
    Abstract(a.blocks[number := Present(blobs)], Latest(a.latest, blobs))
  }

  predicate Mentions(blobs: seq<Blob>, k: nat) { exists i :: 0 <= i < |blobs| && blobs[i].kv == k }

  /** A final block mentions the index. */
  ghost predicate Gone(blocks: map<nat, seq<Blob>>, finalized: nat, k: nat) {
    exists n :: n in blocks && n <= finalized && Mentions(blocks[n], k)
  }

  /**
   Final blocks go, and with them the samples of every index they mention, even if a later block has the index too.
   */
  ghost function AbstractCleanup(a: Abstract, finalized: nat): Abstract {
    Abstract(map n | n in a.blocks && n > finalized :: a.blocks[n],
             map k | k in a.latest && !Gone(a.blocks, finalized, k) :: a.latest[k])
  }

  lemma {:induction false} PutAllLatest(base: Filling, blobs: seq<Blob>, choose: Chooser)
    requires Fresh(choose) && forall k :: k in base.lookup ==> base.lookup[k] in base.store
    ensures var f := PutAll(base, blobs, choose);
            && (forall k :: k in f.lookup ==> f.lookup[k] in f.store)
            && LatestOf(f.lookup, f.store) == Latest(LatestOf(base.lookup, base.store), blobs)
    decreases |blobs|
  {
    if blobs != [] {
      PutAllLatest(base, blobs[..|blobs| - 1], choose);
    }
  }

  lemma SetBlockBlocks(c: Cache, number: nat, blobs: seq<Blob>, choose: Chooser, n: nat)
    requires Inv(c) && Fresh(choose) && number !in c.blocks && n in SetBlock(c, number, blobs, choose).blocks
    requires Inv(SetBlock(c, number, blobs, choose))
    ensures Meaning(SetBlock(c, number, blobs, choose)).blocks[n]
            == if n == number then Present(blobs) else Meaning(c).blocks[n]
  {
    var d, base := SetBlock(c, number, blobs, choose), Before(c, number);
    if n == number {
      PutAllMirrors(base, blobs, choose);
    } else {
      FilledAll(base, blobs, choose);
      assert forall i :: 0 <= i < |c.blocks[n]| ==> At(c, n, i);
      assert BlobsOf(d, n) == BlobsOf(c, n);
    }
  }

  lemma SetBlockLatest(c: Cache, number: nat, blobs: seq<Blob>, choose: Chooser)
    requires Inv(c) && Fresh(choose) && number !in c.blocks && Inv(SetBlock(c, number, blobs, choose))
    ensures Meaning(SetBlock(c, number, blobs, choose)).latest == Latest(Meaning(c).latest, blobs)
  {
    InvReads(c);
    PutAllLatest(Before(c, number), blobs, choose);
  }

  /** Setting a new block is an update of the map of blocks. */
  lemma SetBlockMeaning(c: Cache, number: nat, blobs: seq<Blob>, choose: Chooser)
    requires Inv(c) && Fresh(choose) && number !in c.blocks
    ensures Inv(SetBlock(c, number, blobs, choose))
    ensures Meaning(SetBlock(c, number, blobs, choose)) == AbstractSet(Meaning(c), number, blobs)
  {
    SetBlockInv(c, number, blobs, choose);
    var m, a := Meaning(SetBlock(c, number, blobs, choose)), AbstractSet(Meaning(c), number, blobs);
    forall n | n in m.blocks ensures m.blocks[n] == a.blocks[n] { SetBlockBlocks(c, number, blobs, choose, n); }
    assert m.blocks == a.blocks;
    SetBlockLatest(c, number, blobs, choose);
  }

  lemma CleanupBlocks(c: Cache, finalized: nat, n: nat)
    requires Inv(c) && Inv(Cleanup(c, finalized)) && n in Cleanup(c, finalized).blocks
    ensures Meaning(Cleanup(c, finalized)).blocks[n] == Meaning(c).blocks[n]
  {
    forall i | 0 <= i < |c.blocks[n]| ensures At(c, n, i) && c.blocks[n][i].id !in StaleIds(c, finalized) {
      KeptInStore(c, finalized, n, i);
    }
    assert BlobsOf(Cleanup(c, finalized), n) == BlobsOf(c, n);
  }

  lemma CleanupLatest(c: Cache, finalized: nat)
    requires Inv(c) && Inv(Cleanup(c, finalized))
    ensures Meaning(Cleanup(c, finalized)).latest == AbstractCleanup(Meaning(c), finalized).latest
  {
    var d := Cleanup(c, finalized);
    InvReads(c);
    InvReads(d);
    LatestCut(c.lookup, c.store, StaleKvs(c, finalized), StaleIds(c, finalized));
    GoneIsStale(c, finalized);
  }

  lemma LatestCut(lookup: map<nat, nat>, store: map<nat, Data>, kvs: set<nat>, ids: set<nat>)
    requires forall k :: k in lookup ==> lookup[k] in store
    requires forall k :: k in lookup - kvs ==> lookup[k] in store - ids
    ensures LatestOf(lookup - kvs, store - ids) == LatestOf(lookup, store) - kvs
  {
  }

  lemma GoneIsStale(c: Cache, finalized: nat)
    requires Inv(c)
    ensures AbstractCleanup(Meaning(c), finalized).latest == Meaning(c).latest - StaleKvs(c, finalized)
  {
    forall k: nat ensures k in StaleKvs(c, finalized) <==> Gone(Meaning(c).blocks, finalized, k) {
      CleanedLookup(c, finalized, k);
    }
  }

  /** Cleaning up removes the final blocks and no other. */
  lemma CleanupMeaning(c: Cache, finalized: nat)
    requires Inv(c)
    ensures Inv(Cleanup(c, finalized)) && Meaning(Cleanup(c, finalized)) == AbstractCleanup(Meaning(c), finalized)
  {
    CleanupInv(c, finalized);
    var m, a := Meaning(Cleanup(c, finalized)), AbstractCleanup(Meaning(c), finalized);
    forall n | n in m.blocks ensures m.blocks[n] == a.blocks[n] { CleanupBlocks(c, finalized, n); }
    assert m.blocks == a.blocks;
    CleanupLatest(c, finalized);
  }

  lemma CleanedLookup(c: Cache, finalized: nat, k: nat)
    requires Inv(c)
    ensures k in StaleKvs(c, finalized) <==> Gone(Meaning(c).blocks, finalized, k)
  {
    var m: map<nat, seq<Blob>> := Meaning(c).blocks;
    if k in StaleKvs(c, finalized) {
      var n, i :| n in Stale(c, finalized) && 0 <= i < |c.blocks[n]| && c.blocks[n][i].kv == k;
      assert m[n][i].kv == k;
    }
    if Gone(m, finalized, k) {
      var n :| n in m && n <= finalized && Mentions(m[n], k);
      var i :| 0 <= i < |m[n]| && m[n][i].kv == k;
      assert c.blocks[n][i].kv == k && n in Stale(c, finalized);
    }
  }

  // ---------------------------------------------------------------- reading back

  lemma {:induction false} PresentAll(blobs: seq<Blob>)
    requires forall i :: 0 <= i < |blobs| ==> blobs[i].Blob?
    ensures Present(blobs) == blobs
    decreases |blobs|
  {
    if blobs != [] {
      var n := |blobs| - 1;
      PresentAll(blobs[..n]);
      assert blobs == blobs[..n] + [blobs[n]];
    }
  }

  lemma {:induction false} PresentOnly(blobs: seq<Blob>, b: Blob)
    ensures b in Present(blobs) <==> b in blobs && b.Blob?
    decreases |blobs|
  {
    if blobs != [] {
      var n := |blobs| - 1;
      PresentOnly(blobs[..n], b);
      assert blobs == blobs[..n] + [blobs[n]];
    }
  }

  /** No blob from position i on has data for the index. */
  predicate NoneFrom(blobs: seq<Blob>, i: nat, k: nat) {
    forall j :: i <= j < |blobs| ==> blobs[j].Missing? || blobs[j].kv != k
  }

  /** The data of an index is that of the last blob with data for it, or what it was. */
  lemma {:induction false} LatestAt(m: map<nat, Data>, blobs: seq<Blob>, i: nat, k: nat)
    requires i <= |blobs| && NoneFrom(blobs, i, k)
    requires i > 0 ==> blobs[i - 1].Blob? && blobs[i - 1].kv == k
    ensures i > 0 ==> k in Latest(m, blobs) && Latest(m, blobs)[k] == blobs[i - 1].data
    ensures i == 0 ==> (k in Latest(m, blobs) <==> k in m) && (k in m ==> Latest(m, blobs)[k] == m[k])
    decreases |blobs|
  {
    if i < |blobs| { LatestAt(m, blobs[..|blobs| - 1], i, k); }
  }

  /** A new block is read back: all its blobs if all have data, exactly those with data otherwise; others as before. */
  lemma SetIsReadBack(c: Cache, number: nat, blobs: seq<Blob>, choose: Chooser)
    requires Inv(c) && Fresh(choose) && number !in c.blocks
    ensures var d := SetBlock(c, number, blobs, choose);
            && Inv(d) && number in Meaning(d).blocks
            && ((forall j :: 0 <= j < |blobs| ==> blobs[j].Blob?) ==> Meaning(d).blocks[number] == blobs)
            && (forall b :: b in Meaning(d).blocks[number] <==> b in blobs && b.Blob?)
            && (forall n :: n in c.blocks ==> n in Meaning(d).blocks && Meaning(d).blocks[n] == Meaning(c).blocks[n])
  {
    SetBlockMeaning(c, number, blobs, choose);
    if forall j :: 0 <= j < |blobs| ==> blobs[j].Blob? { PresentAll(blobs); }
    forall b ensures b in Present(blobs) <==> b in blobs && b.Blob? { PresentOnly(blobs, b); }
  }

  /** For an index the blob that comes last in the block is read, and what was read before if the block has none. */
  lemma LastIsReadBack(c: Cache, number: nat, blobs: seq<Blob>, choose: Chooser, i: nat, k: nat)
    requires Inv(c) && Fresh(choose) && number !in c.blocks
    requires i <= |blobs| && NoneFrom(blobs, i, k) && (i > 0 ==> blobs[i - 1].Blob? && blobs[i - 1].kv == k)
    ensures var d := SetBlock(c, number, blobs, choose);
            && Inv(d)
            && (i > 0 ==> k in Meaning(d).latest && Meaning(d).latest[k] == blobs[i - 1].data)
            && (i == 0 && k in Meaning(c).latest ==>
                  k in Meaning(d).latest && Meaning(d).latest[k] == Meaning(c).latest[k])
  {
    SetBlockMeaning(c, number, blobs, choose);
    LatestAt(Meaning(c).latest, blobs, i, k);
  }

  /** After a cleanup the final blocks are gone, and every other block is read as before. */
  lemma CleanIsReadBack(c: Cache, finalized: nat, n: nat)
    requires Inv(c)
    ensures var d := Cleanup(c, finalized);
            && Inv(d) && (n in Meaning(d).blocks <==> n in Meaning(c).blocks && n > finalized)
            && (n in Meaning(d).blocks ==> Meaning(d).blocks[n] == Meaning(c).blocks[n])
  {
    CleanupMeaning(c, finalized);
  }

  // ---------------------------------------------------------------- runs

  datatype Step = Set(number: nat, blobs: seq<Blob>, choose: Chooser) | Clean(finalized: nat)

  /** The downloader sets a block only if the cache has no blobs for it. */
  ghost predicate Enabled(c: Cache, s: Step) { s.Set? ==> s.number !in c.blocks && Fresh(s.choose) }

  function Next(c: Cache, s: Step): Cache {
    match s
    case Set(number, blobs, choose) => SetBlock(c, number, blobs, choose)
    case Clean(finalized) => Cleanup(c, finalized)
  }

  ghost function AbstractNext(a: Abstract, s: Step): Abstract {
    match s
    case Set(number, blobs, choose) => AbstractSet(a, number, blobs)
    case Clean(finalized) => AbstractCleanup(a, finalized)
  }

  ghost predicate Legal(c: Cache, steps: seq<Step>)
    decreases |steps|
  {
    steps == [] || (Enabled(c, steps[0]) && Legal(Next(c, steps[0]), steps[1..]))
  }

  function Exec(c: Cache, steps: seq<Step>): Cache
    decreases |steps|
  {
    if steps == [] then c else Exec(Next(c, steps[0]), steps[1..])
  }

  ghost function AbstractExec(a: Abstract, steps: seq<Step>): Abstract
    decreases |steps|
  {
    if steps == [] then a else AbstractExec(AbstractNext(a, steps[0]), steps[1..])
  }

  const EMPTY: Cache := Cache(map[], map[], map[])

  /** In every run the tables keep their promises, and the cache is the map of blocks that the run describes. */
  lemma {:induction false} RunRefines(c: Cache, steps: seq<Step>)
    requires Inv(c) && Legal(c, steps)
    ensures Inv(Exec(c, steps)) && Meaning(Exec(c, steps)) == AbstractExec(Meaning(c), steps)
    decreases |steps|
  {
    if steps != [] {
      match steps[0] {
        case Set(number, blobs, choose) => SetBlockMeaning(c, number, blobs, choose);
        case Clean(finalized) => CleanupMeaning(c, finalized);
      }
      RunRefines(Next(c, steps[0]), steps[1..]);
    }
  }

  /** A block set again without one of its blobs leaves a lookup to deleted data. */
  lemma SetAgainDangles(choose: Chooser)
    requires Fresh(choose)
    ensures var c := SetBlock(EMPTY, 1, [Blob(5, [], [])], choose);
            Inv(c) && 5 in SetBlock(c, 1, [], choose).lookup
              && SetBlock(c, 1, [], choose).lookup[5] !in SetBlock(c, 1, [], choose).store
  {
    var b := Blob(5, [], []);
    var c := SetBlock(EMPTY, 1, [b], choose);
    SetBlockInv(EMPTY, 1, [b], choose);
    var id := choose(map[]);
    assert [b][..0] == [] && PutAll(Before(EMPTY, 1), [], choose) == Before(EMPTY, 1);
    assert c.blocks[1] == [Entry(5, [], id)] && c.lookup == map[5 := id];
    assert c.blocks[1][0].id == id && id in Ids(c.blocks[1]);
  }

  /** A blob put before one that is refused: its data belongs to no block, so nothing will ever delete it. */
  lemma RefusedPutLeaks(choose: Chooser)
    requires Fresh(choose)
    ensures Inv(EMPTY) && !Inv(SetBlockFails(EMPTY, 1, [Blob(5, [], [])], choose))
    ensures Leaked(SetBlockFails(EMPTY, 1, [Blob(5, [], [])], choose), choose(map[]))
  {
    var b := Blob(5, [], []);
    var base := Before(EMPTY, 1);
    assert [b][..0] == [] && PutAll(base, [], choose) == base;
    assert [b][0].Blob?;
    SetBlockFailsInv(EMPTY, 1, [b], choose);
  }

  // ---------------------------------------------------------------- runs with refused puts

  ghost predicate IsEntryId(c: Cache, id: nat) { exists n: nat, i :: At(c, n, i) && c.blocks[n][i].id == id }

  /** Data that no block has. */
  ghost predicate Leaked(c: Cache, id: nat) { id in c.store && !IsEntryId(c, id) }

  /**
   What survives refused puts: blocks have their data, each its own, and a lookup leads to an entry or to leaked data.
   */
  ghost predicate Sound(c: Cache) {
    NoneDangling(c) && NoneShared(c) && forall k :: k in c.lookup ==> LookupLive(c, k) || Leaked(c, c.lookup[k])
  }

  /** Entries of the old tables after blobs have been put. */
  lemma PutBesides(c: Cache, number: nat, blobs: seq<Blob>, choose: Chooser)
    requires Sound(c) && Fresh(choose) && number !in c.blocks
    ensures Filled(Before(c, number), PutAll(Before(c, number), blobs, choose))
    ensures forall n: nat, i :: At(c, n, i) ==>
              c.blocks[n][i].id in c.store
                && c.blocks[n][i].id !in Ids(PutAll(Before(c, number), blobs, choose).entries)
  {
    FilledAll(Before(c, number), blobs, choose);
  }

  /** A new block: no leak is added, and none goes. */
  lemma SetSound(c: Cache, number: nat, blobs: seq<Blob>, choose: Chooser)
    requires Sound(c) && Fresh(choose) && number !in c.blocks
    ensures Sound(SetBlock(c, number, blobs, choose))
    ensures forall id: nat :: Leaked(SetBlock(c, number, blobs, choose), id) <==> Leaked(c, id)
  {
    var f, d := PutAll(Before(c, number), blobs, choose), SetBlock(c, number, blobs, choose);
    PutBesides(c, number, blobs, choose);
    forall n: nat, i | At(d, n, i) ensures d.blocks[n][i].id in d.store && (n != number ==> At(c, n, i)) { }
    forall id: nat ensures IsEntryId(d, id) <==> IsEntryId(c, id) || id in Ids(f.entries) {
      EntryIdAfterSet(c, number, f, d, id);
    }
    forall k | k in d.lookup ensures LookupLive(d, k) || Leaked(d, d.lookup[k]) {
      if LookupIn(f, k) || LookupLive(c, k) { LookupAfterSet(c, number, f, d, k); }
    }
  }

  lemma LookupAfterSet(c: Cache, number: nat, f: Filling, d: Cache, k: nat)
    requires number !in c.blocks && d == Cache(c.blocks[number := f.entries], f.lookup, f.store) && k in f.lookup
    requires LookupIn(f, k) || (k in c.lookup && f.lookup[k] == c.lookup[k] && LookupLive(c, k))
    ensures LookupLive(d, k)
  {
    if LookupIn(f, k) {
      var i :| 0 <= i < |f.entries| && f.entries[i].kv == k && f.entries[i].id == f.lookup[k];
      assert At(d, number, i) && d.blocks[number][i].kv == k;
    } else {
      var n: nat, i :| At(c, n, i) && c.blocks[n][i].kv == k && c.blocks[n][i].id == c.lookup[k];
      assert At(d, n, i) && d.blocks[n][i].kv == k;
    }
  }

  lemma EntryIdAfterSet(c: Cache, number: nat, f: Filling, d: Cache, id: nat)
    requires number !in c.blocks && d == Cache(c.blocks[number := f.entries], f.lookup, f.store)
    ensures IsEntryId(d, id) <==> IsEntryId(c, id) || id in Ids(f.entries)
  {
    if IsEntryId(c, id) {
      var n: nat, i :| At(c, n, i) && c.blocks[n][i].id == id;
      assert At(d, n, i) && d.blocks[n][i].id == id;
    }
    if id in Ids(f.entries) {
      var i :| 0 <= i < |f.entries| && f.entries[i].id == id;
      assert At(d, number, i) && d.blocks[number][i].id == id;
    }
    if IsEntryId(d, id) {
      var n: nat, i :| At(d, n, i) && d.blocks[n][i].id == id;
      if n != number { assert At(c, n, i) && c.blocks[n][i].id == id; }
    }
  }

  /** A refused put: exactly the blobs that were put before it leak. */
  lemma FailSound(c: Cache, number: nat, done: seq<Blob>, choose: Chooser)
    requires Sound(c) && Fresh(choose) && number !in c.blocks
    ensures Sound(SetBlockFails(c, number, done, choose))
    ensures forall id: nat :: Leaked(SetBlockFails(c, number, done, choose), id) <==>
                              Leaked(c, id) || id in Ids(PutAll(Before(c, number), done, choose).entries)
  {
    var f, d := PutAll(Before(c, number), done, choose), SetBlockFails(c, number, done, choose);
    PutBesides(c, number, done, choose);
    forall n: nat, i ensures At(d, n, i) <==> At(c, n, i) { }
    forall id: nat ensures IsEntryId(d, id) <==> IsEntryId(c, id) { SameEntryIds(c, d, id); }
    forall id: nat | id in Ids(f.entries) ensures !IsEntryId(c, id) { }
    forall k | k in d.lookup ensures LookupLive(d, k) || Leaked(d, d.lookup[k]) {
      if LookupIn(f, k) {
        assert f.lookup[k] in Ids(f.entries);
      } else if LookupLive(c, k) {
        var n: nat, i :| At(c, n, i) && c.blocks[n][i].kv == k && c.blocks[n][i].id == c.lookup[k];
        assert At(d, n, i);
      }
    }
  }

  lemma SameEntryIds(c: Cache, d: Cache, id: nat)
    requires d.blocks == c.blocks
    ensures IsEntryId(d, id) <==> IsEntryId(c, id)
  {
    if IsEntryId(c, id) {
      var n: nat, i :| At(c, n, i) && c.blocks[n][i].id == id;
      assert At(d, n, i);
    }
    if IsEntryId(d, id) {
      var n: nat, i :| At(d, n, i) && d.blocks[n][i].id == id;
      assert At(c, n, i);
    }
  }

  /** Which ids a cleanup takes from the blocks. */
  lemma EntryIdAfterCleanup(c: Cache, finalized: nat, id: nat)
    requires NoneShared(c)
    ensures IsEntryId(Cleanup(c, finalized), id) <==> IsEntryId(c, id) && id !in StaleIds(c, finalized)
  {
    var d := Cleanup(c, finalized);
    if IsEntryId(d, id) {
      var n: nat, i :| At(d, n, i) && d.blocks[n][i].id == id;
      assert At(c, n, i);
      forall m, j | m in Stale(c, finalized) && 0 <= j < |c.blocks[m]| ensures c.blocks[m][j].id != id {
        assert At(c, m, j);
      }
    }
    if IsEntryId(c, id) && id !in StaleIds(c, finalized) {
      var n: nat, i :| At(c, n, i) && c.blocks[n][i].id == id;
      assert n !in Stale(c, finalized);
      assert At(d, n, i) && d.blocks[n][i].id == id;
    }
  }

  /** Cleaning up: what has leaked stays. */
  lemma CleanSound(c: Cache, finalized: nat)
    requires Sound(c)
    ensures Sound(Cleanup(c, finalized))
    ensures forall id: nat :: Leaked(Cleanup(c, finalized), id) <==> Leaked(c, id)
  {
    var d := Cleanup(c, finalized);
    forall id: nat ensures IsEntryId(d, id) <==> IsEntryId(c, id) && id !in StaleIds(c, finalized) {
      EntryIdAfterCleanup(c, finalized, id);
    }
    forall id: nat | id in StaleIds(c, finalized) ensures IsEntryId(c, id) {
      var n, i :| n in Stale(c, finalized) && 0 <= i < |c.blocks[n]| && c.blocks[n][i].id == id;
      assert At(c, n, i);
    }
    forall n: nat, i | At(d, n, i) ensures d.blocks[n][i].id in d.store && At(c, n, i) {
      assert At(c, n, i) && IsEntryId(d, d.blocks[n][i].id);
    }
    forall k | k in d.lookup ensures LookupLive(d, k) || Leaked(d, d.lookup[k]) {
      if LookupLive(c, k) {
        var n: nat, i :| At(c, n, i) && c.blocks[n][i].kv == k && c.blocks[n][i].id == c.lookup[k];
        assert At(d, n, i) && d.blocks[n][i].kv == k;
      }
    }
  }

  datatype Attempt = Done(step: Step) | Refused(number: nat, done: seq<Blob>, choose: Chooser)

  ghost predicate CanTry(c: Cache, a: Attempt) {
    match a
    case Done(step) => Enabled(c, step)
    case Refused(number, _, choose) => number !in c.blocks && Fresh(choose)
  }

  function After(c: Cache, a: Attempt): Cache {
    match a
    case Done(step) => Next(c, step)
    case Refused(number, done, choose) => SetBlockFails(c, number, done, choose)
  }

  ghost predicate CanTryAll(c: Cache, run: seq<Attempt>)
    decreases |run|
  {
    run == [] || (CanTry(c, run[0]) && CanTryAll(After(c, run[0]), run[1..]))
  }

  function AfterAll(c: Cache, run: seq<Attempt>): Cache
    decreases |run|
  {
    if run == [] then c else AfterAll(After(c, run[0]), run[1..])
  }

  /** The run puts the id and is then refused a blob of the same block. */
  ghost predicate PutInVain(c: Cache, run: seq<Attempt>, id: nat)
    decreases |run|
  {
    run != [] &&
    ( || (run[0].Refused? && id in Ids(PutAll(Before(c, run[0].number), run[0].done, run[0].choose).entries))
      || PutInVain(After(c, run[0]), run[1..], id))
  }

  lemma AttemptSound(c: Cache, a: Attempt)
    requires Sound(c) && CanTry(c, a)
    ensures Sound(After(c, a)) && forall id: nat :: Leaked(c, id) ==> Leaked(After(c, a), id)
    ensures a.Done? ==> forall id: nat :: Leaked(After(c, a), id) ==> Leaked(c, id)
    ensures a.Refused? ==>
              var put := Ids(PutAll(Before(c, a.number), a.done, a.choose).entries);
              forall id: nat :: Leaked(After(c, a), id) <==> Leaked(c, id) || id in put
  {
    match a
    case Done(Set(number, blobs, choose)) => SetSound(c, number, blobs, choose);
    case Done(Clean(finalized)) => CleanSound(c, finalized);
    case Refused(number, done, choose) => FailSound(c, number, done, choose);
  }

  /**
   In every run with refused puts among the others no block loses its data or shares it, and lookups lead to data. The
   ids that leak are exactly those of blobs put before a refused one, and none of them is ever freed.
   */
  lemma {:induction false} RefusedRun(c: Cache, run: seq<Attempt>, id: nat)
    requires Sound(c) && CanTryAll(c, run)
    ensures Sound(AfterAll(c, run))
    ensures Leaked(AfterAll(c, run), id) <==> Leaked(c, id) || PutInVain(c, run, id)
    decreases |run|
  {
    if run != [] {
      AttemptSound(c, run[0]);
      RefusedRun(After(c, run[0]), run[1..], id);
    }
  }
}
