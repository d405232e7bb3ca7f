/**
 A finished download: the blobs of a block range are reduced to one per index, split over worker stripes and
 written in parallel. The files end up as if the blobs had been written one by one in event order.
 */
module Downloads {
  import opened Arith
  import opened Bytes
  import opened Disk
  import opened Interleaving
  import KvCoding
  import M = Masking

  // ---------------------------------------------------------------- one blob per index

  /** A PutBlob event with its blob, already encoded. */
  datatype Event = Event(kv: nat, hash: Data, data: Data)

  predicate EventsOk(events: seq<Event>) {
    forall i :: 0 <= i < |events| ==> |events[i].hash| == META_SIZE
  }

  /** The blobs of the events written one after the other. */
  function Replay(disk: map<nat, Record>, kvSize: nat, events: seq<Event>): map<nat, Record>
    requires EventsOk(events)
  {
    if events == [] then disk
    else
      var e := events[|events| - 1];
      Put(Replay(disk, kvSize, events[..|events| - 1]), kvSize, e.kv, e.data, PrepareCommit(e.hash))
  }

  predicate Mentioned(events: seq<Event>, kv: nat) {
    exists i :: 0 <= i < |events| && events[i].kv == kv
  }

  /** The last event about an index. */
  function LastEvent(events: seq<Event>, kv: nat): (e: Event)
    requires Mentioned(events, kv)
    ensures e in events && e.kv == kv
  {
    var e := events[|events| - 1];
    if e.kv == kv then e else LastEvent(events[..|events| - 1], kv)
  }

  function MetaOf(hash: Data): Data
    requires |hash| == META_SIZE
  {
    hash[..HASH_SIZE] + Zeros(META_SIZE - HASH_SIZE)
  }

  predicate Distinct(kvs: seq<nat>) {
    forall i, j :: 0 <= i < j < |kvs| ==> kvs[i] != kvs[j]
  }

  /** The three arrays hold each mentioned index once, with the data and hash of its last event. */
  ghost predicate Deduped(events: seq<Event>, kvs: seq<nat>, datas: seq<Data>, metas: seq<Data>)
    requires EventsOk(events)
  {
    && |kvs| == |datas| == |metas| && Distinct(kvs)
    && (forall i :: 0 <= i < |kvs| ==>
                      && Mentioned(events, kvs[i])
                      && datas[i] == LastEvent(events, kvs[i]).data
                      && metas[i] == MetaOf(LastEvent(events, kvs[i]).hash))
    && (forall i :: 0 <= i < |events| ==> events[i].kv in kvs)
  }

  /** The position of the first event about an index; the number of events if there is none. */
  function FirstAt(events: seq<Event>, kv: nat): (p: nat)
    ensures p <= |events| && (p < |events| ==> events[p].kv == kv) && forall q :: 0 <= q < p ==> events[q].kv != kv
  {
    if events == [] || events[0].kv == kv then 0 else 1 + FirstAt(events[1..], kv)
  }

  /** The indices stand in the order of their first events. */
  predicate InFirstOrder(events: seq<Event>, kvs: seq<nat>) {
    forall i, j :: 0 <= i < j < |kvs| ==> FirstAt(events, kvs[i]) < FirstAt(events, kvs[j])
  }

  lemma FirstAtStays(events: seq<Event>, e: Event, kv: nat)
    requires Mentioned(events, kv)
    ensures FirstAt(events + [e], kv) == FirstAt(events, kv) < |events|
  {
    var p, q, all := FirstAt(events, kv), FirstAt(events + [e], kv), events + [e];
    var i :| 0 <= i < |events| && events[i].kv == kv;
    assert all[i].kv == kv && p <= i && q <= i;
    assert all[p].kv == kv && events[q].kv == kv;
  }

  lemma OrderStays(events: seq<Event>, kvs: seq<nat>, e: Event)
    requires InFirstOrder(events, kvs) && forall i :: 0 <= i < |kvs| ==> Mentioned(events, kvs[i])
    ensures InFirstOrder(events + [e], kvs)
    ensures !Mentioned(events, e.kv) ==> InFirstOrder(events + [e], kvs + [e.kv])
  {
    forall i | 0 <= i < |kvs| ensures FirstAt(events + [e], kvs[i]) == FirstAt(events, kvs[i]) < |events| {
      FirstAtStays(events, e, kvs[i]);
    }
    if !Mentioned(events, e.kv) {
      var p, all := FirstAt(events + [e], e.kv), events + [e];
      assert forall q :: 0 <= q < |events| ==> all[q] == events[q];
      assert p >= |events|;
    }
  }

  ghost predicate IndexOk(index: map<nat, nat>, kvs: seq<nat>) {
    && (forall kv :: kv in index <==> kv in kvs)
    && (forall kv :: kv in index ==> index[kv] < |kvs| && kvs[index[kv]] == kv)
  }

  ghost predicate Building(events: seq<Event>, kvs: seq<nat>, datas: seq<Data>, metas: seq<Data>, index: map<nat, nat>)
    requires EventsOk(events)
  {
    Deduped(events, kvs, datas, metas) && InFirstOrder(events, kvs) && IndexOk(index, kvs)
  }

  /** The loop that builds the arrays, replacing the entry of an index seen before. */
  method Dedup(events: seq<Event>) returns (kvIndices: seq<nat>, dataBlobs: seq<Data>, metas: seq<Data>)
    requires EventsOk(events)
    ensures Deduped(events, kvIndices, dataBlobs, metas)
    ensures InFirstOrder(events, kvIndices)
  {
    kvIndices, dataBlobs, metas := [], [], [];
    var kvIdxToArrayIdx: map<nat, nat> := map[];
    var n := 0;
    while n < |events|
      invariant n <= |events|
      invariant Building(events[..n], kvIndices, dataBlobs, metas, kvIdxToArrayIdx)
    {
      assert events[..n + 1] == events[..n] + [events[n]];
      kvIndices, dataBlobs, metas, kvIdxToArrayIdx :=
        DedupAdd(events[..n], events[n], kvIndices, dataBlobs, metas, kvIdxToArrayIdx);
      n := n + 1;
    }
    assert events[..n] == events;
  }

  method DedupAdd(ghost events: seq<Event>, blob: Event, kvs: seq<nat>, datas: seq<Data>, metas: seq<Data>,
                  index: map<nat, nat>)
    returns (kvs': seq<nat>, datas': seq<Data>, metas': seq<Data>, index': map<nat, nat>)
    requires EventsOk(events) && |blob.hash| == META_SIZE
    requires Building(events, kvs, datas, metas, index)
    ensures Building(events + [blob], kvs', datas', metas', index')
  {
    OrderStays(events, kvs, blob);
    kvs', datas', metas', index' := kvs, datas, metas, index;
    if blob.kv in index {
      var at := index[blob.kv];
      DedupReplace(events, kvs, datas, metas, blob, at);
      datas' := datas[at := blob.data];
      metas' := metas[at := blob.hash[..HASH_SIZE] + metas[at][HASH_SIZE..]];
    } else {
      DedupAppend(events, kvs, datas, metas, blob);
      kvs' := kvs + [blob.kv];
      index' := index[blob.kv := |kvs|];
      datas' := datas + [blob.data];
      metas' := metas + [blob.hash[..HASH_SIZE] + Zeros(META_SIZE - HASH_SIZE)];
    }
  }

  lemma LastAfter(events: seq<Event>, e: Event, kv: nat)
    ensures Mentioned(events, kv) ==> Mentioned(events + [e], kv)
    ensures Mentioned(events + [e], e.kv) && LastEvent(events + [e], e.kv) == e
    ensures kv != e.kv && Mentioned(events, kv) ==> LastEvent(events + [e], kv) == LastEvent(events, kv)
  {
    var all := events + [e];
    assert all[|events|] == e && all[..|all| - 1] == events;
    if Mentioned(events, kv) {
      var i :| 0 <= i < |events| && events[i].kv == kv;
      assert all[i].kv == kv;
    }
  }

  lemma DedupReplace(events: seq<Event>, kvs: seq<nat>, datas: seq<Data>, metas: seq<Data>, e: Event, at: nat)
    requires EventsOk(events + [e]) && EventsOk(events) && |e.hash| == META_SIZE
    requires Deduped(events, kvs, datas, metas) && at < |kvs| && kvs[at] == e.kv
    ensures |metas[at]| == META_SIZE && metas[at][HASH_SIZE..] == Zeros(META_SIZE - HASH_SIZE)
    ensures Deduped(events + [e], kvs, datas[at := e.data], metas[at := MetaOf(e.hash)])
  {
    forall i | 0 <= i < |kvs|
      ensures && Mentioned(events + [e], kvs[i])
              && datas[at := e.data][i] == LastEvent(events + [e], kvs[i]).data
              && metas[at := MetaOf(e.hash)][i] == MetaOf(LastEvent(events + [e], kvs[i]).hash)
    {
      LastAfter(events, e, kvs[i]);
    }
  }

  lemma DedupAppend(events: seq<Event>, kvs: seq<nat>, datas: seq<Data>, metas: seq<Data>, e: Event)
    requires EventsOk(events + [e]) && EventsOk(events) && |e.hash| == META_SIZE
    requires Deduped(events, kvs, datas, metas) && e.kv !in kvs
    ensures Deduped(events + [e], kvs + [e.kv], datas + [e.data], metas + [MetaOf(e.hash)])
  {
    var kvs', datas', metas' := kvs + [e.kv], datas + [e.data], metas + [MetaOf(e.hash)];
    forall i | 0 <= i < |kvs'|
      ensures && Mentioned(events + [e], kvs'[i])
              && datas'[i] == LastEvent(events + [e], kvs'[i]).data
              && metas'[i] == MetaOf(LastEvent(events + [e], kvs'[i]).hash)
    {
      LastAfter(events, e, kvs'[i]);
    }
  }

  // ---------------------------------------------------------------- stripes

  /** An entry of a batch, with the meta to be written for it. */
  datatype Item = Item(kv: nat, data: Data, meta: Data)

  function Items(kvs: seq<nat>, datas: seq<Data>, commits: seq<Data>): seq<Item>
    requires |kvs| == |datas| == |commits|
    requires forall i :: 0 <= i < |commits| ==> |commits[i]| == META_SIZE
  {
    seq(|kvs|, i requires 0 <= i < |kvs| => Item(kvs[i], datas[i], PrepareCommit(commits[i])))
  }

  predicate DistinctItems(items: seq<Item>) {
    forall i, j :: 0 <= i < j < |items| ==> items[i].kv != items[j].kv
  }

  /** A write that returns an error and makes its worker give up. */
  predicate TooLarge(disk: map<nat, Record>, kvSize: nat, item: Item) {
    item.kv in disk && |item.data| > kvSize
  }

  /** Position q is on the stripe starting at p. */
  predicate OnStripe(p: nat, q: nat, n: nat)
    requires n > 0
  {
    p <= q && (q - p) % n == 0
  }

  /** A worker gets to position q: none of its earlier writes failed. */
  predicate Reached(disk: map<nat, Record>, kvSize: nat, items: seq<Item>, p: nat, q: nat, n: nat)
    requires n > 0 && q <= |items|
  {
    forall j :: p <= j < q && OnStripe(p, j, n) ==> !TooLarge(disk, kvSize, items[j])
  }

  /** The positions a worker starting at p writes, in order. */
  function Stripe(disk: map<nat, Record>, kvSize: nat, items: seq<Item>, p: nat, n: nat): seq<nat>
    requires n > 0
    decreases |items| - p
  {
    if p >= |items| || TooLarge(disk, kvSize, items[p]) then []
    else (if items[p].kv in disk then [p] else []) + Stripe(disk, kvSize, items, p + n, n)
  }

  predicate Written(disk: map<nat, Record>, kvSize: nat, items: seq<Item>, p: nat, q: nat, n: nat)
    requires n > 0
  {
    && q < |items| && OnStripe(p, q, n)
    && Fits(disk, kvSize, items[q].kv, items[q].data)
    && Reached(disk, kvSize, items, p, q, n)
  }

  lemma NextOnStripe(p: nat, q: nat, n: nat)
    requires n > 0
    ensures OnStripe(p, q, n) <==> q == p || OnStripe(p + n, q, n)
    ensures OnStripe(p, p, n)
  {
    if p <= q {
      ModShift(-1, q - p, n);
      assert (-1) * n + (q - p) == q - (p + n);
      if q < p + n {
        if q > p { DivModUnique(q - p, n, 0, q - p); }
      }
    }
  }

  /** A worker writes exactly the positions of its stripe that fit and that no failed write precedes. */
  lemma {:induction false} StripeExact(disk: map<nat, Record>, kvSize: nat, items: seq<Item>, p: nat, q: nat, n: nat)
    requires n > 0
    ensures q in Stripe(disk, kvSize, items, p, n) <==> Written(disk, kvSize, items, p, q, n)
    decreases |items| - p
  {
    NextOnStripe(p, q, n);
    if p < |items| {
      if !TooLarge(disk, kvSize, items[p]) {
        StripeExact(disk, kvSize, items, p + n, q, n);
        if q <= |items| {
          forall j | p <= j < q ensures OnStripe(p, j, n) <==> j == p || OnStripe(p + n, j, n) {
            NextOnStripe(p, j, n);
          }
        }
      } else if p < q <= |items| {
        assert OnStripe(p, p, n) && TooLarge(disk, kvSize, items[p]);
        assert !Reached(disk, kvSize, items, p, q, n);
      }
    }
  }

  // ---------------------------------------------------------------- file writes

  datatype Geometry = Geometry(chunkSize: nat, chunksPerKv: nat) {
    function KvSize(): nat { chunksPerKv * chunkSize }
  }

  /** The places in the files that a blob's writes touch. */
  datatype Cell = Chunk(kv: nat, i: nat) | Meta(kv: nat)

  function ChunkOf(geo: Geometry, data: Data, i: nat): Data
    requires |data| == geo.KvSize() && i < geo.chunksPerKv
  {
    MulMonotone(i + 1, geo.chunksPerKv, geo.chunkSize);
    data[i * geo.chunkSize..(i + 1) * geo.chunkSize]
  }

  /** The writes for one blob: its chunks in order, then its meta. */
  function ItemOps(geo: Geometry, item: Item): seq<Op<Cell, Data>>
    requires |item.data| <= geo.KvSize()
  {
    seq(geo.chunksPerKv, i requires 0 <= i < geo.chunksPerKv =>
      Op(Chunk(item.kv, i), ChunkOf(geo, Pad(item.data, geo.KvSize()), i)))
    + [Op(Meta(item.kv), item.meta)]
  }

  function StripeOps(geo: Geometry, items: seq<Item>, positions: seq<nat>): seq<Op<Cell, Data>>
    requires forall q :: q in positions ==> q < |items| && |items[q].data| <= geo.KvSize()
  {
    if positions == [] then []
    else
      assert positions[0] in positions && forall q :: q in positions[1..] ==> q in positions;
      ItemOps(geo, items[positions[0]]) + StripeOps(geo, items, positions[1..])
  }

  /** The programs of the workers that are started. */
  function Workers(geo: Geometry, disk: map<nat, Record>, items: seq<Item>, n: nat): (ws: seq<seq<Op<Cell, Data>>>)
    requires n > 0
    ensures |ws| == if n <= |items| then n else |items|
  {
    seq(if n <= |items| then n else |items|, w requires 0 <= w =>
      assert forall q :: q in Stripe(disk, geo.KvSize(), items, w, n) ==>
               q < |items| && |items[q].data| <= geo.KvSize() by {
        forall q | q in Stripe(disk, geo.KvSize(), items, w, n) ensures q < |items| && |items[q].data| <= geo.KvSize() {
          StripeExact(disk, geo.KvSize(), items, w, q, n);
        }
      }
      StripeOps(geo, items, Stripe(disk, geo.KvSize(), items, w, n)))
  }

  /** The files hold what the map says, cell by cell. */
  ghost predicate Represents(geo: Geometry, cells: map<Cell, Data>, disk: map<nat, Record>) {
    forall kv :: kv in disk ==>
                   && |disk[kv].data| == geo.KvSize()
                   && Meta(kv) in cells && cells[Meta(kv)] == disk[kv].meta
                   && forall i :: 0 <= i < geo.chunksPerKv ==>
                                    Chunk(kv, i) in cells && cells[Chunk(kv, i)] == ChunkOf(geo, disk[kv].data, i)
  }

  // ---------------------------------------------------------------- any interleaving

  /** Position q of the batch is written by the worker it belongs to. */
  predicate WrittenPos(disk: map<nat, Record>, kvSize: nat, items: seq<Item>, q: nat, n: nat)
    requires n > 0
  {
    Written(disk, kvSize, items, q % n, q, n)
  }

  /** The first k entries of the batch in order, leaving out those behind a failed write. */
  function PutUpTo(disk: map<nat, Record>, kvSize: nat, items: seq<Item>, n: nat, k: nat): map<nat, Record>
    requires n > 0 && k <= |items|
  {
    if k == 0 then disk
    else
      var prev := PutUpTo(disk, kvSize, items, n, k - 1);
      if WrittenPos(disk, kvSize, items, k - 1, n)
      then Put(prev, kvSize, items[k - 1].kv, items[k - 1].data, items[k - 1].meta)
      else prev
  }

  /** The files after a batch was written with n workers. */
  function AfterBatch(disk: map<nat, Record>, kvSize: nat, items: seq<Item>, n: nat): map<nat, Record>
    requires n > 0
  {
    PutUpTo(disk, kvSize, items, n, |items|)
  }

  lemma {:induction false} PutUpToAt(disk: map<nat, Record>, kvSize: nat, items: seq<Item>, n: nat, k: nat, kv: nat)
    requires n > 0 && k <= |items| && DistinctItems(items)
    ensures PutUpTo(disk, kvSize, items, n, k).Keys == disk.Keys
    ensures forall q :: 0 <= q < k && items[q].kv == kv && WrittenPos(disk, kvSize, items, q, n) ==>
                          PutUpTo(disk, kvSize, items, n, k)[kv] == Record(Pad(items[q].data, kvSize), items[q].meta)
    ensures kv in disk && (forall q :: 0 <= q < k && items[q].kv == kv ==> !WrittenPos(disk, kvSize, items, q, n)) ==>
              PutUpTo(disk, kvSize, items, n, k)[kv] == disk[kv]
  {
    if k > 0 {
      PutUpToAt(disk, kvSize, items, n, k - 1, kv);
    }
  }

  lemma ItemOpsAt(geo: Geometry, item: Item, op: Op<Cell, Data>)
    requires |item.data| <= geo.KvSize() && op in ItemOps(geo, item)
    ensures op.key.kv == item.kv
    ensures op.key.Meta? ==> op.value == item.meta
    ensures op.key.Chunk? ==>
              op.key.i < geo.chunksPerKv && op.value == ChunkOf(geo, Pad(item.data, geo.KvSize()), op.key.i)
  {
  }

  lemma {:induction false} InStripeOps(geo: Geometry, items: seq<Item>, positions: seq<nat>, op: Op<Cell, Data>)
    requires forall q :: q in positions ==> q < |items| && |items[q].data| <= geo.KvSize()
    ensures op in StripeOps(geo, items, positions) <==>
              exists q :: q in positions && op in ItemOps(geo, items[q])
  {
    if positions != [] {
      assert positions[0] in positions && forall q :: q in positions[1..] ==> q in positions;
      assert forall q :: q in positions ==> q == positions[0] || q in positions[1..];
      InStripeOps(geo, items, positions[1..], op);
    }
  }

  lemma StripeOf(w: nat, q: nat, n: nat)
    requires w < n
    ensures OnStripe(w, q, n) <==> q % n == w
  {
    if OnStripe(w, q, n) {
      assert q == ((q - w) / n) * n + w;
      DivModUnique(q, n, (q - w) / n, w);
    }
    if q % n == w {
      assert q - w == (q / n) * n;
      DivModUnique(q - w, n, q / n, 0);
    }
  }

  /** A worker's program consists of the writes of the positions it gets to. */
  lemma InWorker(geo: Geometry, disk: map<nat, Record>, items: seq<Item>, n: nat, w: nat, op: Op<Cell, Data>)
    requires n > 0 && w < |Workers(geo, disk, items, n)|
    ensures op in Workers(geo, disk, items, n)[w] <==>
              exists q ::
                  0 <= q < |items| && q % n == w && WrittenPos(disk, geo.KvSize(), items, q, n)
                    && op in ItemOps(geo, items[q])
  {
    var positions := Stripe(disk, geo.KvSize(), items, w, n);
    forall q: nat ensures q in positions <==> Written(disk, geo.KvSize(), items, w, q, n) {
      StripeExact(disk, geo.KvSize(), items, w, q, n);
    }
    InStripeOps(geo, items, positions, op);
    forall q: nat
      ensures Written(disk, geo.KvSize(), items, w, q, n)
              <==> q % n == w && WrittenPos(disk, geo.KvSize(), items, q, n)
    {
      StripeOf(w, q, n);
    }
  }

  lemma WorkersDisjoint(geo: Geometry, disk: map<nat, Record>, items: seq<Item>, n: nat)
    requires n > 0 && DistinctItems(items)
    ensures Disjoint(Workers(geo, disk, items, n))
  {
    var ws := Workers(geo, disk, items, n);
    forall a, b, x: Op<Cell, Data>, y: Op<Cell, Data> | 0 <= a < b < |ws| && x in ws[a] && y in ws[b]
      ensures x.key != y.key
    {
      DifferentKeys(geo, disk, items, n, a, b, x, y);
    }
  }

  lemma DifferentKeys(geo: Geometry, disk: map<nat, Record>, items: seq<Item>, n: nat, a: nat, b: nat,
                      x: Op<Cell, Data>, y: Op<Cell, Data>)
    requires n > 0 && DistinctItems(items)
    requires var ws := Workers(geo, disk, items, n); a < b < |ws| && x in ws[a] && y in ws[b]
    ensures x.key != y.key
  {
    InWorker(geo, disk, items, n, a, x);
    InWorker(geo, disk, items, n, b, y);
    var q :| 0 <= q < |items| && q % n == a && WrittenPos(disk, geo.KvSize(), items, q, n)
             && x in ItemOps(geo, items[q]);
    var r :| 0 <= r < |items| && r % n == b && WrittenPos(disk, geo.KvSize(), items, r, n)
             && y in ItemOps(geo, items[r]);
    ItemOpsAt(geo, items[q], x);
    ItemOpsAt(geo, items[r], y);
    assert q != r;
  }

  lemma InWorkers(geo: Geometry, disk: map<nat, Record>, items: seq<Item>, n: nat, op: Op<Cell, Data>)
    requires n > 0
    ensures op in Concat(Workers(geo, disk, items, n)) <==>
              exists q ::
                  0 <= q < |items| && WrittenPos(disk, geo.KvSize(), items, q, n) && op in ItemOps(geo, items[q])
  {
    var ws := Workers(geo, disk, items, n);
    InConcat(ws, op);
    forall w: nat | w < |ws|
      ensures op in ws[w] <==>
                exists q ::
                    0 <= q < |items| && q % n == w && WrittenPos(disk, geo.KvSize(), items, q, n)
                      && op in ItemOps(geo, items[q])
    {
      InWorker(geo, disk, items, n, w, op);
    }
    if q :| 0 <= q < |items| && WrittenPos(disk, geo.KvSize(), items, q, n) && op in ItemOps(geo, items[q]) {
      if |items| < n { DivModUnique(q, n, 0, q); }
      assert q % n < |ws|;
      assert op in ws[q % n];
    }
  }

  /** The cell of one index after all workers' writes, in any order that keeps one value per cell. */
  lemma CellAfter(geo: Geometry, cells: map<Cell, Data>, disk: map<nat, Record>, items: seq<Item>, n: nat, c: Cell)
    requires n > 0 && DistinctItems(items)
    ensures var after := Play(cells, Concat(Workers(geo, disk, items, n)));
            && (forall q :: 0 <= q < |items| && items[q].kv == c.kv && WrittenPos(disk, geo.KvSize(), items, q, n) ==>
                              && (c.Meta? ==> c in after && after[c] == items[q].meta)
                              && (c.Chunk? && c.i < geo.chunksPerKv ==>
                                    c in after && after[c] == ChunkOf(geo, Pad(items[q].data, geo.KvSize()), c.i)))
            && ((forall q :: 0 <= q < |items| && items[q].kv == c.kv ==>
                   !WrittenPos(disk, geo.KvSize(), items, q, n)) ==>
                  (c in after <==> c in cells) && (c in cells ==> after[c] == cells[c]))
  {
    var ops := Concat(Workers(geo, disk, items, n));
    forall x | x in ops && x.key == c
      ensures exists q ::
                0 <= q < |items| && items[q].kv == c.kv && WrittenPos(disk, geo.KvSize(), items, q, n)
                  && x in ItemOps(geo, items[q])
    {
      InWorkers(geo, disk, items, n, x);
      var q :| 0 <= q < |items| && WrittenPos(disk, geo.KvSize(), items, q, n) && x in ItemOps(geo, items[q]);
      ItemOpsAt(geo, items[q], x);
    }
    forall x, y | x in ops && y in ops && x.key == y.key == c ensures x.value == y.value {
      var q :| 0 <= q < |items| && items[q].kv == c.kv && WrittenPos(disk, geo.KvSize(), items, q, n)
               && x in ItemOps(geo, items[q]);
      var r :| 0 <= r < |items| && items[r].kv == c.kv && WrittenPos(disk, geo.KvSize(), items, r, n)
               && y in ItemOps(geo, items[r]);
      assert q == r;
      ItemOpsAt(geo, items[q], x);
      ItemOpsAt(geo, items[q], y);
    }
    PlayAt(cells, ops, c);
    forall q | 0 <= q < |items| && items[q].kv == c.kv && WrittenPos(disk, geo.KvSize(), items, q, n)
      ensures c.Meta? ==> Op(c, items[q].meta) in ops
      ensures c.Chunk? && c.i < geo.chunksPerKv ==> Op(c, ChunkOf(geo, Pad(items[q].data, geo.KvSize()), c.i)) in ops
    {
      var its := ItemOps(geo, items[q]);
      if c.Meta? {
        assert its[|its| - 1] == Op(c, items[q].meta);
        InWorkers(geo, disk, items, n, its[|its| - 1]);
      } else if c.i < geo.chunksPerKv {
        assert its[c.i] == Op(c, ChunkOf(geo, Pad(items[q].data, geo.KvSize()), c.i));
        InWorkers(geo, disk, items, n, its[c.i]);
      }
    }
  }

  /**
   Whatever the order in which the workers' file writes happen, the files hold the batch written entry by
   entry, less the entries behind a write that failed in the same worker.
   */
  lemma ParallelWrites(geo: Geometry, cells: map<Cell, Data>, disk: map<nat, Record>, items: seq<Item>, n: nat,
                       sched: seq<nat>)
    requires n > 0 && DistinctItems(items) && Represents(geo, cells, disk)
    requires Schedule(Workers(geo, disk, items, n), sched)
    ensures Represents(geo, Play(cells, Trace(Workers(geo, disk, items, n), sched)),
                       AfterBatch(disk, geo.KvSize(), items, n))
  {
    var ws := Workers(geo, disk, items, n);
    WorkersDisjoint(geo, disk, items, n);
    AnyInterleaving(cells, ws, sched);
    var after, disk' := Play(cells, Concat(ws)), AfterBatch(disk, geo.KvSize(), items, n);
    forall kv | kv in disk'
      ensures && |disk'[kv].data| == geo.KvSize()
              && Meta(kv) in after && after[Meta(kv)] == disk'[kv].meta
              && forall i :: 0 <= i < geo.chunksPerKv ==>
                               Chunk(kv, i) in after && after[Chunk(kv, i)] == ChunkOf(geo, disk'[kv].data, i)
    {
      PutUpToAt(disk, geo.KvSize(), items, n, |items|, kv);
      CellAfter(geo, cells, disk, items, n, Meta(kv));
      forall i | 0 <= i < geo.chunksPerKv
        ensures |disk'[kv].data| == geo.KvSize()
        ensures Chunk(kv, i) in after && after[Chunk(kv, i)] == ChunkOf(geo, disk'[kv].data, i)
      {
        CellAfter(geo, cells, disk, items, n, Chunk(kv, i));
      }
    }
  }

  // ---------------------------------------------------------------- the whole download

  /** No local blob of the events is larger than a blob may be. */
  predicate EventsFit(disk: map<nat, Record>, kvSize: nat, events: seq<Event>) {
    forall i :: 0 <= i < |events| ==> events[i].kv in disk ==> |events[i].data| <= kvSize
  }

  lemma {:induction false} ReplayAt(disk: map<nat, Record>, kvSize: nat, events: seq<Event>, kv: nat)
    requires EventsOk(events) && EventsFit(disk, kvSize, events)
    ensures Replay(disk, kvSize, events).Keys == disk.Keys
    ensures kv in disk && Mentioned(events, kv) ==>
              var e := LastEvent(events, kv);
              |e.data| <= kvSize
                && Replay(disk, kvSize, events)[kv] == Record(Pad(e.data, kvSize), PrepareCommit(e.hash))
    ensures kv in disk && !Mentioned(events, kv) ==> Replay(disk, kvSize, events)[kv] == disk[kv]
  {
    if events != [] {
      var front, e := events[..|events| - 1], events[|events| - 1];
      var before := Replay(disk, kvSize, front);
      ReplayAt(disk, kvSize, front, kv);
      assert front + [e] == events;
      LastAfter(front, e, kv);
      assert Replay(disk, kvSize, events) == Put(before, kvSize, e.kv, e.data, PrepareCommit(e.hash));
      if e.kv == kv {
        assert kv in disk ==> |e.data| <= kvSize;
      } else if Mentioned(events, kv) {
        var i :| 0 <= i < |events| && events[i].kv == kv;
        assert front[i].kv == kv;
        assert LastEvent(events, kv) == LastEvent(front, kv);
      } else {
        assert forall i :: 0 <= i < |front| ==> front[i] == events[i];
        assert !Mentioned(front, kv);
      }
    }
  }

  /** Reducing the events to one entry per index and writing that batch is replaying the events. */
  lemma BatchIsReplay(disk: map<nat, Record>, kvSize: nat, events: seq<Event>, kvs: seq<nat>, datas: seq<Data>,
                      metas: seq<Data>, n: nat)
    requires n > 0 && EventsOk(events) && EventsFit(disk, kvSize, events) && Deduped(events, kvs, datas, metas)
    ensures forall i :: 0 <= i < |metas| ==> |metas[i]| == META_SIZE
    ensures DistinctItems(Items(kvs, datas, metas))
    ensures AfterBatch(disk, kvSize, Items(kvs, datas, metas), n) == Replay(disk, kvSize, events)
  {
    var items := Items(kvs, datas, metas);
    forall q | 0 <= q < |items|
      ensures |items[q].data| <= kvSize || items[q].kv !in disk
      ensures items[q].meta == PrepareCommit(LastEvent(events, items[q].kv).hash)
    {
      var e := LastEvent(events, kvs[q]);
      assert MetaOf(e.hash)[..HASH_SIZE] == e.hash[..HASH_SIZE];
      PrepareSameHash(metas[q], e.hash);
    }
    var after, replay := AfterBatch(disk, kvSize, items, n), Replay(disk, kvSize, events);
    PutUpToAt(disk, kvSize, items, n, |items|, 0);
    ReplayAt(disk, kvSize, events, 0);
    forall kv | kv in disk ensures after[kv] == replay[kv] {
      EntryIsReplay(disk, kvSize, events, kvs, datas, metas, n, kv);
    }
  }

  lemma EntryIsReplay(disk: map<nat, Record>, kvSize: nat, events: seq<Event>, kvs: seq<nat>, datas: seq<Data>,
                      metas: seq<Data>, n: nat, kv: nat)
    requires n > 0 && EventsOk(events) && EventsFit(disk, kvSize, events) && Deduped(events, kvs, datas, metas)
             && kv in disk
    requires forall i :: 0 <= i < |metas| ==> |metas[i]| == META_SIZE
    requires DistinctItems(Items(kvs, datas, metas))
    requires var items := Items(kvs, datas, metas);
             forall q :: 0 <= q < |items| ==>
               && (|items[q].data| <= kvSize || items[q].kv !in disk)
               && items[q].meta == PrepareCommit(LastEvent(events, items[q].kv).hash)
    ensures var after, replay := AfterBatch(disk, kvSize, Items(kvs, datas, metas), n), Replay(disk, kvSize, events);
            kv in after && kv in replay && after[kv] == replay[kv]
  {
    var items := Items(kvs, datas, metas);
    PutUpToAt(disk, kvSize, items, n, |items|, kv);
    ReplayAt(disk, kvSize, events, kv);
    if Mentioned(events, kv) {
      var i :| 0 <= i < |events| && events[i].kv == kv;
      assert kv in kvs;
      var q :| 0 <= q < |kvs| && kvs[q] == kv;
      StripeOf(q % n, q, n);
      assert WrittenPos(disk, kvSize, items, q, n);
    } else {
      forall q | 0 <= q < |items| ensures items[q].kv != kv { assert Mentioned(events, kvs[q]); }
    }
  }

  /**
   For any events, repeated indices included, any number of workers and any interleaving of their file writes:
   the files hold the events' blobs written one by one in order.
   */
  lemma DownloadIsReplay(geo: Geometry, cells: map<Cell, Data>, disk: map<nat, Record>, events: seq<Event>,
                         kvs: seq<nat>, datas: seq<Data>, metas: seq<Data>, n: nat, sched: seq<nat>)
    requires n > 0 && EventsOk(events) && EventsFit(disk, geo.KvSize(), events) && Deduped(events, kvs, datas, metas)
    requires forall i :: 0 <= i < |metas| ==> |metas[i]| == META_SIZE
    requires Represents(geo, cells, disk)
    requires Schedule(Workers(geo, disk, Items(kvs, datas, metas), n), sched)
    ensures var after := Play(cells, Trace(Workers(geo, disk, Items(kvs, datas, metas), n), sched));
            Represents(geo, after, Replay(disk, geo.KvSize(), events))
  {
    BatchIsReplay(disk, geo.KvSize(), events, kvs, datas, metas, n);
    ParallelWrites(geo, cells, disk, Items(kvs, datas, metas), n, sched);
  }

  predicate SameWorker(j: nat, q: nat, n: nat)
    requires n > 0
  {
    j % n == q % n
  }

  /** The worker of position q met an oversized blob before it came to q. */
  predicate BehindFailure(disk: map<nat, Record>, kvSize: nat, items: seq<Item>, n: nat, q: nat)
    requires n > 0 && q < |items|
  {
    exists j: nat :: j < q && SameWorker(j, q, n) && TooLarge(disk, kvSize, items[j])
  }

  lemma WrittenUnlessBehind(disk: map<nat, Record>, kvSize: nat, items: seq<Item>, n: nat, q: nat)
    requires n > 0 && q < |items| && items[q].kv in disk
    ensures WrittenPos(disk, kvSize, items, q, n)
            <==> |items[q].data| <= kvSize && !BehindFailure(disk, kvSize, items, n, q)
  {
    var w := q % n;
    StripeOf(w, q, n);
    forall j: nat | j < q ensures OnStripe(w, j, n) <==> SameWorker(j, q, n) { StripeOf(w, j, n); }
    if !BehindFailure(disk, kvSize, items, n, q) {
      forall j | w <= j < q && OnStripe(w, j, n) ensures !TooLarge(disk, kvSize, items[j]) {
        assert SameWorker(j, q, n);
      }
    } else {
      var j: nat :| j < q && SameWorker(j, q, n) && TooLarge(disk, kvSize, items[j]);
      assert OnStripe(w, j, n);
    }
  }

  /**
   Exactly which entries of a batch reach the files: those that fit, and whose worker (position modulo n) met no
   oversized blob before. The others keep what was stored, although the batch is reported as written.
   */
  lemma EntryAfterBatch(disk: map<nat, Record>, kvSize: nat, items: seq<Item>, n: nat, q: nat)
    requires n > 0 && DistinctItems(items) && q < |items| && items[q].kv in disk
    ensures var after := AfterBatch(disk, kvSize, items, n);
            && items[q].kv in after
            && after[items[q].kv] ==
               if |items[q].data| <= kvSize && !BehindFailure(disk, kvSize, items, n, q)
               then Record(Pad(items[q].data, kvSize), items[q].meta)
               else disk[items[q].kv]
  {
    PutUpToAt(disk, kvSize, items, n, |items|, items[q].kv);
    WrittenUnlessBehind(disk, kvSize, items, n, q);
    forall r | 0 <= r < |items| && items[r].kv == items[q].kv ensures r == q { }
  }

  /** If nothing is oversized, every entry reaches its file. */
  lemma FittingBatchIsWritten(disk: map<nat, Record>, kvSize: nat, items: seq<Item>, n: nat, q: nat)
    requires n > 0 && DistinctItems(items) && q < |items| && items[q].kv in disk
    requires forall i :: 0 <= i < |items| ==> |items[i].data| <= kvSize
    ensures var after := AfterBatch(disk, kvSize, items, n);
            items[q].kv in after && after[items[q].kv] == Record(Pad(items[q].data, kvSize), items[q].meta)
  {
    EntryAfterBatch(disk, kvSize, items, n, q);
  }

  /** A blob as the downloader gets it from the chain, with what it is encoded with. */
  datatype Source = Source(encodeType: M.EncodeType, hash: Data, miner: Data, blob: Data)

  /**
   The downloader's own batches consist of encoded blobs, which have the size of a value: all of them are written as
   they are.
   */
  lemma EncodedBatchIsWritten(m: M.Masks, disk: map<nat, Record>, kvSize: nat, items: seq<Item>, from: seq<Source>,
                              n: nat, q: nat)
    requires n > 0 && DistinctItems(items) && q < |items| == |from| && items[q].kv in disk
    requires forall i :: 0 <= i < |items| ==> |from[i].hash| == META_SIZE && |from[i].blob| <= kvSize
    requires forall i :: 0 <= i < |items| ==>
               var b := from[i];
               items[i].data == KvCoding.EncodeBlob(m, kvSize, b.encodeType, b.hash, b.miner, b.blob, items[i].kv)
    ensures var after := AfterBatch(disk, kvSize, items, n);
            items[q].kv in after && after[items[q].kv] == Record(items[q].data, items[q].meta)
  {
    forall i | 0 <= i < |items| ensures |items[i].data| == kvSize {
      var b := from[i];
      assert items[i].data == KvCoding.EncodeBlob(m, kvSize, b.encodeType, b.hash, b.miner, b.blob, items[i].kv);
    }
    FittingBatchIsWritten(disk, kvSize, items, n, q);
    KvCoding.PadFull(items[q].data, kvSize);
  }

  /** A batch handed over directly may hold an oversized blob. */
  lemma OversizedDropsLater(m: Data)
    requires |m| == META_SIZE
    ensures var disk := map[0 := Record([0], m), 1 := Record([0], m)];
            var items := [Item(0, [1, 1], m), Item(1, [1], m)];
            Fits(disk, 1, 1, items[1].data) && 1 in AfterBatch(disk, 1, items, 1)
              && AfterBatch(disk, 1, items, 1)[1] == disk[1]
  {
    var disk := map[0 := Record([0], m), 1 := Record([0], m)];
    var items := [Item(0, [1, 1], m), Item(1, [1], m)];
    assert SameWorker(0, 1, 1) && TooLarge(disk, 1, items[0]);
    EntryAfterBatch(disk, 1, items, 1, 1);
  }
}
