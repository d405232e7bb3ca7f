/**
 What every section of scheduler code keeps, for one task. `stored` is the set of indices whose blob has
 been committed to the storage files, `settled` the set of indices the empty fill has passed over.
 */
module SyncInvariant {
  import opened Arith
  import opened Sums
  import opened SyncModel

  // ---------------------------------------------------------------- the invariant

  predicate FlightOk(st: SubTask, stored: set<nat>) {
    match st.flight
    case Idle => true
    case Applied => true
    case Requested(origin, limit) => origin == st.next && origin <= limit < st.last
    case Stored(origin, limit, inserted) =>
      && origin == st.next && origin <= limit < st.last && |inserted| > 0
      && (forall x :: x in inserted ==> origin <= x <= limit && x in stored)
  }

  predicate SubOk(g: Goal, st: SubTask, stored: set<nat>) {
    && g.lo <= st.first <= st.next <= st.last <= g.mid
    && st.first < st.last
    && (st.done <==> st.next == st.last)
    && FlightOk(st, stored)
  }

  predicate SubsOk(g: Goal, subs: seq<SubTask>, stored: set<nat>) {
    && (forall i :: 0 <= i < |subs| ==> SubOk(g, subs[i], stored))
    && Ordered(subs)
  }

  predicate Ordered(subs: seq<SubTask>) {
    forall i, j :: 0 <= i < j < |subs| ==> subs[i].last <= subs[j].first
  }

  /** x has been requested by some listed sub-task and still counts as its responsibility. */
  predicate Behind(subs: seq<SubTask>, x: nat) {
    exists i :: 0 <= i < |subs| && subs[i].first <= x < subs[i].next
  }

  /** x is still to be requested by some listed sub-task. */
  predicate Ahead(subs: seq<SubTask>, x: nat) {
    exists i :: 0 <= i < |subs| && subs[i].next <= x < subs[i].last
  }

  predicate HealHeld(subs: seq<SubTask>, heal: set<nat>) {
    forall h :: h in heal ==> Behind(subs, h)
  }

  /** No index is lost: it is stored, waiting to be healed, or still ahead of a listed sub-task. */
  predicate Covered(g: Goal, subs: seq<SubTask>, heal: set<nat>, stored: set<nat>) {
    forall x :: g.lo <= x < g.mid ==> x in stored || x in heal || Ahead(subs, x)
  }

  predicate EmptyOk(g: Goal, e: SubEmptyTask, settled: set<nat>) {
    && g.mid <= e.first <= e.last <= g.hi && 0 < e.last
    && (e.done ==> e.first == e.last && e.flight.Parked?)
    && match e.flight
       case Parked => true
       case Filling(start, limit) => start == e.first && start <= limit + 1 <= e.last
       case Filled(start, limit, next) =>
         && start == e.first && start <= next <= limit + 1 <= e.last
         && (forall x :: start <= x < next ==> x in settled)
  }

  predicate EmptiesOk(g: Goal, es: seq<SubEmptyTask>, settled: set<nat>) {
    forall i :: 0 <= i < |es| ==> EmptyOk(g, es[i], settled)
  }

  predicate EmptyAhead(es: seq<SubEmptyTask>, x: nat) {
    exists i :: 0 <= i < |es| && es[i].first <= x < es[i].last
  }

  predicate EmptyCovered(g: Goal, es: seq<SubEmptyTask>, settled: set<nat>) {
    forall x :: g.mid <= x < g.hi ==> x in settled || EmptyAhead(es, x)
  }

  predicate GoalOk(g: Goal) { g.lo <= g.mid <= g.hi }

  predicate DataInv(t: Task, stored: set<nat>) {
    && SubsOk(t.goal, t.subTasks, stored)
    && HealHeld(t.subTasks, t.heal)
    && Covered(t.goal, t.subTasks, t.heal, stored)
    && t.blobsSynced + ToSync(t) >= t.goal.mid - t.goal.lo
  }

  predicate EmptyInv(t: Task, settled: set<nat>) {
    && EmptiesOk(t.goal, t.subEmptyTasks, settled)
    && EmptyCovered(t.goal, t.subEmptyTasks, settled)
    && t.emptyFilled + ToFill(t) == t.goal.hi - t.goal.mid
  }

  predicate TaskInv(t: Task, stored: set<nat>, settled: set<nat>) {
    && GoalOk(t.goal)
    && DataInv(t, stored)
    && EmptyInv(t, settled)
    && (t.done ==> Finished(t))
  }

  /** A task without listed sub-tasks has everything stored and settled, and nothing left to heal. */
  lemma FinishedMeansComplete(t: Task, stored: set<nat>, settled: set<nat>)
    requires TaskInv(t, stored, settled) && Finished(t)
    ensures t.heal == {}
    ensures forall x :: t.goal.lo <= x < t.goal.mid ==> x in stored
    ensures forall x :: t.goal.mid <= x < t.goal.hi ==> x in settled
  {
    forall h: nat ensures h !in t.heal { assert !Behind(t.subTasks, h); }
  }

  /** Storing more blobs, or settling more indices, never breaks the invariant. */
  lemma InvMonotone(t: Task, stored: set<nat>, settled: set<nat>, stored': set<nat>, settled': set<nat>)
    requires TaskInv(t, stored, settled) && stored <= stored' && settled <= settled'
    ensures TaskInv(t, stored', settled')
  {
    assert EmptyCovered(t.goal, t.subEmptyTasks, settled');
    forall i | 0 <= i < |t.subEmptyTasks| ensures EmptyOk(t.goal, t.subEmptyTasks[i], settled') {
      assert EmptyOk(t.goal, t.subEmptyTasks[i], settled);
    }
    forall i | 0 <= i < |t.subTasks| ensures SubOk(t.goal, t.subTasks[i], stored') {
      assert SubOk(t.goal, t.subTasks[i], stored);
    }
  }

  // ---------------------------------------------------------------- creation

  /** The spans are adjacent, non-empty, and meet exactly at the ends of [first, limit). */
  ghost predicate Tiling(spans: seq<Span>, first: nat, limit: nat) {
    && (spans == [] ==> first >= limit)
    && (spans != [] ==> spans[0].first == first && spans[|spans| - 1].last == limit)
    && (forall i :: 0 <= i < |spans| ==> first <= spans[i].first < spans[i].last <= limit)
    && (forall i :: 0 <= i < |spans| - 1 ==> spans[i].last == spans[i + 1].first)
    && (forall i, j :: 0 <= i < j < |spans| ==> spans[i].last <= spans[j].first)
    && (forall x :: first <= x < limit ==> Spanned(spans, x))
  }

  predicate Spanned(spans: seq<Span>, x: nat) {
    exists i :: 0 <= i < |spans| && spans[i].first <= x < spans[i].last
  }

  function SpanWidth(s: Span): int { s.last - s.first }

  lemma {:induction false} TilesTile(first: nat, limit: nat, size: nat)
    requires size > 0
    ensures Tiling(Tiles(first, limit, size), first, limit)
    ensures Sum(Tiles(first, limit, size), SpanWidth) == if first < limit then limit - first else 0
    decreases limit - first
  {
    if first < limit {
      var last := Min(first + size, limit);
      TilesTile(last, limit, size);
      var rest := Tiles(last, limit, size);
      var all := [Span(first, last)] + rest;
      assert all[1..] == rest;
      TilingCons(rest, first, last, limit);
    }
  }

  lemma TilingCons(rest: seq<Span>, first: nat, last: nat, limit: nat)
    requires first < last <= limit && Tiling(rest, last, limit)
    ensures Tiling([Span(first, last)] + rest, first, limit)
  {
    var all := [Span(first, last)] + rest;
    assert forall i :: 0 < i < |all| ==> all[i] == rest[i - 1];
    forall x: nat | first <= x < limit ensures Spanned(all, x) {
      if x < last {
        assert all[0].first <= x < all[0].last;
      } else {
        assert Spanned(rest, x);
        var i :| 0 <= i < |rest| && rest[i].first <= x < rest[i].last;
        assert all[i + 1].first <= x < all[i + 1].last;
      }
    }
  }

  /** Cutting into pieces of `TileSize` makes at most as many pieces as there are workers. */
  lemma {:induction false} AtMostPieces(first: nat, limit: nat, size: nat, parts: nat)
    requires size > 0 && limit - first <= size * parts
    ensures |Tiles(first, limit, size)| <= parts
    decreases parts
  {
    if first < limit {
      assert parts > 0 by { if parts == 0 { assert false; } }
      var last := Min(first + size, limit);
      if last < limit {
        assert size * (parts - 1) == size * parts - size;
        AtMostPieces(last, limit, size, parts - 1);
      }
    }
  }

  lemma TileSizeReaches(total: nat, parts: nat)
    requires parts > 0
    ensures total <= TileSize(total, parts) * parts
  {
    var q := (total + parts - 1) / parts;
    assert q * parts >= total by {
      assert total + parts - 1 == q * parts + (total + parts - 1) % parts;
    }
    assert TileSize(total, parts) * parts >= q * parts;
  }

  /** A new task tiles its shard: nothing is stored, yet every index is ahead of exactly one sub-task. */
  lemma CreateTaskInv(g: Goal, concurrency: nat, fillThreads: nat)
    requires concurrency > 0 && fillThreads > 0 && GoalOk(g)
    ensures var t := CreateTask(g, concurrency, fillThreads);
            && TaskInv(t, {}, {})
            && t.blobsSynced + ToSync(t) == g.mid - g.lo
            && |t.subTasks| <= concurrency && |t.subEmptyTasks| <= fillThreads
            && FillThreads(t) == 0
  {
    var spans := Tiles(g.lo, g.mid, TileSize(g.mid - g.lo, concurrency));
    var espans := Tiles(g.mid, g.hi, TileSize(g.hi - g.mid, fillThreads));
    var t := CreateTask(g, concurrency, fillThreads);
    assert t == Task(g, FreshSubs(spans), {}, FreshEmpties(espans), 0, 0, false);
    assert Tiling(spans, g.lo, g.mid) && |spans| <= concurrency && Sum(spans, SpanWidth) == g.mid - g.lo by {
      PiecesTile(g.lo, g.mid, concurrency);
    }
    assert Tiling(espans, g.mid, g.hi) && |espans| <= fillThreads && Sum(espans, SpanWidth) == g.hi - g.mid by {
      PiecesTile(g.mid, g.hi, fillThreads);
    }
    TiledInv(g, spans, espans);
  }

  /** x belongs to the shard. */
  predicate InShard(shard: nat, kvEntries: nat, x: nat) { kvEntries * shard <= x < kvEntries * (shard + 1) }

  /** A shard's data range has exactly the entries of the contract in it, its empty range exactly the other indices. */
  lemma GoalExact(shard: nat, kvEntries: nat, lastKvIndex: nat, x: nat)
    ensures var g := GoalOf(shard, kvEntries, lastKvIndex);
            && GoalOk(g) && g.shard == shard
            && (g.lo <= x < g.hi <==> InShard(shard, kvEntries, x))
            && (g.lo <= x < g.mid <==> InShard(shard, kvEntries, x) && x < lastKvIndex)
            && (g.mid <= x < g.hi <==> InShard(shard, kvEntries, x) && lastKvIndex <= x)
  {
    assert kvEntries * (shard + 1) == kvEntries * shard + kvEntries;
  }

  /** A new task asks for exactly the entries of its shard, and fills exactly the other indices of it. */
  lemma NewTaskExact(shard: nat, kvEntries: nat, lastKvIndex: nat, concurrency: nat, fillThreads: nat, x: nat)
    requires concurrency > 0 && fillThreads > 0
    ensures var g := GoalOf(shard, kvEntries, lastKvIndex);
            GoalOk(g) &&
            var t := CreateTask(g, concurrency, fillThreads);
            && (Ahead(t.subTasks, x) <==> InShard(shard, kvEntries, x) && x < lastKvIndex)
            && (EmptyAhead(t.subEmptyTasks, x) <==> InShard(shard, kvEntries, x) && lastKvIndex <= x)
  {
    var g := GoalOf(shard, kvEntries, lastKvIndex);
    GoalExact(shard, kvEntries, lastKvIndex, x);
    CreateTaskInv(g, concurrency, fillThreads);
    var t := CreateTask(g, concurrency, fillThreads);
    assert Ahead(t.subTasks, x) <==> g.lo <= x < g.mid by {
      assert forall i :: 0 <= i < |t.subTasks| ==> SubOk(g, t.subTasks[i], {});
    }
    assert EmptyAhead(t.subEmptyTasks, x) <==> g.mid <= x < g.hi by {
      assert forall i :: 0 <= i < |t.subEmptyTasks| ==> EmptyOk(g, t.subEmptyTasks[i], {});
    }
  }

  /** The pieces are of one size, the last one excepted: the least from 16 on with which there are enough workers. */
  lemma PiecesEven(first: nat, limit: nat, parts: nat, size: nat)
    requires first <= limit && parts > 0 && size == TileSize(limit - first, parts)
    ensures MIN_SUB_TASK_SIZE <= size && limit - first <= size * parts
    ensures forall least: nat :: MIN_SUB_TASK_SIZE <= least && limit - first <= least * parts ==> size <= least
    ensures Even(Tiles(first, limit, size), size)
  {
    TileSizeReaches(limit - first, parts);
    forall least: nat | MIN_SUB_TASK_SIZE <= least && limit - first <= least * parts ensures size <= least {
      TileSizeLeast(limit - first, parts, least);
    }
    TilesEven(first, limit, size);
  }

  lemma TileSizeLeast(total: nat, parts: nat, least: nat)
    requires parts > 0 && MIN_SUB_TASK_SIZE <= least && total <= least * parts
    ensures TileSize(total, parts) <= least
  {
    var q := (total + parts - 1) / parts;
    assert q * parts <= total + parts - 1 < (least + 1) * parts by {
      assert total + parts - 1 == q * parts + (total + parts - 1) % parts;
      assert (least + 1) * parts == least * parts + parts;
    }
    MulLess(q, least + 1, parts);
  }

  predicate Even(spans: seq<Span>, size: nat) {
    forall i :: 0 <= i < |spans| - 1 ==> spans[i].last == spans[i].first + size
  }

  lemma {:induction false} TilesEven(first: nat, limit: nat, size: nat)
    requires size > 0
    ensures Even(Tiles(first, limit, size), size)
    decreases limit - first
  {
    if first < limit {
      var last := Min(first + size, limit);
      var rest, all := Tiles(last, limit, size), Tiles(first, limit, size);
      TilesEven(last, limit, size);
      assert all == [Span(first, last)] + rest && (rest != [] ==> last < limit);
      forall i | 0 <= i < |all| - 1 ensures all[i].last == all[i].first + size {
        if i > 0 { assert all[i] == rest[i - 1]; }
      }
    }
  }

  lemma TiledInv(g: Goal, spans: seq<Span>, espans: seq<Span>)
    requires GoalOk(g) && Tiling(spans, g.lo, g.mid) && Tiling(espans, g.mid, g.hi)
    requires Sum(spans, SpanWidth) == g.mid - g.lo && Sum(espans, SpanWidth) == g.hi - g.mid
    ensures var t := Task(g, FreshSubs(spans), {}, FreshEmpties(espans), 0, 0, false);
            && TaskInv(t, {}, {}) && ToSync(t) == g.mid - g.lo && FillThreads(t) == 0
  {
    FreshInv(g, spans, espans, 0, 0, {}, {});
  }

  lemma PiecesTile(first: nat, limit: nat, parts: nat)
    requires first <= limit && parts > 0
    ensures var spans := Tiles(first, limit, TileSize(limit - first, parts));
            && Tiling(spans, first, limit) && |spans| <= parts && Sum(spans, SpanWidth) == limit - first
  {
    TileSizeReaches(limit - first, parts);
    AtMostPieces(first, limit, TileSize(limit - first, parts), parts);
    TilesTile(first, limit, TileSize(limit - first, parts));
  }

  lemma FreshInv(g: Goal, spans: seq<Span>, espans: seq<Span>, synced: nat, filled: nat, stored: set<nat>,
                 settled: set<nat>)
    requires GoalOk(g)
    requires Separate(spans, g.lo, g.mid)
    requires forall i :: 0 <= i < |espans| ==> g.mid <= espans[i].first <= espans[i].last <= g.hi && 0 < espans[i].last
    requires forall x :: g.lo <= x < g.mid ==> x in stored || Spanned(spans, x)
    requires forall x :: g.mid <= x < g.hi ==> x in settled || Spanned(espans, x)
    requires synced + Sum(spans, SpanWidth) >= g.mid - g.lo
    requires filled + Sum(espans, SpanWidth) == g.hi - g.mid
    ensures var t := Task(g, FreshSubs(spans), {}, FreshEmpties(espans), synced, filled, false);
            && TaskInv(t, stored, settled)
            && ToSync(t) == Sum(spans, SpanWidth) && ToFill(t) == Sum(espans, SpanWidth) && FillThreads(t) == 0
  {
    var t := Task(g, FreshSubs(spans), {}, FreshEmpties(espans), synced, filled, false);
    SumAgree(spans, SpanWidth, t.subTasks, Width);
    SumAgree(espans, SpanWidth, t.subEmptyTasks, EmptyWidth);
    NoThreads(t.subEmptyTasks);
    forall x: nat | Spanned(spans, x) ensures Ahead(t.subTasks, x) {
      var i :| 0 <= i < |spans| && spans[i].first <= x < spans[i].last;
      assert t.subTasks[i].next <= x < t.subTasks[i].last;
    }
    forall x: nat | Spanned(espans, x) ensures EmptyAhead(t.subEmptyTasks, x) {
      var i :| 0 <= i < |espans| && espans[i].first <= x < espans[i].last;
      assert t.subEmptyTasks[i].first <= x < t.subEmptyTasks[i].last;
    }
  }

  /** Non-empty spans inside [lo, mid), in order and disjoint. */
  predicate Separate(spans: seq<Span>, lo: nat, mid: nat) {
    && (forall i :: 0 <= i < |spans| ==> lo <= spans[i].first < spans[i].last <= mid)
    && (forall i, j :: 0 <= i < j < |spans| ==> spans[i].last <= spans[j].first)
  }

  lemma {:induction false} NoThreads(es: seq<SubEmptyTask>)
    requires forall i :: 0 <= i < |es| ==> es[i].flight.Parked?
    ensures Sum(es, IsFilling) == 0
  {
    if es != [] {
      assert forall i :: 0 <= i < |es[1..]| ==> es[1..][i] == es[i + 1];
      NoThreads(es[1..]);
    }
  }

  // ---------------------------------------------------------------- range replies

  lemma {:induction false} MaxOfIsMax(s: seq<nat>)
    requires |s| > 0
    ensures MaxOf(s) in s
    ensures forall x :: x in s ==> x <= MaxOf(s)
  {
    if |s| > 1 {
      MaxOfIsMax(s[1..]);
      assert forall x :: x in s <==> x == s[0] || x in s[1..];
    }
  }

  /** Sending a request changes nothing the invariant speaks of, and the request stays inside the sub-task. */
  lemma AssignSubInv(t: Task, i: nat, maxRange: nat, stored: set<nat>, settled: set<nat>)
    requires TaskInv(t, stored, settled)
    requires i < |t.subTasks| && !t.subTasks[i].done && maxRange > 0
    ensures TaskInv(AssignSub(t, i, maxRange), stored, settled)
    ensures ToSync(AssignSub(t, i, maxRange)) == ToSync(t)
  {
    assert SubOk(t.goal, t.subTasks[i], stored);
    FlightInv(t, i, RequestOf(t.subTasks[i], maxRange), stored, settled);
  }

  /** A request starts at next and has as many indices as the peer takes, or all that are left of the sub-task. */
  lemma RequestExact(st: SubTask, maxRange: nat)
    requires st.next < st.last && maxRange > 0
    ensures var r := RequestOf(st, maxRange);
            && r.Requested? && r.origin == st.next
            && r.limit + 1 - r.origin <= maxRange && r.limit < st.last
            && (r.limit + 1 - r.origin == maxRange || r.limit + 1 == st.last)
  {
  }

  lemma FlightInv(t: Task, i: nat, f: Flight, stored: set<nat>, settled: set<nat>)
    requires TaskInv(t, stored, settled) && i < |t.subTasks|
    requires FlightOk(t.subTasks[i].(flight := f), stored)
    ensures TaskInv(SetFlight(t, i, f), stored, settled)
    ensures ToSync(SetFlight(t, i, f)) == ToSync(t)
  {
    var t' := SetFlight(t, i, f);
    SumAgree(t.subTasks, Width, t'.subTasks, Width);
    forall j | 0 <= j < |t'.subTasks| ensures SubOk(t.goal, t'.subTasks[j], stored) {
      assert SubOk(t.goal, t.subTasks[j], stored);
    }
    SameBounds(t.subTasks, t'.subTasks);
  }

  /** Coverage only looks at the bounds of the sub-tasks. */
  lemma SameBounds(a: seq<SubTask>, b: seq<SubTask>)
    requires |a| == |b|
    requires forall i :: 0 <= i < |a| ==> a[i].first == b[i].first && a[i].next == b[i].next && a[i].last == b[i].last
    ensures forall x :: Behind(a, x) ==> Behind(b, x)
    ensures forall x :: Ahead(a, x) ==> Ahead(b, x)
  {
    forall x: nat | Behind(a, x) ensures Behind(b, x) {
      var i :| 0 <= i < |a| && a[i].first <= x < a[i].next;
      assert b[i].first <= x < b[i].next;
    }
    forall x: nat | Ahead(a, x) ensures Ahead(b, x) {
      var i :| 0 <= i < |a| && a[i].next <= x < a[i].last;
      assert b[i].next <= x < b[i].last;
    }
  }

  /** The skipped indices, recorded or not, are those below the last stored one that were not stored. */
  lemma GapsAndLost(inserted: seq<nat>, next: nat)
    requires |inserted| > 0 && forall x :: x in inserted ==> next <= x
    ensures forall x: nat :: next <= x <= MaxOf(inserted) <==>
                       x in Gaps(inserted, next) || x in Lost(inserted, next) || x in Elements(inserted)
    ensures |Gaps(inserted, next)| + |Lost(inserted, next)| + |Elements(inserted)| == MaxOf(inserted) + 1 - next
  {
    MaxOfIsMax(inserted);
    var gs, ls, es := Gaps(inserted, next), Lost(inserted, next), Elements(inserted);
    ThreeParts(gs, ls, es, next, MaxOf(inserted) + 1);
  }

  lemma ThreeParts(a: set<nat>, b: set<nat>, c: set<nat>, lo: nat, hi: nat)
    requires lo <= hi
    requires forall x: nat :: lo <= x < hi <==> x in a || x in b || x in c
    requires forall x :: x in a ==> x !in b && x !in c
    requires forall x :: x in b ==> x !in c
    ensures |a| + |b| + |c| == hi - lo
  {
    var ab: set<int> := a + b;
    var all: set<int> := ab + c;
    assert |a + b| == |a| + |b|;
    assert |all| == |ab| + |c|;
    assert all == Interval(lo, hi);
  }

  /** Nothing ahead of a sub-task is on the heal list, so recorded gaps are new to it. */
  lemma AheadNotHealing(t: Task, i: nat, x: nat, stored: set<nat>)
    requires SubsOk(t.goal, t.subTasks, stored) && HealHeld(t.subTasks, t.heal)
    requires i < |t.subTasks| && t.subTasks[i].next <= x < t.subTasks[i].last
    ensures x !in t.heal
  {
    forall j | 0 <= j < |t.subTasks| ensures !(t.subTasks[j].first <= x < t.subTasks[j].next) {
      OneOwner(t.goal, t.subTasks, i, j, x, stored);
    }
    assert !Behind(t.subTasks, x);
  }

  /** An index ahead of sub-task i is neither behind any sub-task nor ahead of another one. */
  lemma OneOwner(g: Goal, subs: seq<SubTask>, i: nat, j: nat, x: nat, stored: set<nat>)
    requires SubsOk(g, subs, stored) && i < |subs| && j < |subs|
    requires subs[i].next <= x < subs[i].last
    ensures !(subs[j].first <= x < subs[j].next)
    ensures j != i ==> !(subs[j].first <= x < subs[j].last)
  {
    assert SubOk(g, subs[i], stored) && SubOk(g, subs[j], stored);
  }

  /** A range reply lowers the number of blobs to sync by exactly the distinct ones stored and the ones lost. */
  lemma ApplyRangeMeasure(t: Task, i: nat, stored: set<nat>, settled: set<nat>)
    requires TaskInv(t, stored, settled) && i < |t.subTasks| && t.subTasks[i].flight.Stored?
    ensures var ins := t.subTasks[i].flight.inserted;
            && |ins| > 0
            && ToSync(ApplyRange(t, i)) == ToSync(t) - |Elements(ins)| - |Lost(ins, t.subTasks[i].next)|
            && |Elements(ins)| <= |ins|
  {
    var st := t.subTasks[i];
    assert SubOk(t.goal, st, stored);
    var ins := st.flight.inserted;
    var t' := ApplyRange(t, i);
    MaxOfIsMax(ins);
    GapsAndLost(ins, st.next);
    var gs := Gaps(ins, st.next);
    forall x | x in gs ensures x !in t.heal { AheadNotHealing(t, i, x, stored); }
    assert |t.heal + gs| == |t.heal| + |gs|;
    SumUpdate(t.subTasks, i, t'.subTasks[i], Width);
    ElementsSize(ins);
  }

  lemma {:induction false} ElementsSize(s: seq<nat>)
    ensures |Elements(s)| <= |s|
  {
    if s != [] {
      assert Elements(s) == {s[0]} + Elements(s[1..]);
      ElementsSize(s[1..]);
    } else {
      assert Elements(s) == {};
    }
  }

  /** The bookkeeping of a range reply keeps the bounds and the order of the sub-tasks, */
  lemma ApplyRangeSubs(t: Task, i: nat, stored: set<nat>)
    requires SubsOk(t.goal, t.subTasks, stored) && i < |t.subTasks| && t.subTasks[i].flight.Stored?
    ensures |t.subTasks[i].flight.inserted| > 0
    ensures SubsOk(t.goal, ApplyRange(t, i).subTasks, stored)
  {
    assert SubOk(t.goal, t.subTasks[i], stored);
    MaxOfIsMax(t.subTasks[i].flight.inserted);
    var t' := ApplyRange(t, i);
    forall j | 0 <= j < |t'.subTasks| ensures SubOk(t.goal, t'.subTasks[j], stored) {
      assert SubOk(t.goal, t.subTasks[j], stored);
    }
  }

  /** and each index to heal behind a sub-task. */
  lemma ApplyRangeHeal(t: Task, i: nat, stored: set<nat>)
    requires SubsOk(t.goal, t.subTasks, stored) && HealHeld(t.subTasks, t.heal)
    requires i < |t.subTasks| && t.subTasks[i].flight.Stored?
    ensures |t.subTasks[i].flight.inserted| > 0
    ensures HealHeld(ApplyRange(t, i).subTasks, ApplyRange(t, i).heal)
  {
    assert SubOk(t.goal, t.subTasks[i], stored);
    MaxOfIsMax(t.subTasks[i].flight.inserted);
    var t' := ApplyRange(t, i);
    forall h | h in t'.heal ensures Behind(t'.subTasks, h) {
      if h in t.heal {
        assert Behind(t.subTasks, h);
        var j :| 0 <= j < |t.subTasks| && t.subTasks[j].first <= h < t.subTasks[j].next;
        assert t'.subTasks[j].first <= h < t'.subTasks[j].next;
      } else {
        assert t'.subTasks[i].first <= h < t'.subTasks[i].next;
      }
    }
  }

  /** An index stays accounted for after a range reply, unless the gap merge fails to record it. */
  lemma StillCovered(t: Task, i: nat, stored: set<nat>, x: nat)
    requires DataInv(t, stored) && i < |t.subTasks| && t.subTasks[i].flight.Stored?
    requires |t.subTasks[i].flight.inserted| > 0 && t.goal.lo <= x < t.goal.mid
    requires x !in Lost(t.subTasks[i].flight.inserted, t.subTasks[i].next)
    ensures x in stored || x in ApplyRange(t, i).heal || Ahead(ApplyRange(t, i).subTasks, x)
  {
    var st, t' := t.subTasks[i], ApplyRange(t, i);
    var ins := st.flight.inserted;
    assert SubOk(t.goal, st, stored);
    if x !in stored && x !in t.heal {
      assert Ahead(t.subTasks, x);
      var j :| 0 <= j < |t.subTasks| && t.subTasks[j].next <= x < t.subTasks[j].last;
      if j != i || x > MaxOf(ins) {
        assert t'.subTasks[j].next <= x < t'.subTasks[j].last;
      } else {
        GapsAndLost(ins, st.next);
      }
    }
  }

  /** What the gap merge fails to record is nobody's any more. */
  lemma LostIsNobodys(t: Task, i: nat, stored: set<nat>, x: nat)
    requires DataInv(t, stored) && i < |t.subTasks| && t.subTasks[i].flight.Stored?
    requires |t.subTasks[i].flight.inserted| > 0
    requires x in Lost(t.subTasks[i].flight.inserted, t.subTasks[i].next)
    ensures t.goal.lo <= x < t.goal.mid
    ensures x !in ApplyRange(t, i).heal && !Ahead(ApplyRange(t, i).subTasks, x)
  {
    var st, t' := t.subTasks[i], ApplyRange(t, i);
    var ins := st.flight.inserted;
    assert SubOk(t.goal, st, stored);
    MaxOfIsMax(ins);
    AheadNotHealing(t, i, x, stored);
    forall j | 0 <= j < |t'.subTasks| ensures !(t'.subTasks[j].next <= x < t'.subTasks[j].last) {
      assert SubOk(t.goal, t.subTasks[j], stored);
      OneOwner(t.goal, t.subTasks, i, j, x, stored);
    }
  }

  /**
   Exactly when a range reply keeps every index accounted for: each index the gap merge fails to record,
   because a smaller index was repeated in the reply, must have been stored already.
   */
  lemma ApplyRangeCovers(t: Task, i: nat, stored: set<nat>, settled: set<nat>)
    requires TaskInv(t, stored, settled) && i < |t.subTasks| && t.subTasks[i].flight.Stored?
    requires |t.subTasks[i].flight.inserted| > 0
    ensures var t' := ApplyRange(t, i);
            Covered(t.goal, t'.subTasks, t'.heal, stored)
            <==> Lost(t.subTasks[i].flight.inserted, t.subTasks[i].next) <= stored
  {
    var lost, t' := Lost(t.subTasks[i].flight.inserted, t.subTasks[i].next), ApplyRange(t, i);
    forall x: nat | t.goal.lo <= x < t.goal.mid && x !in lost
      ensures x in stored || x in t'.heal || Ahead(t'.subTasks, x)
    {
      StillCovered(t, i, stored, x);
    }
    forall x: nat | x in lost ensures t.goal.lo <= x < t.goal.mid && x !in t'.heal && !Ahead(t'.subTasks, x) {
      LostIsNobodys(t, i, stored, x);
    }
  }

  /** A reply that repeats no index below a missing one loses nothing. */
  predicate NothingLost(inserted: seq<nat>, next: nat)
    requires |inserted| > 0
  {
    Lost(inserted, next) == {}
  }

  lemma DistinctLosesNothing(inserted: seq<nat>, next: nat)
    requires |inserted| > 0 && forall i, j :: 0 <= i < j < |inserted| ==> inserted[i] != inserted[j]
    ensures NothingLost(inserted, next)
  {
    forall v | v in inserted ensures multiset(inserted)[v] == 1 { CountOne(inserted, v); }
  }

  lemma {:induction false} CountOne(s: seq<nat>, v: nat)
    requires forall i, j :: 0 <= i < j < |s| ==> s[i] != s[j]
    ensures multiset(s)[v] == if v in s then 1 else 0
  {
    if s != [] {
      assert s == [s[0]] + s[1..];
      CountOne(s[1..], v);
    }
  }

  lemma ApplyRangeInv(t: Task, i: nat, stored: set<nat>, settled: set<nat>)
    requires TaskInv(t, stored, settled) && i < |t.subTasks| && t.subTasks[i].flight.Stored?
    requires |t.subTasks[i].flight.inserted| > 0
    requires NothingLost(t.subTasks[i].flight.inserted, t.subTasks[i].next)
    ensures TaskInv(ApplyRange(t, i), stored, settled)
    ensures ApplyRange(t, i).blobsSynced + ToSync(ApplyRange(t, i)) >= t.blobsSynced + ToSync(t)
  {
    ApplyRangeSubs(t, i, stored);
    ApplyRangeHeal(t, i, stored);
    ApplyRangeCovers(t, i, stored, settled);
    ApplyRangeMeasure(t, i, stored, settled);
  }

  // ---------------------------------------------------------------- list replies

  /** A list reply lowers the measure by the healed indices; it heals only what has been stored. */
  lemma ApplyListInv(t: Task, inserted: seq<nat>, stored: set<nat>, settled: set<nat>)
    requires TaskInv(t, stored, settled) && Elements(inserted) <= stored
    ensures TaskInv(ApplyList(t, inserted), stored, settled)
    ensures ToSync(ApplyList(t, inserted)) == ToSync(t) - |t.heal * Elements(inserted)|
    ensures ApplyList(t, inserted).blobsSynced + ToSync(ApplyList(t, inserted)) >= t.blobsSynced + ToSync(t)
  {
    var es := Elements(inserted);
    ElementsSize(inserted);
    SubsetSize(t.heal * es, es);
    assert t.heal == (t.heal - es) + (t.heal * es);
    assert |t.heal| == |t.heal - es| + |t.heal * es|;
    assert forall x :: x in es ==> x in stored;
  }

  // ---------------------------------------------------------------- cleaning

  lemma {:induction false} LowestHealIsLowest(heal: set<nat>, first: nat, next: nat)
    requires first <= next
    ensures var m := LowestHeal(heal, first, next);
            && first <= m <= next
            && (HealIn(heal, first, next) <==> m < next)
            && (m < next ==> m in heal)
            && (forall h :: h in heal && first <= h < next ==> m <= h)
    decreases next - first
  {
    if first < next && first !in heal {
      LowestHealIsLowest(heal, first + 1, next);
    }
  }

  /** Where an element of the cleaned list comes from. */
  ghost predicate Kept(subs: seq<SubTask>, heal: set<nat>, c: SubTask, j: int) {
    && 0 <= j < |subs|
    && !(subs[j].done && !HealIn(heal, subs[j].first, subs[j].next))
    && c == subs[j].(first := LowestHeal(heal, subs[j].first, subs[j].next))
  }

  lemma {:induction false} CleanSubsOrigin(subs: seq<SubTask>, heal: set<nat>, i: nat) returns (j: nat)
    requires i < |CleanSubs(subs, heal)|
    ensures Kept(subs, heal, CleanSubs(subs, heal)[i], j)
    ensures i <= j
  {
    if subs[0].done && !HealIn(heal, subs[0].first, subs[0].next) {
      j := CleanSubsOrigin(subs[1..], heal, i);
      j := j + 1;
    } else if i == 0 {
      j := 0;
    } else {
      j := CleanSubsOrigin(subs[1..], heal, i - 1);
      j := j + 1;
    }
  }

  lemma {:induction false} CleanSubsImage(subs: seq<SubTask>, heal: set<nat>, j: nat) returns (i: nat)
    requires j < |subs| && !(subs[j].done && !HealIn(heal, subs[j].first, subs[j].next))
    ensures i < |CleanSubs(subs, heal)| && Kept(subs, heal, CleanSubs(subs, heal)[i], j)
  {
    var dropped := subs[0].done && !HealIn(heal, subs[0].first, subs[0].next);
    if j == 0 {
      i := 0;
    } else {
      i := CleanSubsImage(subs[1..], heal, j - 1);
      i := if dropped then i else i + 1;
    }
  }

  lemma SubsOkRest(g: Goal, subs: seq<SubTask>, stored: set<nat>)
    requires SubsOk(g, subs, stored) && subs != []
    ensures SubOk(g, subs[0], stored) && SubsOk(g, subs[1..], stored)
    ensures forall i :: 0 <= i < |subs[1..]| ==> subs[0].last <= subs[1..][i].first
  {
    assert forall i :: 0 <= i < |subs[1..]| ==> subs[1..][i] == subs[i + 1];
  }

  /** Cleaning lowers no start of a sub-task. */
  lemma CleanedBehind(g: Goal, subs: seq<SubTask>, heal: set<nat>, stored: set<nat>, bound: nat)
    requires SubsOk(g, subs, stored) && forall i :: 0 <= i < |subs| ==> bound <= subs[i].first
    ensures forall i :: 0 <= i < |CleanSubs(subs, heal)| ==> bound <= CleanSubs(subs, heal)[i].first
  {
    forall i | 0 <= i < |CleanSubs(subs, heal)| ensures bound <= CleanSubs(subs, heal)[i].first {
      var j := CleanSubsOrigin(subs, heal, i);
      assert SubOk(g, subs[j], stored);
      LowestHealIsLowest(heal, subs[j].first, subs[j].next);
    }
  }

  lemma CleanedSubOk(g: Goal, st: SubTask, heal: set<nat>, stored: set<nat>)
    requires SubOk(g, st, stored)
    ensures var cleaned := st.(first := LowestHeal(heal, st.first, st.next));
            !(st.done && !HealIn(heal, st.first, st.next)) ==> SubOk(g, cleaned, stored) && Width(cleaned) == Width(st)
  {
    LowestHealIsLowest(heal, st.first, st.next);
  }

  lemma {:induction false} CleanSubsOk(g: Goal, subs: seq<SubTask>, heal: set<nat>, stored: set<nat>)
    requires SubsOk(g, subs, stored)
    ensures SubsOk(g, CleanSubs(subs, heal), stored)
    ensures Sum(CleanSubs(subs, heal), Width) == Sum(subs, Width)
  {
    if subs == [] {
      assert CleanSubs(subs, heal) == subs;
    } else {
      var rest, st := subs[1..], subs[0].(first := LowestHeal(heal, subs[0].first, subs[0].next));
      var tail := CleanSubs(rest, heal);
      SubsOkRest(g, subs, stored);
      CleanSubsOk(g, rest, heal, stored);
      CleanedBehind(g, rest, heal, stored, subs[0].last);
      CleanedSubOk(g, subs[0], heal, stored);
      if st.done && !HealIn(heal, subs[0].first, subs[0].next) {
        assert CleanSubs(subs, heal) == tail;
      } else {
        assert CleanSubs(subs, heal) == [st] + tail;
        SubsOkAdd(g, st, tail, stored);
      }
    }
  }

  lemma SubsOkAdd(g: Goal, st: SubTask, tail: seq<SubTask>, stored: set<nat>)
    requires SubOk(g, st, stored) && SubsOk(g, tail, stored) && forall i :: 0 <= i < |tail| ==> st.last <= tail[i].first
    ensures SubsOk(g, [st] + tail, stored) && Sum([st] + tail, Width) == Width(st) + Sum(tail, Width)
  {
    var all := [st] + tail;
    assert all[1..] == tail;
    forall i | 0 <= i < |all| ensures SubOk(g, all[i], stored) { if i > 0 { assert all[i] == tail[i - 1]; } }
    forall i, j | 0 <= i < j < |all| ensures all[i].last <= all[j].first {
      assert all[j] == tail[j - 1];
      if i > 0 { assert all[i] == tail[i - 1]; }
    }
  }

  lemma {:induction false} CleanEmptiesOk(g: Goal, es: seq<SubEmptyTask>, settled: set<nat>)
    requires EmptiesOk(g, es, settled)
    ensures EmptiesOk(g, CleanEmpties(es), settled)
    ensures Sum(CleanEmpties(es), EmptyWidth) == Sum(es, EmptyWidth)
    ensures Sum(CleanEmpties(es), IsFilling) == Sum(es, IsFilling)
  {
    if es != [] {
      var rest, tail, all := es[1..], CleanEmpties(es[1..]), CleanEmpties(es);
      assert forall i :: 0 <= i < |rest| ==> rest[i] == es[i + 1];
      assert EmptyOk(g, es[0], settled);
      CleanEmptiesOk(g, rest, settled);
      if es[0].done { assert all == tail; } else { assert all[1..] == tail; }
    }
  }

  lemma {:induction false} CleanEmptiesAhead(g: Goal, es: seq<SubEmptyTask>, settled: set<nat>, x: nat)
    requires EmptiesOk(g, es, settled) && EmptyAhead(es, x)
    ensures EmptyAhead(CleanEmpties(es), x)
  {
    var rest, tail, all := es[1..], CleanEmpties(es[1..]), CleanEmpties(es);
    assert EmptyOk(g, es[0], settled);
    var i :| 0 <= i < |es| && es[i].first <= x < es[i].last;
    if i == 0 {
      assert all[0] == es[0];
    } else {
      assert forall i :: 0 <= i < |rest| ==> rest[i] == es[i + 1];
      assert rest[i - 1].first <= x < rest[i - 1].last;
      CleanEmptiesAhead(g, rest, settled, x);
      var j :| 0 <= j < |tail| && tail[j].first <= x < tail[j].last;
      assert all[j + |all| - |tail|] == tail[j];
    }
  }

  /** Cleaning moves the checkpoints up and drops finished ranges, without losing an index or any progress. */
  lemma CleanTaskInv(t: Task, stored: set<nat>, settled: set<nat>)
    requires TaskInv(t, stored, settled)
    ensures TaskInv(CleanTask(t), stored, settled)
    ensures ToSync(CleanTask(t)) == ToSync(t) && ToFill(CleanTask(t)) == ToFill(t)
    ensures FillThreads(CleanTask(t)) == FillThreads(t)
  {
    var t' := CleanTask(t);
    CleanSubsOk(t.goal, t.subTasks, t.heal, stored);
    CleanEmptiesOk(t.goal, t.subEmptyTasks, settled);
    forall x: nat | EmptyAhead(t.subEmptyTasks, x) ensures EmptyAhead(t'.subEmptyTasks, x) {
      CleanEmptiesAhead(t.goal, t.subEmptyTasks, settled, x);
    }
    forall h | h in t.heal ensures Behind(t'.subTasks, h) {
      CleanKeepsBehind(t.subTasks, t.heal, h);
    }
    forall x | t.goal.lo <= x < t.goal.mid ensures x in stored || x in t.heal || Ahead(t'.subTasks, x) {
      if Ahead(t.subTasks, x) { CleanKeepsAhead(t, stored, x); }
    }
  }

  lemma CleanKeepsBehind(subs: seq<SubTask>, heal: set<nat>, h: nat)
    requires h in heal && Behind(subs, h)
    ensures Behind(CleanSubs(subs, heal), h)
  {
    var j :| 0 <= j < |subs| && subs[j].first <= h < subs[j].next;
    assert HealIn(heal, subs[j].first, subs[j].next);
    LowestHealIsLowest(heal, subs[j].first, subs[j].next);
    var i := CleanSubsImage(subs, heal, j);
    assert CleanSubs(subs, heal)[i].first <= h < CleanSubs(subs, heal)[i].next;
  }

  lemma CleanKeepsAhead(t: Task, stored: set<nat>, x: nat)
    requires DataInv(t, stored) && Ahead(t.subTasks, x)
    ensures Ahead(CleanSubs(t.subTasks, t.heal), x)
  {
    var j :| 0 <= j < |t.subTasks| && t.subTasks[j].next <= x < t.subTasks[j].last;
    assert SubOk(t.goal, t.subTasks[j], stored);
    var i := CleanSubsImage(t.subTasks, t.heal, j);
    assert CleanSubs(t.subTasks, t.heal)[i].next <= x < CleanSubs(t.subTasks, t.heal)[i].last;
  }

  /** After cleaning, a checkpoint sits exactly at the lowest index its sub-task still owes. */
  lemma CleanCheckpointExact(t: Task, stored: set<nat>, settled: set<nat>, i: nat) returns (j: nat)
    requires TaskInv(t, stored, settled) && i < |CleanTask(t).subTasks|
    ensures j < |t.subTasks|
    ensures var st, was := CleanTask(t).subTasks[i], t.subTasks[j];
            && st == was.(first := st.first) && was.first <= st.first
            && (st.first in t.heal || st.first == st.next < st.last)
            && (forall h :: h in t.heal && was.first <= h < was.next ==> st.first <= h)
  {
    j := CleanSubsOrigin(t.subTasks, t.heal, i);
    assert SubOk(t.goal, t.subTasks[j], stored);
    LowestHealIsLowest(t.heal, t.subTasks[j].first, t.subTasks[j].next);
  }

  // ---------------------------------------------------------------- filling empty blobs

  lemma EmptyUpdateInv(t: Task, i: nat, e: SubEmptyTask, filled: nat, stored: set<nat>, settled: set<nat>)
    requires TaskInv(t, stored, settled) && i < |t.subEmptyTasks|
    requires EmptyOk(t.goal, e, settled)
    requires t.subEmptyTasks[i].first <= e.first && e.last == t.subEmptyTasks[i].last
    requires forall x :: t.subEmptyTasks[i].first <= x < e.first ==> x in settled
    requires filled == t.emptyFilled + (e.first - t.subEmptyTasks[i].first)
    ensures var t' := t.(subEmptyTasks := t.subEmptyTasks[i := e], emptyFilled := filled);
            && TaskInv(t', stored, settled)
            && FillThreads(t') == FillThreads(t) - IsFilling(t.subEmptyTasks[i]) + IsFilling(e)
  {
    var t' := t.(subEmptyTasks := t.subEmptyTasks[i := e], emptyFilled := filled);
    SumUpdate(t.subEmptyTasks, i, e, EmptyWidth);
    SumUpdate(t.subEmptyTasks, i, e, IsFilling);
    forall x | t.goal.mid <= x < t.goal.hi ensures x in settled || EmptyAhead(t'.subEmptyTasks, x) {
      if x !in settled {
        assert EmptyAhead(t.subEmptyTasks, x);
        var j :| 0 <= j < |t.subEmptyTasks| && t.subEmptyTasks[j].first <= x < t.subEmptyTasks[j].last;
        assert t'.subEmptyTasks[j].first <= x < t'.subEmptyTasks[j].last;
      }
    }
  }

  lemma AssignEmptyInv(t: Task, i: nat, stored: set<nat>, settled: set<nat>)
    requires TaskInv(t, stored, settled) && i < |t.subEmptyTasks|
    requires !t.subEmptyTasks[i].done && t.subEmptyTasks[i].flight.Parked?
    ensures t.subEmptyTasks[i].last > 0
    ensures TaskInv(AssignEmpty(t, i), stored, settled)
    ensures FillThreads(AssignEmpty(t, i)) == FillThreads(t) + 1
  {
    assert EmptyOk(t.goal, t.subEmptyTasks[i], settled);
    var e := AssignEmpty(t, i).subEmptyTasks[i];
    EmptyUpdateInv(t, i, e, t.emptyFilled, stored, settled);
  }

  /** A fill starts at first and has 16 indices, or all that are left of the range. */
  lemma FillExtent(t: Task, i: nat)
    requires i < |t.subEmptyTasks| && t.subEmptyTasks[i].first <= t.subEmptyTasks[i].last && t.subEmptyTasks[i].last > 0
    ensures var e, f := t.subEmptyTasks[i], AssignEmpty(t, i).subEmptyTasks[i].flight;
            && f.Filling? && f.start == e.first
            && f.limit + 1 - f.start <= 16 && f.limit < e.last
            && (f.limit + 1 - f.start == 16 || f.limit + 1 == e.last)
            && AssignEmpty(t, i) == SetEmptyFlight(t, i, f)
  {
  }

  lemma StoreEmptyInv(t: Task, i: nat, next: nat, stored: set<nat>, settled: set<nat>)
    requires TaskInv(t, stored, settled) && i < |t.subEmptyTasks| && t.subEmptyTasks[i].flight.Filling?
    requires t.subEmptyTasks[i].flight.start <= next <= t.subEmptyTasks[i].flight.limit + 1
    requires forall x :: t.subEmptyTasks[i].flight.start <= x < next ==> x in settled
    ensures var f := t.subEmptyTasks[i].flight;
            var t' := SetEmptyFlight(t, i, Filled(f.start, f.limit, next));
            TaskInv(t', stored, settled) && FillThreads(t') == FillThreads(t)
  {
    assert EmptyOk(t.goal, t.subEmptyTasks[i], settled);
    var f := t.subEmptyTasks[i].flight;
    EmptyUpdateInv(t, i, t.subEmptyTasks[i].(flight := Filled(f.start, f.limit, next)), t.emptyFilled, stored, settled);
  }

  /** A finished fill moves the filled count and the start of the range by the same amount. */
  lemma ApplyEmptyInv(t: Task, i: nat, stored: set<nat>, settled: set<nat>)
    requires TaskInv(t, stored, settled) && i < |t.subEmptyTasks| && t.subEmptyTasks[i].flight.Filled?
    ensures t.subEmptyTasks[i].flight.start <= t.subEmptyTasks[i].flight.next
    ensures TaskInv(ApplyEmpty(t, i), stored, settled)
    ensures FillThreads(ApplyEmpty(t, i)) == FillThreads(t) - 1
    ensures ApplyEmpty(t, i).emptyFilled + ToFill(ApplyEmpty(t, i)) == t.emptyFilled + ToFill(t)
  {
    assert EmptyOk(t.goal, t.subEmptyTasks[i], settled);
    var t' := ApplyEmpty(t, i);
    EmptyUpdateInv(t, i, t'.subEmptyTasks[i], t'.emptyFilled, stored, settled);
  }

  // ---------------------------------------------------------------- checkpoint

  /** What a checkpoint keeps of a task: the ranges, and enough of them. */
  predicate SavedInv(s: SavedTask, stored: set<nat>, settled: set<nat>) {
    TaskInv(LoadTask(s), stored, settled)
  }

  function Held(st: SubTask): int { st.next - st.first }

  lemma {:induction false} HealAtMostHeld(subs: seq<SubTask>, heal: set<nat>)
    requires forall i :: 0 <= i < |subs| ==> subs[i].first <= subs[i].next
    requires HealHeld(subs, heal)
    ensures |heal| <= Sum(subs, Held)
  {
    if subs == [] {
      forall h: nat ensures h !in heal { assert !Behind(subs, h); }
      assert heal == {};
    } else {
      var rest := subs[1..];
      assert forall i :: 0 <= i < |rest| ==> rest[i] == subs[i + 1];
      var here := set h | h in heal && subs[0].first <= h < subs[0].next;
      forall h | h in heal - here ensures Behind(rest, h) {
        assert Behind(subs, h);
        var i :| 0 <= i < |subs| && subs[i].first <= h < subs[i].next;
        assert rest[i - 1].first <= h < rest[i - 1].next;
      }
      HealAtMostHeld(rest, heal - here);
      InsideInterval(here, subs[0].first, subs[0].next);
      assert heal == here + (heal - here);
      assert |heal| == |here| + |heal - here|;
    }
  }

  lemma InsideInterval(s: set<nat>, lo: nat, hi: nat)
    requires lo <= hi && forall x :: x in s ==> lo <= x < hi
    ensures |s| <= hi - lo
  {
    var ints: set<int> := s;
    SubsetSize(ints, Interval(lo, hi));
  }

  function SavedSpans(subs: seq<SubTask>): seq<Span> {
    seq(|subs|, i requires 0 <= i < |subs| => Span(subs[i].first, subs[i].last))
  }

  lemma {:induction false} HeldPlusWidth(subs: seq<SubTask>)
    ensures Sum(SavedSpans(subs), SpanWidth) == Sum(subs, Held) + Sum(subs, Width)
  {
    if subs != [] {
      assert SavedSpans(subs)[1..] == SavedSpans(subs[1..]);
      HeldPlusWidth(subs[1..]);
    }
  }

  /**
   Saving keeps only first and last of each range. Reloading forgets next, done, the heal set and everything
   in flight, yet no index is lost, the count of blobs synced and to sync does not drop, and no fill thread is
   left over.
   */
  lemma SaveReload(t: Task, stored: set<nat>, settled: set<nat>)
    requires TaskInv(t, stored, settled)
    ensures SavedInv(SaveTask(t), stored, settled)
    ensures var r := LoadTask(SaveTask(t));
            && r.blobsSynced + ToSync(r) >= t.blobsSynced + ToSync(t)
            && r.emptyFilled + ToFill(r) == t.emptyFilled + ToFill(t)
            && FillThreads(r) == 0
  {
    var s := SaveTask(t);
    assert s.subs == SavedSpans(t.subTasks);
    assert forall i :: 0 <= i < |t.subTasks| ==> SubOk(t.goal, t.subTasks[i], stored);
    HealAtMostHeld(t.subTasks, t.heal);
    HeldPlusWidth(t.subTasks);
    SumAgree(t.subEmptyTasks, EmptyWidth, s.empties, SpanWidth);
    forall i | 0 <= i < |s.empties|
      ensures t.goal.mid <= s.empties[i].first <= s.empties[i].last <= t.goal.hi && 0 < s.empties[i].last
    {
      assert EmptyOk(t.goal, t.subEmptyTasks[i], settled);
    }
    forall x: nat | t.goal.lo <= x < t.goal.mid ensures x in stored || Spanned(s.subs, x) {
      if x !in stored { StillSpanned(t, x, stored); }
    }
    forall x: nat | EmptyAhead(t.subEmptyTasks, x) ensures Spanned(s.empties, x) {
      var i :| 0 <= i < |t.subEmptyTasks| && t.subEmptyTasks[i].first <= x < t.subEmptyTasks[i].last;
      assert s.empties[i].first <= x < s.empties[i].last;
    }
    FreshInv(t.goal, s.subs, s.empties, s.blobsSynced, s.emptyFilled, stored, settled);
  }

  lemma StillSpanned(t: Task, x: nat, stored: set<nat>)
    requires DataInv(t, stored) && t.goal.lo <= x < t.goal.mid && x !in stored
    ensures Spanned(SaveTask(t).subs, x)
  {
    var i: nat;
    if x in t.heal {
      assert Behind(t.subTasks, x);
      i :| 0 <= i < |t.subTasks| && t.subTasks[i].first <= x < t.subTasks[i].next;
    } else {
      assert Ahead(t.subTasks, x);
      i :| 0 <= i < |t.subTasks| && t.subTasks[i].next <= x < t.subTasks[i].last;
    }
    assert SubOk(t.goal, t.subTasks[i], stored);
    var s := SaveTask(t).subs;
    assert s[i].first <= x < s[i].last;
  }
}
