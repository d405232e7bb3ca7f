/**
 The scanner: it goes round the locally stored indices in batches. The shards held locally need not be consecutive, so a
 scan position is translated into an index shard by shard.
 */
module Scanner {
  import opened Arith

  predicate Ascending(s: seq<nat>) { forall i, j :: 0 <= i < j < |s| ==> s[i] < s[j] }

  /** The index at a position: positions run through the shards one after the other. */
  function KvAt(shards: seq<nat>, e: nat, p: nat): nat
    requires e >= 1 && p < |shards| * e
  {
    ShardPos(p, |shards|, e);
    shards[p / e] * e + p % e
  }

  lemma ShardPos(p: nat, n: nat, e: nat)
    requires e >= 1 && p < n * e
    ensures 0 <= p / e < n
  {
    DivNonNegative(p, e);
    if p / e >= n {
      MulMonotone(n, p / e, e);
      assert false;
    }
  }

  /** Later positions have larger indices. */
  lemma KvAtAscends(shards: seq<nat>, e: nat, p: nat, q: nat)
    requires e >= 1 && Ascending(shards) && p < q < |shards| * e
    ensures KvAt(shards, e, p) < KvAt(shards, e, q)
  {
    ShardPos(p, |shards|, e);
    ShardPos(q, |shards|, e);
    var a, b := p / e, q / e;
    if a > b {
      MulMonotone(b + 1, a, e);
      assert false;
    }
    if a < b { MulMonotone(shards[a] + 1, shards[b], e); }
  }

  /** An index has a position exactly if its shard is local. */
  lemma PositionOf(shards: seq<nat>, e: nat, k: nat)
    requires e >= 1
    ensures k / e in shards <==> exists p: nat :: p < |shards| * e && KvAt(shards, e, p) == k
  {
    DivNonNegative(k, e);
    if k / e in shards {
      var j :| 0 <= j < |shards| && shards[j] == k / e;
      var p := j * e + k % e;
      MulMonotone(j + 1, |shards|, e);
      DivModUnique(p, e, j, k % e);
      assert p < |shards| * e && KvAt(shards, e, p) == k;
    }
    if p: nat :| p < |shards| * e && KvAt(shards, e, p) == k {
      ShardPos(p, |shards|, e);
      DivModUnique(k, e, shards[p / e], p % e);
    }
  }

  // ---------------------------------------------------------------- how many positions there are

  /** How many indices up to the last one a shard has. */
  function InShard(shard: nat, e: nat, last: nat): nat
    requires e >= 1
  {
    if shard > last / e then 0 else if shard == last / e then last % e + 1 else e
  }

  function Total(shards: seq<nat>, e: nat, last: nat): nat
    requires e >= 1
  {
    if shards == [] then 0 else InShard(shards[0], e, last) + Total(shards[1..], e, last)
  }

  lemma {:induction false} TotalOfLater(shards: seq<nat>, e: nat, last: nat)
    requires e >= 1 && forall i :: 0 <= i < |shards| ==> shards[i] > last / e
    ensures Total(shards, e, last) == 0
  {
    if shards != [] { TotalOfLater(shards[1..], e, last); }
  }

  /** The total, counted until the first shard behind the last index. */
  method SummaryLocalKvs(shards: seq<nat>, e: nat, last: nat) returns (total: nat)
    requires e >= 1 && Ascending(shards)
    ensures total == Total(shards, e, last)
  {
    total := 0;
    var i := 0;
    while i < |shards|
      invariant 0 <= i <= |shards| && total + Total(shards[i..], e, last) == Total(shards, e, last)
    {
      assert shards[i..][1..] == shards[i + 1..];
      if shards[i] > last / e {
        TotalOfLater(shards[i..], e, last);
        return;
      }
      if shards[i] == last / e {
        total := total + (last % e + 1);
      } else {
        total := total + e;
      }
      i := i + 1;
    }
  }

  /** The positions below the total are those of the indices up to the last one. */
  lemma {:induction false} TotalIsExact(shards: seq<nat>, e: nat, last: nat, p: nat)
    requires e >= 1 && Ascending(shards) && p < |shards| * e
    ensures p < Total(shards, e, last) <==> KvAt(shards, e, p) <= last
    decreases |shards|
  {
    DivNonNegative(last, e);
    var here, rest, s := InShard(shards[0], e, last), shards[1..], shards[0];
    assert |shards| * e == e + |rest| * e;
    if p < e {
      DivModUnique(p, e, 0, p);
      assert KvAt(shards, e, p) == s * e + p;
      FirstShard(s, e, last, p);
      if s >= last / e { TotalOfLater(rest, e, last); }
    } else {
      TotalIsExact(rest, e, last, p - e);
      NextShard(shards, e, p);
      if s >= last / e {
        TotalOfLater(rest, e, last);
        BeyondLast(shards, e, last, p);
      }
    }
  }

  lemma FirstShard(s: nat, e: nat, last: nat, p: nat)
    requires e >= 1 && p < e
    ensures p < InShard(s, e, last) <==> s * e + p <= last
  {
    var q := last / e;
    if s < q {
      MulMonotone(s + 1, q, e);
    } else if s > q {
      MulMonotone(q + 1, s, e);
    }
  }

  lemma NextShard(shards: seq<nat>, e: nat, p: nat)
    requires e >= 1 && |shards| >= 1 && e <= p < |shards| * e
    ensures p - e < |shards[1..]| * e && KvAt(shards, e, p) == KvAt(shards[1..], e, p - e)
  {
    assert |shards| * e == e + |shards[1..]| * e;
    ShardPos(p - e, |shards[1..]|, e);
    ModShift(1, p - e, e);
  }

  lemma BeyondLast(shards: seq<nat>, e: nat, last: nat, p: nat)
    requires e >= 1 && Ascending(shards) && |shards| >= 1 && e <= p < |shards| * e && shards[0] >= last / e
    ensures KvAt(shards, e, p) > last
  {
    ShardPos(p, |shards|, e);
    var a := p / e;
    if a < 1 {
      MulMonotone(a, 0, e);
      assert false;
    }
    MulMonotone(last / e + 1, shards[a], e);
  }

  lemma {:induction false} TotalFits(shards: seq<nat>, e: nat, last: nat)
    requires e >= 1
    ensures Total(shards, e, last) <= |shards| * e
    decreases |shards|
  {
    if shards != [] {
      TotalFits(shards[1..], e, last);
      assert |shards| * e == e + |shards[1..]| * e;
    }
  }

  // ---------------------------------------------------------------- batches

  /** The indices at the positions from lo up to hi. */
  function Positions(shards: seq<nat>, e: nat, lo: nat, hi: nat): (s: seq<nat>)
    requires e >= 1 && lo <= hi <= |shards| * e
    ensures |s| == hi - lo && forall i :: 0 <= i < |s| ==> s[i] == KvAt(shards, e, lo + i)
  {
    seq<nat>(hi - lo, i requires 0 <= i < hi - lo => KvAt(shards, e, lo + i))
  }

  /** A scan behind the last position starts again at the beginning. */
  function Start(next: nat, count: nat): nat { if next >= count then 0 else next }

  method GetKvsInBatch(shards: seq<nat>, e: nat, count: nat, batchSize: nat, next: nat)
      returns (kvs: seq<nat>, end: nat)
    requires e >= 1 && 1 <= count <= |shards| * e && batchSize >= 1
    ensures Start(next, count) <= end == Min(Start(next, count) + batchSize, count)
    ensures kvs == Positions(shards, e, Start(next, count), end)
  {
    var start := Start(next, count);
    end := Min(start + batchSize, count);
    var endIndex := end - 1;
    ShardPos(start, |shards|, e);
    ShardPos(endIndex, |shards|, e);
    var startShardPos, startKvOffset := start / e, start % e;
    var endShardPos, endKvOffset := endIndex / e, endIndex % e + 1;
    LastShard(start, endIndex, e);
    kvs := [];
    var i := startShardPos;
    while i <= endShardPos
      invariant startShardPos <= i <= endShardPos + 1
      invariant start <= Reached(start, end, e, i, endShardPos) <= end
      invariant kvs == Positions(shards, e, start, Reached(start, end, e, i, endShardPos))
      decreases endShardPos - i
    {
      var localStart := if i == startShardPos then startKvOffset else 0;
      var localEnd := if i == endShardPos then endKvOffset else e;
      ReachedNext(start, end, e, i);
      kvs := AppendRange(shards, e, start, i, localStart, localEnd, kvs, count);
      i := i + 1;
    }
  }

  /** The position reached when the loop comes to a shard. */
  ghost function Reached(start: nat, end: nat, e: nat, i: nat, endPos: int): nat
    requires e >= 1
  {
    if i == start / e then start else if i > endPos then end else i * e
  }

  lemma ReachedNext(start: nat, end: nat, e: nat, i: nat)
    requires e >= 1 && start < end && start / e <= i <= (end - 1) / e
    ensures var endPos := (end - 1) / e;
            && Reached(start, end, e, i, endPos) == i * e + (if i == start / e then start % e else 0)
            && Reached(start, end, e, i + 1, endPos) == i * e + (if i == endPos then (end - 1) % e + 1 else e)
            && Reached(start, end, e, i, endPos) <= Reached(start, end, e, i + 1, endPos) <= end
            && start <= Reached(start, end, e, i + 1, endPos)
  {
    ShardEnd(i, (end - 1) / e, e, end - 1);
    assert start == start / e * e + start % e;
    MulMonotone(start / e, i, e);
    if start / e < i { MulMonotone(start / e + 1, i, e); }
  }

  /** A shard before the last one of a batch ends before the batch does. */
  lemma ShardEnd(i: nat, endPos: nat, e: nat, endIndex: nat)
    requires e >= 1 && i <= endPos == endIndex / e
    ensures i < endPos ==> (i + 1) * e == i * e + e <= endIndex
    ensures i == endPos ==> i * e + (endIndex % e + 1) == endIndex + 1
  {
    if i < endPos { MulMonotone(i + 1, endPos, e); }
  }

  lemma LastShard(start: nat, endIndex: nat, e: nat)
    requires e >= 1 && start <= endIndex
    ensures start / e <= endIndex / e
  {
    if start / e > endIndex / e {
      MulMonotone(endIndex / e + 1, start / e, e);
      assert false;
    }
  }

  /** The indices of one shard from one offset to another. */
  method AppendRange(shards: seq<nat>, e: nat, start: nat, i: nat, localStart: nat, localEnd: nat, before: seq<nat>,
                     count: nat)
    returns (kvs: seq<nat>)
    requires e >= 1 && i < |shards| && localStart <= localEnd <= e
    requires start <= i * e + localStart && i * e + localEnd <= count <= |shards| * e
    requires before == Positions(shards, e, start, i * e + localStart)
    ensures kvs == Positions(shards, e, start, i * e + localEnd)
  {
    kvs := before;
    for k := localStart to localEnd
      invariant kvs == Positions(shards, e, start, i * e + k)
    {
      DivModUnique(i * e + k, e, i, k);
      assert KvAt(shards, e, i * e + k) == shards[i] * e + k;
      kvs := kvs + [shards[i] * e + k];
    }
  }

  // ---------------------------------------------------------------- runs

  /** What a run of attempts scans; a batch that fails is tried again from where it began. */
  function Scan(shards: seq<nat>, e: nat, count: nat, batchSize: nat, next: nat, attempts: seq<bool>): seq<nat>
    requires e >= 1 && 1 <= count <= |shards| * e && batchSize >= 1
    decreases |attempts|
  {
    if attempts == [] then []
    else if !attempts[0] then Scan(shards, e, count, batchSize, next, attempts[1..])
    else
      var start := Start(next, count);
      var end := Min(start + batchSize, count);
      Positions(shards, e, start, end) + Scan(shards, e, count, batchSize, end, attempts[1..])
  }

  /** Batch by batch, a run goes round the positions one after the other, however large the batches are. */
  lemma {:induction false} ScanGoesRound(shards: seq<nat>, e: nat, count: nat, batchSize: nat, next: nat,
                                         attempts: seq<bool>, i: nat)
    requires e >= 1 && 1 <= count <= |shards| * e && batchSize >= 1
    requires i < |Scan(shards, e, count, batchSize, next, attempts)|
    ensures Round(next, count, i) < count
    ensures Scan(shards, e, count, batchSize, next, attempts)[i] == KvAt(shards, e, Round(next, count, i))
    decreases |attempts|
  {
    RoundInRange(next, count, i);
    if attempts != [] {
      if !attempts[0] {
        ScanGoesRound(shards, e, count, batchSize, next, attempts[1..], i);
      } else {
        var start := Start(next, count);
        var end := Min(start + batchSize, count);
        if i < end - start {
          DivModUnique(start + i, count, 0, start + i);
        } else {
          ScanGoesRound(shards, e, count, batchSize, end, attempts[1..], i - (end - start));
          RoundGoesOn(start, end, count, i);
        }
      }
    }
  }

  /** The position reached i steps after the start. */
  function Round(next: nat, count: nat, i: nat): nat
    requires count >= 1
  {
    (Start(next, count) + i) % count
  }

  lemma RoundInRange(next: nat, count: nat, i: nat)
    requires count >= 1
    ensures Round(next, count, i) < count
  {
  }

  lemma RoundGoesOn(start: nat, end: nat, count: nat, i: nat)
    requires start < count && start <= end <= count && i >= end - start
    ensures Round(end, count, i - (end - start)) == (start + i) % count
  {
    if end == count { ModShift(1, start + i - count, count); }
  }

  /** One index of a run's output, as a position that the run goes through. */
  lemma ScanAt(shards: seq<nat>, e: nat, count: nat, batchSize: nat, next: nat, attempts: seq<bool>, t: nat, k: nat)
    requires e >= 1 && 1 <= count <= |shards| * e && batchSize >= 1
    requires t < |Scan(shards, e, count, batchSize, next, attempts)|
    ensures Scan(shards, e, count, batchSize, next, attempts)[t] == k <==> ScannedAt(shards, e, count, next, t, k)
  {
    ScanGoesRound(shards, e, count, batchSize, next, attempts, t);
  }

  /** Where an index comes up in a round. */
  lemma HitInRound(shards: seq<nat>, e: nat, last: nat, count: nat, next: nat, from: nat, k: nat) returns (t: nat)
    requires e >= 1 && Ascending(shards) && k <= last && k / e in shards
    requires count == Total(shards, e, last) && 1 <= count <= |shards| * e
    ensures from <= t < from + count && ScannedAt(shards, e, count, next, t, k)
  {
    PositionOf(shards, e, k);
    var p: nat :| p < |shards| * e && KvAt(shards, e, p) == k;
    TotalIsExact(shards, e, last, p);
    var i := StepTo(Start(next, count) + from, count, p);
    t := from + i;
    assert Round(next, count, t) == p;
  }

  /** A local index is one of those counted. */
  lemma SomeCounted(shards: seq<nat>, e: nat, last: nat, k: nat)
    requires e >= 1 && Ascending(shards) && k <= last && k / e in shards
    ensures 1 <= Total(shards, e, last) <= |shards| * e
  {
    TotalFits(shards, e, last);
    PositionOf(shards, e, k);
    var p: nat :| p < |shards| * e && KvAt(shards, e, p) == k;
    TotalIsExact(shards, e, last, p);
  }

  /**
   In every run of batches, whatever their size and whichever of them fail: in every stretch of the output that is as
   long as there are indices to scan, each local index up to the last one comes exactly once.
   */
  lemma EveryRoundScansAll(shards: seq<nat>, e: nat, last: nat, count: nat, batchSize: nat, next: nat,
                           attempts: seq<bool>, from: nat, k: nat) returns (t: nat)
    requires e >= 1 && Ascending(shards) && k <= last && k / e in shards && batchSize >= 1
    requires count == Total(shards, e, last) && 1 <= count <= |shards| * e
    requires from + count <= |Scan(shards, e, count, batchSize, next, attempts)|
    ensures var out := Scan(shards, e, count, batchSize, next, attempts);
            && from <= t < from + count && out[t] == k
            && forall u: nat :: from <= u < from + count && out[u] == k ==> u == t
  {
    t := HitInRound(shards, e, last, count, next, from, k);
    ScanAt(shards, e, count, batchSize, next, attempts, t, k);
    var out := Scan(shards, e, count, batchSize, next, attempts);
    forall u: nat | from <= u < from + count && out[u] == k ensures u == t {
      ScanAt(shards, e, count, batchSize, next, attempts, u, k);
      OnlyOnce(shards, e, count, next, from, t, u, k);
    }
  }

  lemma OnlyOnce(shards: seq<nat>, e: nat, count: nat, next: nat, from: nat, t: nat, u: nat, k: nat)
    requires e >= 1 && Ascending(shards) && 1 <= count <= |shards| * e
    requires from <= t < from + count && from <= u < from + count
    requires ScannedAt(shards, e, count, next, t, k) && ScannedAt(shards, e, count, next, u, k)
    ensures u == t
  {
    var p, q := Round(next, count, t), Round(next, count, u);
    RoundInRange(next, count, t);
    RoundInRange(next, count, u);
    if q < p { KvAtAscends(shards, e, q, p); }
    if p < q { KvAtAscends(shards, e, p, q); }
    SameStep(Start(next, count) + from, count, t - from, u - from);
  }

  predicate ScannedAt(shards: seq<nat>, e: nat, count: nat, next: nat, t: nat, k: nat)
    requires e >= 1 && 1 <= count <= |shards| * e
  {
    RoundInRange(next, count, t);
    KvAt(shards, e, Round(next, count, t)) == k
  }

  /** From any position, every position is reached in less than a round. */
  lemma StepTo(a: nat, n: nat, p: nat) returns (i: nat)
    requires p < n
    ensures i < n && (a + i) % n == p
  {
    var r := a % n;
    i := if r <= p then p - r else p + n - r;
    var q := a / n;
    assert a == q * n + r;
    if r <= p {
      DivModUnique(a + i, n, q, p);
    } else {
      assert (q + 1) * n == q * n + n;
      DivModUnique(a + i, n, q + 1, p);
    }
  }

  lemma SameStep(a: nat, n: nat, i: nat, j: nat)
    requires i < n && j < n && (a + i) % n == (a + j) % n
    ensures i == j
  {
    var x, y := (a + i) / n, (a + j) / n;
    assert i - j == (x - y) * n by { assert (x - y) * n == x * n - y * n; }
    if x - y >= 1 { MulMonotone(1, x - y, n); assert false; }
    if x - y <= -1 { MulMonotone(x - y, -1, n); assert false; }
  }

  /**
   Every index a run of batches puts out is local and not beyond the last, and they ascend until the scan starts again.
   */
  lemma ScanIsLocal(shards: seq<nat>, e: nat, last: nat, count: nat, batchSize: nat, next: nat, attempts: seq<bool>,
                    t: nat)
    requires e >= 1 && Ascending(shards) && batchSize >= 1
    requires count == Total(shards, e, last) && 1 <= count <= |shards| * e
    requires t < |Scan(shards, e, count, batchSize, next, attempts)|
    ensures var out := Scan(shards, e, count, batchSize, next, attempts);
            && out[t] <= last && out[t] / e in shards
            && (t + 1 < |out| && Round(next, count, t + 1) != 0 ==> out[t] < out[t + 1])
  {
    ScanGoesRound(shards, e, count, batchSize, next, attempts, t);
    ScannedIsLocal(shards, e, last, Round(next, count, t));
    if t + 1 < |Scan(shards, e, count, batchSize, next, attempts)| && Round(next, count, t + 1) != 0 {
      ScanGoesRound(shards, e, count, batchSize, next, attempts, t + 1);
      NextPosition(Start(next, count) + t, count);
      ScannedIsLocal(shards, e, last, Round(next, count, t + 1));
    }
  }

  lemma NextPosition(a: nat, n: nat)
    requires n >= 1
    ensures (a + 1) % n == 0 || (a + 1) % n == a % n + 1
  {
    var q, r := a / n, a % n;
    assert a == q * n + r;
    if r + 1 < n {
      DivModUnique(a + 1, n, q, r + 1);
    } else {
      assert (q + 1) * n == q * n + n;
      DivModUnique(a + 1, n, q + 1, 0);
    }
  }

  /** Positions below the count are local, not beyond the last, and in ascending order. */
  lemma ScannedIsLocal(shards: seq<nat>, e: nat, last: nat, p: nat)
    requires e >= 1 && Ascending(shards) && p < Total(shards, e, last)
    ensures p < |shards| * e && KvAt(shards, e, p) <= last && KvAt(shards, e, p) / e in shards
    ensures forall q: nat :: q < p ==> KvAt(shards, e, q) < KvAt(shards, e, p)
  {
    TotalFits(shards, e, last);
    TotalIsExact(shards, e, last, p);
    PositionOf(shards, e, KvAt(shards, e, p));
    forall q: nat | q < p ensures KvAt(shards, e, q) < KvAt(shards, e, p) { KvAtAscends(shards, e, q, p); }
  }

  // ---------------------------------------------------------------- runs while entries are added

  /** The local indices of a contract with the given number of entries. */
  function Count(shards: seq<nat>, e: nat, entries: nat): (count: nat)
    requires e >= 1
    ensures count <= |shards| * e
  {
    if entries == 0 then 0
    else
      TotalFits(shards, e, entries - 1);
      Total(shards, e, entries - 1)
  }

  /** A batch, whether it succeeds, and the number of entries there are when it is put together. */
  datatype Try = Try(ok: bool, entries: nat)

  /** What a run scans when every batch counts anew; without local indices nothing is scanned and the position stays. */
  function Recount(shards: seq<nat>, e: nat, batchSize: nat, next: nat, tries: seq<Try>): seq<nat>
    requires e >= 1 && batchSize >= 1
    decreases |tries|
  {
    if tries == [] then []
    else
      var count := Count(shards, e, tries[0].entries);
      if !tries[0].ok || count == 0 then Recount(shards, e, batchSize, next, tries[1..])
      else
        var start := Start(next, count);
        var end := Min(start + batchSize, count);
        Positions(shards, e, start, end) + Recount(shards, e, batchSize, end, tries[1..])
  }

  predicate Growing(tries: seq<Try>) { forall i, j :: 0 <= i < j < |tries| ==> tries[i].entries <= tries[j].entries }

  /** A position is counted exactly if its index is an entry. */
  lemma CountIsExact(shards: seq<nat>, e: nat, entries: nat, p: nat)
    requires e >= 1 && Ascending(shards) && p < |shards| * e
    ensures p < Count(shards, e, entries) <==> KvAt(shards, e, p) < entries
  {
    if entries > 0 { TotalIsExact(shards, e, entries - 1, p); }
  }

  /** More entries, more to scan. */
  lemma CountGrows(shards: seq<nat>, e: nat, a: nat, b: nat)
    requires e >= 1 && Ascending(shards) && a <= b
    ensures Count(shards, e, a) <= Count(shards, e, b)
  {
    var p := Count(shards, e, b);
    if p < Count(shards, e, a) {
      CountIsExact(shards, e, a, p);
      CountIsExact(shards, e, b, p);
    }
  }

  /** Inside a round, positions follow each other at least up to those counted when it began. */
  lemma {:induction false} RecountGoesOn(shards: seq<nat>, e: nat, batchSize: nat, next: nat, tries: seq<Try>,
                                         entries: nat, t: nat)
    requires e >= 1 && Ascending(shards) && batchSize >= 1 && Growing(tries)
    requires tries != [] ==> entries <= tries[0].entries
    requires t < |Recount(shards, e, batchSize, next, tries)| && next + t < Count(shards, e, entries)
    ensures Recount(shards, e, batchSize, next, tries)[t] == KvAt(shards, e, next + t)
    decreases |tries|
  {
    if tries != [] {
      var count, rest := Count(shards, e, tries[0].entries), tries[1..];
      CountGrows(shards, e, entries, tries[0].entries);
      assert forall i :: 0 <= i < |rest| ==> rest[i] == tries[i + 1];
      if !tries[0].ok {
        RecountGoesOn(shards, e, batchSize, next, rest, entries, t);
      } else {
        var end := Min(next + batchSize, count);
        if t >= end - next { RecountGoesOn(shards, e, batchSize, end, rest, entries, t - (end - next)); }
      }
    }
  }

  /** A batch that starts a round does so wherever the last one ended. */
  lemma RoundStarts(shards: seq<nat>, e: nat, batchSize: nat, next: nat, tries: seq<Try>,
                    first: Try, rest: seq<Try>, count: nat)
    requires e >= 1 && batchSize >= 1 && tries != [] && first == tries[0] && rest == tries[1..] && first.ok
    requires count == Count(shards, e, first.entries) && Start(next, count) == 0
    ensures count > 0 ==> Recount(shards, e, batchSize, next, tries) == Recount(shards, e, batchSize, 0, tries)
  {
    if count > 0 {
      var end := Min(batchSize, count);
      var out := Positions(shards, e, 0, end) + Recount(shards, e, batchSize, end, rest);
      assert Start(0, count) == 0;
      assert Recount(shards, e, batchSize, next, tries) == out;
      assert Recount(shards, e, batchSize, 0, tries) == out;
    }
  }

  /**
   A round while entries are added, and every batch counts anew: the indices that are local and entries when the round
   begins all come, in ascending order, before the scan can start again.
   */
  lemma RecountedRound(shards: seq<nat>, e: nat, batchSize: nat, next: nat, tries: seq<Try>, t: nat)
    requires e >= 1 && Ascending(shards) && batchSize >= 1 && Growing(tries)
    requires tries != [] && tries[0].ok && Start(next, Count(shards, e, tries[0].entries)) == 0
    requires t < |Recount(shards, e, batchSize, next, tries)| && t < Count(shards, e, tries[0].entries)
    ensures Recount(shards, e, batchSize, next, tries)[t] == KvAt(shards, e, t)
  {
    RoundStarts(shards, e, batchSize, next, tries, tries[0], tries[1..], Count(shards, e, tries[0].entries));
    RecountGoesOn(shards, e, batchSize, 0, tries, tries[0].entries, t);
  }

  /** Each of them comes exactly once in the stretch of the round that is as long as there are such indices. */
  lemma RecountedOnce(shards: seq<nat>, e: nat, batchSize: nat, next: nat, tries: seq<Try>, k: nat) returns (t: nat)
    requires e >= 1 && Ascending(shards) && batchSize >= 1 && Growing(tries)
    requires tries != [] && tries[0].ok && Start(next, Count(shards, e, tries[0].entries)) == 0
    requires Count(shards, e, tries[0].entries) <= |Recount(shards, e, batchSize, next, tries)|
    requires k < tries[0].entries && k / e in shards
    ensures var out, count := Recount(shards, e, batchSize, next, tries), Count(shards, e, tries[0].entries);
            && t < count && out[t] == k
            && forall u: nat :: u < count && out[u] == k ==> u == t
  {
    PositionOf(shards, e, k);
    t :| t < |shards| * e && KvAt(shards, e, t) == k;
    CountIsExact(shards, e, tries[0].entries, t);
    RecountedRound(shards, e, batchSize, next, tries, t);
    var out, count := Recount(shards, e, batchSize, next, tries), Count(shards, e, tries[0].entries);
    forall u: nat | u < count && out[u] == k ensures u == t {
      RecountedRound(shards, e, batchSize, next, tries, u);
      if u < t { KvAtAscends(shards, e, u, t); }
      if t < u { KvAtAscends(shards, e, t, u); }
    }
  }

  /** Whatever the counts, only local indices are scanned, and none beyond the entries of the last batch. */
  lemma {:induction false} RecountIsLocal(shards: seq<nat>, e: nat, batchSize: nat, next: nat, tries: seq<Try>, t: nat)
    requires e >= 1 && Ascending(shards) && batchSize >= 1 && Growing(tries)
    requires t < |Recount(shards, e, batchSize, next, tries)|
    ensures var k := Recount(shards, e, batchSize, next, tries)[t];
            tries != [] && k < tries[|tries| - 1].entries && k / e in shards
    decreases |tries|
  {
    if tries != [] {
      var count, rest := Count(shards, e, tries[0].entries), tries[1..];
      assert forall i :: 0 <= i < |rest| ==> rest[i] == tries[i + 1];
      if !tries[0].ok || count == 0 {
        RecountIsLocal(shards, e, batchSize, next, rest, t);
      } else {
        var start := Start(next, count);
        var end := Min(start + batchSize, count);
        if t < end - start {
          CountIsExact(shards, e, tries[0].entries, start + t);
          PositionOf(shards, e, KvAt(shards, e, start + t));
        } else {
          RecountIsLocal(shards, e, batchSize, end, rest, t - (end - start));
        }
      }
    }
  }
}
