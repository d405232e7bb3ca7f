/**
 The scheduler's code with its loops and updates in place, each method proved to perform the step that
 `SyncModel` gives for it. A method body is what the client does while it holds its lock.
 */
module SyncClient {
  import opened Arith
  import opened Sums
  import opened SyncModel
  import opened SyncInvariant
  import opened SyncRuns

  // ---------------------------------------------------------------- the gap merge

  predicate Sorted(s: seq<nat>) {
    forall i, j :: 0 <= i < j < |s| ==> s[i] <= s[j]
  }

  function Insert(x: nat, s: seq<nat>): (r: seq<nat>)
    ensures multiset(r) == multiset(s) + multiset{x}
  {
    if s == [] || x <= s[0] then [x] + s
    else
      assert s == [s[0]] + s[1..];
      [s[0]] + Insert(x, s[1..])
  }

  lemma {:induction false} InsertSorts(x: nat, s: seq<nat>)
    requires Sorted(s)
    ensures Sorted(Insert(x, s))
  {
    if s != [] && x > s[0] {
      var rest := Insert(x, s[1..]);
      InsertSorts(x, s[1..]);
      forall j | 0 <= j < |rest| ensures s[0] <= rest[j] {
        InsertMember(x, s[1..], rest[j]);
      }
    }
  }

  lemma {:induction false} InsertMember(x: nat, s: seq<nat>, y: nat)
    requires y in Insert(x, s)
    ensures y == x || y in s
  {
    if s != [] && x > s[0] && y != s[0] {
      InsertMember(x, s[1..], y);
    }
  }

  /** The library sort: the same indices in ascending order. */
  function SortIndices(s: seq<nat>): (r: seq<nat>)
    ensures Sorted(r) && multiset(r) == multiset(s)
  {
    if s == [] then [] else
      assert s == [s[0]] + s[1..];
      InsertSorts(s[0], SortIndices(s[1..]));
      Insert(s[0], SortIndices(s[1..]))
  }

  lemma {:induction false} CountTwo(s: seq<nat>, v: nat)
    ensures multiset(s)[v] >= 2 <==> exists j, k :: 0 <= j < k < |s| && s[j] == s[k] == v
  {
    if multiset(s)[v] >= 2 {
      TwoPlaces(s, v);
    }
    if j, k :| 0 <= j < k < |s| && s[j] == s[k] == v {
      assert s == s[..k] + [s[k]] + s[k + 1..];
      assert s[..k][j] == v;
      assert v in multiset(s[..k]);
    }
  }

  lemma {:induction false} TwoPlaces(s: seq<nat>, v: nat)
    requires multiset(s)[v] >= 2
    ensures exists j, k :: 0 <= j < k < |s| && s[j] == s[k] == v
  {
    assert s == [s[0]] + s[1..];
    if s[0] == v {
      assert v in multiset(s[1..]);
      var k :| 0 <= k < |s[1..]| && s[1..][k] == v;
      assert s[0] == s[k + 1] == v;
    } else {
      TwoPlaces(s[1..], v);
      var j, k :| 0 <= j < k < |s[1..]| && s[1..][j] == s[1..][k] == v;
      assert s[j + 1] == s[k + 1] == v;
    }
  }

  lemma PermutedGaps(s: seq<nat>, r: seq<nat>, next: nat)
    requires |s| > 0 && |r| > 0 && multiset(s) == multiset(r)
    ensures MaxOf(s) == MaxOf(r) && Gaps(s, next) == Gaps(r, next)
  {
    assert forall x :: x in s <==> x in multiset(s);
    assert forall x :: x in r <==> x in multiset(r);
    MaxOfIsMax(s);
    MaxOfIsMax(r);
    assert forall n: nat :: RepeatBelow(s, n) <==> RepeatBelow(r, n);
  }

  lemma LastIsMax(s: seq<nat>)
    requires |s| > 0 && Sorted(s)
    ensures s[|s| - 1] == MaxOf(s)
  {
    MaxOfIsMax(s);
    var k :| 0 <= k < |s| && s[k] == MaxOf(s);
    assert s[|s| - 1] in s;
  }

  /** The merge is in step with the reply: what it has matched is what lies below n. */
  ghost predicate InStep(s: seq<nat>, i: nat, n: nat) {
    && i <= |s| && !RepeatBelow(s, n)
    && (forall j :: 0 <= j < i ==> s[j] < n)
    && (forall j :: i <= j < |s| ==> n <= s[j])
  }

  /** The merge is stuck on the second occurrence of an index. */
  ghost predicate Stuck(s: seq<nat>, i: nat, n: nat) {
    i < |s| && s[i] < n && RepeatBelow(s, n)
  }

  lemma MatchStep(s: seq<nat>, i: nat, n: nat)
    requires Sorted(s) && InStep(s, i, n) && i < |s| && s[i] == n
    ensures InStep(s, i + 1, n + 1) || Stuck(s, i + 1, n + 1)
  {
    if i + 1 < |s| && s[i + 1] == n {
      assert 0 <= i < i + 1 < |s| && s[i] == s[i + 1] == n;
      CountTwo(s, n);
    } else {
      forall v | v in s && v < n + 1 ensures multiset(s)[v] < 2 {
        if v == n { CountTwo(s, n); }
      }
    }
  }

  lemma SkipStep(s: seq<nat>, i: nat, n: nat)
    requires Sorted(s) && InStep(s, i, n) && i < |s| && s[i] > n
    ensures InStep(s, i, n + 1) && n !in s
  {
  }

  /**
   The loop over [next, last] that looks for skipped indices. Its result is described without it: the indices
   not in the reply that have no repeated index below them.
   */
  method MissingIndices(inserted: seq<nat>, next: nat) returns (missing: seq<nat>)
    requires |inserted| > 0 && Sorted(inserted) && forall x :: x in inserted ==> next <= x
    ensures Elements(missing) == Gaps(inserted, next)
    ensures forall i, j :: 0 <= i < j < |missing| ==> missing[i] < missing[j]
  {
    var last := inserted[|inserted| - 1];
    LastIsMax(inserted);
    missing := [];
    var i, n := 0, next;
    NothingFound(inserted, next);
    while n <= last
      invariant next <= n <= last + 1 && i <= |inserted|
      invariant InStep(inserted, i, n) || Stuck(inserted, i, n)
      invariant FoundBelow(inserted, next, n, missing)
    {
      FoundStep(inserted, next, n, missing, i);
      if inserted[i] == n {
        MatchStep(inserted, i, n);
        i := i + 1;
      } else if inserted[i] > n {
        SkipStep(inserted, i, n);
        missing := missing + [n];
      }
      n := n + 1;
    }
    AllFound(inserted, next, missing);
  }

  lemma NothingFound(s: seq<nat>, next: nat)
    requires forall x :: x in s ==> next <= x
    ensures InStep(s, 0, next) && FoundBelow(s, next, next, [])
  {
    assert forall j :: 0 <= j < |s| ==> s[j] in s;
  }

  lemma AllFound(s: seq<nat>, next: nat, missing: seq<nat>)
    requires |s| > 0 && FoundBelow(s, next, MaxOf(s) + 1, missing)
    ensures Elements(missing) == Gaps(s, next)
  {
    forall m: nat ensures m in Elements(missing) <==> m in Gaps(s, next) { }
  }

  /** An index that is missing and not hidden by a repeated one. */
  ghost predicate IsGap(s: seq<nat>, next: nat, m: nat) { next <= m && m !in s && !RepeatBelow(s, m) }

  /** The gaps below n, in ascending order. */
  ghost predicate FoundBelow(s: seq<nat>, next: nat, n: nat, missing: seq<nat>) {
    && (forall m: nat :: m in missing <==> m < n && IsGap(s, next, m))
    && (forall j, k :: 0 <= j < k < |missing| ==> missing[j] < missing[k])
  }

  lemma FoundStep(s: seq<nat>, next: nat, n: nat, missing: seq<nat>, i: nat)
    requires Sorted(s) && FoundBelow(s, next, n, missing) && next <= n && i < |s| && (InStep(s, i, n) || Stuck(s, i, n))
    ensures FoundBelow(s, next, n + 1, if s[i] > n then missing + [n] else missing)
  {
    GapHere(s, next, n, i);
    if s[i] > n {
      assert forall m: nat :: m in missing + [n] <==> m in missing || m == n;
      assert forall j :: 0 <= j < |missing| ==> missing[j] in missing;
    }
  }

  lemma GapHere(s: seq<nat>, next: nat, n: nat, i: nat)
    requires Sorted(s) && next <= n && i < |s| && (InStep(s, i, n) || Stuck(s, i, n))
    ensures IsGap(s, next, n) <==> s[i] > n
  {
    if s[i] > n {
      forall j | 0 <= j < |s| ensures s[j] != n { if i < j { assert s[i] <= s[j]; } }
    }
  }

  /** Sort the reply, then merge. */
  method GapsInReply(reply: seq<nat>, next: nat) returns (missing: seq<nat>, last: nat)
    requires |reply| > 0 && forall x :: x in reply ==> next <= x
    ensures Elements(missing) == Gaps(reply, next) && last == MaxOf(reply)
  {
    var inserted := SortIndices(reply);
    PermutedGaps(reply, inserted, next);
    LastIsMax(inserted);
    forall x | x in inserted ensures next <= x {
      assert x in multiset(inserted);
      assert x in reply;
    }
    last := inserted[|inserted| - 1];
    missing := MissingIndices(inserted, next);
  }

  // ---------------------------------------------------------------- the heal list

  class HealTask {
    var indexes: map<nat, int>

    constructor ()
      ensures indexes == map[]
    {
      indexes := map[];
    }

    method Remove(list: seq<nat>)
      modifies this
      ensures indexes == old(indexes) - Elements(list)
    {
      var k := 0;
      while k < |list|
        invariant k <= |list|
        invariant indexes == old(indexes) - Elements(list[..k])
      {
        assert Elements(list[..k + 1]) == Elements(list[..k]) + {list[k]};
        indexes := indexes - {list[k]};
        k := k + 1;
      }
      assert list[..k] == list;
    }

    /** Queue the listed indices as never requested. */
    method Insert(list: seq<nat>)
      modifies this
      ensures indexes == old(indexes) + map x | x in Elements(list) :: 0
    {
      Stamp(list, 0);
    }

    /** Mark the listed indices as requested now. */
    method Refresh(list: seq<nat>, now: int)
      modifies this
      ensures indexes == old(indexes) + map x | x in Elements(list) :: now
    {
      Stamp(list, now);
    }

    method Stamp(list: seq<nat>, time: int)
      modifies this
      ensures indexes == old(indexes) + map x | x in Elements(list) :: time
    {
      var k := 0;
      while k < |list|
        invariant k <= |list|
        invariant indexes == old(indexes) + map x | x in Elements(list[..k]) :: time
      {
        assert Elements(list[..k + 1]) == Elements(list[..k]) + {list[k]};
        indexes := indexes[list[k] := time];
        k := k + 1;
      }
      assert list[..k] == list;
    }

    /** Whether some index of [first, next) is queued, and the smallest such index. */
    method HasIndexInRange(first: nat, next: nat) returns (exist: bool, min: nat)
      ensures exist == HealIn(indexes.Keys, first, next)
      ensures min == LowestHeal(indexes.Keys, first, next)
    {
      min, exist := next, false;
      var rest := indexes.Keys;
      while rest != {}
        invariant rest <= indexes.Keys
        invariant exist <==> exists h :: h in indexes.Keys - rest && first <= h < next
        invariant exist ==> min in indexes && first <= min < next
        invariant !exist ==> min == next
        invariant forall h :: h in indexes.Keys - rest && first <= h < next ==> min <= h
        decreases |rest|
      {
        var idx :| idx in rest;
        ghost var before := rest;
        rest := rest - {idx};
        assert indexes.Keys - rest == (indexes.Keys - before) + {idx};
        if idx < next && idx >= first {
          exist := true;
          if min > idx { min := idx; }
        }
      }
      assert indexes.Keys - rest == indexes.Keys;
      if first <= next { LowestHealIsLowest(indexes.Keys, first, next); }
    }

    /** A batch of queued indices whose last request is older than the timeout. */
    method GetBlobIndexesForRequest(batch: nat, now: int, timeout: int) returns (list: seq<nat>)
      ensures forall x :: x in list ==> x in indexes && now - indexes[x] > timeout
      ensures forall i, j :: 0 <= i < j < |list| ==> list[i] != list[j]
      ensures |list| <= Max(batch, 1)
      ensures |list| < batch ==> forall x :: x in indexes && now - indexes[x] > timeout ==> x in list
    {
      list := [];
      var rest := indexes.Keys;
      while rest != {}
        invariant rest <= indexes.Keys
        invariant forall x :: x in list ==> x in indexes.Keys - rest && now - indexes[x] > timeout
        invariant forall x :: x in indexes.Keys - rest && now - indexes[x] > timeout ==> x in list
        invariant forall i, j :: 0 <= i < j < |list| ==> list[i] != list[j]
        invariant |list| < batch || list == []
        decreases |rest|
      {
        var idx :| idx in rest;
        rest := rest - {idx};
        if now - indexes[idx] > timeout { list := list + [idx]; }
        if |list| >= batch { return; }
      }
    }
  }

  // ---------------------------------------------------------------- one shard

  /** Cleaning has come to sub-task n of all, which is at i in the list as it is now. */
  ghost predicate CleaningSubs(cur: seq<SubTask>, all: seq<SubTask>, heal: set<nat>, i: nat, n: nat) {
    && i <= |cur| && n <= |all| && cur[i..] == all[n..]
    && cur[..i] + CleanSubs(all[n..], heal) == CleanSubs(all, heal)
  }

  /** A sub-task is kept with its new checkpoint, or dropped. */
  lemma CleanSubsTurn(cur: seq<SubTask>, all: seq<SubTask>, heal: set<nat>, i: nat, n: nat)
    requires CleaningSubs(cur, all, heal, i, n) && i < |cur|
    ensures var st := cur[i].(first := LowestHeal(heal, cur[i].first, cur[i].next));
            var next := cur[i := st];
            if st.done && !HealIn(heal, cur[i].first, cur[i].next)
            then CleaningSubs(next[..i] + next[i + 1..], all, heal, i, n + 1)
            else CleaningSubs(next, all, heal, i + 1, n + 1)
  {
    var st := cur[i].(first := LowestHeal(heal, cur[i].first, cur[i].next));
    var next, rest := cur[i := st], all[n..];
    assert cur[i] == cur[i..][0] == rest[0] == all[n];
    assert cur[i + 1..] == cur[i..][1..] == rest[1..] == all[n + 1..];
    if st.done && !HealIn(heal, cur[i].first, cur[i].next) {
      var dropped := next[..i] + next[i + 1..];
      assert dropped[..i] == cur[..i] && dropped[i..] == cur[i + 1..];
      assert CleanSubs(rest, heal) == [] + CleanSubs(rest[1..], heal) == CleanSubs(all[n + 1..], heal);
    } else {
      assert next[..i + 1] == cur[..i] + [st] && next[i + 1..] == cur[i + 1..];
      assert CleanSubs(rest, heal) == [st] + CleanSubs(all[n + 1..], heal);
    }
  }

  lemma CleanSubsEnd(cur: seq<SubTask>, all: seq<SubTask>, heal: set<nat>, i: nat, n: nat)
    requires CleaningSubs(cur, all, heal, i, n) && i == |cur|
    ensures cur == CleanSubs(all, heal)
  {
    assert all[n..] == [] && cur[..i] == cur;
  }

  ghost predicate CleaningEmpties(cur: seq<SubEmptyTask>, all: seq<SubEmptyTask>, i: nat, n: nat) {
    i <= |cur| && n <= |all| && cur[i..] == all[n..] && cur[..i] + CleanEmpties(all[n..]) == CleanEmpties(all)
  }

  lemma CleanEmptiesTurn(cur: seq<SubEmptyTask>, all: seq<SubEmptyTask>, i: nat, n: nat)
    requires CleaningEmpties(cur, all, i, n) && i < |cur|
    ensures if cur[i].done then CleaningEmpties(cur[..i] + cur[i + 1..], all, i, n + 1)
            else CleaningEmpties(cur, all, i + 1, n + 1)
  {
    var rest := all[n..];
    assert cur[i] == cur[i..][0] == rest[0] == all[n];
    assert cur[i + 1..] == cur[i..][1..] == rest[1..] == all[n + 1..];
    if cur[i].done {
      var dropped := cur[..i] + cur[i + 1..];
      assert dropped[..i] == cur[..i] && dropped[i..] == cur[i + 1..];
      assert CleanEmpties(rest) == [] + CleanEmpties(all[n + 1..]) == CleanEmpties(all[n + 1..]);
    } else {
      assert cur[..i + 1] == cur[..i] + [cur[i]];
      assert CleanEmpties(rest) == [cur[i]] + CleanEmpties(all[n + 1..]);
    }
  }

  class SyncTask {
    const goal: Goal
    const healTask: HealTask
    var subTasks: seq<SubTask>
    var nextIdx: nat
    var subEmptyTasks: seq<SubEmptyTask>
    var blobsSynced: nat
    var emptyFilled: nat
    var done: bool

    /** The state of the shard as a value, for the specification. */
    ghost function Value(): Task
      reads this, healTask
    {
      Task(goal, subTasks, healTask.indexes.Keys, subEmptyTasks, blobsSynced, emptyFilled, done)
    }

    ghost predicate Valid()
      reads this
    {
      nextIdx <= |subTasks|
    }

    /** Split a shard of kvEntries blobs, of which the contract has lastKvIndex, into sub-tasks. */
    constructor (shard: nat, kvEntries: nat, lastKvIndex: nat, concurrency: nat, fillThreads: nat)
      requires concurrency > 0 && fillThreads > 0
      ensures Valid() && fresh(healTask) && healTask.indexes == map[]
      ensures GoalOk(GoalOf(shard, kvEntries, lastKvIndex))
      ensures Value() == CreateTask(GoalOf(shard, kvEntries, lastKvIndex), concurrency, fillThreads)
      ensures forall x: nat :: Ahead(subTasks, x) <==> InShard(shard, kvEntries, x) && x < lastKvIndex
      ensures forall x: nat :: EmptyAhead(subEmptyTasks, x) <==> InShard(shard, kvEntries, x) && lastKvIndex <= x
    {
      var first, limit := kvEntries * shard, kvEntries * (shard + 1);
      assert first <= limit;
      var firstEmpty, limitForEmpty := 0, 0;
      if first >= lastKvIndex {
        firstEmpty, limitForEmpty := first, limit;
        limit := first;
      } else if limit >= lastKvIndex {
        firstEmpty, limitForEmpty := lastKvIndex, limit;
        limit := lastKvIndex;
      }
      ghost var g := GoalOf(shard, kvEntries, lastKvIndex);
      assert g.lo == first && g.mid == limit && g.hi == kvEntries * (shard + 1);
      var subs := SplitSubTasks(first, limit, concurrency);
      var empties := [];
      if limitForEmpty > 0 {
        empties := SplitEmptyTasks(firstEmpty, limitForEmpty, fillThreads);
      } else {
        assert Tiles(g.mid, g.hi, TileSize(g.hi - g.mid, fillThreads)) == [];
      }
      goal := GoalOf(shard, kvEntries, lastKvIndex);
      healTask := new HealTask();
      subTasks, nextIdx, subEmptyTasks, blobsSynced, emptyFilled, done := subs, 0, empties, 0, 0, false;
      forall x: nat
        ensures Ahead(subs, x) <==> InShard(shard, kvEntries, x) && x < lastKvIndex
        ensures EmptyAhead(empties, x) <==> InShard(shard, kvEntries, x) && lastKvIndex <= x
      {
        NewTaskExact(shard, kvEntries, lastKvIndex, concurrency, fillThreads, x);
      }
    }

    /**
     The end of a range reply: record the gaps, move `next`, and see whether the sub-task got to its end. The
     goroutine's request is in the sub-task's flight.
     */
    method OnBlobsByRange(i: nat)
      requires Valid() && i < |subTasks| && subTasks[i].flight.Stored?
      requires |subTasks[i].flight.inserted| > 0
      requires forall x :: x in subTasks[i].flight.inserted ==> subTasks[i].next <= x
      modifies this, healTask
      ensures Valid() && Value() == ApplyRange(old(Value()), i)
    {
      var st := subTasks[i];
      var missing, last := GapsInReply(st.flight.inserted, st.next);
      blobsSynced := blobsSynced + |st.flight.inserted|;
      healTask.Insert(missing);
      subTasks := subTasks[i := st.(next := last + 1, done := if last == st.last - 1 then true else st.done,
                                    flight := Applied)];
      assert healTask.indexes.Keys == old(healTask.indexes.Keys) + Gaps(st.flight.inserted, st.next);
    }

    /** The end of a list reply. */
    method OnBlobsByList(inserted: seq<nat>)
      requires Valid()
      modifies this, healTask
      ensures Valid() && Value() == ApplyList(old(Value()), inserted)
    {
      blobsSynced := blobsSynced + |inserted|;
      healTask.Remove(inserted);
    }

    /** One shard's part of cleanTasks; says whether SingleShardDone is to be sent. */
    method Clean() returns (announce: bool)
      requires Valid()
      modifies this
      ensures Valid() && Value() == CleanTask(old(Value()))
      ensures announce <==> !old(done) && done
    {
      CleanSubTasks();
      CleanSubEmptyTasks();
      announce := |subTasks| == 0 && |subEmptyTasks| == 0 && !done;
      if announce { done := true; }
    }

    method CleanSubTasks()
      requires Valid()
      modifies this`subTasks, this`nextIdx
      ensures Valid() && subTasks == CleanSubs(old(subTasks), healTask.indexes.Keys)
    {
      var i := 0;
      ghost var heal, all, n := healTask.indexes.Keys, subTasks, 0;
      assert all[0..] == all;
      while i < |subTasks|
        invariant Valid() && CleaningSubs(subTasks, all, heal, i, n)
        decreases |subTasks| - i
      {
        CleanSubsTurn(subTasks, all, heal, i, n);
        var exist, first := healTask.HasIndexInRange(subTasks[i].first, subTasks[i].next);
        subTasks := subTasks[i := subTasks[i].(first := first)];
        if subTasks[i].done && !exist {
          subTasks := subTasks[..i] + subTasks[i + 1..];
          if nextIdx > i { nextIdx := nextIdx - 1; }
        } else {
          i := i + 1;
        }
        n := n + 1;
      }
      CleanSubsEnd(subTasks, all, heal, i, n);
    }

    method CleanSubEmptyTasks()
      modifies this`subEmptyTasks
      ensures subEmptyTasks == CleanEmpties(old(subEmptyTasks))
    {
      var i := 0;
      ghost var all, n := subEmptyTasks, 0;
      assert all[0..] == all;
      while i < |subEmptyTasks|
        invariant CleaningEmpties(subEmptyTasks, all, i, n)
        decreases |subEmptyTasks| - i
      {
        CleanEmptiesTurn(subEmptyTasks, all, i, n);
        if subEmptyTasks[i].done {
          subEmptyTasks := subEmptyTasks[..i] + subEmptyTasks[i + 1..];
        } else {
          i := i + 1;
        }
        n := n + 1;
      }
      assert all[n..] == [] && subEmptyTasks[..i] == subEmptyTasks;
    }

    /**
     Hand the shard's idle sub-tasks to peers, going round from where the last round stopped, until there are no more
     peers or every sub-task has had its turn. Each request starts at its sub-task's `next` and ends inside it.
     */
    method AssignBlobRanges(maxRange: nat, peers: nat) returns (used: nat, ghost turns: nat)
      requires Valid() && maxRange > 0
      requires forall i :: 0 <= i < |subTasks| ==> !subTasks[i].done ==> subTasks[i].next < subTasks[i].last
      modifies this`subTasks, this`nextIdx
      ensures Valid() && SentInTurn(old(subTasks), subTasks, old(nextIdx), turns, maxRange)
      ensures used == Sum(subTasks, IsRunning) - Sum(old(subTasks), IsRunning) <= peers
      ensures turns < |subTasks| ==> used == peers
      ensures subTasks != [] ==> nextIdx % |subTasks| == Turn(old(nextIdx), turns, |subTasks|)
      ensures used < peers ==> forall i :: 0 <= i < |subTasks| ==> subTasks[i].done || !subTasks[i].flight.Idle?
    {
      used, turns := 0, 0;
      var count, idx := |subTasks|, 0;
      ghost var start, all := nextIdx, subTasks;
      while idx < count
        invariant idx == turns <= count && Valid() && SentInTurn(all, subTasks, start, turns, maxRange)
        invariant used == Sum(subTasks, IsRunning) - Sum(all, IsRunning) <= peers
        invariant count > 0 ==> nextIdx % count == Turn(start, idx, count)
      {
        if used == peers { break; }
        nextIdx := nextIdx % count;
        var i := nextIdx;
        nextIdx := nextIdx + 1;
        NextCursor(start, idx, count);
        SendNext(all, subTasks, start, idx, maxRange, i);
        var sent := SendRequest(i, maxRange);
        if sent { used := used + 1; }
        idx, turns := idx + 1, turns + 1;
      }
      if used < peers { AllSent(all, subTasks, start, maxRange); }
    }

    /** The turn of one sub-task: a request is sent if it waits. */
    method SendRequest(i: nat, maxRange: nat) returns (sent: bool)
      requires maxRange > 0 && i < |subTasks| && (Waiting(subTasks[i]) ==> subTasks[i].next < subTasks[i].last)
      modifies this`subTasks
      ensures sent <==> Waiting(old(subTasks)[i])
      ensures sent ==>
                subTasks == old(subTasks)[i := old(subTasks)[i].(flight := RequestOf(old(subTasks)[i], maxRange))]
      ensures !sent ==> subTasks == old(subTasks)
      ensures Sum(subTasks, IsRunning) == Sum(old(subTasks), IsRunning) + if sent then 1 else 0
    {
      var st := subTasks[i];
      if st.done || !st.flight.Idle? { return false; }
      var last := Min(st.next + maxRange, st.last);
      SumUpdate(subTasks, i, st.(flight := Requested(st.next, last - 1)), IsRunning);
      subTasks := subTasks[i := st.(flight := Requested(st.next, last - 1))];
      return true;
    }

    /**
     The shard's part of assignFillEmptyBlobTasks: start fills in the order of the list while threads are to spare.
     */
    method AssignFillEmpty(threads: nat, maxThreads: nat) returns (threads': nat, ghost turns: nat)
      requires Valid() && threads <= maxThreads
      requires forall i :: 0 <= i < |subEmptyTasks| ==> subEmptyTasks[i].last > 0
      modifies this`subEmptyTasks
      ensures threads <= threads' <= maxThreads && StartedInOrder(old(subEmptyTasks), subEmptyTasks, turns)
      ensures threads' - threads == Sum(subEmptyTasks, IsFilling) - Sum(old(subEmptyTasks), IsFilling)
      ensures turns < |subEmptyTasks| ==> threads' == maxThreads
    {
      threads', turns := threads, 0;
      var i := 0;
      ghost var all := subEmptyTasks;
      while i < |subEmptyTasks|
        invariant i == turns <= |subEmptyTasks| && threads <= threads' <= maxThreads
        invariant threads' - threads == Sum(subEmptyTasks, IsFilling) - Sum(all, IsFilling)
        invariant StartedInOrder(all, subEmptyTasks, turns)
      {
        if threads' >= maxThreads { return; }
        var e := subEmptyTasks[i];
        if e.flight.Parked? && !e.done {
          var last := e.last;
          if last > e.first + MIN_SUB_TASK_SIZE { last := e.first + MIN_SUB_TASK_SIZE; }
          SumUpdate(subEmptyTasks, i, e.(flight := Filling(e.first, last - 1)), IsFilling);
          subEmptyTasks := subEmptyTasks[i := e.(flight := Filling(e.first, last - 1))];
          threads' := threads' + 1;
        }
        i, turns := i + 1, turns + 1;
      }
    }

    /** The end of a fill, under the lock. */
    method OnEmptyFilled(i: nat)
      requires Valid() && i < |subEmptyTasks| && subEmptyTasks[i].flight.Filled?
      requires subEmptyTasks[i].flight.start <= subEmptyTasks[i].flight.next
      modifies this
      ensures Valid() && Value() == ApplyEmpty(old(Value()), i)
    {
      var e := subEmptyTasks[i];
      var filled := e.flight.next - e.flight.start;
      emptyFilled := emptyFilled + filled;
      e := e.(first := e.flight.next);
      if e.first >= e.last { e := e.(done := true); }
      subEmptyTasks := subEmptyTasks[i := e.(flight := Parked)];
    }

    /** BlobsToSync of the status report. */
    method BlobsToSync() returns (n: int)
      ensures n == ToSync(Value())
    {
      n := 0;
      var i := 0;
      while i < |subTasks|
        invariant i <= |subTasks| && n == Sum(subTasks[..i], Width)
      {
        assert subTasks[..i + 1] == subTasks[..i] + [subTasks[i]];
        SumConcat(subTasks[..i], [subTasks[i]], Width);
        n := n + (subTasks[i].last - subTasks[i].next);
        i := i + 1;
      }
      assert subTasks[..i] == subTasks;
      n := n + |healTask.indexes|;
      assert |healTask.indexes| == |healTask.indexes.Keys|;
    }
  }

  function IsRunning(st: SubTask): int { if st.flight.Idle? then 0 else 1 }

  predicate Waiting(st: SubTask) { !st.done && st.flight.Idle? }

  /** b is sub-task a with a request for its next stretch sent out. */
  predicate Sent(a: SubTask, b: SubTask, maxRange: nat) {
    && Waiting(a) && a.next < a.last && maxRange > 0
    && b == a.(flight := RequestOf(a, maxRange))
  }

  /** y is sub-task x after it has had its turn, or before. */
  predicate AfterTurn(x: SubTask, y: SubTask, had: bool, maxRange: nat) {
    if had && Waiting(x) then Sent(x, y, maxRange) else y == x
  }

  /**
   After some turns from start on: the sub-tasks that had theirs and waited have been sent, the others are the same.
   */
  predicate SentInTurn(a: seq<SubTask>, b: seq<SubTask>, start: nat, turns: nat, maxRange: nat) {
    && |a| == |b| && turns <= |a|
    && forall i :: 0 <= i < |a| ==> AfterTurn(a[i], b[i], Place(start, i, |a|) < turns, maxRange)
  }

  /** The sub-task whose turn is next has not been touched; sent or not, it has then had its turn. */
  lemma SendNext(a: seq<SubTask>, b: seq<SubTask>, start: nat, turns: nat, maxRange: nat, i: nat)
    requires SentInTurn(a, b, start, turns, maxRange) && turns < |a| && maxRange > 0 && i == Turn(start, turns, |a|)
    requires forall i :: 0 <= i < |a| ==> !a[i].done ==> a[i].next < a[i].last
    ensures i < |a| && b[i] == a[i] && (Waiting(a[i]) ==> a[i].next < a[i].last)
    ensures var c := if Waiting(a[i]) then b[i := a[i].(flight := RequestOf(a[i], maxRange))] else b;
            SentInTurn(a, c, start, turns + 1, maxRange)
  {
    PlaceOfTurn(start, turns, |a|);
    assert AfterTurn(a[i], b[i], Place(start, i, |a|) < turns, maxRange);
    var c := if Waiting(a[i]) then b[i := a[i].(flight := RequestOf(a[i], maxRange))] else b;
    forall j | 0 <= j < |a| ensures AfterTurn(a[j], c[j], Place(start, j, |a|) < turns + 1, maxRange) {
      assert AfterTurn(a[j], b[j], Place(start, j, |a|) < turns, maxRange);
      if j != i { OtherPlace(start, turns, |a|, j); }
    }
  }

  lemma AllSent(a: seq<SubTask>, b: seq<SubTask>, start: nat, maxRange: nat)
    requires SentInTurn(a, b, start, |a|, maxRange)
    ensures forall i :: 0 <= i < |b| ==> b[i].done || !b[i].flight.Idle?
  {
    forall i | 0 <= i < |b| ensures b[i].done || !b[i].flight.Idle? {
      assert AfterTurn(a[i], b[i], Place(start, i, |a|) < |a|, maxRange);
      Visited(start, i, |a|);
    }
  }

  /** b is range a with a fill of at most 16 blobs started. */
  predicate Started(a: SubEmptyTask, b: SubEmptyTask) {
    && !a.done && a.flight.Parked? && a.last > 0
    && b == a.(flight := Filling(a.first, Min(a.last, a.first + MIN_SUB_TASK_SIZE) - 1))
  }

  /** The ranges before the given position that waited have a fill started, all others are the same. */
  predicate StartedInOrder(a: seq<SubEmptyTask>, b: seq<SubEmptyTask>, turns: nat) {
    && |a| == |b| && turns <= |a|
    && forall i :: 0 <= i < |a| ==>
         if i < turns && a[i].flight.Parked? && !a[i].done then Started(a[i], b[i]) else b[i] == a[i]
  }

  /** The position k places after start, going round. */
  function Turn(start: nat, k: int, count: nat): nat
    requires count > 0
  {
    (start + k) % count
  }

  lemma NextCursor(start: nat, idx: nat, count: nat)
    requires count > 0
    ensures (Turn(start, idx, count) + 1) % count == Turn(start, idx + 1, count)
  {
    var q, r := (start + idx) / count, (start + idx) % count;
    assert start + idx + 1 == q * count + (r + 1);
    ModShift(q, r + 1, count);
  }

  /** How many places after start a position is, going round. */
  function Place(start: nat, i: nat, count: nat): int
    requires count > 0
  {
    (i - start) % count
  }

  /** Going round from any start, position i comes up within one turn. */
  lemma Visited(start: nat, i: nat, count: nat)
    requires i < count
    ensures 0 <= Place(start, i, count) < count
    ensures Turn(start, Place(start, i, count), count) == i
  {
    var q, k := (i - start) / count, (i - start) % count;
    assert start + k == (-q) * count + i;
    DivModUnique(start + k, count, -q, i);
  }

  lemma PlaceOfTurn(start: nat, turns: nat, count: nat)
    requires turns < count
    ensures 0 <= Turn(start, turns, count) < count && Place(start, Turn(start, turns, count), count) == turns
  {
    var q, r := (start + turns) / count, (start + turns) % count;
    assert r - start == (-q) * count + turns;
    DivModUnique(r - start, count, -q, turns);
  }

  lemma OtherPlace(start: nat, turns: nat, count: nat, j: nat)
    requires turns < count && j < count && j != Turn(start, turns, count)
    ensures Place(start, j, count) != turns
  {
    Visited(start, j, count);
  }

  method SplitSubTasks(first: nat, limit: nat, parts: nat) returns (subs: seq<SubTask>)
    requires first <= limit && parts > 0
    ensures subs == FreshSubs(Tiles(first, limit, TileSize(limit - first, parts)))
  {
    var size := TileSize(limit - first, parts);
    subs := [];
    var at := first;
    while at < limit
      invariant first <= at <= limit
      invariant subs + FreshSubs(Tiles(at, limit, size)) == FreshSubs(Tiles(first, limit, size))
    {
      var last := Min(at + size, limit);
      assert FreshSubs(Tiles(at, limit, size)) == [FreshSub(Span(at, last))] + FreshSubs(Tiles(last, limit, size));
      subs := subs + [SubTask(at, at, last, false, Idle)];
      at := last;
    }
  }

  method SplitEmptyTasks(first: nat, limit: nat, parts: nat) returns (empties: seq<SubEmptyTask>)
    requires first <= limit && parts > 0
    ensures empties == FreshEmpties(Tiles(first, limit, TileSize(limit - first, parts)))
  {
    var size := TileSize(limit - first, parts);
    empties := [];
    var at := first;
    while at < limit
      invariant first <= at <= limit
      invariant empties + FreshEmpties(Tiles(at, limit, size)) == FreshEmpties(Tiles(first, limit, size))
    {
      var last := Min(at + size, limit);
      assert FreshEmpties(Tiles(at, limit, size))
             == [FreshEmpty(Span(at, last))] + FreshEmpties(Tiles(last, limit, size));
      empties := empties + [SubEmptyTask(at, last, false, Parked)];
      at := last;
    }
  }

  // ---------------------------------------------------------------- all shards

  /** The shards' tasks as values. */
  ghost function Values(tasks: seq<SyncTask>): (vs: seq<Task>)
    reads tasks, set t | t in tasks :: t.healTask
    ensures |vs| == |tasks| && forall i :: 0 <= i < |tasks| ==> vs[i] == tasks[i].Value()
  {
    seq(|tasks|, i requires 0 <= i < |tasks| reads tasks, set t | t in tasks :: t.healTask => tasks[i].Value())
  }

  class Client {
    var tasks: seq<SyncTask>
    var threads: nat
    var maxThreads: nat
    var syncDone: bool
    var sent: seq<Goal>

    ghost predicate Valid()
      reads this, tasks
    {
      && threads <= maxThreads
      && (forall i, j :: 0 <= i < j < |tasks| ==> tasks[i] != tasks[j])
      && (forall i :: 0 <= i < |tasks| ==> tasks[i].Valid())
    }

    /** Clean every shard; announce the shards that just got done, and the end of the sync. */
    method CleanTasks()
      requires Valid()
      modifies this, tasks
      ensures Valid() && tasks == old(tasks) && threads == old(threads)
      ensures Values(tasks) == CleanAll(old(Values(tasks)))
      ensures Range(sent) == Range(old(sent)) + Announce(old(Values(tasks)))
      ensures syncDone <==> old(syncDone) || AllFinished(Values(tasks))
    {
      var allDone, goals := CleanEach();
      sent := sent + goals;
      if allDone { syncDone := true; }
    }

    method CleanEach() returns (allDone: bool, goals: seq<Goal>)
      requires Valid()
      modifies tasks
      ensures Valid() && Values(tasks) == CleanAll(old(Values(tasks)))
      ensures Range(goals) == Announce(old(Values(tasks)))
      ensures allDone <==> AllFinished(Values(tasks))
    {
      allDone, goals := true, [];
      var k := 0;
      ghost var was := Values(tasks);
      CleaningStarts(was);
      while k < |tasks|
        invariant k <= |tasks| == |was| && Valid()
        invariant Cleaning(was, k, Values(tasks), goals, allDone)
      {
        goals, allDone := CleanNext(k, goals, allDone, was);
        k := k + 1;
      }
      CleaningEnds(was, Values(tasks), goals, allDone);
    }

    /** One turn of the loop over the shards. */
    method CleanNext(k: nat, goals: seq<Goal>, allDone: bool, ghost was: seq<Task>)
        returns (goals': seq<Goal>, allDone': bool)
      requires Valid() && k < |tasks| == |was| && Cleaning(was, k, Values(tasks), goals, allDone)
      modifies tasks
      ensures Valid() && Cleaning(was, k + 1, Values(tasks), goals', allDone')
    {
      HalfCleanedStep(was, k);
      assert tasks[k] in tasks;
      var finished;
      goals', finished := CleanOne(k, goals);
      allDone' := if finished then allDone else false;
    }

    method CleanOne(k: nat, goals: seq<Goal>) returns (goals': seq<Goal>, finished: bool)
      requires Valid() && k < |tasks|
      modifies tasks[k]
      ensures Valid() && Values(tasks) == old(Values(tasks))[k := CleanTask(old(Values(tasks))[k])]
      ensures var t := old(Values(tasks))[k];
              Range(goals') == Range(goals) + if !t.done && CleanTask(t).done then {t.goal} else {}
      ensures finished <==> Finished(CleanTask(old(Values(tasks))[k]))
    {
      assert forall i :: 0 <= i < |tasks| && i != k ==> tasks[i] != tasks[k];
      var announce := tasks[k].Clean();
      goals' := if announce then goals + [tasks[k].goal] else goals;
      finished := !(|tasks[k].subTasks| > 0 || |tasks[k].subEmptyTasks| > 0);
    }

    /** Start empty fills over all shards, never more at once than there are threads. */
    method AssignFillEmptyBlobTasks()
      requires Valid() && AllFillable(Values(tasks))
      modifies this`threads, tasks
      ensures Valid() && threads - old(threads)
              == Sum(Values(tasks), FillThreads) - Sum(old(Values(tasks)), FillThreads)
      ensures AllStarted(old(Values(tasks)), Values(tasks)) && old(threads) <= threads
      ensures threads < maxThreads ==> AllBusy(Values(tasks), |tasks|)
    {
      threads := FillEach();
    }

    method FillEach() returns (n: nat)
      requires Valid() && AllFillable(Values(tasks))
      modifies tasks
      ensures Valid() && n <= maxThreads
      ensures n - threads == Sum(Values(tasks), FillThreads) - Sum(old(Values(tasks)), FillThreads)
      ensures AllStarted(old(Values(tasks)), Values(tasks)) && threads <= n
      ensures n < maxThreads ==> AllBusy(Values(tasks), |tasks|)
    {
      var k := 0;
      n := threads;
      ghost var was := Values(tasks);
      while k < |tasks|
        invariant Valid() && FillsTo(was, Values(tasks), k, threads, n, maxThreads)
        decreases |tasks| - k
      {
        ghost var now, before := Values(tasks), n;
        assert now[k] == now[k..][0] == was[k..][0] == was[k];
        n := FillOne(k, n);
        FillStep(was, now, Values(tasks), k, threads, before, n, maxThreads);
        k := k + 1;
      }
      assert was[..k] == was && Values(tasks)[..k] == Values(tasks);
    }

    method FillOne(k: nat, n: nat) returns (n': nat)
      requires Valid() && k < |tasks| && n <= maxThreads && Fillable(Values(tasks)[k])
      modifies tasks[k]
      ensures Valid() && n <= n' <= maxThreads && (n' < maxThreads ==> NoneParked(Values(tasks)[k]))
      ensures Values(tasks) == old(Values(tasks))[k := Values(tasks)[k]]
      ensures StartedSome(old(Values(tasks))[k], Values(tasks)[k])
      ensures n' - n == FillThreads(Values(tasks)[k]) - FillThreads(old(Values(tasks))[k])
    {
      assert forall i :: 0 <= i < |tasks| && i != k ==> tasks[i] != tasks[k];
      ghost var turns;
      n', turns := tasks[k].AssignFillEmpty(n, maxThreads);
    }
  }

  function HalfCleaned(was: seq<Task>, k: nat): seq<Task>
    requires k <= |was|
  {
    CleanAll(was[..k]) + was[k..]
  }

  /** The first k shards are cleaned, their announcements made and their end noticed. */
  ghost predicate Cleaning(was: seq<Task>, k: nat, now: seq<Task>, goals: seq<Goal>, allDone: bool)
    requires k <= |was|
  {
    now == HalfCleaned(was, k) && Range(goals) == Announce(was[..k]) && (allDone <==> AllFinished(CleanAll(was[..k])))
  }

  lemma CleaningStarts(was: seq<Task>)
    ensures Cleaning(was, 0, was, [], true)
  {
    assert was[..0] == [] && was[0..] == was;
  }

  lemma CleaningEnds(was: seq<Task>, now: seq<Task>, goals: seq<Goal>, allDone: bool)
    requires Cleaning(was, |was|, now, goals, allDone)
    ensures now == CleanAll(was) && Range(goals) == Announce(was) && (allDone <==> AllFinished(now))
  {
    assert was[..|was|] == was && was[|was|..] == [];
  }

  predicate AllFinished(tasks: seq<Task>) { forall i :: 0 <= i < |tasks| ==> Finished(tasks[i]) }

  predicate Fillable(t: Task) { forall j :: 0 <= j < |t.subEmptyTasks| ==> t.subEmptyTasks[j].last > 0 }

  predicate AllFillable(tasks: seq<Task>) { forall i :: 0 <= i < |tasks| ==> Fillable(tasks[i]) }

  lemma HalfCleanedStep(was: seq<Task>, k: nat)
    requires k < |was|
    ensures HalfCleaned(was, k)[k] == was[k]
    ensures HalfCleaned(was, k)[k := CleanTask(was[k])] == HalfCleaned(was, k + 1)
    ensures Announce(was[..k + 1])
            == Announce(was[..k]) + (if !was[k].done && CleanTask(was[k]).done then {was[k].goal} else {})
    ensures AllFinished(CleanAll(was[..k + 1])) <==> AllFinished(CleanAll(was[..k])) && Finished(CleanTask(was[k]))
  {
    assert was[..k + 1] == was[..k] + [was[k]];
    AnnounceMore(was[..k], was[k]);
    var a, b := CleanAll(was[..k]), CleanAll(was[..k + 1]);
    assert b == a + [CleanTask(was[k])];
    assert forall i :: 0 <= i < k ==> b[i] == a[i];
    assert b[k] == CleanTask(was[k]);
  }

  predicate AllStarted(a: seq<Task>, b: seq<Task>) {
    |a| == |b| && forall i :: 0 <= i < |a| ==> StartedSome(a[i], b[i])
  }

  /** The shards before k have had their turn: fills are started, and counted, as long as there are threads. */
  ghost predicate FillsTo(was: seq<Task>, now: seq<Task>, k: nat, threads: nat, n: nat, maxThreads: nat) {
    && k <= |was| == |now| && now[k..] == was[k..] && AllStarted(was[..k], now[..k])
    && threads <= n <= maxThreads && n - threads == Sum(now, FillThreads) - Sum(was, FillThreads)
    && (n < maxThreads ==> AllBusy(now, k))
  }

  lemma FillStep(was: seq<Task>, now: seq<Task>, after: seq<Task>, k: nat, threads: nat, n: nat, n': nat,
                 maxThreads: nat)
    requires FillsTo(was, now, k, threads, n, maxThreads) && k < |was| && |after| == |was|
    requires after == now[k := after[k]] && StartedSome(now[k], after[k])
    requires n <= n' <= maxThreads && n' - n == FillThreads(after[k]) - FillThreads(now[k])
    requires n' < maxThreads ==> NoneParked(after[k])
    ensures FillsTo(was, after, k + 1, threads, n', maxThreads)
  {
    SumUpdate(now, k, after[k], FillThreads);
    assert after[k + 1..] == now[k + 1..] == now[k..][1..] == was[k..][1..] == was[k + 1..];
    assert now[k] == now[k..][0] == was[k..][0] == was[k];
    var a, b := was[..k + 1], after[..k + 1];
    forall i | 0 <= i < k + 1 ensures StartedSome(a[i], b[i]) {
      if i < k { assert StartedSome(was[..k][i], now[..k][i]); }
    }
  }

  function Range(s: seq<Goal>): set<Goal> { set g | g in s }

  lemma AnnounceMore(tasks: seq<Task>, t: Task)
    ensures Announce(tasks + [t]) == Announce(tasks) + (if !t.done && CleanTask(t).done then {t.goal} else {})
  {
    var all := tasks + [t];
    assert all[|tasks|] == t;
    assert forall i :: 0 <= i < |tasks| ==> all[i] == tasks[i];
    forall g | g in Announce(tasks) ensures g in Announce(all) {
      var i :| 0 <= i < |tasks| && !tasks[i].done && CleanTask(tasks[i]).done && tasks[i].goal == g;
      assert !all[i].done && CleanTask(all[i]).done && all[i].goal == g;
    }
  }

  /** b is task a with some more of its idle empty ranges being filled. */
  /** No range of the shard waits for a fill. */
  predicate NoneParked(t: Task) {
    forall i :: 0 <= i < |t.subEmptyTasks| ==> t.subEmptyTasks[i].done || !t.subEmptyTasks[i].flight.Parked?
  }

  predicate AllBusy(vs: seq<Task>, k: nat) { k <= |vs| && forall j :: 0 <= j < k ==> NoneParked(vs[j]) }

  predicate StartedSome(a: Task, b: Task) {
    && |a.subEmptyTasks| == |b.subEmptyTasks|
    && b == a.(subEmptyTasks := b.subEmptyTasks)
    && forall j :: 0 <= j < |a.subEmptyTasks| ==>
         a.subEmptyTasks[j] == b.subEmptyTasks[j] || Started(a.subEmptyTasks[j], b.subEmptyTasks[j])
  }
}
