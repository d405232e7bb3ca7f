/**
 The P2P sync scheduler as values: one record per sub-range of a shard, the heal set, the empty-fill
 ranges, and a function for every section of code that runs under the client's lock.

 A `SubTask` carries, besides the fields the client keeps, the `flight` of the goroutine working on it:
 the request it sent, and the indices the storage manager reported back for it. `isRunning` of the
 client is `!flight.Idle?`. Since a sub-task has at most one goroutine, no other identity is needed.
 */
module SyncModel {
  import opened Arith
  import opened Sums

  /** The client never makes sub-ranges smaller than this. */
  const MIN_SUB_TASK_SIZE: nat := 16

  datatype Flight =
    | Idle
    | Requested(origin: nat, limit: nat)
    | Stored(origin: nat, limit: nat, inserted: seq<nat>)
    | Applied

  datatype SubTask = SubTask(next: nat, first: nat, last: nat, done: bool, flight: Flight)

  datatype EmptyFlight =
    | Parked
    | Filling(start: nat, limit: nat)
    | Filled(start: nat, limit: nat, next: nat)

  datatype SubEmptyTask = SubEmptyTask(first: nat, last: nat, done: bool, flight: EmptyFlight)

  /** What a task has to achieve: data in [lo, mid), empty blobs in [mid, hi). Fixed when it is created. */
  datatype Goal = Goal(shard: nat, lo: nat, mid: nat, hi: nat)

  datatype Task = Task(
    goal: Goal,
    subTasks: seq<SubTask>,
    heal: set<nat>,
    subEmptyTasks: seq<SubEmptyTask>,
    blobsSynced: nat,
    emptyFilled: nat,
    done: bool)

  // ---------------------------------------------------------------- creation

  datatype Span = Span(first: nat, last: nat)

  function Max(a: nat, b: nat): nat { if a < b then b else a }

  /** [first, limit) cut into spans of the given size, the last one possibly shorter. */
  function Tiles(first: nat, limit: nat, size: nat): seq<Span>
    requires size > 0
    decreases limit - first
  {
    if first >= limit then []
    else
      var last := Min(first + size, limit);
      [Span(first, last)] + Tiles(last, limit, size)
  }

  /** The span size for `total` indices shared among `parts` workers. */
  function TileSize(total: nat, parts: nat): nat
    requires parts > 0
  {
    Max((total + parts - 1) / parts, MIN_SUB_TASK_SIZE)
  }

  function FreshSub(s: Span): SubTask { SubTask(s.first, s.first, s.last, false, Idle) }

  function FreshEmpty(s: Span): SubEmptyTask { SubEmptyTask(s.first, s.last, false, Parked) }

  function FreshSubs(spans: seq<Span>): seq<SubTask> { seq(|spans|, i requires 0 <= i < |spans| => FreshSub(spans[i])) }

  function FreshEmpties(spans: seq<Span>): seq<SubEmptyTask> {
    seq(|spans|, i requires 0 <= i < |spans| => FreshEmpty(spans[i]))
  }

  function GoalOf(shard: nat, kvEntries: nat, lastKvIndex: nat): Goal {
    var first, limit := kvEntries * shard, kvEntries * (shard + 1);
    Goal(shard, first, if first >= lastKvIndex then first else Min(limit, lastKvIndex), limit)
  }

  function CreateTask(goal: Goal, concurrency: nat, fillThreads: nat): Task
    requires concurrency > 0 && fillThreads > 0
    requires goal.lo <= goal.mid <= goal.hi
  {
    Task(goal,
         FreshSubs(Tiles(goal.lo, goal.mid, TileSize(goal.mid - goal.lo, concurrency))),
         {},
         FreshEmpties(Tiles(goal.mid, goal.hi, TileSize(goal.hi - goal.mid, fillThreads))),
         0, 0, false)
  }

  // ---------------------------------------------------------------- range replies

  function MaxOf(s: seq<nat>): nat
    requires |s| > 0
  {
    if |s| == 1 then s[0] else Max(s[0], MaxOf(s[1..]))
  }

  /** Some index below n occurs at least twice. */
  predicate RepeatBelow(s: seq<nat>, n: nat) {
    exists v :: v in s && v < n && multiset(s)[v] >= 2
  }

  /** The indices the gap merge puts on the heal list: those skipped, up to the first repeated index. */
  function Gaps(inserted: seq<nat>, next: nat): set<nat>
    requires |inserted| > 0
  {
    set n | next <= n <= MaxOf(inserted) && n !in inserted && !RepeatBelow(inserted, n)
  }

  /** The skipped indices the gap merge does not record. */
  function Lost(inserted: seq<nat>, next: nat): set<nat>
    requires |inserted| > 0
  {
    set n | next <= n <= MaxOf(inserted) && n !in inserted && RepeatBelow(inserted, n)
  }

  function RequestOf(st: SubTask, maxRange: nat): Flight
    requires st.next < st.last && maxRange > 0
  {
    Requested(st.next, Min(st.next + maxRange, st.last) - 1)
  }

  function AssignSub(t: Task, i: nat, maxRange: nat): Task
    requires i < |t.subTasks| && t.subTasks[i].next < t.subTasks[i].last && maxRange > 0
  {
    t.(subTasks := t.subTasks[i := t.subTasks[i].(flight := RequestOf(t.subTasks[i], maxRange))])
  }

  function SetFlight(t: Task, i: nat, f: Flight): Task
    requires i < |t.subTasks|
  {
    t.(subTasks := t.subTasks[i := t.subTasks[i].(flight := f)])
  }

  /** The bookkeeping of a range reply, done under the lock after the blobs were stored. */
  function ApplyRange(t: Task, i: nat): Task
    requires i < |t.subTasks| && t.subTasks[i].flight.Stored? && |t.subTasks[i].flight.inserted| > 0
  {
    var st := t.subTasks[i];
    var ins := st.flight.inserted;
    var last := MaxOf(ins);
    t.(subTasks := t.subTasks[i := st.(next := last + 1, done := st.done || last + 1 == st.last, flight := Applied)],
       heal := t.heal + Gaps(ins, st.next),
       blobsSynced := t.blobsSynced + |ins|)
  }

  // ---------------------------------------------------------------- list replies

  function Elements(s: seq<nat>): set<nat> { set x | x in s }

  function ApplyList(t: Task, inserted: seq<nat>): Task {
    t.(heal := t.heal - Elements(inserted), blobsSynced := t.blobsSynced + |inserted|)
  }

  /** The indices from a up to, not including, b. */
  function Indices(a: nat, b: nat): (r: set<nat>)
    ensures forall x :: x in r <==> a <= x < b
    decreases b - a
  {
    if a >= b then {} else {a} + Indices(a + 1, b)
  }

  // ---------------------------------------------------------------- cleaning

  predicate HealIn(heal: set<nat>, first: nat, next: nat) {
    exists h :: h in heal && first <= h < next
  }

  /** The smallest healing index in [first, next), or next when there is none. */
  function LowestHeal(heal: set<nat>, first: nat, next: nat): nat
    decreases next - first
  {
    if first >= next then next
    else if first in heal then first
    else LowestHeal(heal, first + 1, next)
  }

  function CleanSubs(subs: seq<SubTask>, heal: set<nat>): seq<SubTask> {
    if subs == [] then []
    else
      var st := subs[0].(first := LowestHeal(heal, subs[0].first, subs[0].next));
      (if st.done && !HealIn(heal, subs[0].first, subs[0].next) then [] else [st]) + CleanSubs(subs[1..], heal)
  }

  function CleanEmpties(es: seq<SubEmptyTask>): seq<SubEmptyTask> {
    if es == [] then []
    else (if es[0].done then [] else [es[0]]) + CleanEmpties(es[1..])
  }

  predicate Finished(t: Task) { t.subTasks == [] && t.subEmptyTasks == [] }

  function CleanTask(t: Task): Task {
    var t1 := t.(subTasks := CleanSubs(t.subTasks, t.heal), subEmptyTasks := CleanEmpties(t.subEmptyTasks));
    t1.(done := t1.done || Finished(t1))
  }

  // ---------------------------------------------------------------- filling empty blobs

  function AssignEmpty(t: Task, i: nat): Task
    requires i < |t.subEmptyTasks| && t.subEmptyTasks[i].last > 0
  {
    var e := t.subEmptyTasks[i];
    var last := if e.last > e.first + MIN_SUB_TASK_SIZE then e.first + MIN_SUB_TASK_SIZE else e.last;
    t.(subEmptyTasks := t.subEmptyTasks[i := e.(flight := Filling(e.first, last - 1))])
  }

  function SetEmptyFlight(t: Task, i: nat, f: EmptyFlight): Task
    requires i < |t.subEmptyTasks|
  {
    t.(subEmptyTasks := t.subEmptyTasks[i := t.subEmptyTasks[i].(flight := f)])
  }

  function ApplyEmpty(t: Task, i: nat): Task
    requires i < |t.subEmptyTasks| && t.subEmptyTasks[i].flight.Filled?
    requires t.subEmptyTasks[i].flight.start <= t.subEmptyTasks[i].flight.next
  {
    var e := t.subEmptyTasks[i];
    var next := e.flight.next;
    t.(subEmptyTasks := t.subEmptyTasks[i := e.(first := next, done := e.done || next >= e.last, flight := Parked)],
       emptyFilled := t.emptyFilled + (next - e.flight.start))
  }

  // ---------------------------------------------------------------- checkpoint

  /** All that is written to the database for a task. The goal is carried for the specification only. */
  datatype SavedTask = SavedTask(goal: Goal, subs: seq<Span>, empties: seq<Span>, blobsSynced: nat, emptyFilled: nat)

  function SaveTask(t: Task): SavedTask {
    SavedTask(t.goal,
              seq(|t.subTasks|, i requires 0 <= i < |t.subTasks| => Span(t.subTasks[i].first, t.subTasks[i].last)),
              seq(|t.subEmptyTasks|, i requires 0 <= i < |t.subEmptyTasks| =>
                Span(t.subEmptyTasks[i].first, t.subEmptyTasks[i].last)),
              t.blobsSynced, t.emptyFilled)
  }

  function LoadTask(s: SavedTask): Task {
    Task(s.goal, FreshSubs(s.subs), {}, FreshEmpties(s.empties), s.blobsSynced, s.emptyFilled, false)
  }

  // ---------------------------------------------------------------- progress measure

  function Width(st: SubTask): int { st.last - st.next }

  function EmptyWidth(e: SubEmptyTask): int { e.last - e.first }

  /** `BlobsToSync` of the status report. */
  function ToSync(t: Task): int { Sum(t.subTasks, Width) + |t.heal| }

  /** `EmptyToFill` of the status report. */
  function ToFill(t: Task): int { Sum(t.subEmptyTasks, EmptyWidth) }

  function IsFilling(e: SubEmptyTask): int { if e.flight.Parked? then 0 else 1 }

  /** Fill threads working for a task. */
  function FillThreads(t: Task): int { Sum(t.subEmptyTasks, IsFilling) }
}
