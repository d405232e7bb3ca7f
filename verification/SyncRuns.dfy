/**
 The sync client as a step system over all its shards. Each step is one critical section of the client, or one
 call into the storage manager made outside the lock, so every interleaving of the client's goroutines is a
 run. A crash may happen anywhere: `Reload` starts again from whatever checkpoint was written last.
 */
module SyncRuns {
  import opened Sums
  import opened SyncModel
  import opened SyncInvariant

  datatype Config = Config(shards: seq<nat>, kvEntries: nat, concurrency: nat, fillThreads: nat) {
    predicate Valid() { concurrency > 0 && fillThreads > 0 }
  }

  /** A list reply whose blobs are stored and whose bookkeeping is still to be done. */
  datatype ListReply = ListReply(task: nat, inserted: seq<nat>)

  datatype Checkpoint = NoCheckpoint | Checkpoint(tasks: seq<SavedTask>)

  datatype Client = Client(
    tasks: seq<Task>,
    lists: seq<ListReply>,
    threads: int,
    checkpoint: Checkpoint,
    stored: set<nat>,
    settled: set<nat>,
    announced: set<Goal>,
    syncDone: bool)

  datatype Step =
    | AssignRange(task: nat, sub: nat, maxRange: nat)
    | RangeFailed(task: nat, sub: nat)
    | RangeStore(task: nat, sub: nat, inserted: seq<nat>)
    | RangeApply(task: nat, sub: nat)
    | RangeEnd(task: nat, sub: nat)
    | ListStore(task: nat, inserted: seq<nat>)
    | ListApply(reply: nat)
    | EmptyAssign(task: nat, sub: nat)
    | EmptyStore(task: nat, sub: nat, next: nat)
    | EmptyApply(task: nat, sub: nat)
    | Clean
    | Save
    | Reload(lastKvIndex: nat)

  function FreshTasks(cfg: Config, lastKvIndex: nat): seq<Task>
    requires cfg.Valid()
  {
    seq(|cfg.shards|, i requires 0 <= i < |cfg.shards| =>
      var g := GoalOf(cfg.shards[i], cfg.kvEntries, lastKvIndex);
      GoalOfOk(cfg.shards[i], cfg.kvEntries, lastKvIndex);
      CreateTask(g, cfg.concurrency, cfg.fillThreads))
  }

  lemma GoalOfOk(shard: nat, kvEntries: nat, lastKvIndex: nat)
    ensures GoalOk(GoalOf(shard, kvEntries, lastKvIndex))
  {
    assert kvEntries * (shard + 1) == kvEntries * shard + kvEntries;
  }

  function Init(cfg: Config, lastKvIndex: nat): Client
    requires cfg.Valid()
  {
    Client(FreshTasks(cfg, lastKvIndex), [], 0, NoCheckpoint, {}, {}, {}, false)
  }

  predicate HasSub(s: Client, t: nat, i: nat) { t < |s.tasks| && i < |s.tasks[t].subTasks| }

  predicate HasEmpty(s: Client, t: nat, i: nat) { t < |s.tasks| && i < |s.tasks[t].subEmptyTasks| }

  /** When the code can take a step. */
  predicate Enabled(cfg: Config, s: Client, step: Step) {
    match step
    case AssignRange(t, i, maxRange) =>
      HasSub(s, t, i) && maxRange > 0 &&
      var st := s.tasks[t].subTasks[i];
      !st.done && st.flight.Idle? && st.next < st.last
    case RangeFailed(t, i) => HasSub(s, t, i) && s.tasks[t].subTasks[i].flight.Requested?
    case RangeStore(t, i, inserted) =>
      HasSub(s, t, i) && |inserted| > 0 &&
      var f := s.tasks[t].subTasks[i].flight;
      f.Requested? && forall x :: x in inserted ==> f.origin <= x <= f.limit
    case RangeApply(t, i) =>
      HasSub(s, t, i) && s.tasks[t].subTasks[i].flight.Stored? && |s.tasks[t].subTasks[i].flight.inserted| > 0
    case RangeEnd(t, i) => HasSub(s, t, i) && s.tasks[t].subTasks[i].flight.Applied?
    case ListStore(t, inserted) => t < |s.tasks|
    case ListApply(j) => j < |s.lists| && s.lists[j].task < |s.tasks|
    case EmptyAssign(t, i) =>
      HasEmpty(s, t, i) && s.threads < cfg.fillThreads &&
      var e := s.tasks[t].subEmptyTasks[i];
      !e.done && e.flight.Parked? && e.last > 0
    case EmptyStore(t, i, next) =>
      HasEmpty(s, t, i) &&
      var f := s.tasks[t].subEmptyTasks[i].flight;
      f.Filling? && f.start <= next <= f.limit + 1
    case EmptyApply(t, i) =>
      HasEmpty(s, t, i) &&
      var f := s.tasks[t].subEmptyTasks[i].flight;
      f.Filled? && f.start <= f.next
    case Clean => true
    case Save => true
    case Reload(_) => cfg.Valid()
  }

  /** A range reply in which no index below a missing one is repeated. */
  predicate Honest(s: Client, step: Step) {
    step.RangeStore? && HasSub(s, step.task, step.sub) && |step.inserted| > 0 ==>
      NothingLost(step.inserted, s.tasks[step.task].subTasks[step.sub].next)
  }

  function CleanAll(tasks: seq<Task>): seq<Task> {
    seq(|tasks|, i requires 0 <= i < |tasks| => CleanTask(tasks[i]))
  }

  /** The goals of the tasks that the cleaning pass finds finished for the first time. */
  function Announce(tasks: seq<Task>): set<Goal> {
    set i | 0 <= i < |tasks| && !tasks[i].done && CleanTask(tasks[i]).done :: tasks[i].goal
  }

  function SaveAll(tasks: seq<Task>): seq<SavedTask> {
    seq(|tasks|, i requires 0 <= i < |tasks| => SaveTask(tasks[i]))
  }

  function LoadAll(saved: seq<SavedTask>): seq<Task> {
    seq(|saved|, i requires 0 <= i < |saved| => LoadTask(saved[i]))
  }

  function PutTask(s: Client, t: nat, task: Task): Client
    requires t < |s.tasks|
  {
    s.(tasks := s.tasks[t := task])
  }

  function Next(cfg: Config, s: Client, step: Step): Client
    requires Enabled(cfg, s, step)
  {
    match step
    case AssignRange(t, i, maxRange) => PutTask(s, t, AssignSub(s.tasks[t], i, maxRange))
    case RangeFailed(t, i) => PutTask(s, t, SetFlight(s.tasks[t], i, Idle))
    case RangeStore(t, i, inserted) =>
      var f := s.tasks[t].subTasks[i].flight;
      PutTask(s, t, SetFlight(s.tasks[t], i, Stored(f.origin, f.limit, inserted)))
      .(stored := s.stored + Elements(inserted))
    case RangeApply(t, i) => PutTask(s, t, ApplyRange(s.tasks[t], i))
    case RangeEnd(t, i) => PutTask(s, t, SetFlight(s.tasks[t], i, Idle))
    case ListStore(t, inserted) =>
      s.(stored := s.stored + Elements(inserted), lists := s.lists + [ListReply(t, inserted)])
    case ListApply(j) =>
      PutTask(s, s.lists[j].task, ApplyList(s.tasks[s.lists[j].task], s.lists[j].inserted))
      .(lists := s.lists[..j] + s.lists[j + 1..])
    case EmptyAssign(t, i) => PutTask(s, t, AssignEmpty(s.tasks[t], i)).(threads := s.threads + 1)
    case EmptyStore(t, i, next) =>
      var f := s.tasks[t].subEmptyTasks[i].flight;
      PutTask(s, t, SetEmptyFlight(s.tasks[t], i, Filled(f.start, f.limit, next)))
      .(settled := s.settled + Indices(f.start, next))
    case EmptyApply(t, i) => PutTask(s, t, ApplyEmpty(s.tasks[t], i)).(threads := s.threads - 1)
    case Clean =>
      var tasks := CleanAll(s.tasks);
      s.(tasks := tasks, announced := s.announced + Announce(s.tasks),
         syncDone := s.syncDone || forall i :: 0 <= i < |tasks| ==> Finished(tasks[i]))
    case Save => s.(checkpoint := Checkpoint(SaveAll(s.tasks)))
    case Reload(lastKvIndex) =>
      s.(tasks := if s.checkpoint.NoCheckpoint? then FreshTasks(cfg, lastKvIndex) else LoadAll(s.checkpoint.tasks),
         lists := [], threads := 0, syncDone := false)
  }

  // ---------------------------------------------------------------- runs

  predicate Legal(cfg: Config, s: Client, run: seq<Step>)
    decreases |run|
  {
    run == [] || (Enabled(cfg, s, run[0]) && Legal(cfg, Next(cfg, s, run[0]), run[1..]))
  }

  predicate HonestRun(cfg: Config, s: Client, run: seq<Step>)
    requires Legal(cfg, s, run)
    decreases |run|
  {
    run == [] || (Honest(s, run[0]) && HonestRun(cfg, Next(cfg, s, run[0]), run[1..]))
  }

  function Exec(cfg: Config, s: Client, run: seq<Step>): Client
    requires Legal(cfg, s, run)
    decreases |run|
  {
    if run == [] then s else Exec(cfg, Next(cfg, s, run[0]), run[1..])
  }

  // ---------------------------------------------------------------- the invariant of the client

  predicate TasksInv(s: Client) {
    forall i :: 0 <= i < |s.tasks| ==> TaskInv(s.tasks[i], s.stored, s.settled)
  }

  /** No stored reply in flight is one the gap merge would lose an index of. */
  predicate FlightsHonest(s: Client) {
    forall t :: 0 <= t < |s.tasks| ==> HonestSubs(s.tasks[t])
  }

  predicate HonestSubs(task: Task) {
    forall i :: 0 <= i < |task.subTasks| ==>
                  var st := task.subTasks[i];
                  st.flight.Stored? && |st.flight.inserted| > 0 ==> NothingLost(st.flight.inserted, st.next)
  }

  predicate ListsInv(s: Client) {
    forall j :: 0 <= j < |s.lists| ==> s.lists[j].task < |s.tasks| && Elements(s.lists[j].inserted) <= s.stored
  }

  predicate CheckpointInv(s: Client) {
    s.checkpoint.Checkpoint? ==>
      && |s.checkpoint.tasks| == |s.tasks|
      && forall i :: 0 <= i < |s.tasks| ==> SavedInv(s.checkpoint.tasks[i], s.stored, s.settled)
  }

  predicate Complete(g: Goal, stored: set<nat>, settled: set<nat>) {
    && (forall x :: g.lo <= x < g.mid ==> x in stored)
    && (forall x :: g.mid <= x < g.hi ==> x in settled)
  }

  predicate AnnouncedInv(s: Client) {
    forall g :: g in s.announced ==> Complete(g, s.stored, s.settled)
  }

  predicate ThreadsInv(cfg: Config, s: Client) {
    s.threads == Sum(s.tasks, FillThreads) && s.threads <= cfg.fillThreads
  }

  predicate Inv(cfg: Config, s: Client) {
    && cfg.Valid() && |s.tasks| == |cfg.shards|
    && TasksInv(s) && FlightsHonest(s) && ListsInv(s) && CheckpointInv(s) && AnnouncedInv(s) && ThreadsInv(cfg, s)
    && (s.syncDone ==> forall i :: 0 <= i < |s.tasks| ==> Finished(s.tasks[i]))
  }

  lemma FreshTasksInv(cfg: Config, lastKvIndex: nat, s: Client)
    requires cfg.Valid() && s.tasks == FreshTasks(cfg, lastKvIndex)
    ensures TasksInv(s) && Sum(s.tasks, FillThreads) == 0
  {
    forall i | 0 <= i < |s.tasks| ensures TaskInv(s.tasks[i], s.stored, s.settled) && FillThreads(s.tasks[i]) == 0 {
      GoalOfOk(cfg.shards[i], cfg.kvEntries, lastKvIndex);
      var g := GoalOf(cfg.shards[i], cfg.kvEntries, lastKvIndex);
      CreateTaskInv(g, cfg.concurrency, cfg.fillThreads);
      InvMonotone(s.tasks[i], {}, {}, s.stored, s.settled);
    }
    ZeroSum(s.tasks);
  }

  lemma {:induction false} ZeroSum(tasks: seq<Task>)
    requires forall i :: 0 <= i < |tasks| ==> FillThreads(tasks[i]) == 0
    ensures Sum(tasks, FillThreads) == 0
  {
    if tasks != [] {
      assert forall i :: 0 <= i < |tasks[1..]| ==> tasks[1..][i] == tasks[i + 1];
      ZeroSum(tasks[1..]);
    }
  }

  lemma InitInv(cfg: Config, lastKvIndex: nat)
    requires cfg.Valid()
    ensures Inv(cfg, Init(cfg, lastKvIndex))
  {
    FreshTasksInv(cfg, lastKvIndex, Init(cfg, lastKvIndex));
  }

  /** Storing or settling more indices keeps everything the invariant says about the client. */
  lemma GrowInv(cfg: Config, s: Client, stored: set<nat>, settled: set<nat>)
    requires Inv(cfg, s) && s.stored <= stored && s.settled <= settled
    ensures Inv(cfg, s.(stored := stored, settled := settled))
  {
    forall i | 0 <= i < |s.tasks| ensures TaskInv(s.tasks[i], stored, settled) {
      InvMonotone(s.tasks[i], s.stored, s.settled, stored, settled);
    }
    if s.checkpoint.Checkpoint? {
      forall i | 0 <= i < |s.tasks| ensures SavedInv(s.checkpoint.tasks[i], stored, settled) {
        InvMonotone(LoadTask(s.checkpoint.tasks[i]), s.stored, s.settled, stored, settled);
      }
    }
  }

  /** Replacing one shard's task by another that satisfies its invariant. */
  lemma PutTaskInv(cfg: Config, s: Client, t: nat, task: Task, threads: int)
    requires Inv(cfg, s) && t < |s.tasks|
    requires TaskInv(task, s.stored, s.settled) && HonestSubs(task)
    requires Finished(s.tasks[t]) ==> Finished(task)
    requires threads == s.threads + FillThreads(task) - FillThreads(s.tasks[t]) <= cfg.fillThreads
    ensures Inv(cfg, PutTask(s, t, task).(threads := threads))
  {
    SumUpdate(s.tasks, t, task, FillThreads);
  }

  lemma RangeStoreInv(cfg: Config, s: Client, step: Step)
    requires Inv(cfg, s) && step.RangeStore? && Enabled(cfg, s, step) && Honest(s, step)
    ensures Inv(cfg, Next(cfg, s, step))
  {
    var t, i, task := step.task, step.sub, s.tasks[step.task];
    assert HonestSubs(task);
    var s1 := s.(stored := s.stored + Elements(step.inserted));
    GrowInv(cfg, s, s1.stored, s.settled);
    var f := task.subTasks[i].flight;
    assert SubOk(task.goal, task.subTasks[i], s1.stored);
    FlightInv(task, i, Stored(f.origin, f.limit, step.inserted), s1.stored, s.settled);
    PutTaskInv(cfg, s1, t, SetFlight(task, i, Stored(f.origin, f.limit, step.inserted)), s.threads);
  }

  lemma RangeStepInv(cfg: Config, s: Client, step: Step)
    requires Inv(cfg, s) && Enabled(cfg, s, step) && Honest(s, step)
    requires step.AssignRange? || step.RangeFailed? || step.RangeStore? || step.RangeApply? || step.RangeEnd?
    ensures Inv(cfg, Next(cfg, s, step))
  {
    var t, i, task := step.task, step.sub, s.tasks[step.task];
    assert HonestSubs(task);
    match step
    case AssignRange(_, _, maxRange) =>
      AssignSubInv(task, i, maxRange, s.stored, s.settled);
      PutTaskInv(cfg, s, t, AssignSub(task, i, maxRange), s.threads);
    case RangeFailed(_, _) =>
      FlightInv(task, i, Idle, s.stored, s.settled);
      PutTaskInv(cfg, s, t, SetFlight(task, i, Idle), s.threads);
    case RangeStore(_, _, inserted) =>
      RangeStoreInv(cfg, s, step);
    case RangeApply(_, _) =>
      ApplyRangeInv(task, i, s.stored, s.settled);
      PutTaskInv(cfg, s, t, ApplyRange(task, i), s.threads);
    case RangeEnd(_, _) =>
      FlightInv(task, i, Idle, s.stored, s.settled);
      PutTaskInv(cfg, s, t, SetFlight(task, i, Idle), s.threads);
  }

  lemma ListsOnlyInv(cfg: Config, s: Client, lists: seq<ListReply>)
    requires Inv(cfg, s)
    requires forall r :: r in lists ==> r in s.lists || (r.task < |s.tasks| && Elements(r.inserted) <= s.stored)
    ensures Inv(cfg, s.(lists := lists))
  {
    forall j | 0 <= j < |lists| ensures lists[j].task < |s.tasks| && Elements(lists[j].inserted) <= s.stored {
      assert lists[j] in lists;
    }
  }

  lemma ListStoreInv(cfg: Config, s: Client, t: nat, inserted: seq<nat>)
    requires Inv(cfg, s) && t < |s.tasks|
    ensures Inv(cfg, Next(cfg, s, ListStore(t, inserted)))
  {
    var s1 := s.(stored := s.stored + Elements(inserted));
    GrowInv(cfg, s, s1.stored, s.settled);
    ListsOnlyInv(cfg, s1, s.lists + [ListReply(t, inserted)]);
  }

  lemma ListApplyInv(cfg: Config, s: Client, j: nat)
    requires Inv(cfg, s) && Enabled(cfg, s, ListApply(j))
    ensures Inv(cfg, Next(cfg, s, ListApply(j)))
  {
    var t := s.lists[j].task;
    var task := ApplyList(s.tasks[t], s.lists[j].inserted);
    assert HonestSubs(s.tasks[t]);
    ApplyListInv(s.tasks[t], s.lists[j].inserted, s.stored, s.settled);
    PutTaskInv(cfg, s, t, task, s.threads);
    ListsOnlyInv(cfg, PutTask(s, t, task), s.lists[..j] + s.lists[j + 1..]);
  }

  lemma EmptyStepInv(cfg: Config, s: Client, step: Step)
    requires Inv(cfg, s) && Enabled(cfg, s, step)
    requires step.EmptyAssign? || step.EmptyStore? || step.EmptyApply?
    ensures Inv(cfg, Next(cfg, s, step))
  {
    var t, i, task := step.task, step.sub, s.tasks[step.task];
    assert HonestSubs(task);
    match step
    case EmptyAssign(_, _) =>
      AssignEmptyInv(task, i, s.stored, s.settled);
      PutTaskInv(cfg, s, t, AssignEmpty(task, i), s.threads + 1);
    case EmptyStore(_, _, next) =>
      var f := task.subEmptyTasks[i].flight;
      var s1 := s.(settled := s.settled + Indices(f.start, next));
      GrowInv(cfg, s, s.stored, s1.settled);
      StoreEmptyInv(task, i, next, s.stored, s1.settled);
      PutTaskInv(cfg, s1, t, SetEmptyFlight(task, i, Filled(f.start, f.limit, next)), s.threads);
    case EmptyApply(_, _) =>
      ApplyEmptyInv(task, i, s.stored, s.settled);
      PutTaskInv(cfg, s, t, ApplyEmpty(task, i), s.threads - 1);
  }

  lemma CleanStepInv(cfg: Config, s: Client)
    requires Inv(cfg, s)
    ensures Inv(cfg, Next(cfg, s, Clean))
  {
    var s' := Next(cfg, s, Clean);
    forall i | 0 <= i < |s.tasks|
      ensures TaskInv(s'.tasks[i], s.stored, s.settled) && FillThreads(s'.tasks[i]) == FillThreads(s.tasks[i])
      ensures Finished(s.tasks[i]) ==> Finished(s'.tasks[i])
      ensures HonestSubs(s'.tasks[i])
    {
      CleanTaskInv(s.tasks[i], s.stored, s.settled);
      CleanStaysHonest(s.tasks[i]);
    }
    SumAgree(s.tasks, FillThreads, s'.tasks, FillThreads);
    forall g | g in s'.announced && g !in s.announced ensures Complete(g, s.stored, s.settled) {
      AnnouncedByClean(s.tasks, g, s.stored, s.settled);
    }
  }

  lemma CleanStaysHonest(t: Task)
    requires HonestSubs(t)
    ensures HonestSubs(CleanTask(t))
  {
    var t' := CleanTask(t);
    forall i | 0 <= i < |t'.subTasks|
      ensures var st := t'.subTasks[i];
              st.flight.Stored? && |st.flight.inserted| > 0 ==> NothingLost(st.flight.inserted, st.next)
    {
      var j := CleanSubsOrigin(t.subTasks, t.heal, i);
      assert t'.subTasks[i].flight == t.subTasks[j].flight;
    }
  }

  /** What cleaning announces is complete. */
  lemma AnnouncedByClean(tasks: seq<Task>, g: Goal, stored: set<nat>, settled: set<nat>)
    requires g in Announce(tasks) && forall i :: 0 <= i < |tasks| ==> TaskInv(tasks[i], stored, settled)
    ensures Complete(g, stored, settled)
  {
    var i :| 0 <= i < |tasks| && !tasks[i].done && CleanTask(tasks[i]).done && tasks[i].goal == g;
    CleanTaskInv(tasks[i], stored, settled);
    FinishedMeansComplete(CleanTask(tasks[i]), stored, settled);
  }

  lemma SaveStepInv(cfg: Config, s: Client)
    requires Inv(cfg, s)
    ensures Inv(cfg, Next(cfg, s, Save))
  {
    forall i | 0 <= i < |s.tasks| ensures SavedInv(SaveTask(s.tasks[i]), s.stored, s.settled) {
      SaveReload(s.tasks[i], s.stored, s.settled);
    }
  }

  lemma ReloadStepInv(cfg: Config, s: Client, lastKvIndex: nat)
    requires Inv(cfg, s)
    ensures Inv(cfg, Next(cfg, s, Reload(lastKvIndex)))
  {
    var s' := Next(cfg, s, Reload(lastKvIndex));
    if s.checkpoint.NoCheckpoint? {
      FreshTasksInv(cfg, lastKvIndex, s');
    } else {
      LoadedTasksInv(s.checkpoint.tasks, s'.tasks, s.stored, s.settled);
      ZeroSum(s'.tasks);
    }
    assert forall t :: 0 <= t < |s'.tasks| ==> HonestSubs(s'.tasks[t]);
  }

  lemma LoadedTasksInv(saved: seq<SavedTask>, tasks: seq<Task>, stored: set<nat>, settled: set<nat>)
    requires |tasks| == |saved| && forall i :: 0 <= i < |saved| ==>
               tasks[i] == LoadTask(saved[i]) && SavedInv(saved[i], stored, settled)
    ensures forall i :: 0 <= i < |tasks| ==> TaskInv(tasks[i], stored, settled) && FillThreads(tasks[i]) == 0
  {
    forall i | 0 <= i < |tasks| ensures TaskInv(tasks[i], stored, settled) && FillThreads(tasks[i]) == 0 {
      NoThreads(tasks[i].subEmptyTasks);
    }
  }

  lemma StepInv(cfg: Config, s: Client, step: Step)
    requires Inv(cfg, s) && Enabled(cfg, s, step) && Honest(s, step)
    ensures Inv(cfg, Next(cfg, s, step))
  {
    match step
    case Clean => CleanStepInv(cfg, s);
    case Save => SaveStepInv(cfg, s);
    case Reload(lastKvIndex) => ReloadStepInv(cfg, s, lastKvIndex);
    case ListStore(t, inserted) => ListStoreInv(cfg, s, t, inserted);
    case ListApply(j) => ListApplyInv(cfg, s, j);
    case EmptyAssign(_, _) => EmptyStepInv(cfg, s, step);
    case EmptyStore(_, _, _) => EmptyStepInv(cfg, s, step);
    case EmptyApply(_, _) => EmptyStepInv(cfg, s, step);
    case _ => RangeStepInv(cfg, s, step);
  }

  lemma {:induction false} RunInv(cfg: Config, s: Client, run: seq<Step>)
    requires Inv(cfg, s) && Legal(cfg, s, run) && HonestRun(cfg, s, run)
    ensures Inv(cfg, Exec(cfg, s, run))
    decreases |run|
  {
    if run != [] {
      StepInv(cfg, s, run[0]);
      RunInv(cfg, Next(cfg, s, run[0]), run[1..]);
    }
  }

  // ---------------------------------------------------------------- main results

  /** At every point of every run, no index of a shard's data range is lost, whatever crashed or raced. */
  lemma NoIndexIsLost(cfg: Config, lastKvIndex: nat, run: seq<Step>, t: nat, x: nat)
    requires cfg.Valid() && Legal(cfg, Init(cfg, lastKvIndex), run) && HonestRun(cfg, Init(cfg, lastKvIndex), run)
    requires var s := Exec(cfg, Init(cfg, lastKvIndex), run);
             t < |s.tasks| && s.tasks[t].goal.lo <= x < s.tasks[t].goal.mid
    ensures var s := Exec(cfg, Init(cfg, lastKvIndex), run);
            x in s.stored || x in s.tasks[t].heal || Ahead(s.tasks[t].subTasks, x)
  {
    InitInv(cfg, lastKvIndex);
    RunInv(cfg, Init(cfg, lastKvIndex), run);
    var s := Exec(cfg, Init(cfg, lastKvIndex), run);
    assert TaskInv(s.tasks[t], s.stored, s.settled);
  }

  /** In every run no empty index is lost or counted twice, and the running fills are the counted threads. */
  lemma EmptyFillConserved(cfg: Config, lastKvIndex: nat, run: seq<Step>, t: nat)
    requires cfg.Valid() && Legal(cfg, Init(cfg, lastKvIndex), run) && HonestRun(cfg, Init(cfg, lastKvIndex), run)
    requires t < |cfg.shards|
    ensures var s := Exec(cfg, Init(cfg, lastKvIndex), run);
            && |s.tasks| == |cfg.shards|
            && s.tasks[t].emptyFilled + ToFill(s.tasks[t]) == s.tasks[t].goal.hi - s.tasks[t].goal.mid
            && (forall x :: s.tasks[t].goal.mid <= x < s.tasks[t].goal.hi ==>
                  x in s.settled || EmptyAhead(s.tasks[t].subEmptyTasks, x))
            && s.threads == Sum(s.tasks, FillThreads) <= cfg.fillThreads
  {
    InitInv(cfg, lastKvIndex);
    RunInv(cfg, Init(cfg, lastKvIndex), run);
    var s := Exec(cfg, Init(cfg, lastKvIndex), run);
    assert TaskInv(s.tasks[t], s.stored, s.settled);
  }

  /** A shard is announced as done only when every data blob is stored and every empty one passed over. */
  lemma DoneMeansStored(cfg: Config, lastKvIndex: nat, run: seq<Step>, g: Goal)
    requires cfg.Valid() && Legal(cfg, Init(cfg, lastKvIndex), run) && HonestRun(cfg, Init(cfg, lastKvIndex), run)
    requires g in Exec(cfg, Init(cfg, lastKvIndex), run).announced
    ensures var s := Exec(cfg, Init(cfg, lastKvIndex), run); Complete(g, s.stored, s.settled)
  {
    InitInv(cfg, lastKvIndex);
    RunInv(cfg, Init(cfg, lastKvIndex), run);
  }

  /**
   Crash at any point of any run and restart from the last checkpoint: each index that was not stored is
   again ahead of a listed sub-task, every listed sub-task can still send a request, and the blobs synced
   plus those to sync still add up to at least the shard's data range.
   */
  lemma CrashLosesNothing(cfg: Config, lastKvIndex: nat, run: seq<Step>, t: nat, lastKvIndex': nat)
    requires cfg.Valid() && Legal(cfg, Init(cfg, lastKvIndex), run) && HonestRun(cfg, Init(cfg, lastKvIndex), run)
    requires t < |cfg.shards|
    ensures var s := Exec(cfg, Init(cfg, lastKvIndex), run);
            && Enabled(cfg, s, Reload(lastKvIndex'))
            && var s' := Next(cfg, s, Reload(lastKvIndex'));
            && |s'.tasks| == |cfg.shards|
            && var task := s'.tasks[t];
            && (forall x :: task.goal.lo <= x < task.goal.mid ==> x in s.stored || Ahead(task.subTasks, x))
            && (forall i :: 0 <= i < |task.subTasks| ==> Enabled(cfg, s', AssignRange(t, i, 1)))
            && task.blobsSynced + ToSync(task) >= task.goal.mid - task.goal.lo
            && task.emptyFilled + ToFill(task) == task.goal.hi - task.goal.mid
  {
    InitInv(cfg, lastKvIndex);
    RunInv(cfg, Init(cfg, lastKvIndex), run);
    var s := Exec(cfg, Init(cfg, lastKvIndex), run);
    ReloadStepInv(cfg, s, lastKvIndex');
    var s' := Next(cfg, s, Reload(lastKvIndex'));
    var task := s'.tasks[t];
    assert TaskInv(task, s'.stored, s'.settled);
    assert task.heal == {};
    forall i | 0 <= i < |task.subTasks| ensures Enabled(cfg, s', AssignRange(t, i, 1)) {
      assert SubOk(task.goal, task.subTasks[i], s'.stored);
    }
  }
}
