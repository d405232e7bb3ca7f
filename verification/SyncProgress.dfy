/**
 What the sync client's step system does beyond keeping its invariant: its progress counters, across crashes too, and
 what a reply with a repeated index does to it.
 */
module SyncProgress {
  import opened Sums
  import opened SyncModel
  import opened SyncInvariant
  import opened SyncRuns

  // ---------------------------------------------------------------- counters

  /** Blobs synced plus blobs to sync of one shard. */
  function Effort(t: Task): int { t.blobsSynced + ToSync(t) }

  /**
   What a step other than a restart adds to a shard's count: range insertions that are counted twice, and list
   insertions of indices that were not healing.
   */
  function Gain(cfg: Config, s: Client, step: Step, k: nat): int
    requires k < |s.tasks| && Enabled(cfg, s, step)
  {
    match step
    case RangeApply(t, i) =>
      var ins := s.tasks[t].subTasks[i].flight.inserted;
      if t == k then |ins| - |Elements(ins)| else 0
    case ListApply(j) =>
      var ins := s.lists[j].inserted;
      if s.lists[j].task == k then |ins| - |s.tasks[k].heal * Elements(ins)| else 0
    case _ => 0
  }

  lemma RangeEffort(cfg: Config, s: Client, step: Step)
    requires Inv(cfg, s) && Enabled(cfg, s, step) && Honest(s, step)
    requires step.AssignRange? || step.RangeFailed? || step.RangeStore? || step.RangeApply? || step.RangeEnd?
    ensures var s' := Next(cfg, s, step);
            && step.task < |s.tasks| == |s'.tasks|
            && s'.tasks == s.tasks[step.task := s'.tasks[step.task]]
            && Effort(s'.tasks[step.task]) == Effort(s.tasks[step.task]) + Gain(cfg, s, step, step.task)
            && Gain(cfg, s, step, step.task) >= 0
  {
    var t, i, task := step.task, step.sub, s.tasks[step.task];
    var task' := Next(cfg, s, step).tasks[t];
    if step.RangeApply? {
      assert HonestSubs(task);
      ApplyRangeMeasure(task, i, s.stored, s.settled);
    } else {
      SumAgree(task.subTasks, Width, task'.subTasks, Width);
    }
    assert Next(cfg, s, step).tasks == s.tasks[t := task'];
  }

  lemma EmptyEffort(cfg: Config, s: Client, step: Step)
    requires Enabled(cfg, s, step) && (step.EmptyAssign? || step.EmptyStore? || step.EmptyApply?)
    ensures var s' := Next(cfg, s, step);
            && step.task < |s.tasks| == |s'.tasks|
            && s'.tasks == s.tasks[step.task := s'.tasks[step.task]]
            && Effort(s'.tasks[step.task]) == Effort(s.tasks[step.task])
  {
    var task' := Next(cfg, s, step).tasks[step.task];
    assert Next(cfg, s, step).tasks == s.tasks[step.task := task'];
  }

  lemma ListEffort(cfg: Config, s: Client, j: nat)
    requires Inv(cfg, s) && Enabled(cfg, s, ListApply(j))
    ensures var t, s' := s.lists[j].task, Next(cfg, s, ListApply(j));
            && s'.tasks == s.tasks[t := s'.tasks[t]]
            && Effort(s'.tasks[t]) == Effort(s.tasks[t]) + Gain(cfg, s, ListApply(j), t)
            && Gain(cfg, s, ListApply(j), t) >= 0
  {
    ApplyListInv(s.tasks[s.lists[j].task], s.lists[j].inserted, s.stored, s.settled);
  }

  /** Outside a restart, no step lowers a shard's synced-plus-pending count, and what it adds is exactly its gain. */
  lemma EffortNeverDrops(cfg: Config, s: Client, step: Step, k: nat)
    requires Inv(cfg, s) && Enabled(cfg, s, step) && Honest(s, step) && !step.Reload?
    requires k < |s.tasks|
    ensures var s' := Next(cfg, s, step);
            && k < |s'.tasks| && Effort(s'.tasks[k]) == Effort(s.tasks[k]) + Gain(cfg, s, step, k)
            && Gain(cfg, s, step, k) >= 0
  {
    match step
    case ListStore(_, _) =>
    case ListApply(j) => ListEffort(cfg, s, j);
    case EmptyAssign(_, _) => EmptyEffort(cfg, s, step);
    case EmptyStore(_, _, _) => EmptyEffort(cfg, s, step);
    case EmptyApply(_, _) => EmptyEffort(cfg, s, step);
    case Clean => CleanTaskInv(s.tasks[k], s.stored, s.settled);
    case Save =>
    case _ => RangeEffort(cfg, s, step);
  }

  /** A shard's count is at least e, and so is the count that its checkpoint would give. */
  predicate AtLeast(s: Client, k: nat, e: int) {
    && k < |s.tasks| && Effort(s.tasks[k]) >= e
    && s.checkpoint.Checkpoint? && k < |s.checkpoint.tasks| && Effort(LoadTask(s.checkpoint.tasks[k])) >= e
  }

  lemma AtLeastStays(cfg: Config, s: Client, step: Step, k: nat, e: int)
    requires Inv(cfg, s) && Enabled(cfg, s, step) && Honest(s, step) && AtLeast(s, k, e)
    ensures AtLeast(Next(cfg, s, step), k, e)
  {
    if !step.Reload? { EffortNeverDrops(cfg, s, step, k); }
    if step.Save? { SaveReload(s.tasks[k], s.stored, s.settled); }
  }

  lemma {:induction false} AtLeastInRun(cfg: Config, s: Client, run: seq<Step>, k: nat, e: int)
    requires Inv(cfg, s) && Legal(cfg, s, run) && HonestRun(cfg, s, run) && AtLeast(s, k, e)
    ensures AtLeast(Exec(cfg, s, run), k, e)
    decreases |run|
  {
    if run != [] {
      StepInv(cfg, s, run[0]);
      AtLeastStays(cfg, s, run[0], k, e);
      AtLeastInRun(cfg, Next(cfg, s, run[0]), run[1..], k, e);
    }
  }

  /**
   A checkpoint is a floor: in every run after it, crashes and later checkpoints included, no count falls below what it
   was.
   */
  lemma EffortSurvivesRestart(cfg: Config, s: Client, run: seq<Step>, k: nat)
    requires Inv(cfg, s) && k < |s.tasks| && Legal(cfg, Next(cfg, s, Save), run)
             && HonestRun(cfg, Next(cfg, s, Save), run)
    ensures var s' := Exec(cfg, Next(cfg, s, Save), run);
            k < |s'.tasks| && Effort(s'.tasks[k]) >= Effort(s.tasks[k])
  {
    StepInv(cfg, s, Save);
    SaveReload(s.tasks[k], s.stored, s.settled);
    AtLeastInRun(cfg, Next(cfg, s, Save), run, k, Effort(s.tasks[k]));
  }

  // ---------------------------------------------------------------- a repeated index

  const SMALL := Config([0], 16, 1, 1)

  const REPEATING := [AssignRange(0, 0, 16), RangeStore(0, 0, [0, 0, 15]), RangeApply(0, 0), Clean]

  const WHOLE := Goal(0, 0, 16, 16)

  function OneTask(sub: SubTask, synced: nat): Task { Task(WHOLE, [sub], {}, [], synced, 0, false) }

  function OneShard(t: Task, stored: set<nat>): Client { Client([t], [], 0, NoCheckpoint, stored, {}, {}, false) }

  lemma SmallStart()
    ensures SMALL.Valid() && Init(SMALL, 16) == OneShard(OneTask(SubTask(0, 0, 16, false, Idle), 0), {})
  {
    assert GoalOf(0, 16, 16) == WHOLE;
    assert Tiles(0, 16, 16) == [Span(0, 16)] + Tiles(16, 16, 16);
    assert CreateTask(WHOLE, 1, 1) == OneTask(SubTask(0, 0, 16, false, Idle), 0);
  }

  lemma SmallReply(s: Client)
    requires s == OneShard(OneTask(SubTask(0, 0, 16, false, Idle), 0), {})
    ensures Enabled(SMALL, s, REPEATING[0])
    ensures var s1 := Next(SMALL, s, REPEATING[0]);
            && Enabled(SMALL, s1, REPEATING[1])
            && Next(SMALL, s1, REPEATING[1])
               == OneShard(OneTask(SubTask(0, 0, 16, false, Stored(0, 15, [0, 0, 15])), 0), {0, 15})
  {
    var s1 := Next(SMALL, s, REPEATING[0]);
    var t1 := OneTask(SubTask(0, 0, 16, false, Requested(0, 15)), 0);
    assert s1.tasks[0].subTasks == t1.subTasks;
    assert s1.tasks == [t1];
    var s2 := Next(SMALL, s1, REPEATING[1]);
    var t2 := OneTask(SubTask(0, 0, 16, false, Stored(0, 15, [0, 0, 15])), 0);
    assert s2.tasks[0].subTasks == t2.subTasks;
    assert s2.tasks == [t2];
    assert s2.stored == {0, 15};
  }

  lemma SmallEnd(s: Client)
    requires s == OneShard(OneTask(SubTask(0, 0, 16, false, Stored(0, 15, [0, 0, 15])), 0), {0, 15})
    ensures Enabled(SMALL, s, REPEATING[2])
    ensures var s1 := Next(SMALL, s, REPEATING[2]);
            Enabled(SMALL, s1, Clean) && WHOLE in Next(SMALL, s1, Clean).announced
              && Next(SMALL, s1, Clean).stored == {0, 15}
  {
    RepeatedGaps();
    var s1 := Next(SMALL, s, REPEATING[2]);
    var t := OneTask(SubTask(16, 0, 16, true, Applied), 3);
    assert s1.tasks[0].subTasks == t.subTasks;
    assert s1.tasks[0].heal == {};
    assert s1.tasks == [t];
    assert CleanSubs(t.subTasks[1..], {}) == [];
    assert CleanTask(t) == t.(subTasks := [], done := true);
    assert !s1.tasks[0].done && CleanTask(s1.tasks[0]).done && s1.tasks[0].goal == WHOLE;
  }

  /** One reply that repeats index 0 and ends at index 15 makes the client announce a shard missing 14 blobs. */
  lemma RepeatedIndexLosesBlobs()
    ensures SMALL.Valid() && Legal(SMALL, Init(SMALL, 16), REPEATING)
    ensures var s := Exec(SMALL, Init(SMALL, 16), REPEATING);
            Goal(0, 0, 16, 16) in s.announced && s.stored == {0, 15}
  {
    SmallStart();
    var s0 := Init(SMALL, 16);
    SmallReply(s0);
    var s2 := Next(SMALL, Next(SMALL, s0, REPEATING[0]), REPEATING[1]);
    SmallEnd(s2);
    FourSteps(SMALL, s0, REPEATING);
  }

  lemma OneStep(cfg: Config, s: Client, run: seq<Step>)
    requires |run| == 1 && Enabled(cfg, s, run[0])
    ensures Legal(cfg, s, run) && Exec(cfg, s, run) == Next(cfg, s, run[0])
  {
    assert run[1..] == [];
  }

  lemma FourSteps(cfg: Config, s: Client, run: seq<Step>)
    requires |run| == 4 && Enabled(cfg, s, run[0])
    requires Enabled(cfg, Next(cfg, s, run[0]), run[1])
    requires Enabled(cfg, Next(cfg, Next(cfg, s, run[0]), run[1]), run[2])
    requires Enabled(cfg, Next(cfg, Next(cfg, Next(cfg, s, run[0]), run[1]), run[2]), run[3])
    ensures Legal(cfg, s, run)
    ensures var s1 := Next(cfg, s, run[0]);
            var s2 := Next(cfg, s1, run[1]);
            var s3 := Next(cfg, s2, run[2]);
            Exec(cfg, s, run) == Next(cfg, s3, run[3])
  {
    var s1 := Next(cfg, s, run[0]);
    var s2 := Next(cfg, s1, run[1]);
    var s3 := Next(cfg, s2, run[2]);
    var r1, r2, r3 := run[1..], run[2..], run[3..];
    assert r1[1..] == r2 && r2[1..] == r3 && r3[1..] == [];
    assert r1[0] == run[1] && r2[0] == run[2] && r3[0] == run[3];
    OneStep(cfg, s3, r3);
    assert Legal(cfg, s2, r2) && Exec(cfg, s2, r2) == Next(cfg, s3, run[3]);
    assert Legal(cfg, s1, r1) && Exec(cfg, s1, r1) == Next(cfg, s3, run[3]);
  }

  lemma RepeatedGaps()
    ensures MaxOf([0, 0, 15]) == 15 && Gaps([0, 0, 15], 0) == {}
  {
    var ins: seq<nat> := [0, 0, 15];
    assert ins == [0] + [0, 15] && ins[1..] == [0, 15] && [0, 15][1..] == [15];
    assert multiset(ins) == multiset{0, 0, 15};
    forall n: nat | n !in ins ensures RepeatBelow(ins, n) {
      assert 0 in ins;
    }
  }

  // ---------------------------------------------------------------- what a crash does to the count

  /** What a restart counts for a shard: what the checkpoint has counted and the whole of the ranges it lists. */
  function CountAfterRestart(cfg: Config, s: Client, lastKvIndex: nat, k: nat): int
    requires k < |cfg.shards| && (s.checkpoint.Checkpoint? ==> k < |s.checkpoint.tasks|)
  {
    if s.checkpoint.Checkpoint? then s.checkpoint.tasks[k].blobsSynced + Sum(s.checkpoint.tasks[k].subs, SpanWidth)
    else
      var g := GoalOf(cfg.shards[k], cfg.kvEntries, lastKvIndex);
      g.mid - g.lo
  }

  lemma RestartCount(cfg: Config, s: Client, lastKvIndex: nat, k: nat)
    requires Inv(cfg, s) && k < |s.tasks|
    ensures s.checkpoint.Checkpoint? ==> k < |s.checkpoint.tasks|
    ensures var s' := Next(cfg, s, Reload(lastKvIndex));
            k < |s'.tasks| && Effort(s'.tasks[k]) == CountAfterRestart(cfg, s, lastKvIndex, k)
  {
    if s.checkpoint.Checkpoint? {
      var saved := s.checkpoint.tasks[k];
      SumAgree(saved.subs, SpanWidth, FreshSubs(saved.subs), Width);
    } else {
      GoalOfOk(cfg.shards[k], cfg.kvEntries, lastKvIndex);
      CreateTaskInv(GoalOf(cfg.shards[k], cfg.kvEntries, lastKvIndex), cfg.concurrency, cfg.fillThreads);
    }
  }

  /** A run without checkpoints and restarts. */
  predicate Unbroken(run: seq<Step>) { forall i :: 0 <= i < |run| ==> !run[i].Save? && !run[i].Reload? }

  function GainIn(cfg: Config, s: Client, run: seq<Step>, k: nat): int
    requires Legal(cfg, s, run) && Unbroken(run) && k < |s.tasks|
    decreases |run|
  {
    if run == [] then 0
    else
      assert Unbroken(run[1..]) && !run[0].Reload?;
      Gain(cfg, s, run[0], k) + GainIn(cfg, Next(cfg, s, run[0]), run[1..], k)
  }

  lemma {:induction false} EffortInRun(cfg: Config, s: Client, run: seq<Step>, k: nat)
    requires Inv(cfg, s) && Legal(cfg, s, run) && HonestRun(cfg, s, run) && Unbroken(run) && k < |s.tasks|
    ensures var s' := Exec(cfg, s, run);
            && Inv(cfg, s') && |s'.tasks| == |s.tasks| && s'.checkpoint == s.checkpoint
            && Effort(s'.tasks[k]) == Effort(s.tasks[k]) + GainIn(cfg, s, run, k)
    decreases |run|
  {
    if run != [] {
      assert Unbroken(run[1..]) && !run[0].Reload?;
      StepInv(cfg, s, run[0]);
      EffortNeverDrops(cfg, s, run[0], k);
      EffortInRun(cfg, Next(cfg, s, run[0]), run[1..], k);
    }
  }

  /** How far the requests of a shard are ahead of its checkpoints, less what is healing. */
  function Slack(t: Task): int { Sum(t.subTasks, Held) - |t.heal| }

  /** A checkpoint counts everything from first on again. */
  lemma SavedCount(t: Task)
    ensures SaveTask(t).blobsSynced + Sum(SaveTask(t).subs, SpanWidth) == Effort(t) + Slack(t)
  {
    HeldPlusWidth(t.subTasks);
    assert SaveTask(t).subs == SavedSpans(t.subTasks);
  }

  /**
   Exactly when a crash lowers a count: if and only if the gains since the checkpoint are more than what had been
   requested but not settled behind it at the checkpoint.
   */
  lemma CrashExact(cfg: Config, s: Client, run: seq<Step>, lastKvIndex: nat, k: nat)
    requires Inv(cfg, s) && k < |s.tasks| && Unbroken(run)
    requires Legal(cfg, Next(cfg, s, Save), run) && HonestRun(cfg, Next(cfg, s, Save), run)
    ensures var s1 := Exec(cfg, Next(cfg, s, Save), run);
            var s2 := Next(cfg, s1, Reload(lastKvIndex));
            && k < |s1.tasks| == |s2.tasks|
            && (Effort(s2.tasks[k]) < Effort(s1.tasks[k])
                <==> GainIn(cfg, Next(cfg, s, Save), run, k) > Slack(s.tasks[k]))
  {
    var s0 := Next(cfg, s, Save);
    StepInv(cfg, s, Save);
    EffortInRun(cfg, s0, run, k);
    RestartCount(cfg, Exec(cfg, s0, run), lastKvIndex, k);
    SavedCount(s.tasks[k]);
  }

  /** Before the first checkpoint, with the entry count as at the start: if and only if there have been gains. */
  lemma CrashBeforeCheckpoint(cfg: Config, run: seq<Step>, lastKvIndex: nat, k: nat)
    requires cfg.Valid() && k < |cfg.shards| && Unbroken(run)
    requires Legal(cfg, Init(cfg, lastKvIndex), run) && HonestRun(cfg, Init(cfg, lastKvIndex), run)
    ensures var s1 := Exec(cfg, Init(cfg, lastKvIndex), run);
            var s2 := Next(cfg, s1, Reload(lastKvIndex));
            && k < |s1.tasks| == |s2.tasks|
            && (Effort(s2.tasks[k]) < Effort(s1.tasks[k]) <==> GainIn(cfg, Init(cfg, lastKvIndex), run, k) > 0)
  {
    var s0 := Init(cfg, lastKvIndex);
    InitInv(cfg, lastKvIndex);
    EffortInRun(cfg, s0, run, k);
    RestartCount(cfg, s0, lastKvIndex, k);
    RestartCount(cfg, Exec(cfg, s0, run), lastKvIndex, k);
  }

  // ---------------------------------------------------------------- such a crash

  /** A range reply with a gap at 0, a list request for the gap, and a reply to it with an index nobody asked for. */
  const UNASKED := [AssignRange(0, 0, 16), RangeStore(0, 0, [1]), RangeApply(0, 0), ListStore(0, [5]), ListApply(0)]

  lemma GapAtZero()
    ensures MaxOf([1]) == 1 && Gaps([1], 0) == {0} && NothingLost([1], 0)
  {
    DistinctLosesNothing([1], 0);
    GapsAndLost([1], 0);
  }

  lemma UnaskedRange(s: Client)
    requires s == OneShard(OneTask(SubTask(0, 0, 16, false, Idle), 0), {})
    ensures Enabled(SMALL, s, UNASKED[0])
    ensures var s1 := Next(SMALL, s, UNASKED[0]);
            && Enabled(SMALL, s1, UNASKED[1]) && Honest(s1, UNASKED[1])
            && Next(SMALL, s1, UNASKED[1]) == OneShard(OneTask(SubTask(0, 0, 16, false, Stored(0, 15, [1])), 0), {1})
  {
    var s1 := Next(SMALL, s, UNASKED[0]);
    var t1 := OneTask(SubTask(0, 0, 16, false, Requested(0, 15)), 0);
    assert s1.tasks[0].subTasks == t1.subTasks;
    assert s1.tasks == [t1];
    GapAtZero();
    var s2 := Next(SMALL, s1, UNASKED[1]);
    var t2 := OneTask(SubTask(0, 0, 16, false, Stored(0, 15, [1])), 0);
    assert s2.tasks[0].subTasks == t2.subTasks;
    assert s2.tasks == [t2];
    assert s2.stored == {1};
  }

  lemma UnaskedList(s: Client)
    requires s == OneShard(OneTask(SubTask(0, 0, 16, false, Stored(0, 15, [1])), 0), {1})
    ensures Enabled(SMALL, s, UNASKED[2])
    ensures var s1 := Next(SMALL, s, UNASKED[2]);
            && s1.tasks[0].heal == {0} && Enabled(SMALL, s1, UNASKED[3])
            && var s2 := Next(SMALL, s1, UNASKED[3]);
               Enabled(SMALL, s2, UNASKED[4]) && s2.lists == [ListReply(0, [5])] && s2.tasks == s1.tasks
  {
    GapAtZero();
    var s1 := Next(SMALL, s, UNASKED[2]);
    assert s1.tasks[0].heal == {0};
    var s2 := Next(SMALL, s1, UNASKED[3]);
    assert s2.lists == [ListReply(0, [5])];
  }

  /** A run that is legal, honest and unbroken, and what it gains for the first shard. */
  ghost predicate Gains(s: Client, run: seq<Step>, gain: int) {
    && Legal(SMALL, s, run) && HonestRun(SMALL, s, run) && Unbroken(run) && |s.tasks| == 1
    && GainIn(SMALL, s, run, 0) == gain
  }

  lemma StepThen(s: Client, run: seq<Step>, step: Step, rest: seq<Step>, gain: int)
    requires run != [] && step == run[0] && rest == run[1..] && |s.tasks| == 1
    requires Enabled(SMALL, s, step) && Honest(s, step) && !step.Save? && !step.Reload?
    requires Gains(Next(SMALL, s, step), rest, gain)
    ensures Gains(s, run, Gain(SMALL, s, step, 0) + gain)
  {
    assert forall i :: 0 < i < |run| ==> run[i] == rest[i - 1];
  }

  lemma UnaskedTail(s: Client)
    requires s == OneShard(OneTask(SubTask(0, 0, 16, false, Stored(0, 15, [1])), 0), {1})
    ensures Gains(s, UNASKED[2..], 1)
  {
    UnaskedList(s);
    UnaskedGain(s);
    var r2, r3, r4 := UNASKED[2..], UNASKED[3..], UNASKED[4..];
    var s1 := Next(SMALL, s, UNASKED[2]);
    var s2 := Next(SMALL, s1, UNASKED[3]);
    assert Gains(Next(SMALL, s2, UNASKED[4]), [], 0);
    StepThen(s2, r4, UNASKED[4], [], 0);
    StepThen(s1, r3, UNASKED[3], r4, 1);
    StepThen(s, r2, UNASKED[2], r3, 1);
  }

  lemma UnaskedRuns()
    ensures SMALL.Valid() && Gains(Init(SMALL, 16), UNASKED, 1)
  {
    SmallStart();
    var s0 := Init(SMALL, 16);
    UnaskedRange(s0);
    var s1 := Next(SMALL, s0, UNASKED[0]);
    var s2 := Next(SMALL, s1, UNASKED[1]);
    UnaskedTail(s2);
    StepThen(s1, UNASKED[1..], UNASKED[1], UNASKED[2..], 1);
    StepThen(s0, UNASKED, UNASKED[0], UNASKED[1..], 1);
  }

  /** The range reply gains nothing, the list reply its one index. */
  lemma UnaskedGain(s: Client)
    requires s == OneShard(OneTask(SubTask(0, 0, 16, false, Stored(0, 15, [1])), 0), {1})
    ensures Enabled(SMALL, s, UNASKED[2]) && Gain(SMALL, s, UNASKED[2], 0) == 0
    ensures var s1 := Next(SMALL, s, UNASKED[2]);
            Enabled(SMALL, s1, UNASKED[3]) && Enabled(SMALL, Next(SMALL, s1, UNASKED[3]), UNASKED[4])
            && Gain(SMALL, Next(SMALL, s1, UNASKED[3]), UNASKED[4], 0) == 1
  {
    UnaskedList(s);
    assert Elements([1]) == {1} && Elements([5]) == {5};
    assert {0} * {5} == {};
  }

  /** After that run a crash lowers the count. */
  lemma CrashLowersEffort()
    ensures SMALL.Valid() && Legal(SMALL, Init(SMALL, 16), UNASKED) && HonestRun(SMALL, Init(SMALL, 16), UNASKED)
    ensures var s := Exec(SMALL, Init(SMALL, 16), UNASKED);
            var s' := Next(SMALL, s, Reload(16));
            0 < |s.tasks| == |s'.tasks| && Effort(s'.tasks[0]) < Effort(s.tasks[0])
  {
    UnaskedRuns();
    CrashBeforeCheckpoint(SMALL, UNASKED, 16, 0);
  }
}
