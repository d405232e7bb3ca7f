/**
 The scheduler never wedges itself: from every state its invariant allows, crashed and reloaded ones included,
 there is a continuation of honest steps that ends the sync. A rank falls with every few steps chosen.
 */
module SyncCompletion {
  import opened Sums
  import opened SyncModel
  import opened SyncInvariant
  import opened SyncRuns

  // ---------------------------------------------------------------- rank

  function FlightRank(st: SubTask): int { if st.flight.Requested? || st.flight.Applied? then 1 else 0 }

  function Unfilled(e: SubEmptyTask): int { if e.done then 0 else 1 }

  function Rank(t: Task): int {
    2 * ToSync(t) + Sum(t.subTasks, FlightRank) + ToFill(t) + Sum(t.subEmptyTasks, Unfilled) + FillThreads(t)
  }

  function TotalRank(s: Client): int { Sum(s.tasks, Rank) }

  lemma RankNonNegative(t: Task, stored: set<nat>, settled: set<nat>)
    requires TaskInv(t, stored, settled)
    ensures Rank(t) >= 0
  {
    forall i | 0 <= i < |t.subTasks| ensures Width(t.subTasks[i]) >= 0 { assert SubOk(t.goal, t.subTasks[i], stored); }
    forall i | 0 <= i < |t.subEmptyTasks| ensures EmptyWidth(t.subEmptyTasks[i]) >= 0 {
      assert EmptyOk(t.goal, t.subEmptyTasks[i], settled);
    }
    SumNonNegative(t.subTasks, Width);
    SumNonNegative(t.subTasks, FlightRank);
    SumNonNegative(t.subEmptyTasks, EmptyWidth);
    SumNonNegative(t.subEmptyTasks, Unfilled);
    SumNonNegative(t.subEmptyTasks, IsFilling);
  }

  lemma TotalRankNonNegative(cfg: Config, s: Client)
    requires Inv(cfg, s)
    ensures TotalRank(s) >= 0
  {
    forall i | 0 <= i < |s.tasks| ensures Rank(s.tasks[i]) >= 0 { RankNonNegative(s.tasks[i], s.stored, s.settled); }
    SumNonNegative(s.tasks, Rank);
  }

  // ---------------------------------------------------------------- composing runs

  /**
   A step that restarts nothing, and in which peers send single blobs that are asked for and fills get to their end.
   */
  predicate Plain(s: Client, step: Step) {
    match step
    case RangeStore(_, _, inserted) => |inserted| == 1
    case ListStore(t, inserted) => t < |s.tasks| && |inserted| == 1 && inserted[0] in s.tasks[t].heal
    case EmptyStore(t, i, next) =>
      && HasEmpty(s, t, i) && s.tasks[t].subEmptyTasks[i].flight.Filling?
      && next == s.tasks[t].subEmptyTasks[i].flight.limit + 1
    case Reload(_) => false
    case _ => true
  }

  /** A run of plain steps that can be taken and is honest. */
  predicate Good(cfg: Config, s: Client, run: seq<Step>)
    decreases |run|
  {
    run != [] ==>
      && Enabled(cfg, s, run[0]) && Honest(s, run[0]) && Plain(s, run[0])
      && Good(cfg, Next(cfg, s, run[0]), run[1..])
  }

  function After(cfg: Config, s: Client, run: seq<Step>): Client
    requires Good(cfg, s, run)
    decreases |run|
  {
    if run == [] then s else After(cfg, Next(cfg, s, run[0]), run[1..])
  }

  lemma {:induction false} GoodIsLegal(cfg: Config, s: Client, run: seq<Step>)
    requires Good(cfg, s, run)
    ensures Legal(cfg, s, run) && HonestRun(cfg, s, run) && After(cfg, s, run) == Exec(cfg, s, run)
    decreases |run|
  {
    if run != [] { GoodIsLegal(cfg, Next(cfg, s, run[0]), run[1..]); }
  }

  /** A good run, by its first step. */
  lemma GoodByFirst(cfg: Config, s: Client, run: seq<Step>, first: Step, rest: seq<Step>)
    requires run != [] && first == run[0] && rest == run[1..]
    ensures Good(cfg, s, run) <==>
            Enabled(cfg, s, first) && Honest(s, first) && Plain(s, first) && Good(cfg, Next(cfg, s, first), rest)
    ensures Good(cfg, s, run) ==> After(cfg, s, run) == After(cfg, Next(cfg, s, first), rest)
  {
  }

  lemma {:induction false} Compose(cfg: Config, s: Client, a: seq<Step>, b: seq<Step>)
    requires Good(cfg, s, a) && Good(cfg, After(cfg, s, a), b)
    ensures Good(cfg, s, a + b) && After(cfg, s, a + b) == After(cfg, After(cfg, s, a), b)
    decreases |a|
  {
    if a == [] {
      assert a + b == b;
    } else {
      var first, rest := a[0], a[1..];
      GoodByFirst(cfg, s, a, first, rest);
      Compose(cfg, Next(cfg, s, first), rest, b);
      assert (a + b)[1..] == rest + b;
      GoodByFirst(cfg, s, a + b, first, rest + b);
    }
  }

  lemma One(cfg: Config, s: Client, step: Step)
    requires Enabled(cfg, s, step) && Honest(s, step) && Plain(s, step)
    ensures Good(cfg, s, [step]) && After(cfg, s, [step]) == Next(cfg, s, step)
  {
    GoodByFirst(cfg, s, [step], step, []);
  }

  lemma Two(cfg: Config, s: Client, a: Step, b: Step)
    requires Enabled(cfg, s, a) && Honest(s, a) && Plain(s, a)
    requires Enabled(cfg, Next(cfg, s, a), b) && Honest(Next(cfg, s, a), b) && Plain(Next(cfg, s, a), b)
    ensures Good(cfg, s, [a, b]) && After(cfg, s, [a, b]) == Next(cfg, Next(cfg, s, a), b)
  {
    One(cfg, s, a);
    One(cfg, Next(cfg, s, a), b);
    Compose(cfg, s, [a], [b]);
    assert [a] + [b] == [a, b];
  }

  /** The run only changes task t, and lowers its rank. */
  ghost predicate Lowers(cfg: Config, s: Client, run: seq<Step>) {
    Good(cfg, s, run) && TotalRank(After(cfg, s, run)) < TotalRank(s)
  }

  lemma LowersIf(cfg: Config, s: Client, run: seq<Step>, t: nat, task: Task)
    requires Good(cfg, s, run) && t < |s.tasks|
    requires After(cfg, s, run).tasks == s.tasks[t := task] && Rank(task) < Rank(s.tasks[t])
    ensures Lowers(cfg, s, run)
  {
    SumUpdate(s.tasks, t, task, Rank);
  }

  // ---------------------------------------------------------------- sub-tasks

  lemma FlightChange(t: Task, i: nat, f: Flight)
    requires i < |t.subTasks|
    ensures Rank(SetFlight(t, i, f)) == Rank(t) - FlightRank(t.subTasks[i]) + FlightRank(t.subTasks[i].(flight := f))
  {
    var st := t.subTasks[i].(flight := f);
    SumUpdate(t.subTasks, i, st, Width);
    SumUpdate(t.subTasks, i, st, FlightRank);
  }

  lemma ApplyRank(t: Task, i: nat, stored: set<nat>, settled: set<nat>)
    requires TaskInv(t, stored, settled) && i < |t.subTasks| && t.subTasks[i].flight.Stored?
    ensures |t.subTasks[i].flight.inserted| > 0
    ensures Rank(ApplyRange(t, i)) <= Rank(t) - 1
  {
    assert SubOk(t.goal, t.subTasks[i], stored);
    var ins := t.subTasks[i].flight.inserted;
    ApplyRangeMeasure(t, i, stored, settled);
    assert ins[0] in Elements(ins);
    assert Elements(ins) != {};
    SumUpdate(t.subTasks, i, ApplyRange(t, i).subTasks[i], FlightRank);
  }

  /** A sub-task with a goroutine: let it end, or let its reply be recorded. */
  lemma EndFlight(cfg: Config, s: Client, t: nat, i: nat) returns (run: seq<Step>)
    requires Inv(cfg, s) && HasSub(s, t, i) && !s.tasks[t].subTasks[i].flight.Idle?
    ensures Lowers(cfg, s, run)
  {
    var task, f := s.tasks[t], s.tasks[t].subTasks[i].flight;
    var step;
    if f.Stored? {
      step := RangeApply(t, i);
      ApplyRank(task, i, s.stored, s.settled);
    } else {
      step := if f.Requested? then RangeFailed(t, i) else RangeEnd(t, i);
      FlightChange(task, i, Idle);
    }
    run := [step];
    One(cfg, s, step);
    LowersIf(cfg, s, run, t, Next(cfg, s, step).tasks[t]);
  }

  lemma AskStep(cfg: Config, s: Client, t: nat, i: nat)
    requires HasSub(s, t, i)
    requires var st := s.tasks[t].subTasks[i]; st.flight.Idle? && !st.done && st.next < st.last
    ensures var a, next := AssignRange(t, i, 1), s.tasks[t].subTasks[i].next;
            && Enabled(cfg, s, a) && Honest(s, a) && Plain(s, a)
            && Next(cfg, s, a).tasks == s.tasks[t := SetFlight(s.tasks[t], i, Requested(next, next))]
  {
  }

  lemma ReplyStep(cfg: Config, s: Client, t: nat, i: nat, x: nat)
    requires HasSub(s, t, i) && s.tasks[t].subTasks[i].flight == Requested(x, x) && s.tasks[t].subTasks[i].next == x
    ensures var a := RangeStore(t, i, [x]);
            && Enabled(cfg, s, a) && Honest(s, a) && Plain(s, a)
            && Next(cfg, s, a).tasks == s.tasks[t := SetFlight(s.tasks[t], i, Stored(x, x, [x]))]
  {
    DistinctLosesNothing([x], x);
  }

  lemma RecordStep(cfg: Config, s: Client, t: nat, i: nat)
    requires HasSub(s, t, i)
    requires var f := s.tasks[t].subTasks[i].flight; f.Stored? && |f.inserted| > 0
    ensures var a := RangeApply(t, i);
            && Enabled(cfg, s, a) && Honest(s, a) && Plain(s, a)
            && Next(cfg, s, a).tasks == s.tasks[t := ApplyRange(s.tasks[t], i)]
  {
  }

  lemma FlightTwice(t: Task, i: nat, f: Flight, g: Flight)
    requires i < |t.subTasks|
    ensures SetFlight(SetFlight(t, i, f), i, g) == SetFlight(t, i, g)
  {
  }

  /** The shard after its sub-task i has asked for one blob and got it. */
  function Fetched(t: Task, i: nat): Task
    requires i < |t.subTasks|
  {
    var x := t.subTasks[i].next;
    ApplyRange(SetFlight(t, i, Stored(x, x, [x])), i)
  }

  lemma FetchedRank(t: Task, i: nat, stored: set<nat>, settled: set<nat>)
    requires TaskInv(t, stored, settled) && i < |t.subTasks|
    requires t.subTasks[i].flight.Idle? && !t.subTasks[i].done
    ensures t.subTasks[i].next < t.subTasks[i].last && Rank(Fetched(t, i)) < Rank(t)
  {
    assert SubOk(t.goal, t.subTasks[i], stored);
    var x := t.subTasks[i].next;
    var f := Stored(x, x, [x]);
    InvMonotone(t, stored, settled, stored + {x}, settled);
    FlightInv(t, i, f, stored + {x}, settled);
    FlightChange(t, i, f);
    ApplyRank(SetFlight(t, i, f), i, stored + {x}, settled);
  }

  /** An idle sub-task: request one blob, receive it and record it. */
  lemma AskForOne(cfg: Config, s: Client, t: nat, i: nat, x: nat)
    requires HasSub(s, t, i)
    requires var st := s.tasks[t].subTasks[i]; st.flight.Idle? && !st.done && x == st.next < st.last
    ensures var run := [AssignRange(t, i, 1), RangeStore(t, i, [x])] + [RangeApply(t, i)];
            Good(cfg, s, run) && After(cfg, s, run).tasks == s.tasks[t := Fetched(s.tasks[t], i)]
  {
    var ask := [AssignRange(t, i, 1), RangeStore(t, i, [x])];
    AskStep(cfg, s, t, i);
    var s1 := Next(cfg, s, ask[0]);
    ReplyStep(cfg, s1, t, i, x);
    Two(cfg, s, ask[0], ask[1]);
    var s2 := Next(cfg, s1, ask[1]);
    FlightTwice(s.tasks[t], i, Requested(x, x), Stored(x, x, [x]));
    RecordStep(cfg, s2, t, i);
    One(cfg, s2, RangeApply(t, i));
    Compose(cfg, s, ask, [RangeApply(t, i)]);
  }

  lemma FetchOne(cfg: Config, s: Client, t: nat, i: nat) returns (run: seq<Step>)
    requires Inv(cfg, s) && HasSub(s, t, i) && s.tasks[t].subTasks[i].flight.Idle? && !s.tasks[t].subTasks[i].done
    ensures Lowers(cfg, s, run)
  {
    assert TaskInv(s.tasks[t], s.stored, s.settled);
    FetchedRank(s.tasks[t], i, s.stored, s.settled);
    var x := s.tasks[t].subTasks[i].next;
    AskForOne(cfg, s, t, i, x);
    run := [AssignRange(t, i, 1), RangeStore(t, i, [x])] + [RangeApply(t, i)];
    LowersIf(cfg, s, run, t, Fetched(s.tasks[t], i));
  }

  /** Heal one index by a list reply. */
  lemma HealOne(cfg: Config, s: Client, t: nat, h: nat) returns (run: seq<Step>)
    requires Inv(cfg, s) && t < |s.tasks| && h in s.tasks[t].heal
    ensures Lowers(cfg, s, run)
  {
    var a, b := ListStore(t, [h]), ListApply(|s.lists|);
    run := [a, b];
    var s1 := Next(cfg, s, a);
    assert s1.lists[|s.lists|] == ListReply(t, [h]);
    Two(cfg, s, a, b);
    var task := ApplyList(s.tasks[t], [h]);
    assert Elements([h]) == {h};
    assert |s.tasks[t].heal - {h}| == |s.tasks[t].heal| - 1;
    LowersIf(cfg, s, run, t, task);
  }

  // ---------------------------------------------------------------- empty ranges

  lemma EmptyRank(t: Task, i: nat, e: SubEmptyTask, filled: nat)
    requires i < |t.subEmptyTasks|
    ensures var o := t.subEmptyTasks[i];
            Rank(t.(subEmptyTasks := t.subEmptyTasks[i := e], emptyFilled := filled))
            == Rank(t) + (EmptyWidth(e) - EmptyWidth(o)) + (Unfilled(e) - Unfilled(o)) + (IsFilling(e) - IsFilling(o))
  {
    SumUpdate(t.subEmptyTasks, i, e, EmptyWidth);
    SumUpdate(t.subEmptyTasks, i, e, Unfilled);
    SumUpdate(t.subEmptyTasks, i, e, IsFilling);
  }

  /** The shard after a running fill has got to its end. */
  function FillEnded(t: Task, i: nat): Task
    requires i < |t.subEmptyTasks| && t.subEmptyTasks[i].flight.Filling?
    requires t.subEmptyTasks[i].flight.start <= t.subEmptyTasks[i].flight.limit + 1
  {
    var f := t.subEmptyTasks[i].flight;
    ApplyEmpty(SetEmptyFlight(t, i, Filled(f.start, f.limit, f.limit + 1)), i)
  }

  lemma FillEndedRank(t: Task, i: nat, stored: set<nat>, settled: set<nat>)
    requires TaskInv(t, stored, settled) && i < |t.subEmptyTasks| && t.subEmptyTasks[i].flight.Filling?
    ensures var f := t.subEmptyTasks[i].flight;
            && f.start <= f.limit + 1 && (f.start == f.limit + 1 ==> f.start == t.subEmptyTasks[i].first)
            && Rank(FillEnded(t, i)) == Rank(t) - 1 - (f.limit + 1 - f.start)
                                        - (if f.limit + 1 == t.subEmptyTasks[i].last then 1 else 0)
  {
    assert EmptyOk(t.goal, t.subEmptyTasks[i], settled);
    var f := t.subEmptyTasks[i].flight;
    var t1 := SetEmptyFlight(t, i, Filled(f.start, f.limit, f.limit + 1));
    EmptyRank(t, i, t1.subEmptyTasks[i], t.emptyFilled);
    EmptyRank(t1, i, FillEnded(t, i).subEmptyTasks[i], FillEnded(t, i).emptyFilled);
  }

  lemma StoreStep(cfg: Config, s: Client, t: nat, i: nat, next: nat)
    requires HasEmpty(s, t, i) && s.tasks[t].subEmptyTasks[i].flight.Filling?
    requires var f := s.tasks[t].subEmptyTasks[i].flight; f.start <= next == f.limit + 1
    ensures var f, a := s.tasks[t].subEmptyTasks[i].flight, EmptyStore(t, i, next);
            && Enabled(cfg, s, a) && Honest(s, a) && Plain(s, a)
            && Next(cfg, s, a).tasks == s.tasks[t := SetEmptyFlight(s.tasks[t], i, Filled(f.start, f.limit, next))]
  {
  }

  lemma ApplyStep(cfg: Config, s: Client, t: nat, i: nat)
    requires HasEmpty(s, t, i) && s.tasks[t].subEmptyTasks[i].flight.Filled?
    requires var f := s.tasks[t].subEmptyTasks[i].flight; f.start <= f.next
    ensures var a := EmptyApply(t, i);
            && Enabled(cfg, s, a) && Honest(s, a) && Plain(s, a)
            && Next(cfg, s, a).tasks == s.tasks[t := ApplyEmpty(s.tasks[t], i)]
  {
  }

  /** A running fill: let it get to its end. */
  lemma EndFilling(cfg: Config, s: Client, t: nat, i: nat, limit: nat)
    requires HasEmpty(s, t, i) && s.tasks[t].subEmptyTasks[i].flight.Filling?
    requires var f := s.tasks[t].subEmptyTasks[i].flight; f.limit == limit && f.start <= limit + 1
    ensures var run := [EmptyStore(t, i, limit + 1), EmptyApply(t, i)];
            Good(cfg, s, run) && After(cfg, s, run).tasks == s.tasks[t := FillEnded(s.tasks[t], i)]
  {
    StoreStep(cfg, s, t, i, limit + 1);
    var s1 := Next(cfg, s, EmptyStore(t, i, limit + 1));
    ApplyStep(cfg, s1, t, i);
    Two(cfg, s, EmptyStore(t, i, limit + 1), EmptyApply(t, i));
  }

  /** A fill in progress: let it end. */
  lemma EndFill(cfg: Config, s: Client, t: nat, i: nat) returns (run: seq<Step>)
    requires Inv(cfg, s) && HasEmpty(s, t, i) && !s.tasks[t].subEmptyTasks[i].flight.Parked?
    ensures Lowers(cfg, s, run)
  {
    var task, e := s.tasks[t], s.tasks[t].subEmptyTasks[i];
    assert TaskInv(task, s.stored, s.settled) && EmptyOk(task.goal, e, s.settled);
    if e.flight.Filled? {
      run := EndFilled(cfg, s, t, i);
    } else {
      run := [EmptyStore(t, i, e.flight.limit + 1), EmptyApply(t, i)];
      EndFilling(cfg, s, t, i, e.flight.limit);
      FillEndedRank(task, i, s.stored, s.settled);
      LowersIf(cfg, s, run, t, FillEnded(task, i));
    }
  }

  lemma EndFilled(cfg: Config, s: Client, t: nat, i: nat) returns (run: seq<Step>)
    requires HasEmpty(s, t, i) && s.tasks[t].subEmptyTasks[i].flight.Filled?
    requires EmptyOk(s.tasks[t].goal, s.tasks[t].subEmptyTasks[i], s.settled)
    ensures Lowers(cfg, s, run)
  {
    var task := s.tasks[t];
    run := [EmptyApply(t, i)];
    ApplyStep(cfg, s, t, i);
    One(cfg, s, EmptyApply(t, i));
    EmptyRank(task, i, ApplyEmpty(task, i).subEmptyTasks[i], ApplyEmpty(task, i).emptyFilled);
    LowersIf(cfg, s, run, t, ApplyEmpty(task, i));
  }

  /** A fill that is started and then gets to its end. */
  lemma FillNextRank(t: Task, i: nat, stored: set<nat>, settled: set<nat>)
    requires TaskInv(t, stored, settled) && i < |t.subEmptyTasks|
    requires t.subEmptyTasks[i].flight.Parked? && !t.subEmptyTasks[i].done
    ensures t.subEmptyTasks[i].last > 0
    ensures var t1 := AssignEmpty(t, i);
            var f := t1.subEmptyTasks[i].flight;
            f.start <= f.limit + 1 && Rank(FillEnded(t1, i)) < Rank(t)
  {
    assert EmptyOk(t.goal, t.subEmptyTasks[i], settled);
    AssignEmptyInv(t, i, stored, settled);
    var t1 := AssignEmpty(t, i);
    EmptyRank(t, i, t1.subEmptyTasks[i], t.emptyFilled);
    FillEndedRank(t1, i, stored, settled);
  }

  /** A parked range with no fill running anywhere: fill its next stretch. */
  lemma FillNext(cfg: Config, s: Client, t: nat, i: nat) returns (run: seq<Step>)
    requires Inv(cfg, s) && HasEmpty(s, t, i) && s.threads == 0
    requires s.tasks[t].subEmptyTasks[i].flight.Parked? && !s.tasks[t].subEmptyTasks[i].done
    ensures Lowers(cfg, s, run)
  {
    assert TaskInv(s.tasks[t], s.stored, s.settled);
    FillNextRank(s.tasks[t], i, s.stored, s.settled);
    run := FillFrom(cfg, s, t, i);
    LowersIf(cfg, s, run, t, FillEnded(AssignEmpty(s.tasks[t], i), i));
  }

  lemma StartStep(cfg: Config, s: Client, t: nat, i: nat)
    requires HasEmpty(s, t, i) && s.threads < cfg.fillThreads
    requires var e := s.tasks[t].subEmptyTasks[i]; e.flight.Parked? && !e.done && e.last > 0
    ensures var a := EmptyAssign(t, i);
            && Enabled(cfg, s, a) && Honest(s, a) && Plain(s, a)
            && Next(cfg, s, a).tasks == s.tasks[t := AssignEmpty(s.tasks[t], i)]
  {
  }

  lemma FillFrom(cfg: Config, s: Client, t: nat, i: nat) returns (run: seq<Step>)
    requires HasEmpty(s, t, i) && s.threads < cfg.fillThreads
    requires var e := s.tasks[t].subEmptyTasks[i]; e.flight.Parked? && !e.done && e.last > 0
    requires var f := AssignEmpty(s.tasks[t], i).subEmptyTasks[i].flight; f.Filling? && f.start <= f.limit + 1
    ensures Good(cfg, s, run)
    ensures After(cfg, s, run).tasks == s.tasks[t := FillEnded(AssignEmpty(s.tasks[t], i), i)]
  {
    var a, limit := EmptyAssign(t, i), AssignEmpty(s.tasks[t], i).subEmptyTasks[i].flight.limit;
    StartStep(cfg, s, t, i);
    One(cfg, s, a);
    var s1 := Next(cfg, s, a);
    EndFilling(cfg, s1, t, i, limit);
    Compose(cfg, s, [a], [EmptyStore(t, i, limit + 1), EmptyApply(t, i)]);
    run := [a] + [EmptyStore(t, i, limit + 1), EmptyApply(t, i)];
  }

  lemma {:induction false} FindPositive<T>(s: seq<T>, f: T -> int) returns (i: nat)
    requires Sum(s, f) > 0
    ensures i < |s| && f(s[i]) > 0
  {
    if f(s[0]) > 0 {
      i := 0;
    } else {
      var j := FindPositive(s[1..], f);
      i := j + 1;
    }
  }

  // ---------------------------------------------------------------- the result

  /** Nothing of the shard is in flight or outstanding. */
  predicate Quiet(t: Task) {
    && (forall i :: 0 <= i < |t.subTasks| ==> t.subTasks[i].done && t.subTasks[i].flight.Idle?)
    && t.heal == {}
    && (forall i :: 0 <= i < |t.subEmptyTasks| ==> t.subEmptyTasks[i].done)
  }

  lemma Advance(cfg: Config, s: Client, t: nat) returns (run: seq<Step>)
    requires Inv(cfg, s) && t < |s.tasks| && !Quiet(s.tasks[t])
    ensures Lowers(cfg, s, run)
  {
    var task := s.tasks[t];
    if i :| 0 <= i < |task.subTasks| && !task.subTasks[i].flight.Idle? {
      run := EndFlight(cfg, s, t, i);
    } else if i :| 0 <= i < |task.subTasks| && !task.subTasks[i].done {
      run := FetchOne(cfg, s, t, i);
    } else if h :| h in task.heal {
      run := HealOne(cfg, s, t, h);
    } else if s.threads > 0 {
      var u := FindPositive(s.tasks, FillThreads);
      var j := FindPositive(s.tasks[u].subEmptyTasks, IsFilling);
      run := EndFill(cfg, s, u, j);
    } else {
      forall j | 0 <= j < |s.tasks| ensures FillThreads(s.tasks[j]) >= 0 {
        SumNonNegative(s.tasks[j].subEmptyTasks, IsFilling);
      }
      SumNonNegative(s.tasks, FillThreads);
      SumNonNegative(task.subEmptyTasks, IsFilling);
      var i :| 0 <= i < |task.subEmptyTasks| && !task.subEmptyTasks[i].done;
      assert IsFilling(task.subEmptyTasks[i]) <= 0;
      run := FillNext(cfg, s, t, i);
    }
  }

  lemma {:induction false} QuietSubsClean(subs: seq<SubTask>)
    requires forall i :: 0 <= i < |subs| ==> subs[i].done
    ensures CleanSubs(subs, {}) == []
  {
    if subs != [] {
      assert forall i :: 0 <= i < |subs[1..]| ==> subs[1..][i] == subs[i + 1];
      QuietSubsClean(subs[1..]);
    }
  }

  lemma {:induction false} DoneEmptiesClean(es: seq<SubEmptyTask>)
    requires forall i :: 0 <= i < |es| ==> es[i].done
    ensures CleanEmpties(es) == []
  {
    if es != [] {
      assert forall i :: 0 <= i < |es[1..]| ==> es[1..][i] == es[i + 1];
      DoneEmptiesClean(es[1..]);
    }
  }

  predicate AllDone(s: Client) { forall t :: 0 <= t < |s.tasks| ==> s.tasks[t].done }

  lemma QuietMeansDone(cfg: Config, s: Client)
    requires Inv(cfg, s) && forall t :: 0 <= t < |s.tasks| ==> Quiet(s.tasks[t])
    ensures Good(cfg, s, [Clean]) && After(cfg, s, [Clean]).syncDone && AllDone(After(cfg, s, [Clean]))
  {
    One(cfg, s, Clean);
    forall t | 0 <= t < |s.tasks| ensures Finished(CleanTask(s.tasks[t])) {
      assert Quiet(s.tasks[t]);
      QuietSubsClean(s.tasks[t].subTasks);
      DoneEmptiesClean(s.tasks[t].subEmptyTasks);
    }
  }

  /** From every state the invariant allows, some honest continuation without a restart ends the sync. */
  lemma {:induction false} CanAlwaysFinish(cfg: Config, s: Client) returns (run: seq<Step>)
    requires Inv(cfg, s)
    ensures Good(cfg, s, run) && After(cfg, s, run).syncDone && AllDone(After(cfg, s, run))
    decreases TotalRank(s)
  {
    TotalRankNonNegative(cfg, s);
    if t :| 0 <= t < |s.tasks| && !Quiet(s.tasks[t]) {
      var a := Advance(cfg, s, t);
      GoodIsLegal(cfg, s, a);
      RunInv(cfg, s, a);
      TotalRankNonNegative(cfg, After(cfg, s, a));
      var b := CanAlwaysFinish(cfg, After(cfg, s, a));
      Compose(cfg, s, a, b);
      run := a + b;
    } else {
      QuietMeansDone(cfg, s);
      run := [Clean];
    }
  }

  // ---------------------------------------------------------------- announcements

  /** A shard that is marked as done has been announced. */
  predicate DoneAnnounced(s: Client) {
    forall t :: 0 <= t < |s.tasks| && s.tasks[t].done ==> s.tasks[t].goal in s.announced
  }

  lemma DoneAnnouncedStep(cfg: Config, s: Client, step: Step)
    requires DoneAnnounced(s) && Enabled(cfg, s, step)
    ensures DoneAnnounced(Next(cfg, s, step))
  {
    var s' := Next(cfg, s, step);
    forall t | 0 <= t < |s'.tasks| && s'.tasks[t].done ensures s'.tasks[t].goal in s'.announced {
      if step.Clean? && !s.tasks[t].done { assert s.tasks[t].goal in Announce(s.tasks); }
    }
  }

  lemma {:induction false} DoneAnnouncedRun(cfg: Config, s: Client, run: seq<Step>)
    requires DoneAnnounced(s) && Legal(cfg, s, run)
    ensures DoneAnnounced(Exec(cfg, s, run))
    decreases |run|
  {
    if run != [] {
      DoneAnnouncedStep(cfg, s, run[0]);
      DoneAnnouncedRun(cfg, Next(cfg, s, run[0]), run[1..]);
    }
  }
}
