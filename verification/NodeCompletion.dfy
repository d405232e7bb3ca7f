/**
 Client and storage manager together never get stuck: from every state that a node can reach, fetches of metas, single
 blobs from peers and empty fills end the sync, and every shard is announced.
 */
module NodeCompletion {
  import opened Bytes
  import opened Disk
  import opened Options
  import opened SyncModel
  import opened SyncInvariant
  import opened StorageView
  import C = SyncRuns
  import S = SyncCompletion
  import M = StorageRuns
  import D = StorageData
  import opened NodeRuns

  // ---------------------------------------------------------------- the shards of the node

  /** The goal is one for the shard; where its empty range begins does not matter. */
  predicate GoalOn(g: Goal, shard: nat, kvEntries: nat) {
    g.shard == shard && g.lo == kvEntries * shard && g.hi == kvEntries * (shard + 1)
  }

  /** Task i is for shard i of the configuration, and so is what is saved for it. */
  predicate ShardGoals(cfg: C.Config, c: C.Client) {
    && |c.tasks| == |cfg.shards|
       && (forall i :: 0 <= i < |c.tasks| ==> GoalOn(c.tasks[i].goal, cfg.shards[i], cfg.kvEntries))
    && (c.checkpoint.Checkpoint? ==>
          && |c.checkpoint.tasks| == |cfg.shards|
          && forall i :: 0 <= i < |cfg.shards| ==> GoalOn(c.checkpoint.tasks[i].goal, cfg.shards[i], cfg.kvEntries))
  }

  lemma FreshGoals(cfg: C.Config, lastKvIndex: nat, i: nat)
    requires cfg.Valid() && i < |cfg.shards|
    ensures GoalOn(C.FreshTasks(cfg, lastKvIndex)[i].goal, cfg.shards[i], cfg.kvEntries)
  {
  }

  lemma ShardGoalsStep(cfg: C.Config, c: C.Client, step: C.Step)
    requires ShardGoals(cfg, c) && C.Enabled(cfg, c, step)
    ensures ShardGoals(cfg, C.Next(cfg, c, step))
  {
    var c' := C.Next(cfg, c, step);
    forall i | 0 <= i < |c'.tasks| ensures i < |cfg.shards| && GoalOn(c'.tasks[i].goal, cfg.shards[i], cfg.kvEntries) {
      if step.Reload? {
        if c.checkpoint.NoCheckpoint? { FreshGoals(cfg, step.lastKvIndex, i); }
      } else {
        assert c'.tasks[i].goal == c.tasks[i].goal;
      }
    }
  }

  /** Every index of every shard has its place in the files. */
  ghost predicate AllLocal(cfg: C.Config, m: Manager) {
    forall i, x: nat :: 0 <= i < |cfg.shards| && InShard(cfg.shards[i], cfg.kvEntries, x) ==> x in m.disk
  }

  /** Encoded empty blobs fit, and so do the blobs that peers have. */
  ghost predicate Fitting(u: M.Setup, blob: nat -> Data) {
    forall x: nat :: |u.enc(x)| <= u.kvSize && |blob(x)| <= u.kvSize
  }

  ghost predicate Ready(cfg: C.Config, u: M.Setup, s: Node, blob: nat -> Data) {
    Inv(cfg, u, s) && ShardGoals(cfg, s.client) && S.DoneAnnounced(s.client) && AllLocal(cfg, s.view.m)
      && Fitting(u, blob)
  }

  // ---------------------------------------------------------------- runs

  /** Neither restarts nor new blocks; fetches, single blobs that peers have, fills and the client's own steps. */
  predicate Calm(step: Step, blob: nat -> Data) {
    match step
    case Client(cs) => true
    case Chain(ms) => ms.StartFetch? || ms.FinishFetch?
    case PeerRange(_, _, blobs) => |blobs| == 1 && blobs[0].data == blob(blobs[0].kv)
    case PeerList(_, blobs) => |blobs| == 1 && blobs[0].data == blob(blobs[0].kv)
    case FillRange(_, _, _) => true
    case Restart(_) => false
  }

  predicate AllCalm(run: seq<Step>, blob: nat -> Data) { forall i :: 0 <= i < |run| ==> Calm(run[i], blob) }

  ghost predicate Takes(cfg: C.Config, u: M.Setup, s: Node, step: Step, next: Node) {
    Enabled(cfg, u, s, step) && Honest(u, s, step) && next == Next(cfg, u, s, step)
  }

  /** The states that a run goes through. */
  ghost predicate Path(cfg: C.Config, u: M.Setup, states: seq<Node>, run: seq<Step>) {
    |states| == |run| + 1 && forall i :: 0 <= i < |run| ==> Takes(cfg, u, states[i], run[i], states[i + 1])
  }

  ghost predicate CalmRun(cfg: C.Config, u: M.Setup, s: Node, run: seq<Step>, s': Node, blob: nat -> Data) {
    AllCalm(run, blob) && exists states :: Path(cfg, u, states, run) && states[0] == s && states[|run|] == s'
  }

  lemma CalmNone(cfg: C.Config, u: M.Setup, s: Node, blob: nat -> Data)
    ensures CalmRun(cfg, u, s, [], s, blob)
  {
    assert Path(cfg, u, [s], []);
  }

  lemma CalmOne(cfg: C.Config, u: M.Setup, s: Node, step: Step, blob: nat -> Data)
    requires Enabled(cfg, u, s, step) && Honest(u, s, step) && Calm(step, blob)
    ensures CalmRun(cfg, u, s, [step], Next(cfg, u, s, step), blob)
  {
    assert Path(cfg, u, [s, Next(cfg, u, s, step)], [step]);
  }

  lemma PathThen(cfg: C.Config, u: M.Setup, p: seq<Node>, a: seq<Step>, q: seq<Node>, b: seq<Step>)
    requires Path(cfg, u, p, a) && Path(cfg, u, q, b) && q[0] == p[|a|]
    ensures Path(cfg, u, p + q[1..], a + b)
  {
    var states, run := p + q[1..], a + b;
    forall i | 0 <= i < |run| ensures Takes(cfg, u, states[i], run[i], states[i + 1]) {
      if i < |a| {
        assert Takes(cfg, u, p[i], a[i], p[i + 1]);
      } else {
        assert states[i] == q[i - |a|] && states[i + 1] == q[i - |a| + 1];
        assert Takes(cfg, u, q[i - |a|], b[i - |a|], q[i - |a| + 1]);
      }
    }
  }

  lemma CalmThen(cfg: C.Config, u: M.Setup, s: Node, a: seq<Step>, s1: Node, b: seq<Step>, s2: Node, blob: nat -> Data)
    requires CalmRun(cfg, u, s, a, s1, blob) && CalmRun(cfg, u, s1, b, s2, blob)
    ensures CalmRun(cfg, u, s, a + b, s2, blob)
  {
    var p :| Path(cfg, u, p, a) && p[0] == s && p[|a|] == s1;
    var q :| Path(cfg, u, q, b) && q[0] == s1 && q[|b|] == s2;
    PathThen(cfg, u, p, a, q, b);
    var states := p + q[1..];
    assert Path(cfg, u, states, a + b) && states[0] == s && states[|a + b|] == s2;
  }

  lemma {:induction false} PathReaches(cfg: C.Config, u: M.Setup, states: seq<Node>, run: seq<Step>)
    requires Path(cfg, u, states, run)
    ensures Reaches(cfg, u, states[0], run, states[|run|])
    decreases |run|
  {
    if run != [] {
      PathTail(cfg, u, states, run);
      PathReaches(cfg, u, states[1..], run[1..]);
    }
  }

  lemma PathTail(cfg: C.Config, u: M.Setup, states: seq<Node>, run: seq<Step>)
    requires Path(cfg, u, states, run) && run != []
    ensures Path(cfg, u, states[1..], run[1..]) && Takes(cfg, u, states[0], run[0], states[1])
  {
    forall i | 0 <= i < |run[1..]| ensures Takes(cfg, u, states[1..][i], run[1..][i], states[1..][i + 1]) {
      assert Takes(cfg, u, states[i + 1], run[i + 1], states[i + 2]);
    }
  }

  lemma CalmReaches(cfg: C.Config, u: M.Setup, s: Node, run: seq<Step>, s': Node, blob: nat -> Data)
    requires CalmRun(cfg, u, s, run, s', blob)
    ensures Reaches(cfg, u, s, run, s') && AllCalm(run, blob)
  {
    var states :| Path(cfg, u, states, run) && states[0] == s && states[|run|] == s';
    PathReaches(cfg, u, states, run);
  }

  // ---------------------------------------------------------------- known metas

  /** Two steps of the manager after which the meta of an index is known; the client and the files are as before. */
  lemma FetchMeta(u: M.Setup, v: M.View, x: nat)
    requires M.Ok(u, v)
    ensures var v1 := M.Next(u, v, M.StartFetch(x, x + 1, 1));
            && |v1.m.fetches| == |v.m.fetches| + 1
            && var v2 := M.Next(u, v1, M.FinishFetch(|v.m.fetches|));
            && M.Ok(u, v2) && KvMeta(v2.m, x).Some? && v2.m.disk == v.m.disk && v2.peak == v.peak
            && v2.m.localL1 == v.m.localL1
  {
    var v1 := M.Next(u, v, M.StartFetch(x, x + 1, 1));
    M.StepInv(u, v, M.StartFetch(x, x + 1, 1));
    var j := |v.m.fetches|;
    assert v1.m.fetches[j] == Fetch(v.m.localL1, x, if x + 1 < v.m.kvEntryCount then x + 1 else v.m.kvEntryCount);
    M.StepInv(u, v1, M.FinishFetch(j));
    M.InstallAt(u.h, v1.m.blobMetas, v.m.localL1, x, v1.m.fetches[j].limit, x);
  }

  lemma KnowMeta(cfg: C.Config, u: M.Setup, s: Node, x: nat, blob: nat -> Data) returns (run: seq<Step>, s': Node)
    requires Ready(cfg, u, s, blob)
    ensures CalmRun(cfg, u, s, run, s', blob) && Ready(cfg, u, s', blob)
    ensures s'.client == s.client && KvMeta(s'.view.m, x).Some?
  {
    var a, b := Chain(M.StartFetch(x, x + 1, 1)), Chain(M.FinishFetch(|s.view.m.fetches|));
    FetchMeta(u, s.view, x);
    var s1 := Next(cfg, u, s, a);
    StepInv(cfg, u, s, a);
    s' := Next(cfg, u, s1, b);
    StepInv(cfg, u, s1, b);
    CalmOne(cfg, u, s, a, blob);
    CalmOne(cfg, u, s1, b, blob);
    CalmThen(cfg, u, s, [a], s1, [b], s', blob);
    run := [a] + [b];
  }

  // ---------------------------------------------------------------- one blob from a peer

  /** The blob that a peer has for an index, with the hash of the contract at the view. */
  ghost function PeerBlob(u: M.Setup, m: Manager, x: nat, blob: nat -> Data): Blob
    requires Genuine(u.h)
  {
    Blob(x, blob(x), ContractHash(u.h, m.localL1, x) + Zeros(META_SIZE - HASH_SIZE))
  }

  lemma HashSize(h: History, b: int, x: nat)
    requires Genuine(h)
    ensures |ContractHash(h, b, x)| == HASH_SIZE
  {
  }

  /** The manager accepts and reports it. */
  lemma PeerBlobReported(u: M.Setup, v: M.View, x: nat, blob: nat -> Data)
    requires M.Ok(u, v) && x in v.m.disk && KvMeta(v.m, x).Some? && |blob(x)| <= u.kvSize
    ensures BlobsOk([PeerBlob(u, v.m, x, blob)])
    ensures Reported(u, v.m, [PeerBlob(u, v.m, x, blob)]) == [x]
  {
    HashSize(u.h, v.m.localL1, x);
    var b := PeerBlob(u, v.m, x, blob);
    var blobs := [b];
    assert b.commit[..HASH_SIZE] == ContractHash(u.h, v.m.localL1, x);
    assert Kvs(blobs) == [x];
    GetKvMetasAt(v.m, [x]);
    MetasAreSized(v.m, [x]);
    var metas := GetKvMetas(v.m, [x]).value;
    assert KvMeta(v.m, [x][0]) == Some(metas[0]);
    M.MetaIsContracts(u.h, v.m, x);
    M.CommitEncodedInv(u.h, v.top, v.m, u.kvSize, x, b.data, b.commit, metas[0]);
    assert M.Acceptable(u.h, v.m, u.kvSize, x, b.data, b.commit);
    assert CommitUpTo(v.m, u.kvSize, blobs, metas, 0) == (v.m, []);
    assert CommitUpTo(v.m, u.kvSize, blobs, metas, 1) == CommitOne(v.m, u.kvSize, b, metas[0], v.m, []);
  }

  /** A step that is the client's step keeps the node ready. */
  lemma StepReady(cfg: C.Config, u: M.Setup, s: Node, step: Step, blob: nat -> Data)
    requires Ready(cfg, u, s, blob) && Enabled(cfg, u, s, step) && Honest(u, s, step) && Calm(step, blob)
             && !step.Chain?
    ensures Ready(cfg, u, Next(cfg, u, s, step), blob)
    ensures CalmRun(cfg, u, s, [step], Next(cfg, u, s, step), blob)
    ensures var cs := ClientStep(cfg, u, s, step);
            C.Enabled(cfg, s.client, cs) && Next(cfg, u, s, step).client == C.Next(cfg, s.client, cs)
  {
    StepInv(cfg, u, s, step);
    ClientStepEnabled(cfg, u, s, step);
    CalmOne(cfg, u, s, step, blob);
    ShardGoalsStep(cfg, s.client, ClientStep(cfg, u, s, step));
    S.DoneAnnouncedStep(cfg, s.client, ClientStep(cfg, u, s, step));
    KeysStay(cfg, u, s, step);
  }

  /** No step changes which indices are local. */
  lemma KeysStay(cfg: C.Config, u: M.Setup, s: Node, step: Step)
    requires Inv(cfg, u, s) && Enabled(cfg, u, s, step)
    ensures ViewAfter(u, s, step, cfg).m.disk.Keys == s.view.m.disk.Keys
  {
    match step
    case Client(_) =>
    case Chain(ms) => M.StepInv(u, s.view, ms);
    case PeerRange(_, _, blobs) => ReportedFilled(u, s, blobs);
    case PeerList(_, blobs) => ReportedFilled(u, s, blobs);
    case FillRange(t, i, countRead) =>
      var task := s.client.tasks[t];
      assert TaskInv(task, s.client.stored, s.client.settled);
      assert EmptyOk(task.goal, task.subEmptyTasks[i], s.client.settled);
      var f := task.subEmptyTasks[i].flight;
      FillPasses(u, s.view, countRead, f.start, f.limit);
    case Restart(_) => M.StepInv(u, s.view, M.Restart);
  }

  lemma LocalInTask(cfg: C.Config, s: Node, t: nat, x: nat)
    requires ShardGoals(cfg, s.client) && AllLocal(cfg, s.view.m) && t < |s.client.tasks|
    requires s.client.tasks[t].goal.lo <= x < s.client.tasks[t].goal.hi
    ensures x in s.view.m.disk
  {
    assert InShard(cfg.shards[t], cfg.kvEntries, x);
  }

  // ---------------------------------------------------------------- the client's steps as steps of the node

  /** What a node run has to do for a step of the client. */
  ghost predicate Lifts(cfg: C.Config, u: M.Setup, s: Node, c: C.Client, run: seq<Step>, s': Node, blob: nat -> Data) {
    CalmRun(cfg, u, s, run, s', blob) && Ready(cfg, u, s', blob) && s'.client == c
  }

  /** A blob of a range reply: know its meta, and let a peer send it. */
  lemma LiftRange(cfg: C.Config, u: M.Setup, s: Node, t: nat, i: nat, x: nat, blob: nat -> Data)
    returns (run: seq<Step>, s': Node)
    requires Ready(cfg, u, s, blob) && C.Enabled(cfg, s.client, C.RangeStore(t, i, [x]))
    ensures Lifts(cfg, u, s, C.Next(cfg, s.client, C.RangeStore(t, i, [x])), run, s', blob)
  {
    var a, s1 := KnowMeta(cfg, u, s, x, blob);
    InRange(cfg, s1, t, i, x);
    LocalInTask(cfg, s1, t, x);
    var step := PeerRange(t, i, [PeerBlob(u, s1.view.m, x, blob)]);
    RangeStep(cfg, u, s1, t, i, x, blob);
    StepReady(cfg, u, s1, step, blob);
    s' := Next(cfg, u, s1, step);
    CalmThen(cfg, u, s, a, s1, [step], s', blob);
    run := a + [step];
  }

  lemma RangeStep(cfg: C.Config, u: M.Setup, s: Node, t: nat, i: nat, x: nat, blob: nat -> Data)
    requires M.Ok(u, s.view) && x in s.view.m.disk && KvMeta(s.view.m, x).Some? && |blob(x)| <= u.kvSize
    requires C.Enabled(cfg, s.client, C.RangeStore(t, i, [x]))
    requires NothingLost([x], s.client.tasks[t].subTasks[i].next)
    ensures var step := PeerRange(t, i, [PeerBlob(u, s.view.m, x, blob)]);
            && Enabled(cfg, u, s, step) && Honest(u, s, step) && Calm(step, blob)
            && ClientStep(cfg, u, s, step) == C.RangeStore(t, i, [x])
  {
    PeerBlobReported(u, s.view, x, blob);
    assert x in [x];
  }

  /** The blob that is asked for lies in the shard, and its reply loses nothing. */
  lemma InRange(cfg: C.Config, s: Node, t: nat, i: nat, x: nat)
    requires C.Inv(cfg, s.client) && C.Enabled(cfg, s.client, C.RangeStore(t, i, [x]))
    ensures s.client.tasks[t].goal.lo <= x < s.client.tasks[t].goal.hi
    ensures NothingLost([x], s.client.tasks[t].subTasks[i].next)
  {
    var task := s.client.tasks[t];
    assert TaskInv(task, s.client.stored, s.client.settled);
    assert SubOk(task.goal, task.subTasks[i], s.client.stored);
    assert x in [x];
    DistinctLosesNothing([x], task.subTasks[i].next);
  }

  lemma LiftList(cfg: C.Config, u: M.Setup, s: Node, t: nat, x: nat, blob: nat -> Data)
    returns (run: seq<Step>, s': Node)
    requires Ready(cfg, u, s, blob) && t < |s.client.tasks| && x in s.client.tasks[t].heal
    ensures Lifts(cfg, u, s, C.Next(cfg, s.client, C.ListStore(t, [x])), run, s', blob)
  {
    var a, s1 := KnowMeta(cfg, u, s, x, blob);
    HealInTask(cfg, s, t, x);
    LocalInTask(cfg, s1, t, x);
    var step := PeerList(t, [PeerBlob(u, s1.view.m, x, blob)]);
    ListStep(cfg, u, s1, t, x, blob);
    StepReady(cfg, u, s1, step, blob);
    s' := Next(cfg, u, s1, step);
    CalmThen(cfg, u, s, a, s1, [step], s', blob);
    run := a + [step];
  }

  lemma ListStep(cfg: C.Config, u: M.Setup, s: Node, t: nat, x: nat, blob: nat -> Data)
    requires M.Ok(u, s.view) && x in s.view.m.disk && KvMeta(s.view.m, x).Some? && |blob(x)| <= u.kvSize
    requires t < |s.client.tasks|
    ensures var step := PeerList(t, [PeerBlob(u, s.view.m, x, blob)]);
            && Enabled(cfg, u, s, step) && Honest(u, s, step) && Calm(step, blob)
            && ClientStep(cfg, u, s, step) == C.ListStore(t, [x])
  {
    PeerBlobReported(u, s.view, x, blob);
  }

  lemma HealInTask(cfg: C.Config, s: Node, t: nat, x: nat)
    requires C.Inv(cfg, s.client) && t < |s.client.tasks| && x in s.client.tasks[t].heal
    ensures s.client.tasks[t].goal.lo <= x < s.client.tasks[t].goal.hi
  {
    var task := s.client.tasks[t];
    assert TaskInv(task, s.client.stored, s.client.settled);
    assert Behind(task.subTasks, x);
    var i :| 0 <= i < |task.subTasks| && task.subTasks[i].first <= x < task.subTasks[i].next;
    assert SubOk(task.goal, task.subTasks[i], s.client.stored);
  }

  /** A fill whose indices are all local gets to its end: beyond the entries every meta is known. */
  lemma FillGetsToEnd(u: M.Setup, v: M.View, start: nat, limit: nat)
    requires M.Ok(u, v) && start <= limit + 1 && (forall x :: start <= x <= limit ==> x in v.m.disk)
    requires forall x: nat :: |u.enc(x)| <= u.kvSize
    ensures FillEmpty(v.m, u.kvSize, u.enc, v.m.kvEntryCount, start, limit).next == limit + 1
  {
    var from := if start < v.m.kvEntryCount then v.m.kvEntryCount else start;
    if v.m.kvEntryCount <= limit {
      D.FillEmptyExact(u.h, v.top, v.m, u.kvSize, u.enc, v.m.kvEntryCount, start, limit, from, limit + 1, limit + 1);
    }
  }

  lemma LiftFill(cfg: C.Config, u: M.Setup, s: Node, t: nat, i: nat, start: nat, limit: nat, blob: nat -> Data)
    returns (run: seq<Step>, s': Node)
    requires Ready(cfg, u, s, blob) && C.HasEmpty(s.client, t, i)
    requires s.client.tasks[t].subEmptyTasks[i].flight == Filling(start, limit)
    ensures C.Enabled(cfg, s.client, C.EmptyStore(t, i, limit + 1))
    ensures Lifts(cfg, u, s, C.Next(cfg, s.client, C.EmptyStore(t, i, limit + 1)), run, s', blob)
  {
    FillInTask(cfg, s, t, i, start, limit);
    var step := FillRange(t, i, s.view.m.kvEntryCount);
    FillStep(cfg, u, s, t, i, start, limit);
    StepReady(cfg, u, s, step, blob);
    run, s' := [step], Next(cfg, u, s, step);
  }

  lemma FillInTask(cfg: C.Config, s: Node, t: nat, i: nat, start: nat, limit: nat)
    requires C.Inv(cfg, s.client) && C.HasEmpty(s.client, t, i) && ShardGoals(cfg, s.client) && AllLocal(cfg, s.view.m)
    requires s.client.tasks[t].subEmptyTasks[i].flight == Filling(start, limit)
    ensures start <= limit + 1 && forall x :: start <= x <= limit ==> x in s.view.m.disk
  {
    var task := s.client.tasks[t];
    assert TaskInv(task, s.client.stored, s.client.settled);
    assert EmptyOk(task.goal, task.subEmptyTasks[i], s.client.settled);
    forall x | start <= x <= limit ensures x in s.view.m.disk { LocalInTask(cfg, s, t, x); }
  }

  lemma FillStep(cfg: C.Config, u: M.Setup, s: Node, t: nat, i: nat, start: nat, limit: nat)
    requires M.Ok(u, s.view) && start <= limit + 1 && (forall x :: start <= x <= limit ==> x in s.view.m.disk)
    requires forall x: nat :: |u.enc(x)| <= u.kvSize
    requires C.HasEmpty(s.client, t, i) && s.client.tasks[t].subEmptyTasks[i].flight == Filling(start, limit)
    ensures var step := FillRange(t, i, s.view.m.kvEntryCount);
            && Enabled(cfg, u, s, step) && Honest(u, s, step)
            && ClientStep(cfg, u, s, step) == C.EmptyStore(t, i, limit + 1)
  {
    FillGetsToEnd(u, s.view, start, limit);
  }

  lemma LiftStep(cfg: C.Config, u: M.Setup, s: Node, cs: C.Step, blob: nat -> Data) returns (run: seq<Step>, s': Node)
    requires Ready(cfg, u, s, blob) && C.Enabled(cfg, s.client, cs) && S.Plain(s.client, cs)
    ensures Lifts(cfg, u, s, C.Next(cfg, s.client, cs), run, s', blob)
  {
    if cs.RangeStore? {
      assert cs.inserted == [cs.inserted[0]];
      run, s' := LiftRange(cfg, u, s, cs.task, cs.sub, cs.inserted[0], blob);
    } else if cs.ListStore? {
      assert cs.inserted == [cs.inserted[0]];
      run, s' := LiftList(cfg, u, s, cs.task, cs.inserted[0], blob);
    } else if cs.EmptyStore? {
      var f := s.client.tasks[cs.task].subEmptyTasks[cs.sub].flight;
      run, s' := LiftFill(cfg, u, s, cs.task, cs.sub, f.start, f.limit, blob);
    } else {
      StepReady(cfg, u, s, Client(cs), blob);
      run, s' := [Client(cs)], Next(cfg, u, s, Client(cs));
    }
  }

  lemma {:induction false} LiftRun(cfg: C.Config, u: M.Setup, s: Node, steps: seq<C.Step>, blob: nat -> Data)
    returns (run: seq<Step>, s': Node)
    requires Ready(cfg, u, s, blob) && S.Good(cfg, s.client, steps)
    ensures Lifts(cfg, u, s, S.After(cfg, s.client, steps), run, s', blob)
    decreases |steps|
  {
    if steps == [] {
      run, s' := [], s;
      CalmNone(cfg, u, s, blob);
    } else {
      var a, s1 := LiftStep(cfg, u, s, steps[0], blob);
      var b, s2 := LiftRun(cfg, u, s1, steps[1..], blob);
      CalmThen(cfg, u, s, a, s1, b, s2, blob);
      run, s' := a + b, s2;
    }
  }

  // ---------------------------------------------------------------- the results

  lemma InitReady(cfg: C.Config, u: M.Setup, lastKvIndex: nat, v: M.View, blob: nat -> Data)
    requires cfg.Valid() && M.Ok(u, v) && AllLocal(cfg, v.m) && Fitting(u, blob)
    ensures Ready(cfg, u, Node(C.Init(cfg, lastKvIndex), v), blob)
  {
    C.InitInv(cfg, lastKvIndex);
    forall i | 0 <= i < |cfg.shards|
      ensures GoalOn(C.FreshTasks(cfg, lastKvIndex)[i].goal, cfg.shards[i], cfg.kvEntries)
    {
      FreshGoals(cfg, lastKvIndex, i);
    }
  }

  /** Every step that a node can take keeps it ready, restarts and new blocks included. */
  lemma AnyStepReady(cfg: C.Config, u: M.Setup, s: Node, step: Step, blob: nat -> Data)
    requires Ready(cfg, u, s, blob) && Enabled(cfg, u, s, step) && Honest(u, s, step)
    ensures Ready(cfg, u, Next(cfg, u, s, step), blob)
  {
    StepInv(cfg, u, s, step);
    KeysStay(cfg, u, s, step);
    if !step.Chain? && C.Enabled(cfg, s.client, ClientStep(cfg, u, s, step)) {
      ShardGoalsStep(cfg, s.client, ClientStep(cfg, u, s, step));
      S.DoneAnnouncedStep(cfg, s.client, ClientStep(cfg, u, s, step));
    }
  }

  lemma {:induction false} ReachedReady(cfg: C.Config, u: M.Setup, s: Node, run: seq<Step>, s': Node, blob: nat -> Data)
    requires Ready(cfg, u, s, blob) && Reaches(cfg, u, s, run, s')
    ensures Ready(cfg, u, s', blob)
    decreases |run|
  {
    if run != [] {
      AnyStepReady(cfg, u, s, run[0], blob);
      ReachedReady(cfg, u, Next(cfg, u, s, run[0]), run[1..], s', blob);
    }
  }

  predicate Announced(c: C.Client, shard: nat, kvEntries: nat) {
    exists g :: g in c.announced && GoalOn(g, shard, kvEntries)
  }

  /** Every shard of the configuration, whole, has been announced. */
  predicate AllAnnounced(cfg: C.Config, c: C.Client) {
    forall i :: 0 <= i < |cfg.shards| ==> Announced(c, cfg.shards[i], cfg.kvEntries)
  }

  /**
   From every state that a node can reach, after crashes, failed downloads and lost replies, there is a continuation
   without restart and without new blocks that ends the sync and announces every shard. The metas that are needed are
   fetched, peers send one blob at a time, and empty fills do the rest.
   */
  lemma NodeCanFinish(cfg: C.Config, u: M.Setup, lastKvIndex: nat, v: M.View, run: seq<Step>, s: Node,
                      blob: nat -> Data)
    returns (more: seq<Step>, s': Node)
    requires cfg.Valid() && M.Ok(u, v) && AllLocal(cfg, v.m) && Fitting(u, blob)
    requires Reaches(cfg, u, Node(C.Init(cfg, lastKvIndex), v), run, s)
    ensures Reaches(cfg, u, s, more, s') && AllCalm(more, blob)
    ensures s'.client.syncDone && AllAnnounced(cfg, s'.client) && AllLocal(cfg, s'.view.m)
  {
    InitReady(cfg, u, lastKvIndex, v, blob);
    ReachedReady(cfg, u, Node(C.Init(cfg, lastKvIndex), v), run, s, blob);
    var steps := S.CanAlwaysFinish(cfg, s.client);
    more, s' := LiftRun(cfg, u, s, steps, blob);
    CalmReaches(cfg, u, s, more, s', blob);
    AllDoneAnnounced(cfg, s'.client);
  }

  lemma AllDoneAnnounced(cfg: C.Config, c: C.Client)
    requires ShardGoals(cfg, c) && S.DoneAnnounced(c) && S.AllDone(c)
    ensures AllAnnounced(cfg, c)
  {
    forall i | 0 <= i < |cfg.shards| ensures Announced(c, cfg.shards[i], cfg.kvEntries) {
      var g := c.tasks[i].goal;
      assert g in c.announced && GoalOn(g, cfg.shards[i], cfg.kvEntries);
    }
  }

  lemma {:induction false} NothingRestarts(cfg: C.Config, u: M.Setup, s: Node, run: seq<Step>, s': Node)
    requires Reaches(cfg, u, s, run, s') && forall i :: 0 <= i < |run| ==> !run[i].Restart?
    ensures RestartsCountEntries(cfg, u, s, run)
    decreases |run|
  {
    if run != [] {
      assert forall i :: 0 <= i < |run[1..]| ==> run[1..][i] == run[i + 1];
      NothingRestarts(cfg, u, Next(cfg, u, s, run[0]), run[1..], s');
    }
  }

  /**
   With a contract that only grows, and shards set up for the entries there are when the node starts: from every state
   that the node can reach, some continuation leaves every index of every shard on disk.
   */
  lemma NodeCanFill(cfg: C.Config, u: M.Setup, lastKvIndex: nat, v: M.View, run: seq<Step>, s: Node, blob: nat -> Data)
    returns (more: seq<Step>, s': Node)
    requires cfg.Valid() && M.Ok(u, v) && AllLocal(cfg, v.m) && Fitting(u, blob) && OnlyGrows(u.h)
    requires v.saved == v.m.localL1 && u.h.count(v.peak) == v.m.kvEntryCount <= lastKvIndex
    requires var s0 := Node(C.Init(cfg, lastKvIndex), v);
             Reaches(cfg, u, s0, run, s) && RestartsCountEntries(cfg, u, s0, run)
    ensures Reaches(cfg, u, s, more, s') && AllCalm(more, blob) && AllAnnounced(cfg, s'.client) && M.Ok(u, s'.view)
    ensures forall i, x: nat :: 0 <= i < |cfg.shards| && InShard(cfg.shards[i], cfg.kvEntries, x) ==>
                                  M.FilledAt(s'.view.m, x)
  {
    more, s' := NodeCanFinish(cfg, u, lastKvIndex, v, run, s, blob);
    var s0, start := Node(C.Init(cfg, lastKvIndex), v), v.m.localL1;
    assert FullInv(cfg, u, s', start) by {
      InitFull(cfg, u, lastKvIndex, v);
      FullRunInv(cfg, u, s0, run, s, start);
      StaysFull(cfg, u, s, more, s', start, blob);
    }
    AnnouncedIsFull(cfg, u, s', start);
  }

  lemma StaysFull(cfg: C.Config, u: M.Setup, s: Node, run: seq<Step>, s': Node, start: int, blob: nat -> Data)
    requires FullInv(cfg, u, s, start) && OnlyGrows(u.h) && Reaches(cfg, u, s, run, s') && AllCalm(run, blob)
    ensures FullInv(cfg, u, s', start)
  {
    forall i | 0 <= i < |run| ensures !run[i].Restart? { assert Calm(run[i], blob); }
    NothingRestarts(cfg, u, s, run, s');
    FullRunInv(cfg, u, s, run, s', start);
  }

  lemma AnnouncedIsFull(cfg: C.Config, u: M.Setup, s: Node, start: int)
    requires FullInv(cfg, u, s, start) && AllAnnounced(cfg, s.client) && AllLocal(cfg, s.view.m)
    ensures forall i, x: nat :: 0 <= i < |cfg.shards| && InShard(cfg.shards[i], cfg.kvEntries, x) ==>
                                  M.FilledAt(s.view.m, x)
  {
    forall i, x: nat | 0 <= i < |cfg.shards| && InShard(cfg.shards[i], cfg.kvEntries, x)
      ensures M.FilledAt(s.view.m, x)
    {
      assert Announced(s.client, cfg.shards[i], cfg.kvEntries);
      var g :| g in s.client.announced && GoalOn(g, cfg.shards[i], cfg.kvEntries);
      FullDone(cfg, u, s, start, g, x);
    }
  }
}
