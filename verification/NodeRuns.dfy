/**
 The sync client and the storage manager together. Blobs get stored because the manager accepted them, indices
 are passed over because the manager said so, and the chain moves under both. What the client announces can
 then be stated in terms of the contract.
 */
module NodeRuns {
  import opened Bytes
  import opened Disk
  import opened Options
  import opened SyncModel
  import opened SyncInvariant
  import C = SyncRuns
  import M = StorageRuns
  import opened StorageView

  datatype Node = Node(client: C.Client, view: M.View)

  datatype Step =
    | Client(step: C.Step)
    | Chain(mstep: M.Step)
    | PeerRange(task: nat, sub: nat, blobs: seq<Blob>)
    | PeerList(task: nat, blobs: seq<Blob>)
    | FillRange(task: nat, sub: nat, countRead: nat)
    | Restart(lastKvIndex: nat)

  /** The indices the manager reports for blobs of a peer. */
  function Reported(u: M.Setup, m: Manager, blobs: seq<Blob>): seq<nat>
    requires BlobsOk(blobs) && MetasSized(m.disk) && ValuesSized(m.blobMetas)
  {
    var r := CommitBlobs(m, u.kvSize, blobs).1;
    if r.None? then [] else r.value
  }

  /** A range request's answer, filtered to the requested range. */
  predicate InRequest(st: SubTask, blobs: seq<Blob>) {
    st.flight.Requested? && forall i :: 0 <= i < |blobs| ==> st.flight.origin <= blobs[i].kv <= st.flight.limit
  }

  ghost predicate Enabled(cfg: C.Config, u: M.Setup, s: Node, step: Step) {
    && MetasSized(s.view.m.disk) && ValuesSized(s.view.m.blobMetas)
    && match step
       case Client(cs) =>
         !cs.RangeStore? && !cs.ListStore? && !cs.EmptyStore? && !cs.Reload? && C.Enabled(cfg, s.client, cs)
       case Chain(ms) => !ms.Commit? && !ms.Fill? && !ms.Restart? && M.Enabled(u, s.view, ms)
       case PeerRange(t, i, blobs) =>
         BlobsOk(blobs) && C.HasSub(s.client, t, i) && InRequest(s.client.tasks[t].subTasks[i], blobs)
       case PeerList(t, blobs) => BlobsOk(blobs) && t < |s.client.tasks|
       case FillRange(t, i, countRead) =>
         && C.HasEmpty(s.client, t, i) && s.client.tasks[t].subEmptyTasks[i].flight.Filling?
         && countRead <= u.h.count(s.view.peak)
       case Restart(_) => cfg.Valid()
  }

  /** Peers' range replies do not repeat an index below a missing one. */
  ghost predicate Honest(u: M.Setup, s: Node, step: Step)
    requires MetasSized(s.view.m.disk) && ValuesSized(s.view.m.blobMetas)
  {
    step.PeerRange? && BlobsOk(step.blobs) && C.HasSub(s.client, step.task, step.sub) ==>
      var ins := Reported(u, s.view.m, step.blobs);
      |ins| > 0 ==> NothingLost(ins, s.client.tasks[step.task].subTasks[step.sub].next)
  }

  /** What a step does to the client. */
  ghost function ClientStep(cfg: C.Config, u: M.Setup, s: Node, step: Step): C.Step
    requires Enabled(cfg, u, s, step) && !step.Chain?
  {
    match step
    case Client(cs) => cs
    case PeerRange(t, i, blobs) =>
      var ins := Reported(u, s.view.m, blobs);
      if ins == [] then C.RangeFailed(t, i) else C.RangeStore(t, i, ins)
    case PeerList(t, blobs) => C.ListStore(t, Reported(u, s.view.m, blobs))
    case FillRange(t, i, countRead) =>
      var f := s.client.tasks[t].subEmptyTasks[i].flight;
      C.EmptyStore(t, i, FillEmpty(s.view.m, u.kvSize, u.enc, countRead, f.start, f.limit).next)
    case Restart(lastKvIndex) => C.Reload(lastKvIndex)
  }

  ghost function ViewAfter(u: M.Setup, s: Node, step: Step, cfg: C.Config): M.View
    requires Enabled(cfg, u, s, step)
  {
    match step
    case Client(_) => s.view
    case Chain(ms) => M.Next(u, s.view, ms)
    case PeerRange(_, _, blobs) => s.view.(m := CommitBlobs(s.view.m, u.kvSize, blobs).0)
    case PeerList(_, blobs) => s.view.(m := CommitBlobs(s.view.m, u.kvSize, blobs).0)
    case FillRange(t, i, countRead) =>
      var f := s.client.tasks[t].subEmptyTasks[i].flight;
      s.view.(m := FillEmpty(s.view.m, u.kvSize, u.enc, countRead, f.start, f.limit).m)
    case Restart(_) => M.Next(u, s.view, M.Restart)
  }

  // ---------------------------------------------------------------- the invariant

  /**
   Stored blobs are on disk; a settled index is on disk or has been an entry of the contract at a block of the view.
   */
  ghost predicate Inv(cfg: C.Config, u: M.Setup, s: Node) {
    && C.Inv(cfg, s.client) && M.Ok(u, s.view)
    && (forall x :: x in s.client.stored ==> M.FilledAt(s.view.m, x))
    && (forall x :: x in s.client.settled ==> M.FilledAt(s.view.m, x) || x < u.h.count(s.view.peak))
  }

  lemma ReportedInRequest(u: M.Setup, s: Node, st: SubTask, blobs: seq<Blob>)
    requires M.Ok(u, s.view) && BlobsOk(blobs) && InRequest(st, blobs)
    ensures forall x :: x in Reported(u, s.view.m, blobs) ==> st.flight.origin <= x <= st.flight.limit
  {
    M.CommitBlobsInv(u.h, s.view.top, s.view.m, u.kvSize, blobs);
    forall x | x in Reported(u, s.view.m, blobs) ensures st.flight.origin <= x <= st.flight.limit {
      assert M.Offered(u.h, s.view.m, u.kvSize, blobs, |blobs|, x);
    }
  }

  lemma ReportedFilled(u: M.Setup, s: Node, blobs: seq<Blob>)
    requires M.Ok(u, s.view) && BlobsOk(blobs)
    ensures var m' := CommitBlobs(s.view.m, u.kvSize, blobs).0;
            && M.Ok(u, s.view.(m := m')) && M.KeepsFilled(s.view.m, m')
            && forall x :: x in Reported(u, s.view.m, blobs) ==> M.FilledAt(m', x)
  {
    M.CommitBlobsInv(u.h, s.view.top, s.view.m, u.kvSize, blobs);
  }

  /** The step the client takes is one it can take, and an honest one. */
  lemma ClientStepEnabled(cfg: C.Config, u: M.Setup, s: Node, step: Step)
    requires Inv(cfg, u, s) && Enabled(cfg, u, s, step) && Honest(u, s, step) && !step.Chain?
    ensures C.Enabled(cfg, s.client, ClientStep(cfg, u, s, step)) && C.Honest(s.client, ClientStep(cfg, u, s, step))
  {
    match step
    case Client(_) =>
    case PeerRange(t, i, blobs) => ReportedInRequest(u, s, s.client.tasks[t].subTasks[i], blobs);
    case PeerList(_, _) =>
    case FillRange(t, i, countRead) =>
      var task := s.client.tasks[t];
      assert TaskInv(task, s.client.stored, s.client.settled);
      assert EmptyOk(task.goal, task.subEmptyTasks[i], s.client.settled);
      var f := task.subEmptyTasks[i].flight;
      M.FillEmptyInv(u.h, s.view.top, s.view.m, u.kvSize, u.enc, countRead, f.start, f.limit);
    case Restart(_) =>
  }

  /** Both after a step. The client's part can always be taken, see ClientStepEnabled. */
  ghost function Next(cfg: C.Config, u: M.Setup, s: Node, step: Step): Node
    requires Enabled(cfg, u, s, step)
  {
    Node(if !step.Chain? && C.Enabled(cfg, s.client, ClientStep(cfg, u, s, step))
         then C.Next(cfg, s.client, ClientStep(cfg, u, s, step)) else s.client,
         ViewAfter(u, s, step, cfg))
  }

  lemma ChainInv(cfg: C.Config, u: M.Setup, s: Node, ms: M.Step)
    requires Inv(cfg, u, s) && Enabled(cfg, u, s, Chain(ms))
    ensures Inv(cfg, u, Node(s.client, M.Next(u, s.view, ms)))
  {
    M.StepInv(u, s.view, ms);
  }

  lemma RestartInv(cfg: C.Config, u: M.Setup, s: Node, lastKvIndex: nat)
    requires Inv(cfg, u, s) && Enabled(cfg, u, s, Restart(lastKvIndex))
    ensures Inv(cfg, u, Next(cfg, u, s, Restart(lastKvIndex)))
  {
    C.StepInv(cfg, s.client, C.Reload(lastKvIndex));
    M.StepInv(u, s.view, M.Restart);
  }

  lemma PeerInv(cfg: C.Config, u: M.Setup, s: Node, step: Step)
    requires Inv(cfg, u, s) && Enabled(cfg, u, s, step) && Honest(u, s, step) && (step.PeerRange? || step.PeerList?)
    ensures Inv(cfg, u, Next(cfg, u, s, step))
  {
    ClientStepEnabled(cfg, u, s, step);
    C.StepInv(cfg, s.client, ClientStep(cfg, u, s, step));
    ReportedFilled(u, s, step.blobs);
    var s' := Next(cfg, u, s, step);
    forall x | x in s'.client.stored ensures M.FilledAt(s'.view.m, x) {
      if x !in s.client.stored { assert x in Reported(u, s.view.m, step.blobs); }
    }
  }

  /** The part of a fill that is the manager's: what is passed is on disk, or has been an entry. */
  lemma FillPasses(u: M.Setup, v: M.View, countRead: nat, start: nat, limit: nat)
    requires M.Ok(u, v) && start <= limit + 1 && countRead <= u.h.count(v.peak)
    ensures var f := FillEmpty(v.m, u.kvSize, u.enc, countRead, start, limit);
            && M.Ok(u, v.(m := f.m)) && M.KeepsFilled(v.m, f.m)
            && (forall x :: start <= x < f.next ==> M.FilledAt(f.m, x) || x < u.h.count(v.peak))
  {
    M.FillEmptyInv(u.h, v.top, v.m, u.kvSize, u.enc, countRead, start, limit);
    var f := FillEmpty(v.m, u.kvSize, u.enc, countRead, start, limit);
    forall x | start <= x < f.next ensures M.FilledAt(f.m, x) || x < u.h.count(v.peak) {
      assert M.Settled(u.h, f.m, countRead, x);
    }
  }

  lemma FillInv(cfg: C.Config, u: M.Setup, s: Node, step: Step)
    requires Inv(cfg, u, s) && Enabled(cfg, u, s, step) && Honest(u, s, step) && step.FillRange?
    ensures Inv(cfg, u, Next(cfg, u, s, step))
  {
    ClientStepEnabled(cfg, u, s, step);
    C.StepInv(cfg, s.client, ClientStep(cfg, u, s, step));
    var task := s.client.tasks[step.task];
    assert TaskInv(task, s.client.stored, s.client.settled);
    assert EmptyOk(task.goal, task.subEmptyTasks[step.sub], s.client.settled);
    var f := task.subEmptyTasks[step.sub].flight;
    FillPasses(u, s.view, step.countRead, f.start, f.limit);
  }

  lemma StepInv(cfg: C.Config, u: M.Setup, s: Node, step: Step)
    requires Inv(cfg, u, s) && Enabled(cfg, u, s, step) && Honest(u, s, step)
    ensures Inv(cfg, u, Next(cfg, u, s, step))
  {
    match step
    case Client(cs) =>
      ClientStepEnabled(cfg, u, s, step);
      C.StepInv(cfg, s.client, cs);
    case Chain(ms) => ChainInv(cfg, u, s, ms);
    case PeerRange(_, _, _) => PeerInv(cfg, u, s, step);
    case PeerList(_, _) => PeerInv(cfg, u, s, step);
    case FillRange(_, _, _) => FillInv(cfg, u, s, step);
    case Restart(lastKvIndex) => RestartInv(cfg, u, s, lastKvIndex);
  }

  // ---------------------------------------------------------------- runs

  /** s' can be reached from s by a run of the given steps. */
  ghost predicate Reaches(cfg: C.Config, u: M.Setup, s: Node, run: seq<Step>, s': Node)
    decreases |run|
  {
    if run == [] then s' == s
    else
      && Enabled(cfg, u, s, run[0]) && Honest(u, s, run[0])
      && Reaches(cfg, u, Next(cfg, u, s, run[0]), run[1..], s')
  }

  lemma {:induction false} RunInv(cfg: C.Config, u: M.Setup, s: Node, run: seq<Step>, s': Node)
    requires Inv(cfg, u, s) && Reaches(cfg, u, s, run, s')
    ensures Inv(cfg, u, s')
    decreases |run|
  {
    if run != [] {
      StepInv(cfg, u, s, run[0]);
      RunInv(cfg, u, Next(cfg, u, s, run[0]), run[1..], s');
    }
  }

  /**
   In every run of client and manager together, crashes, failed downloads and chain progress included: once
   SingleShardDone is sent, every data blob of the shard is on disk, and every index beyond them is on disk or has been
   an entry of the contract at some block of the view. What is on disk has the hash of the contract at a block from the
   view's up to the newest one written; unless files are ahead of the view, that is the hash which the contract has at
   the view's block.
   */
  lemma DoneMeansContract(cfg: C.Config, u: M.Setup, lastKvIndex: nat, v: M.View, run: seq<Step>, s: Node, g: Goal,
                          x: nat)
    requires cfg.Valid() && M.Ok(u, v)
    requires Reaches(cfg, u, Node(C.Init(cfg, lastKvIndex), v), run, s)
    requires g in s.client.announced && g.lo <= x < g.hi
    ensures M.Ok(u, s.view)
    ensures x < g.mid ==> M.FilledAt(s.view.m, x)
    ensures M.FilledAt(s.view.m, x) || x < u.h.count(s.view.peak)
    ensures M.FilledAt(s.view.m, x) ==>
              M.HashWithin(u.h, s.view.m.localL1, s.view.top, x, s.view.m.disk[x].meta[..HASH_SIZE])
    ensures M.FilledAt(s.view.m, x) && M.Current(s.view) ==>
              s.view.m.disk[x].meta[..HASH_SIZE] == ContractHash(u.h, s.view.m.localL1, x)
  {
    C.InitInv(cfg, lastKvIndex);
    RunInv(cfg, u, Node(C.Init(cfg, lastKvIndex), v), run, s);
    assert C.Complete(g, s.client.stored, s.client.settled);
    if M.FilledAt(s.view.m, x) && M.Current(s.view) { M.CurrentHash(u.h, s.view.top, s.view.m, x); }
  }

  /** If entries are never removed from the contract, every index of an announced shard is on disk or an entry now. */
  lemma DoneWithoutRemoval(cfg: C.Config, u: M.Setup, lastKvIndex: nat, v: M.View, run: seq<Step>, s: Node, g: Goal,
                           x: nat)
    requires cfg.Valid() && M.Ok(u, v)
    requires Reaches(cfg, u, Node(C.Init(cfg, lastKvIndex), v), run, s)
    requires g in s.client.announced && g.lo <= x < g.hi
    requires forall a, b :: a <= b ==> u.h.count(a) <= u.h.count(b)
    ensures M.Ok(u, s.view)
    ensures M.FilledAt(s.view.m, x) || x < u.h.count(s.view.top)
    ensures M.Current(s.view) ==> M.FilledAt(s.view.m, x) || x < s.view.m.kvEntryCount
  {
    DoneMeansContract(cfg, u, lastKvIndex, v, run, s, g, x);
    assert u.h.count(s.view.peak) <= u.h.count(s.view.top);
  }

  // ---------------------------------------------------------------- a contract that only grows

  /** Entries are never removed, and none is empty. */
  ghost predicate OnlyGrows(h: History)
    requires Genuine(h)
  {
    && (forall a, b :: a <= b ==> h.count(a) <= h.count(b))
    && (forall b: int, i: nat :: i < h.count(b) ==> ContractHash(h, b, i) != Zeros(HASH_SIZE))
  }

  /** The empty range of the shard begins at the given count or later. */
  predicate GoalFrom(g: Goal, base: nat) { base <= g.mid || g.hi <= g.mid }

  predicate GoalsFrom(c: C.Client, base: nat) {
    && (forall i :: 0 <= i < |c.tasks| ==> GoalFrom(c.tasks[i].goal, base))
    && (c.checkpoint.Checkpoint? ==>
          forall i :: 0 <= i < |c.checkpoint.tasks| ==> GoalFrom(c.checkpoint.tasks[i].goal, base))
    && (forall g :: g in c.announced ==> GoalFrom(g, base))
  }

  /** Shards are always set up for at least as many entries. */
  lemma ClientGoals(cfg: C.Config, c: C.Client, step: C.Step, base: nat)
    requires C.Enabled(cfg, c, step) && GoalsFrom(c, base) && (step.Reload? ==> step.lastKvIndex >= base)
    ensures GoalsFrom(C.Next(cfg, c, step), base)
  {
    var c' := C.Next(cfg, c, step);
    forall i | 0 <= i < |c'.tasks| ensures GoalFrom(c'.tasks[i].goal, base) {
      if step.Reload? {
        if c.checkpoint.NoCheckpoint? { FreshGoal(cfg, step.lastKvIndex, base, i); }
      } else {
        assert c'.tasks[i].goal == c.tasks[i].goal;
      }
    }
  }

  lemma FreshGoal(cfg: C.Config, lastKvIndex: nat, base: nat, i: nat)
    requires cfg.Valid() && i < |C.FreshTasks(cfg, lastKvIndex)| && lastKvIndex >= base
    ensures GoalFrom(C.FreshTasks(cfg, lastKvIndex)[i].goal, base)
  {
  }

  /** Every local entry from the given one on that the view has seen is on disk. */
  ghost predicate NewFilled(u: M.Setup, v: M.View, base: nat)
    requires MetasSized(v.m.disk)
  {
    forall x :: x in v.m.disk && base <= x < u.h.count(v.peak) ==> M.FilledAt(v.m, x)
  }

  /** A download that moves the view to more entries brings each new local one: its hash is not empty any more. */
  lemma DownloadBringsNew(u: M.Setup, v: M.View, ms: M.Step, x: nat)
    requires M.Ok(u, v) && M.Enabled(u, v, ms) && ms.Download? && OnlyGrows(u.h)
    requires x in v.m.disk && v.m.kvEntryCount <= x < u.h.count(ms.newL1)
    ensures M.Ok(u, M.Next(u, v, ms)) && M.FilledAt(M.Next(u, v, ms).m, x)
  {
    M.StepInv(u, v, ms);
    assert ContractHash(u.h, v.m.localL1, x) == Zeros(HASH_SIZE) != ContractHash(u.h, ms.newL1, x);
    assert x in ms.kvs;
    M.WrittenDisk(u.h, v.top, v.m, u.kvSize, u.threads, ms.newL1, ms.kvs, ms.datas, ms.commits);
  }

  lemma NewFilledStep(u: M.Setup, v: M.View, ms: M.Step, base: nat)
    requires M.Ok(u, v) && M.Enabled(u, v, ms) && OnlyGrows(u.h) && NewFilled(u, v, base)
    ensures M.Ok(u, M.Next(u, v, ms)) && NewFilled(u, M.Next(u, v, ms), base)
  {
    M.StepInv(u, v, ms);
    var v' := M.Next(u, v, ms);
    assert u.h.count(v.saved) <= u.h.count(v.m.localL1);
    forall x | x in v'.m.disk && base <= x < u.h.count(v'.peak) ensures M.FilledAt(v'.m, x) {
      if x < u.h.count(v.peak) {
        assert M.FilledAt(v.m, x);
      } else if ms.Download? {
        DownloadBringsNew(u, v, ms, x);
      }
    }
  }

  /** What a shard set up for at least as many entries as there were at block start can rely on. */
  ghost predicate FullInv(cfg: C.Config, u: M.Setup, s: Node, start: int) {
    && Inv(cfg, u, s) && start <= s.view.saved
    && GoalsFrom(s.client, u.h.count(start)) && NewFilled(u, s.view, u.h.count(start))
  }

  /** A restart sets up shards without a checkpoint for at least the entries of the block it starts from. */
  predicate CountsEntries(u: M.Setup, s: Node, step: Step) {
    step.Restart? ==> step.lastKvIndex >= u.h.count(s.view.saved)
  }

  lemma FullViewStep(cfg: C.Config, u: M.Setup, s: Node, step: Step, start: int)
    requires FullInv(cfg, u, s, start) && OnlyGrows(u.h) && Enabled(cfg, u, s, step) && Honest(u, s, step)
    ensures var v := ViewAfter(u, s, step, cfg);
            M.Ok(u, v) && NewFilled(u, v, u.h.count(start)) && start <= v.saved
  {
    var v := ViewAfter(u, s, step, cfg);
    match step
    case Client(_) =>
    case Chain(ms) => NewFilledStep(u, s.view, ms, u.h.count(start));
    case PeerRange(_, _, blobs) => ReportedFilled(u, s, blobs);
    case PeerList(_, blobs) => ReportedFilled(u, s, blobs);
    case FillRange(t, i, countRead) =>
      var task := s.client.tasks[t];
      assert TaskInv(task, s.client.stored, s.client.settled);
      assert EmptyOk(task.goal, task.subEmptyTasks[i], s.client.settled);
      FillPasses(u, s.view, countRead, task.subEmptyTasks[i].flight.start, task.subEmptyTasks[i].flight.limit);
    case Restart(_) => NewFilledStep(u, s.view, M.Restart, u.h.count(start));
  }

  lemma FullStepInv(cfg: C.Config, u: M.Setup, s: Node, step: Step, start: int)
    requires FullInv(cfg, u, s, start) && OnlyGrows(u.h)
    requires Enabled(cfg, u, s, step) && Honest(u, s, step) && CountsEntries(u, s, step)
    ensures FullInv(cfg, u, Next(cfg, u, s, step), start)
  {
    StepInv(cfg, u, s, step);
    FullViewStep(cfg, u, s, step, start);
    if !step.Chain? && C.Enabled(cfg, s.client, ClientStep(cfg, u, s, step)) {
      assert u.h.count(start) <= u.h.count(s.view.saved);
      ClientGoals(cfg, s.client, ClientStep(cfg, u, s, step), u.h.count(start));
    }
  }

  ghost predicate RestartsCountEntries(cfg: C.Config, u: M.Setup, s: Node, run: seq<Step>)
    decreases |run|
  {
    run != [] ==>
      && Enabled(cfg, u, s, run[0]) && CountsEntries(u, s, run[0])
      && RestartsCountEntries(cfg, u, Next(cfg, u, s, run[0]), run[1..])
  }

  lemma {:induction false} FullRunInv(cfg: C.Config, u: M.Setup, s: Node, run: seq<Step>, s': Node, start: int)
    requires FullInv(cfg, u, s, start) && OnlyGrows(u.h)
    requires Reaches(cfg, u, s, run, s') && RestartsCountEntries(cfg, u, s, run)
    ensures FullInv(cfg, u, s', start)
    decreases |run|
  {
    if run != [] {
      FullStepInv(cfg, u, s, run[0], start);
      FullRunInv(cfg, u, Next(cfg, u, s, run[0]), run[1..], s', start);
    }
  }

  lemma InitFull(cfg: C.Config, u: M.Setup, lastKvIndex: nat, v: M.View)
    requires cfg.Valid() && M.Ok(u, v)
    requires v.saved == v.m.localL1 && u.h.count(v.peak) == v.m.kvEntryCount <= lastKvIndex
    ensures FullInv(cfg, u, Node(C.Init(cfg, lastKvIndex), v), v.m.localL1)
  {
    var s0, start := Node(C.Init(cfg, lastKvIndex), v), v.m.localL1;
    C.InitInv(cfg, lastKvIndex);
    forall i | 0 <= i < |s0.client.tasks| ensures GoalFrom(s0.client.tasks[i].goal, u.h.count(start)) {
      FreshGoal(cfg, lastKvIndex, u.h.count(start), i);
    }
  }

  lemma FullDone(cfg: C.Config, u: M.Setup, s: Node, start: int, g: Goal, x: nat)
    requires FullInv(cfg, u, s, start) && g in s.client.announced && g.lo <= x < g.hi && x in s.view.m.disk
    ensures M.FilledAt(s.view.m, x)
  {
    assert C.Complete(g, s.client.stored, s.client.settled);
    assert GoalFrom(g, u.h.count(start));
  }

  /**
   With a contract that only grows, and shards set up for the entries there are when the node starts: once
   SingleShardDone is sent, every local index of the shard is on disk, the ones that have become entries since included.
   */
  lemma DoneMeansFilled(cfg: C.Config, u: M.Setup, lastKvIndex: nat, v: M.View, run: seq<Step>, s: Node, g: Goal,
                        x: nat)
    requires cfg.Valid() && M.Ok(u, v) && OnlyGrows(u.h)
    requires v.saved == v.m.localL1 && u.h.count(v.peak) == v.m.kvEntryCount <= lastKvIndex
    requires var s0 := Node(C.Init(cfg, lastKvIndex), v);
             Reaches(cfg, u, s0, run, s) && RestartsCountEntries(cfg, u, s0, run)
    requires g in s.client.announced && g.lo <= x < g.hi && x in s.view.m.disk
    ensures M.Ok(u, s.view) && M.FilledAt(s.view.m, x)
    ensures M.Current(s.view) ==> s.view.m.disk[x].meta[..HASH_SIZE] == ContractHash(u.h, s.view.m.localL1, x)
  {
    InitFull(cfg, u, lastKvIndex, v);
    FullRunInv(cfg, u, Node(C.Init(cfg, lastKvIndex), v), run, s, v.m.localL1);
    FullDone(cfg, u, s, v.m.localL1, g, x);
    DoneMeansContract(cfg, u, lastKvIndex, v, run, s, g, x);
  }
}
