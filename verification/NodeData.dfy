/** The bytes that client and storage manager together leave on disk. */
module NodeData {
  import opened Bytes
  import opened Disk
  import opened SyncModel
  import opened StorageView
  import C = SyncRuns
  import M = StorageRuns
  import D = StorageData
  import opened NodeRuns

  /** All that a step hands over, by the chain, by a peer or as empty blobs, is allowed. */
  ghost predicate Brings(rule: D.Rule, cfg: C.Config, u: M.Setup, s: Node, step: Step)
    requires Enabled(cfg, u, s, step)
  {
    match step
    case Chain(ms) => D.Brings(rule, u, s.view, ms)
    case PeerRange(_, _, blobs) => D.BlobsAllowed(rule, u.kvSize, blobs)
    case PeerList(_, blobs) => D.BlobsAllowed(rule, u.kvSize, blobs)
    case FillRange(_, _, _) => D.EmptiesAllowed(rule, u.kvSize, u.enc)
    case _ => true
  }

  lemma StepFollows(rule: D.Rule, cfg: C.Config, u: M.Setup, s: Node, step: Step)
    requires M.Ok(u, s.view) && Enabled(cfg, u, s, step) && Brings(rule, cfg, u, s, step)
    requires D.Follows(rule, s.view.m.disk)
    ensures var v := ViewAfter(u, s, step, cfg);
            MetasSized(v.m.disk) && D.Follows(rule, v.m.disk)
  {
    match step
    case Chain(ms) => D.StepFollows(rule, u, s.view, ms);
    case PeerRange(_, _, blobs) => D.CommitBlobsFollows(rule, s.view.m, u.kvSize, blobs);
    case PeerList(_, blobs) => D.CommitBlobsFollows(rule, s.view.m, u.kvSize, blobs);
    case FillRange(t, i, countRead) =>
      var f := s.client.tasks[t].subEmptyTasks[i].flight;
      D.FillEmptyFollows(rule, s.view.m, u.kvSize, u.enc, countRead, f.start, f.limit);
    case Restart(_) => D.StepFollows(rule, u, s.view, M.Restart);
    case Client(_) =>
  }

  ghost predicate AllBring(rule: D.Rule, cfg: C.Config, u: M.Setup, s: Node, run: seq<Step>)
    decreases |run|
  {
    run != [] ==>
      && Enabled(cfg, u, s, run[0]) && Brings(rule, cfg, u, s, run[0])
      && AllBring(rule, cfg, u, Next(cfg, u, s, run[0]), run[1..])
  }

  lemma {:induction false} RunFollows(rule: D.Rule, cfg: C.Config, u: M.Setup, s: Node, run: seq<Step>, s': Node)
    requires Inv(cfg, u, s) && Reaches(cfg, u, s, run, s') && AllBring(rule, cfg, u, s, run)
    requires D.Follows(rule, s.view.m.disk)
    ensures Inv(cfg, u, s') && D.Follows(rule, s'.view.m.disk)
    decreases |run|
  {
    if run != [] {
      StepInv(cfg, u, s, run[0]);
      StepFollows(rule, cfg, u, s, run[0]);
      RunFollows(rule, cfg, u, Next(cfg, u, s, run[0]), run[1..], s');
    }
  }

  /**
   Once SingleShardDone is sent, every data blob of the shard is on disk with bytes that were handed over for its index
   and its hash, and the hash is the contract's at the view unless files are ahead of it. "Handed over" is any rule that
   all blobs of the run meet, such as being the encoding of the blob with that hash.
   */
  lemma DoneMeansBlob(rule: D.Rule, cfg: C.Config, u: M.Setup, lastKvIndex: nat, v: M.View, run: seq<Step>, s: Node,
                      g: Goal, x: nat)
    requires cfg.Valid() && M.Ok(u, v) && D.Follows(rule, v.m.disk)
    requires var s0 := Node(C.Init(cfg, lastKvIndex), v);
             Reaches(cfg, u, s0, run, s) && AllBring(rule, cfg, u, s0, run)
    requires g in s.client.announced && g.lo <= x < g.mid
    ensures M.Ok(u, s.view) && M.FilledAt(s.view.m, x)
    ensures var r := s.view.m.disk[x];
            && rule(x, r.meta[..HASH_SIZE], r.data)
            && (M.Current(s.view) ==> rule(x, ContractHash(u.h, s.view.m.localL1, x), r.data))
  {
    C.InitInv(cfg, lastKvIndex);
    RunFollows(rule, cfg, u, Node(C.Init(cfg, lastKvIndex), v), run, s);
    assert C.Complete(g, s.client.stored, s.client.settled);
    if M.Current(s.view) { M.CurrentHash(u.h, s.view.top, s.view.m, x); }
  }
}
