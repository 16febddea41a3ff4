/**
 * The replication protocol as a transition system: one local node, its index,
 * and any number of peers whose holdings change, are announced by a version
 * bump, and are copied by the peer loops.  Every interleaving is a list of
 * steps; a step whose guard does not hold changes nothing.
 */
module Cluster {
  import opened Common
  import opened NodeIndex
  import opened IndexKeys
  import opened References
  import opened Rows

  /** How far the loop of one peer has come; `v` is the version it read. */
  datatype Phase =
    | Idle
    | Polled(v: nat)
    | Cleared(v: nat)
    | GotImages(v: nat, images: seq<ImageInfo>)
    | AddedImages(v: nat)
    | GotLayers(v: nat, layers: seq<LayerInfo>)
    | AddedLayers(v: nat)

  /**
   * A peer: what it holds, its `sync_state_version`, how many of its changes
   * await their bump, and the local record of it (`last_sync_state_version`).
   */
  datatype Peer = Peer(images: set<ImageId>, layers: set<DiffId>, version: nat, pending: nat,
                       lastSync: nat, phase: Phase)

  datatype Cluster = Cluster(local: NodeId, index: Index, full: set<ImageId>, peers: map<NodeId, Peer>)

  datatype Step =
    // the local container engine reports an event, or is probed again
    | LocalSave(id: ImageId, found: seq<DiffId>, skip: bool)
    | LocalSaveFails(id: ImageId, found: seq<DiffId>)
    | LocalDelete(id: ImageId)
    | LocalReset
    // a peer changes its holdings, and later bumps its version
    | Change(u: NodeId, images: set<ImageId>, layers: set<DiffId>)
    | Bump(u: NodeId, announced: nat)
    // the loop of a peer
    | Poll(u: NodeId)
    | Begin(u: NodeId)
    | FetchImages(u: NodeId, imageReply: seq<ImageInfo>)
    | PutImages(u: NodeId)
    | FetchLayers(u: NodeId, layerReply: seq<LayerInfo>)
    | PutLayers(u: NodeId)
    | Commit(u: NodeId)
    | Fail(u: NodeId)

  function WithPeer(c: Cluster, u: NodeId, p: Peer): Cluster {
    c.(peers := c.peers[u := p])
  }

  /** A step of the loop that serves peer `u`. */
  function PeerStep(c: Cluster, u: NodeId, step: Step): Cluster
    requires u in c.peers
  {
    var p := c.peers[u];
    match (step, p.phase)
    case (Change(_, images, layers), _) =>
      WithPeer(c, u, p.(images := images, layers := layers, pending := p.pending + 1))
    case (Bump(_, announced), _) =>
      WithPeer(c, u, p.(version := p.version + 1,
                        pending := if announced <= p.pending then p.pending - announced else 0))
    case (Poll(_), Idle) => WithPeer(c, u, p.(phase := Polled(p.version)))
    case (Begin(_), Polled(v)) =>
      if v == p.lastSync then WithPeer(c, u, p.(phase := Idle))
      else WithPeer(c.(index := Reset(c.index, u)), u, p.(phase := Cleared(v)))
    case (FetchImages(_, reply), Cleared(v)) =>
      if ImageIds(reply) == p.images then WithPeer(c, u, p.(phase := GotImages(v, reply))) else c
    case (PutImages(_), GotImages(v, reply)) =>
      WithPeer(c.(index := AddImages(c.index, reply, u)), u, p.(phase := AddedImages(v)))
    case (FetchLayers(_, reply), AddedImages(v)) =>
      if DiffIds(reply) == p.layers then WithPeer(c, u, p.(phase := GotLayers(v, reply))) else c
    case (PutLayers(_), GotLayers(v, reply)) =>
      WithPeer(c.(index := AddLayers(c.index, reply, u)), u, p.(phase := AddedLayers(v)))
    case (Commit(_), AddedLayers(v)) => WithPeer(c, u, p.(phase := Idle, lastSync := v))
    case (Fail(_), _) => WithPeer(c, u, p.(phase := Idle))
    case _ => c
  }

  function Apply(c: Cluster, step: Step): Cluster {
    match step
    case LocalSave(id, found, skip) =>
      c.(index := SaveImage(c.index, c.local, id, found, skip),
         full := FullAfterSave(c.index, c.full, id, found, skip))
    case LocalSaveFails(id, found) => c.(index := InterruptedSave(c.index, c.local, id, found))
    case LocalDelete(id) =>
      (match DeleteImage(c.index, c.local, id)
       case Ok(index) => c.(index := index, full := c.full - {id})
       case Err(_) => c)
    case LocalReset => c.(index := Reset(c.index, c.local), full := {})
    case _ => if step.u in c.peers then PeerStep(c, step.u, step) else c
  }

  function Run(c: Cluster, steps: seq<Step>): Cluster
    decreases |steps|
  {
    if steps == [] then c else Run(Apply(c, steps[0]), steps[1..])
  }

  // ---------- version-sync safety ----------

  /** The index agrees with what the peer holds. */
  predicate Agrees(idx: Index, u: NodeId, p: Peer) {
    ImagesOf(idx, u) == p.images && LayersOf(idx, u) == p.layers
  }

  /** The recorded version is current and every change of the peer was announced. */
  predicate UpToDate(p: Peer) {
    p.lastSync == p.version && p.pending == 0
  }

  ghost predicate SyncSafe(c: Cluster) {
    forall u :: u in c.peers && UpToDate(c.peers[u]) ==> Agrees(c.index, u, c.peers[u])
  }

  /** What a loop has copied so far, provided nothing happened since it read version `v`. */
  predicate Progress(images: set<ImageId>, layers: set<DiffId>, p: Peer) {
    match p.phase
    case Idle => true
    case Polled(_) => true
    case Cleared(_) => images == {} && layers == {}
    case GotImages(_, reply) => images == {} && layers == {} && ImageIds(reply) == p.images
    case AddedImages(_) => images == p.images && layers == {}
    case GotLayers(_, reply) => images == p.images && layers == {} && DiffIds(reply) == p.layers
    case AddedLayers(_) => images == p.images && layers == p.layers
  }

  predicate PeerInv(images: set<ImageId>, layers: set<DiffId>, p: Peer) {
    && p.lastSync <= p.version
    && (UpToDate(p) ==> images == p.images && layers == p.layers)
    && (!p.phase.Idle? ==> p.lastSync <= p.phase.v <= p.version)
    && (!p.phase.Idle? && !p.phase.Polled? ==> p.lastSync < p.phase.v)
    && (!p.phase.Idle? && p.phase.v == p.version && p.pending == 0 ==> Progress(images, layers, p))
  }

  ghost predicate SyncInv(c: Cluster) {
    && c.local !in c.peers
    && forall u :: u in c.peers ==> PeerInv(ImagesOf(c.index, u), LayersOf(c.index, u), c.peers[u])
  }

  predicate IsLocal(step: Step) {
    step.LocalSave? || step.LocalSaveFails? || step.LocalDelete? || step.LocalReset?
  }

  /** The step leaves the holdings of `v` in the index as they are. */
  predicate SameHoldings(a: Index, b: Index, v: NodeId) {
    ImagesOf(a, v) == ImagesOf(b, v) && LayersOf(a, v) == LayersOf(b, v)
  }

  /** A step touches the recorded holdings of no peer but its own. */
  lemma StepFrame(c: Cluster, step: Step, v: NodeId)
    requires c.local !in c.peers && v in c.peers
    requires !IsLocal(step) ==> v != step.u
    ensures v in Apply(c, step).peers && Apply(c, step).peers[v] == c.peers[v]
    ensures SameHoldings(Apply(c, step).index, c.index, v)
  {
    match step
    case LocalSave(id, found, skip) => SaveHoldings(c.index, c.local, id, found, skip, v);
    case LocalSaveFails(id, found) => InterruptedHoldings(c.index, c.local, id, found, v);
    case LocalDelete(id) =>
      if DeleteImage(c.index, c.local, id).Ok? { DeleteHoldings(c.index, c.local, id, v); }
    case LocalReset => ResetHoldings(c.index, c.local, v);
    case Begin(u) => ResetHoldings(c.index, u, v);
    case PutImages(u) =>
      if u in c.peers && c.peers[u].phase.GotImages? { AddImagesHoldings(c.index, c.peers[u].phase.images, u, v); }
    case PutLayers(u) =>
      if u in c.peers && c.peers[u].phase.GotLayers? { AddLayersHoldings(c.index, c.peers[u].phase.layers, u, v); }
    case _ =>
  }

  /** The step of a peer's own loop keeps the invariant of that peer. */
  lemma OwnStepInv(c: Cluster, u: NodeId, step: Step)
    requires u in c.peers && PeerInv(ImagesOf(c.index, u), LayersOf(c.index, u), c.peers[u])
    ensures var c' := PeerStep(c, u, step);
            u in c'.peers && PeerInv(ImagesOf(c'.index, u), LayersOf(c'.index, u), c'.peers[u])
  {
    match (step, c.peers[u].phase)
    case (Begin(_), Polled(_)) => ResetHoldings(c.index, u, u);
    case (PutImages(_), GotImages(_, reply)) => AddImagesHoldings(c.index, reply, u, u);
    case (PutLayers(_), GotLayers(_, reply)) => AddLayersHoldings(c.index, reply, u, u);
    case _ =>
  }

  lemma StepKeepsSyncInv(c: Cluster, step: Step)
    requires SyncInv(c)
    ensures SyncInv(Apply(c, step)) && Apply(c, step).peers.Keys == c.peers.Keys
  {
    var c' := Apply(c, step);
    forall v | v in c.peers
      ensures v in c'.peers && PeerInv(ImagesOf(c'.index, v), LayersOf(c'.index, v), c'.peers[v])
    {
      if IsLocal(step) || v != step.u {
        StepFrame(c, step, v);
      } else {
        OwnStepInv(c, v, step);
      }
    }
  }

  lemma {:induction false} RunKeepsSyncInv(c: Cluster, steps: seq<Step>)
    requires SyncInv(c)
    ensures SyncInv(Run(c, steps))
    decreases |steps|
  {
    if steps != [] {
      StepKeepsSyncInv(c, steps[0]);
      RunKeepsSyncInv(Apply(c, steps[0]), steps[1..]);
    }
  }

  /** Fresh loops: nothing read, nothing recorded; index and peers are arbitrary. */
  ghost predicate Initial(c: Cluster) {
    && c.local !in c.peers
    && forall u :: u in c.peers ==> c.peers[u].phase == Idle && c.peers[u].lastSync == 0
  }

  /**
   * A peer that has announced nothing yet (version 0, nothing pending) must
   * already agree with the index, because 0 == 0 skips the first sync.
   */
  predicate Startable(idx: Index, u: NodeId, p: Peer) {
    p.version >= 1 || p.pending > 0 || Agrees(idx, u, p)
  }

  ghost predicate AllStartable(c: Cluster) {
    forall u :: u in c.peers ==> Startable(c.index, u, c.peers[u])
  }

  ghost predicate AlwaysSyncSafe(c: Cluster) {
    forall steps: seq<Step> :: SyncSafe(Run(c, steps))
  }

  /**
   * Version-sync safety over all interleavings: whenever the recorded version of
   * a peer is its current one and it has no change awaiting its bump, the index
   * restricted to that peer is what the peer holds.  It holds in every reachable
   * state exactly when every peer is startable.
   */
  lemma VersionSyncSafety(c: Cluster)
    requires Initial(c)
    ensures AlwaysSyncSafe(c) <==> AllStartable(c)
  {
    if AllStartable(c) {
      forall steps: seq<Step> ensures SyncSafe(Run(c, steps)) {
        RunKeepsSyncInv(c, steps);
      }
    }
    if AlwaysSyncSafe(c) {
      assert SyncSafe(Run(c, []));
      assert SyncSafe(c);
    }
  }

  /** A daemon with holdings but version 0 is taken to be in sync and never copied. */
  lemma UnannouncedPeerExample()
    ensures var p := Peer({"i"}, {}, 0, 0, 0, Idle);
            var c := Cluster("n", Index(map[], []), {}, map["p" := p]);
            Initial(c) && Run(c, [Poll("p"), Begin("p")]) == c && !SyncSafe(c)
  {
    var p := Peer({"i"}, {}, 0, 0, 0, Idle);
    var c := Cluster("n", Index(map[], []), {}, map["p" := p]);
    var steps := [Poll("p"), Begin("p")];
    assert steps[1..] == [Begin("p")] && steps[1..][1..] == [];
    assert "i" !in ImagesOf(c.index, "p");
    assert Run(c, steps) == Run(Apply(Apply(c, steps[0]), steps[1]), []);
  }

  /** The steps of one undisturbed pass of a peer's loop. */
  function Pass(u: NodeId, images: seq<ImageInfo>, layers: seq<LayerInfo>): seq<Step> {
    [Poll(u)] + ([Begin(u)] + ([FetchImages(u, images)] + ([PutImages(u)]
    + ([FetchLayers(u, layers)] + ([PutLayers(u)] + ([Commit(u)] + []))))))
  }

  /** The step of peer `u` in phase `p`, on a cluster with a given index. */
  function At(c: Cluster, index: Index, u: NodeId, p: Peer): Cluster {
    WithPeer(c.(index := index), u, p)
  }

  /** One step of the loop, and the rest of the pass from the state it leads to. */
  lemma LoopStep(c: Cluster, u: NodeId, step: Step, rest: seq<Step>, i: Index, p: Peer, i': Index, p': Peer)
    requires !IsLocal(step) && step.u == u
    requires PeerStep(At(c, i, u, p), u, step) == WithPeer(At(c, i, u, p).(index := i'), u, p')
    ensures Run(At(c, i, u, p), [step] + rest) == Run(At(c, i', u, p'), rest)
  {
    assert ([step] + rest)[1..] == rest;
    assert c.peers[u := p][u := p'] == c.peers[u := p'];
  }

  lemma PutLayersStep(c: Cluster, u: NodeId, i: Index, p: Peer)
    requires p.phase.GotLayers?
    ensures PeerStep(At(c, i, u, p), u, PutLayers(u))
         == WithPeer(At(c, i, u, p).(index := AddLayers(i, p.phase.layers, u)), u, p.(phase := AddedLayers(p.phase.v)))
  {
  }

  lemma FetchLayersStep(c: Cluster, u: NodeId, i: Index, p: Peer, layers: seq<LayerInfo>)
    requires p.phase.AddedImages? && DiffIds(layers) == p.layers
    ensures PeerStep(At(c, i, u, p), u, FetchLayers(u, layers))
         == WithPeer(At(c, i, u, p).(index := i), u, p.(phase := GotLayers(p.phase.v, layers)))
  {
  }

  lemma PassLayers(c: Cluster, u: NodeId, layers: seq<LayerInfo>, i: Index, p: Peer, n: nat, rest: seq<Step>)
    requires p.phase == Idle && DiffIds(layers) == p.layers
    ensures Run(At(c, i, u, p.(phase := AddedImages(n))),
                [FetchLayers(u, layers)] + ([PutLayers(u)] + ([Commit(u)] + rest)))
         == Run(At(c, AddLayers(i, layers, u), u, p.(lastSync := n)), rest)
  {
    var p0, p1, p2 := p.(phase := AddedImages(n)), p.(phase := GotLayers(n, layers)), p.(phase := AddedLayers(n));
    var i' := AddLayers(i, layers, u);
    FetchLayersStep(c, u, i, p0, layers);
    LoopStep(c, u, FetchLayers(u, layers), [PutLayers(u)] + ([Commit(u)] + rest), i, p0, i, p1);
    PutLayersStep(c, u, i, p1);
    LoopStep(c, u, PutLayers(u), [Commit(u)] + rest, i, p1, i', p2);
    LoopStep(c, u, Commit(u), rest, i', p2, i', p.(lastSync := n));
  }

  lemma PassImages(c: Cluster, u: NodeId, images: seq<ImageInfo>, i: Index, p: Peer, n: nat, rest: seq<Step>)
    requires p.phase == Idle && p.lastSync != n && ImageIds(images) == p.images
    ensures Run(At(c, i, u, p.(phase := Polled(n))), [Begin(u)] + ([FetchImages(u, images)] + ([PutImages(u)] + rest)))
         == Run(At(c, AddImages(Reset(i, u), images, u), u, p.(phase := AddedImages(n))), rest)
  {
    var p1, p2 := p.(phase := Cleared(n)), p.(phase := GotImages(n, images));
    var i0 := Reset(i, u);
    var i1 := AddImages(i0, images, u);
    LoopStep(c, u, Begin(u), [FetchImages(u, images)] + ([PutImages(u)] + rest), i, p.(phase := Polled(n)), i0, p1);
    LoopStep(c, u, FetchImages(u, images), [PutImages(u)] + rest, i0, p1, i0, p2);
    LoopStep(c, u, PutImages(u), rest, i0, p2, i1, p.(phase := AddedImages(n)));
  }

  /**
   * Convergence: from any state of the index, one undisturbed pass over a peer
   * whose version is not the recorded one makes index and peer agree, records
   * its version, and leaves every other node's holdings alone.
   */
  lemma PassConverges(c: Cluster, u: NodeId, images: seq<ImageInfo>, layers: seq<LayerInfo>, v: NodeId)
    requires u in c.peers && c.peers[u].phase == Idle && c.peers[u].lastSync != c.peers[u].version
    requires ImageIds(images) == c.peers[u].images && DiffIds(layers) == c.peers[u].layers
    ensures var end := Run(c, Pass(u, images, layers));
            && u in end.peers && end.peers[u] == c.peers[u].(lastSync := c.peers[u].version)
            && Agrees(end.index, u, end.peers[u])
            && (v != u ==> SameHoldings(end.index, c.index, v))
  {
    var p, n := c.peers[u], c.peers[u].version;
    var second := [FetchLayers(u, layers)] + ([PutLayers(u)] + ([Commit(u)] + []));
    var first := [Begin(u)] + ([FetchImages(u, images)] + ([PutImages(u)] + second));
    assert At(c, c.index, u, p) == c;
    LoopStep(c, u, Poll(u), first, c.index, p, c.index, p.(phase := Polled(n)));
    PassImages(c, u, images, c.index, p, n, second);
    PassLayers(c, u, layers, AddImages(Reset(c.index, u), images, u), p, n, []);
    assert Run(c, Pass(u, images, layers)) == At(c, Sync(c.index, u, images, layers), u, p.(lastSync := n));
    SyncReplaces(c.index, u, images, layers, v);
  }

  /** A failure at any point of a loop costs nothing but the pass: the next undisturbed one agrees. */
  lemma FailureRecovers(c: Cluster, u: NodeId, images: seq<ImageInfo>, layers: seq<LayerInfo>)
    requires u in c.peers && c.peers[u].lastSync != c.peers[u].version
    requires ImageIds(images) == c.peers[u].images && DiffIds(layers) == c.peers[u].layers
    ensures var end := Run(c, [Fail(u)] + Pass(u, images, layers));
            && u in end.peers && end.peers[u].lastSync == c.peers[u].version && end.peers[u].phase == Idle
            && Agrees(end.index, u, c.peers[u])
  {
    var failed := Apply(c, Fail(u));
    assert ([Fail(u)] + Pass(u, images, layers))[1..] == Pass(u, images, layers);
    assert failed.peers[u] == c.peers[u].(phase := Idle);
    PassConverges(failed, u, images, layers, u);
  }

  /** A change of a peer that it announces is what the next undisturbed pass copies. */
  lemma ChangeIsCopied(c: Cluster, u: NodeId, images: seq<ImageInfo>, layers: seq<LayerInfo>)
    requires u in c.peers && c.peers[u].phase == Idle && c.peers[u].pending == 0
    requires c.peers[u].lastSync <= c.peers[u].version
    ensures var change := [Change(u, ImageIds(images), DiffIds(layers)), Bump(u, 1)];
            var end := Run(c, change + Pass(u, images, layers));
            && ImagesOf(end.index, u) == ImageIds(images) && LayersOf(end.index, u) == DiffIds(layers)
            && u in end.peers && UpToDate(end.peers[u])
  {
    var first, second := Change(u, ImageIds(images), DiffIds(layers)), Bump(u, 1);
    var pass := Pass(u, images, layers);
    var all := [first, second] + pass;
    assert all[1..][0] == second && all[1..][1..] == pass;
    var changed := Apply(c, first);
    var bumped := Apply(changed, second);
    assert bumped.peers[u] == c.peers[u].(images := ImageIds(images), layers := DiffIds(layers),
                                          version := c.peers[u].version + 1);
    assert Run(c, all) == Run(bumped, pass);
    PassConverges(bumped, u, images, layers, u);
  }

  // ---------- layer references over runs ----------

  /** What holds of the local tables in every run. */
  ghost predicate LocalInv(c: Cluster) {
    && c.local !in c.peers
    && WellFormed(c.index)
    && RefSafe(c.index, c.local, c.full)
    && UsedIfLocal(c.index.layers, c.local)
  }

  lemma LocalStepKeepsInv(c: Cluster, step: Step)
    requires LocalInv(c) && IsLocal(step)
    ensures LocalInv(Apply(c, step))
  {
    var idx := c.index;
    match step
    case LocalSave(id, found, skip) =>
      SaveRefSafe(idx, c.local, c.full, id, found, skip);
      SaveImageWellFormed(idx, c.local, id, found, skip);
      SaveUsed(idx, c.local, id, found, skip);
    case LocalSaveFails(id, found) =>
      InterruptedRefSafe(idx, c.local, c.full, id, found);
      SaveLayersWellFormed(idx.images, idx.layers, |idx.layers|, c.local, id, found);
      SaveUsed(idx, c.local, id, found, false);
    case LocalDelete(id) =>
      if DeleteImage(idx, c.local, id).Ok? {
        DeleteRefSafe(idx, c.local, c.full, id);
        DeleteImageWellFormed(idx, c.local, id);
        DeleteUsed(idx, c.local, id);
      }
    case LocalReset =>
      ResetWellFormed(idx, c.local);
      ResetUsed(idx, c.local, c.local);
  }

  lemma PeerStepKeepsLocalInv(c: Cluster, step: Step)
    requires LocalInv(c) && !IsLocal(step)
    ensures LocalInv(Apply(c, step))
  {
    var idx := c.index;
    if step.u in c.peers {
      match (step, c.peers[step.u].phase)
      case (Begin(u), _) =>
        ResetRefSafe(idx, c.local, c.full, u);
        ResetWellFormed(idx, u);
        ResetUsed(idx, c.local, u);
      case (PutImages(u), GotImages(_, reply)) =>
        AddImagesRefSafe(idx, c.local, c.full, reply, u);
        AddImagesWellFormed(idx, reply, u);
        AddImagesUsed(idx, c.local, reply, u);
      case (PutLayers(u), GotLayers(_, reply)) =>
        AddLayersRefSafe(idx, c.local, c.full, reply, u);
        AddLayersWellFormed(idx, reply, u);
        AddLayersUsed(idx, c.local, reply, u);
      case _ =>
    }
  }

  lemma StepKeepsLocalInv(c: Cluster, step: Step)
    requires LocalInv(c)
    ensures LocalInv(Apply(c, step))
  {
    if IsLocal(step) {
      LocalStepKeepsInv(c, step);
    } else {
      PeerStepKeepsLocalInv(c, step);
    }
  }

  /**
   * Layer reference safety in every run, local resets and interrupted syncs
   * included: each layer of a fully saved local image keeps a row that lists the
   * image and advertises the layer; no row lists a node or an image twice; an
   * advertised layer is listed by some image.
   */
  lemma {:induction false} LayerReferenceSafety(c: Cluster, steps: seq<Step>)
    requires LocalInv(c)
    ensures LocalInv(Run(c, steps))
    decreases |steps|
  {
    if steps != [] {
      StepKeepsLocalInv(c, steps[0]);
      LayerReferenceSafety(Apply(c, steps[0]), steps[1..]);
    }
  }

  /** The steps that leave reference counts exact: the guards of References.dfy, and every other step. */
  ghost predicate CleanStep(c: Cluster, step: Step) {
    match step
    case LocalReset => ResetGuard(c.index.layers, c.local)
    case LocalSaveFails(id, found) => InterruptedGuard(c.index, c.full, id, found)
    case LocalSave(id, found, skip) => SaveGuard(c.index, c.full, id, found, skip)
    case _ => true
  }

  ghost predicate CleanRun(c: Cluster, steps: seq<Step>)
    decreases |steps|
  {
    steps == [] || (CleanStep(c, steps[0]) && CleanRun(Apply(c, steps[0]), steps[1..]))
  }

  ghost predicate ExactInv(c: Cluster) {
    LocalInv(c) && Exact(c.index, c.local, c.full) && UniqueDiffs(c.index.layers)
  }

  lemma LocalStepExactIff(c: Cluster, step: Step)
    requires ExactInv(c) && IsLocal(step)
    ensures ExactInv(Apply(c, step)) <==> CleanStep(c, step)
  {
    var idx := c.index;
    StepKeepsLocalInv(c, step);
    match step
    case LocalSave(id, found, skip) => SaveExactIff(idx, c.local, c.full, id, found, skip);
    case LocalSaveFails(id, found) => InterruptedExactIff(idx, c.local, c.full, id, found);
    case LocalReset =>
      LocalResetExactIff(idx, c.local, c.full);
      SyncKeepsKeys(idx, c.local, [], []);
    case LocalDelete(id) =>
      if DeleteImage(idx, c.local, id).Ok? {
        DeleteExact(idx, c.local, c.full, id);
        DeleteKeepsKeys(idx, c.local, id);
      }
  }

  lemma PeerStepKeepsExactInv(c: Cluster, step: Step)
    requires ExactInv(c) && !IsLocal(step)
    ensures ExactInv(Apply(c, step))
  {
    var idx := c.index;
    StepKeepsLocalInv(c, step);
    if step.u in c.peers {
      match (step, c.peers[step.u].phase)
      case (Begin(u), _) =>
        ResetExact(idx, c.local, c.full, u);
        SyncKeepsKeys(idx, u, [], []);
      case (PutImages(u), GotImages(_, reply)) =>
        AddImagesExact(idx, c.local, c.full, reply, u);
        AddImagesKeepsLayers(idx, reply, u);
      case (PutLayers(u), GotLayers(_, reply)) =>
        AddLayersExact(idx, c.local, c.full, reply, u);
        AddLayersUnique(idx, reply, u);
      case _ =>
    }
  }

  /** A step keeps the references exact exactly when it is clean. */
  lemma StepExactIff(c: Cluster, step: Step)
    requires ExactInv(c)
    ensures ExactInv(Apply(c, step)) <==> CleanStep(c, step)
  {
    if IsLocal(step) {
      LocalStepExactIff(c, step);
    } else {
      PeerStepKeepsExactInv(c, step);
    }
  }

  /** The references are exact at the start, after each step, and at the end. */
  ghost predicate AlwaysExact(c: Cluster, steps: seq<Step>) {
    forall k :: 0 <= k <= |steps| ==> ExactInv(Run(c, steps[..k]))
  }

  lemma AlwaysExactStep(c: Cluster, steps: seq<Step>)
    requires steps != []
    ensures AlwaysExact(c, steps) <==> ExactInv(c) && AlwaysExact(Apply(c, steps[0]), steps[1..])
  {
    var next, rest := Apply(c, steps[0]), steps[1..];
    forall k | 0 <= k <= |rest| ensures Run(c, steps[..k + 1]) == Run(next, rest[..k]) {
      assert steps[..k + 1][0] == steps[0] && steps[..k + 1][1..] == rest[..k];
    }
    assert Run(c, steps[..0]) == c;
    if ExactInv(c) && AlwaysExact(next, rest) {
      forall k | 0 <= k <= |steps| ensures ExactInv(Run(c, steps[..k])) {
        if k > 0 {
          assert ExactInv(Run(next, rest[..k - 1]));
          assert Run(c, steps[..(k - 1) + 1]) == Run(next, rest[..k - 1]);
        }
      }
    }
    if AlwaysExact(c, steps) {
      forall k | 0 <= k <= |rest| ensures ExactInv(Run(next, rest[..k])) {
        assert ExactInv(Run(c, steps[..k + 1]));
      }
    }
  }

  /**
   * Reference exactness over runs: from an exact state it holds at every point
   * of a run exactly when the run is clean.  It says that the references of each
   * layer are exactly the fully saved local images that list it, that the layer
   * is advertised exactly when there is one, and that `diff_id` is a key.
   */
  lemma {:induction false} ReferenceExactness(c: Cluster, steps: seq<Step>)
    requires ExactInv(c)
    ensures AlwaysExact(c, steps) <==> CleanRun(c, steps)
    decreases |steps|
  {
    if steps != [] {
      var next := Apply(c, steps[0]);
      StepExactIff(c, steps[0]);
      AlwaysExactStep(c, steps);
      if ExactInv(next) {
        ReferenceExactness(next, steps[1..]);
      } else {
        assert Run(next, steps[1..][..0]) == next;
      }
    }
  }

  /**
   * Content addressing: the hash id of an image determines its layer list, and
   * the saves of a step, complete or not, respect it.
   */
  predicate ContentStep(step: Step, content: ImageId -> seq<DiffId>) {
    step.LocalSave? || step.LocalSaveFails? ==> step.found == content(step.id)
  }

  ghost predicate ContentRun(steps: seq<Step>, content: ImageId -> seq<DiffId>) {
    forall i :: 0 <= i < |steps| ==> ContentStep(steps[i], content)
  }

  ghost predicate ContentInv(c: Cluster, content: ImageId -> seq<DiffId>) {
    forall id :: id in c.full && id in c.index.images ==> c.index.images[id].layers == content(id)
  }

  lemma {:induction false} AddLayersKeepsImages(idx: Index, infos: seq<LayerInfo>, u: NodeId)
    ensures AddLayers(idx, infos, u).images == idx.images
    decreases |infos|
  {
    if infos != [] {
      AddLayersKeepsImages(AddLayer(idx, infos[0], u), infos[1..], u);
    }
  }

  lemma StepKeepsContent(c: Cluster, step: Step, content: ImageId -> seq<DiffId>)
    requires LocalInv(c) && ContentInv(c, content)
    requires ContentStep(step, content)
    ensures ContentInv(Apply(c, step), content)
  {
    match step
    case PutImages(u) =>
      if u in c.peers && c.peers[u].phase.GotImages? {
        var after := Apply(c, step).index;
        forall id | id in c.full
          ensures id in after.images && c.index.images[id].layers == after.images[id].layers
        {
          AddImagesRows(c.index, c.peers[u].phase.images, u, id);
        }
      }
    case PutLayers(u) =>
      if u in c.peers && c.peers[u].phase.GotLayers? {
        AddLayersKeepsImages(c.index, c.peers[u].phase.layers, u);
      }
    case _ =>
  }

  /**
   * What exactness needs under content addressing: a save that raises concerns a
   * fully saved image or one without layers, a save with layers repeats only
   * layers that have a row, and a local reset meets no row that outlives it.
   */
  ghost predicate ContentGuard(c: Cluster, step: Step) {
    match step
    case LocalReset => ResetGuard(c.index.layers, c.local)
    case LocalSaveFails(id, found) => found == [] || id in c.full
    case LocalSave(_, found, skip) => skip || RepeatsHaveRows(c.index.layers, found)
    case _ => true
  }

  ghost predicate GuardedRun(c: Cluster, steps: seq<Step>)
    decreases |steps|
  {
    steps == [] || (ContentGuard(c, steps[0]) && GuardedRun(Apply(c, steps[0]), steps[1..]))
  }

  lemma ContentCleanIff(c: Cluster, step: Step, content: ImageId -> seq<DiffId>)
    requires LocalInv(c) && ContentInv(c, content) && ContentStep(step, content)
    ensures CleanStep(c, step) <==> ContentGuard(c, step)
  {
    if step.LocalSaveFails? && step.found != [] {
      assert step.found[0] in step.found;
    }
  }

  /** Under content addressing exactness holds at every point of a run exactly when the run is guarded. */
  lemma {:induction false} ContentRunsAreExact(c: Cluster, steps: seq<Step>, content: ImageId -> seq<DiffId>)
    requires ExactInv(c) && ContentInv(c, content) && ContentRun(steps, content)
    ensures AlwaysExact(c, steps) <==> GuardedRun(c, steps)
    decreases |steps|
  {
    if steps != [] {
      var next, rest := Apply(c, steps[0]), steps[1..];
      assert ContentStep(steps[0], content);
      ContentCleanIff(c, steps[0], content);
      StepExactIff(c, steps[0]);
      StepKeepsContent(c, steps[0], content);
      AlwaysExactStep(c, steps);
      assert forall i :: 0 <= i < |rest| ==> rest[i] == steps[i + 1];
      if ExactInv(next) {
        ContentRunsAreExact(next, rest, content);
      } else {
        assert Run(next, rest[..0]) == next;
      }
    }
  }

  /**
   * In particular it holds in every run without local resets and interrupted
   * saves whose images list no layer twice.
   */
  lemma {:induction false} PlainRunsAreGuarded(c: Cluster, steps: seq<Step>)
    requires forall i :: 0 <= i < |steps| ==>
               && !steps[i].LocalReset? && !steps[i].LocalSaveFails?
               && (steps[i].LocalSave? ==> NoRepeats(steps[i].found))
    ensures GuardedRun(c, steps)
    decreases |steps|
  {
    if steps != [] {
      assert forall i :: 0 <= i < |steps[1..]| ==> steps[1..][i] == steps[i + 1];
      PlainRunsAreGuarded(Apply(c, steps[0]), steps[1..]);
    }
  }
}
