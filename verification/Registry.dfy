/**
 * Probe tasks and the peer registry: which probes create a `Peer` (and start its
 * loop), and what the shared node collection holds, over all interleavings.
 */
module Registry {
  import opened Common

  type Uuid = string
  type TaskId = nat

  /** How far a probe task has come; code between two awaits is one step. */
  datatype Task =
    | Waiting(known: Option<Uuid>)
    | Fetching
    | Fetched(known: Option<Uuid>, reply: Option<Uuid>)
    | Done(result: Option<Uuid>)

  /**
   * `registry` is `PEER_REGISTRY`, `allNodes` the keys of `Nodes.all_nodes`;
   * `created` counts the remote `Peer` objects made for each uuid (the
   * constructor of a remote peer starts its loop).
   */
  datatype Daemon = Daemon(local: Uuid, registry: set<Uuid>, allNodes: set<Uuid>, created: multiset<Uuid>,
                           lock: Option<TaskId>, tasks: map<TaskId, Task>)

  // ---------- the part of probe_node after the fetch ----------

  datatype Shared = Shared(registry: set<Uuid>, allNodes: set<Uuid>, created: multiset<Uuid>)

  /**
   * `known` is the uuid in the probed address; only an address without one is
   * fetched, giving `reply`.
   */
  function Finish(s: Shared, known: Option<Uuid>, reply: Option<Uuid>): (Shared, Option<Uuid>) {
    var uuid := if reply.Some? then reply else known;
    if uuid.None? then (s, None)
    else if uuid.value in s.registry then (s, uuid)
    else if reply.None? then (s, None)
    else
      var u := reply.value;
      (Shared(s.registry + {u}, s.allNodes + {u}, s.created + multiset{u}), reply)
  }

  /** `PEER_REGISTRY`, `Nodes.all_nodes` and the peers made, as mutable state. */
  class Peers {
    var registry: set<Uuid>
    var allNodes: set<Uuid>
    var created: multiset<Uuid>

    /** The start of the daemon: the local node is listed and its local peer registered. */
    constructor (local: Uuid)
      ensures Now() == Shared({local}, {local}, multiset{})
    {
      registry, allNodes, created := {local}, {local}, multiset{};
    }

    function Now(): Shared
      reads this
    {
      Shared(registry, allNodes, created)
    }

    /** `find_or_create`, for a remote node. */
    method FindOrCreate(u: Uuid)
      modifies this`created
      ensures created == if u in registry then old(created) else old(created) + multiset{u}
    {
      if u in registry { return; }
      created := created + multiset{u};
    }

    method Collect(u: Uuid)
      modifies this`registry
      ensures registry == old(registry) + {u}
    {
      registry := registry + {u};
    }

    method UpdateNode(u: Uuid)
      modifies this`allNodes
      ensures allNodes == old(allNodes) + {u}
    {
      allNodes := allNodes + {u};
    }

    /** `set_offline` and `remove_node`. */
    method SetOffline(u: Uuid)
      modifies this`allNodes
      ensures allNodes == old(allNodes) - {u}
    {
      if u in allNodes { allNodes := allNodes - {u}; }
    }

    method FinishProbe(known: Option<Uuid>, reply: Option<Uuid>) returns (result: Option<Uuid>)
      modifies this
      ensures (Now(), result) == Finish(old(Now()), known, reply)
    {
      var uuid := if reply.Some? then reply else known;
      if uuid.None? { return None; }
      if uuid.value in registry { return uuid; }
      if reply.None? { return None; }
      FindOrCreate(reply.value);
      Collect(reply.value);
      UpdateNode(reply.value);
      return reply;
    }
  }

  // ---------- interleavings ----------

  datatype Step =
    | Spawn(t: TaskId, known: Option<Uuid>)
    | Acquire(t: TaskId)
    | Reply(t: TaskId, reply: Option<Uuid>)
    | Crash(t: TaskId)
    | Complete(t: TaskId)
    | Remove(u: Uuid)

  function SharedOf(d: Daemon): Shared {
    Shared(d.registry, d.allNodes, d.created)
  }

  function Apply(d: Daemon, step: Step): Daemon {
    match step
    case Spawn(t, known) =>
      if t in d.tasks then d else d.(tasks := d.tasks[t := Waiting(known)])
    case Acquire(t) =>
      if t in d.tasks && d.tasks[t].Waiting? && d.lock.None? then
        d.(lock := Some(t),
           tasks := d.tasks[t := if d.tasks[t].known.None? then Fetching else Fetched(d.tasks[t].known, None)])
      else d
    case Reply(t, reply) =>
      if t in d.tasks && d.tasks[t].Fetching? then d.(tasks := d.tasks[t := Fetched(None, reply)]) else d
    case Crash(t) =>
      if t in d.tasks && d.tasks[t].Fetching? then d.(lock := None, tasks := d.tasks[t := Done(None)]) else d
    case Complete(t) =>
      if t in d.tasks && d.tasks[t].Fetched? then
        var (s, result) := Finish(SharedOf(d), d.tasks[t].known, d.tasks[t].reply);
        d.(registry := s.registry, allNodes := s.allNodes, created := s.created,
           lock := None, tasks := d.tasks[t := Done(result)])
      else d
    case Remove(u) => d.(allNodes := d.allNodes - {u})
  }

  function Run(d: Daemon, steps: seq<Step>): Daemon
    decreases |steps|
  {
    if steps == [] then d else Run(Apply(d, steps[0]), steps[1..])
  }

  /** A task that holds the probe lock. */
  predicate InSection(task: Task) {
    task.Fetching? || task.Fetched?
  }

  ghost predicate Inv(d: Daemon) {
    && d.local in d.registry
    && d.allNodes <= d.registry
    && (forall u :: d.created[u] == if u in d.registry && u != d.local then 1 else 0)
    && (forall t :: t in d.tasks && InSection(d.tasks[t]) <==> d.lock == Some(t))
    && (forall t :: t in d.tasks && d.tasks[t].Fetched? ==> d.tasks[t].known.None? || d.tasks[t].reply.None?)
  }

  /** The daemon before its first probe. */
  function Boot(local: Uuid): Daemon {
    Daemon(local, {local}, {local}, multiset{}, None, map[])
  }

  lemma StepKeepsInv(d: Daemon, step: Step)
    requires Inv(d)
    ensures Inv(Apply(d, step)) && Apply(d, step).local == d.local
    ensures d.registry <= Apply(d, step).registry
  {
    match step
    case Complete(t) =>
      if t in d.tasks && d.tasks[t].Fetched? {
        assert d.lock == Some(t);
      }
    case _ =>
  }

  /**
   * One loop per peer: in every interleaving of probes at most one remote `Peer`
   * was made for a uuid, exactly one if the uuid is registered; the registry only
   * grows; every listed node is registered; at most one task is past the lock.
   */
  lemma {:induction false} OneLoopPerPeer(d: Daemon, steps: seq<Step>)
    requires Inv(d)
    ensures Inv(Run(d, steps)) && Run(d, steps).local == d.local
    ensures d.registry <= Run(d, steps).registry
    decreases |steps|
  {
    if steps != [] {
      StepKeepsInv(d, steps[0]);
      OneLoopPerPeer(Apply(d, steps[0]), steps[1..]);
    }
  }

  lemma BootInv(local: Uuid)
    ensures Inv(Boot(local))
  {
  }

  /** The probe found a new node: its address has no uuid and the node that answered is not registered. */
  predicate FoundNew(d: Daemon, t: TaskId)
    requires t in d.tasks && d.tasks[t].Fetched?
  {
    d.tasks[t].known.None? && d.tasks[t].reply.Some? && d.tasks[t].reply.value !in d.registry
  }

  /**
   * What a probe leaves behind.  It registers, lists and makes a peer of exactly
   * the node that answered when its address carries no uuid and that node is not
   * registered; otherwise the shared state is as before.  Its result is that
   * node, or the registered uuid it met, or nothing.
   */
  lemma ProbeOutcome(d: Daemon, t: TaskId)
    requires Inv(d) && t in d.tasks && d.tasks[t].Fetched?
    ensures var task, after := d.tasks[t], Apply(d, Complete(t));
            && after.lock == None
            && (FoundNew(d, t) ==>
                  && after.registry == d.registry + {task.reply.value} && after.registry != d.registry
                  && after.allNodes == d.allNodes + {task.reply.value}
                  && after.created == d.created + multiset{task.reply.value}
                  && after.tasks == d.tasks[t := Done(task.reply)])
            && (!FoundNew(d, t) ==>
                  && SharedOf(after) == SharedOf(d)
                  && after.tasks == d.tasks[t := Done(if task.reply.Some? then task.reply
                                                       else if task.known.Some? && task.known.value in d.registry
                                                       then task.known else None)])
  {
  }

  /** A probe changes the shared state exactly when it found a new node. */
  lemma RegistersIff(d: Daemon, t: TaskId)
    requires Inv(d) && t in d.tasks && d.tasks[t].Fetched?
    ensures SharedOf(Apply(d, Complete(t))) != SharedOf(d) <==> FoundNew(d, t)
    ensures FoundNew(d, t) ==> Apply(d, Complete(t)).registry == d.registry + {d.tasks[t].reply.value}
  {
    ProbeOutcome(d, t);
  }

  /** An undisturbed probe of an address without uuid that a node answers: the node is registered and listed. */
  lemma ProbeRegisters(d: Daemon, t: TaskId, u: Uuid)
    requires d.lock == None && t !in d.tasks && u !in d.registry
    ensures Run(d, [Spawn(t, None), Acquire(t), Reply(t, Some(u)), Complete(t)])
         == Daemon(d.local, d.registry + {u}, d.allNodes + {u}, d.created + multiset{u},
                   None, d.tasks[t := Done(Some(u))])
  {
    var steps := [Spawn(t, None), Acquire(t), Reply(t, Some(u)), Complete(t)];
    var waiting := d.(tasks := d.tasks[t := Task.Waiting(None)]);
    var fetching := d.(lock := Some(t), tasks := d.tasks[t := Fetching]);
    var fetched := d.(lock := Some(t), tasks := d.tasks[t := Fetched(None, Some(u))]);
    assert steps[1..] == [Acquire(t), Reply(t, Some(u)), Complete(t)];
    assert steps[1..][1..] == [Reply(t, Some(u)), Complete(t)];
    assert steps[1..][1..][1..] == [Complete(t)] && [Complete(t)][1..] == [];
    assert Apply(d, steps[0]) == waiting;
    assert waiting.tasks[t := Fetching] == fetching.tasks && Apply(waiting, Acquire(t)) == fetching;
    assert fetching.tasks[t := Fetched(None, Some(u))] == fetched.tasks;
    assert Apply(fetching, Reply(t, Some(u))) == fetched;
    assert fetched.tasks[t := Done(Some(u))] == d.tasks[t := Done(Some(u))];
    assert Run(fetching, [Reply(t, Some(u)), Complete(t)]) == Run(fetched, [Complete(t)]);
    assert Run(fetched, [Complete(t)]) == Apply(fetched, Complete(t));
  }

  /** An undisturbed probe of an address with a uuid fetches nothing and changes nothing. */
  lemma ProbeOfKnown(d: Daemon, t: TaskId, k: Uuid)
    requires d.lock == None && t !in d.tasks
    ensures Run(d, [Spawn(t, Some(k)), Acquire(t), Complete(t)])
         == d.(tasks := d.tasks[t := Done(if k in d.registry then Some(k) else None)])
  {
    var steps := [Spawn(t, Some(k)), Acquire(t), Complete(t)];
    var waiting := d.(tasks := d.tasks[t := Task.Waiting(Some(k))]);
    var fetched := d.(lock := Some(t), tasks := d.tasks[t := Fetched(Some(k), None)]);
    var result := if k in d.registry then Some(k) else None;
    assert steps[1..] == [Acquire(t), Complete(t)] && steps[1..][1..] == [Complete(t)] && [Complete(t)][1..] == [];
    assert waiting.tasks[t := Fetched(Some(k), None)] == fetched.tasks && Apply(waiting, Acquire(t)) == fetched;
    assert fetched.tasks[t := Done(result)] == d.tasks[t := Done(result)];
    assert Run(fetched, [Complete(t)]) == Apply(fetched, Complete(t));
  }

  // ---------- listed nodes ----------

  /** Step `k` of the run removed `u` when it was registered already. */
  predicate RemovedAt(d: Daemon, steps: seq<Step>, u: Uuid, k: nat)
    requires k < |steps|
  {
    steps[k] == Remove(u) && u in Run(d, steps[..k]).registry
  }

  lemma RunFirst(d: Daemon, steps: seq<Step>, k: nat)
    requires 0 < k <= |steps|
    ensures Run(d, steps[..k]) == Run(Apply(d, steps[0]), steps[1..][..k - 1])
  {
    assert steps[..k][0] == steps[0] && steps[..k][1..] == steps[1..][..k - 1];
  }

  lemma RemovedShift(d: Daemon, steps: seq<Step>, u: Uuid)
    requires steps != []
    ensures (exists k: nat :: k < |steps| && RemovedAt(d, steps, u, k)) <==>
              || (steps[0] == Remove(u) && u in d.registry)
              || exists k: nat :: k < |steps[1..]| && RemovedAt(Apply(d, steps[0]), steps[1..], u, k)
  {
    var rest := steps[1..];
    assert steps[..0] == [];
    if steps[0] == Remove(u) && u in d.registry {
      assert RemovedAt(d, steps, u, 0);
    }
    forall k | 1 <= k < |steps|
      ensures RemovedAt(d, steps, u, k) <==> RemovedAt(Apply(d, steps[0]), rest, u, k - 1)
    {
      RunFirst(d, steps, k);
      assert rest[k - 1] == steps[k];
    }
    if k: nat :| k < |rest| && RemovedAt(Apply(d, steps[0]), rest, u, k) {
      assert RemovedAt(d, steps, u, k + 1);
    }
  }

  /**
   * A registered node is listed exactly when it was, or was registered by the
   * run, and no removal of it came after its registration.
   */
  lemma {:induction false} ListedUnlessRemoved(d: Daemon, steps: seq<Step>, u: Uuid)
    requires u in Run(d, steps).registry
    requires u in d.registry ==> u in d.allNodes
    ensures u in Run(d, steps).allNodes <==> !exists k: nat :: k < |steps| && RemovedAt(d, steps, u, k)
    decreases |steps|
  {
    if steps != [] {
      var next, rest := Apply(d, steps[0]), steps[1..];
      RemovedShift(d, steps, u);
      if steps[0] == Remove(u) && u in d.registry {
        RemovedStaysRemoved(next, u, rest);
      } else {
        ListedUnlessRemoved(next, rest, u);
      }
    }
  }

  /** From the start of the daemon: every registered uuid is listed unless it was removed afterwards. */
  lemma ListedFromBoot(local: Uuid, steps: seq<Step>, u: Uuid)
    ensures u in Run(Boot(local), steps).allNodes <==>
              && u in Run(Boot(local), steps).registry
              && !exists k: nat :: k < |steps| && RemovedAt(Boot(local), steps, u, k)
  {
    BootInv(local);
    OneLoopPerPeer(Boot(local), steps);
    if u in Run(Boot(local), steps).registry {
      ListedUnlessRemoved(Boot(local), steps, u);
    }
  }

  /**
   * A node that was removed while its peer stays registered is never listed
   * again: later probes of it return early.
   */
  lemma {:induction false} RemovedStaysRemoved(d: Daemon, u: Uuid, steps: seq<Step>)
    requires u in d.registry && u !in d.allNodes
    ensures u in Run(d, steps).registry && u !in Run(d, steps).allNodes
    decreases |steps|
  {
    if steps != [] {
      RemovedStaysRemoved(Apply(d, steps[0]), u, steps[1..]);
    }
  }
}
