/**
 * The retry loop of `probe_node` (`try_probe_remote_node`): a list of targets,
 * a counter, and one fetch per round until a node is found.
 */
module Probe {
  import opened Common
  import opened Arithmetic

  type Node = string

  /**
   * What stands in the address list: a peer address, or the whole list of
   * extra addresses, which the caller appends as one element.
   */
  datatype Target = PeerAddress(address: string) | AddressList(addresses: seq<string>)

  /** The outcome of one fetch; `Refused` is a connection error, other errors propagate. */
  datatype Reply = Found(node: Node) | Refused | Crashed

  /** The replies of the network: round number and address to reply. */
  type Network = (nat, string) -> Reply

  /** `fetch_node_info`; a list has no `location`, so fetching it raises. */
  function Fetch(net: Network, k: nat, target: Target): Reply {
    match target
    case PeerAddress(a) => net(k, a)
    case AddressList(_) => Crashed
  }

  /** The loop variables, and the targets fetched so far. */
  datatype State = State(remaining: seq<Target>, counter: int, node: Option<Node>, crashed: bool, log: seq<Target>)

  predicate Running(s: State) {
    s.counter != 0 && s.node.None? && !s.crashed && s.remaining != []
  }

  /** One round: fetch, count down, and move to the next target when the counter reaches zero. */
  function Round(net: Network, retries: int, s: State): State
    requires Running(s)
  {
    var target := s.remaining[0];
    var reply := Fetch(net, |s.log|, target);
    var log := s.log + [target];
    if reply.Crashed? then s.(crashed := true, log := log)
    else
      var node := if reply.Found? then Some(reply.node) else None;
      if s.counter - 1 != 0 then State(s.remaining, s.counter - 1, node, false, log)
      else
        var rest := s.remaining[1..];
        State(rest, if rest != [] then retries else 0, node, false, log)
  }

  function Rounds(net: Network, retries: int, s: State, n: nat): State
    decreases n
  {
    if n == 0 || !Running(s) then s else Rounds(net, retries, Round(net, retries, s), n - 1)
  }

  function Begin(targets: seq<Target>, retries: int): State {
    State(targets, retries, None, false, [])
  }

  /** The target of fetch `k` when each target is tried `retries` times. */
  function TargetOf(targets: seq<Target>, retries: int, k: nat): Target
    requires retries > 0 && k < retries * |targets|
  {
    DivBound(k, retries, |targets|);
    targets[k / retries]
  }

  lemma DivBound(k: nat, r: int, n: nat)
    requires r > 0 && k < r * n
    ensures 0 <= k / r < n
  {
    var q := k / r;
    assert k == q * r + k % r;
    ProductBound(n - q, r);
    assert (n - q) * r == n * r - q * r;
    ProductBound(q - n, r);
    assert (q - n) * r == q * r - n * r;
  }

  /** Where the loop stands: `passed` targets used up, `log` as long as that says. */
  ghost predicate Positioned(targets: seq<Target>, retries: int, s: State, passed: nat) {
    && retries > 0 && passed <= |targets| && s.remaining == targets[passed..]
    && 0 <= s.counter <= retries && (s.counter == 0 <==> s.remaining == [])
    && |s.log| == Times(passed, retries) + (if s.remaining == [] then 0 else retries - s.counter)
    && |s.log| <= retries * |targets|
    && (forall k :: 0 <= k < |s.log| ==> s.log[k] == TargetOf(targets, retries, k))
  }

  /** Every fetch before the last was refused, and `node` is what the last one found. */
  ghost predicate Replied(net: Network, s: State) {
    && (forall k :: 0 <= k < |s.log| - 1 ==> Fetch(net, k, s.log[k]) == Refused)
    && !s.crashed
    && (s.log == [] ==> s.node == None)
    && (s.log != [] ==>
          var last := Fetch(net, |s.log| - 1, s.log[|s.log| - 1]);
          !last.Crashed? && s.node == if last.Found? then Some(last.node) else None)
  }

  ghost predicate Consistent(net: Network, targets: seq<Target>, retries: int, s: State, passed: nat) {
    Positioned(targets, retries, s, passed) && Replied(net, s)
  }

  /** The next fetch goes to the first remaining target, which is the one its number says. */
  lemma NextTarget(targets: seq<Target>, retries: int, s: State, passed: nat)
    requires Positioned(targets, retries, s, passed) && s.remaining != []
    ensures |s.log| < retries * |targets|
    ensures s.remaining[0] == TargetOf(targets, retries, |s.log|)
  {
    var m := retries - s.counter;
    TimesIsProduct(passed, retries);
    assert retries * |targets| == passed * retries + (|targets| - passed) * retries;
    assert (|targets| - passed) * retries >= retries by { ProductBound(|targets| - passed, retries); }
    DivisionIsUnique(|s.log|, passed, m, retries);
  }

  lemma RoundPositions(net: Network, targets: seq<Target>, retries: int, s: State, passed: nat)
    requires Positioned(targets, retries, s, passed) && Running(s) && !Round(net, retries, s).crashed
    ensures Positioned(targets, retries, Round(net, retries, s), if s.counter == 1 then passed + 1 else passed)
  {
    NextTarget(targets, retries, s, passed);
    assert targets[passed..][1..] == targets[passed + 1..];
  }

  lemma RoundReplies(net: Network, retries: int, s: State)
    requires Replied(net, s) && Running(s)
    ensures var t := Round(net, retries, s);
            t.log == s.log + [s.remaining[0]] &&
            if t.crashed then Fetch(net, |s.log|, t.log[|s.log|]) == Crashed else Replied(net, t)
  {
  }

  lemma RoundKeeps(net: Network, targets: seq<Target>, retries: int, s: State, passed: nat)
    requires Consistent(net, targets, retries, s, passed) && Running(s)
    ensures !Round(net, retries, s).crashed ==>
              Consistent(net, targets, retries, Round(net, retries, s), if s.counter == 1 then passed + 1 else passed)
  {
    RoundReplies(net, retries, s);
    if !Round(net, retries, s).crashed {
      RoundPositions(net, targets, retries, s, passed);
    }
  }

  /** What the loop returns. */
  datatype Outcome = Result(node: Option<Node>) | Raised

  /** Every fetch before the last was refused, and the outcome is that of the last. */
  ghost predicate Explains(net: Network, targets: seq<Target>, retries: int, log: seq<Target>, outcome: Outcome)
    requires retries > 0
  {
    && |log| <= retries * |targets|
    && (forall k :: 0 <= k < |log| ==> log[k] == TargetOf(targets, retries, k))
    && (forall k :: 0 <= k < |log| - 1 ==> Fetch(net, k, log[k]) == Refused)
    && match outcome
       case Result(Some(n)) => log != [] && Fetch(net, |log| - 1, log[|log| - 1]) == Found(n)
       case Raised => log != [] && Fetch(net, |log| - 1, log[|log| - 1]) == Crashed
       case Result(None) => |log| == retries * |targets|
                            && (log != [] ==> Fetch(net, |log| - 1, log[|log| - 1]) == Refused)
  }

  // ---------- a negative counter ----------

  /** With negative retries a run ends only if the first target answers at some time. */
  ghost predicate Ends(net: Network, targets: seq<Target>, retries: int) {
    retries >= 0 || targets == [] || exists k: nat :: Fetch(net, k, targets[0]) != Refused
  }

  /** Only the first target was fetched, all but the last fetch were refused, and the last decides. */
  ghost predicate ExplainsForever(net: Network, targets: seq<Target>, log: seq<Target>, outcome: Outcome)
    requires targets != []
  {
    && log != [] && (forall k :: 0 <= k < |log| ==> log[k] == targets[0])
    && (forall k :: 0 <= k < |log| - 1 ==> Fetch(net, k, log[k]) == Refused)
    && match outcome
       case Result(Some(n)) => Fetch(net, |log| - 1, log[|log| - 1]) == Found(n)
       case Raised => Fetch(net, |log| - 1, log[|log| - 1]) == Crashed
       case Result(None) => false
  }

  /** Where a loop with negative retries stands; fetch `stop` will not be refused. */
  ghost predicate Waiting(net: Network, targets: seq<Target>, s: State, stop: nat) {
    && targets != [] && s.remaining == targets && s.counter < 0 && Replied(net, s)
    && (forall k :: 0 <= k < |s.log| ==> s.log[k] == targets[0])
    && Fetch(net, stop, targets[0]) != Refused
    && |s.log| <= stop + 1 && (s.node.None? ==> |s.log| <= stop)
  }

  lemma WaitingRound(net: Network, targets: seq<Target>, retries: int, s: State, stop: nat)
    requires Waiting(net, targets, s, stop) && Running(s)
    ensures var t := Round(net, retries, s);
            t.log == s.log + [s.remaining[0]] &&
            if t.crashed then ExplainsForever(net, targets, t.log, Raised) else Waiting(net, targets, t, stop)
  {
    RoundReplies(net, retries, s);
    var t := Round(net, retries, s);
    forall k | 0 <= k < |s.log| ensures t.log[k] == targets[0] && Fetch(net, k, targets[0]) == Refused {
      assert t.log[k] == s.log[k] && Fetch(net, k, s.log[k]) == Refused;
    }
  }

  /** A loop with negative retries runs on through `n` rounds exactly while the first target refuses. */
  lemma {:induction false} RunsOn(net: Network, targets: seq<Target>, retries: int, s: State, n: nat)
    requires targets != [] && s.remaining == targets && s.counter < 0 && Running(s)
    ensures Running(Rounds(net, retries, s, n)) <==>
              forall k :: |s.log| <= k < |s.log| + n ==> Fetch(net, k, targets[0]) == Refused
    decreases n
  {
    if n > 0 {
      var t := Round(net, retries, s);
      if Fetch(net, |s.log|, targets[0]) == Refused {
        RunsOn(net, targets, retries, t, n - 1);
      } else {
        assert !Running(t) && Rounds(net, retries, t, n - 1) == t;
      }
    }
  }

  /** The runs outside `Ends`, and only they, go on for ever. */
  lemma ForeverIff(net: Network, targets: seq<Target>, retries: int)
    requires retries < 0
    ensures (forall n: nat :: Running(Rounds(net, retries, Begin(targets, retries), n))) <==>
              !Ends(net, targets, retries)
  {
    var s := Begin(targets, retries);
    if targets == [] {
      assert !Running(Rounds(net, retries, s, 0));
    } else {
      forall n: nat
        ensures Running(Rounds(net, retries, s, n)) <==>
                  forall k :: 0 <= k < n ==> Fetch(net, k, targets[0]) == Refused
      {
        RunsOn(net, targets, retries, s, n);
      }
      if k: nat :| Fetch(net, k, targets[0]) != Refused {
        assert !Running(Rounds(net, retries, s, k + 1));
      }
    }
  }

  // ---------- the loop ----------

  lemma CrashExplains(net: Network, targets: seq<Target>, retries: int, s: State, passed: nat)
    requires Consistent(net, targets, retries, s, passed) && Running(s) && Round(net, retries, s).crashed
    ensures Explains(net, targets, retries, Round(net, retries, s).log, Raised)
  {
    NextTarget(targets, retries, s, passed);
    RoundReplies(net, retries, s);
    if s.log != [] {
      assert Fetch(net, |s.log| - 1, s.log[|s.log| - 1]) == Refused;
    }
  }

  lemma StopExplains(net: Network, targets: seq<Target>, retries: int, s: State, passed: nat)
    requires Consistent(net, targets, retries, s, passed) && !Running(s) && targets != []
    ensures Explains(net, targets, retries, s.log, Result(s.node))
  {
    if s.remaining == [] {
      assert passed == |targets|;
      TimesIsProduct(passed, retries);
    }
  }

  /** What the replies, the targets and the retries say about the fetches and the outcome. */
  ghost predicate Explained(net: Network, targets: seq<Target>, retries: int, log: seq<Target>, outcome: Outcome) {
    if retries == 0 || targets == [] then outcome == Result(None) && log == []
    else if retries > 0 then Explains(net, targets, retries, log, outcome)
    else ExplainsForever(net, targets, log, outcome)
  }

  /** Where the loop stands, for any retries. */
  ghost predicate Standing(net: Network, targets: seq<Target>, retries: int, s: State, passed: nat, stop: nat) {
    if retries == 0 then s == Begin(targets, 0)
    else if retries > 0 then Consistent(net, targets, retries, s, passed)
    else Waiting(net, targets, s, stop)
  }

  lemma RoundStands(net: Network, targets: seq<Target>, retries: int, s: State, passed: nat, stop: nat)
    requires targets != [] && Standing(net, targets, retries, s, passed, stop) && Running(s)
    ensures var t := Round(net, retries, s);
            if t.crashed then Explained(net, targets, retries, t.log, Raised)
            else Standing(net, targets, retries, t, if s.counter == 1 then passed + 1 else passed, stop)
  {
    if retries < 0 {
      WaitingRound(net, targets, retries, s, stop);
    } else {
      RoundKeeps(net, targets, retries, s, passed);
      if Round(net, retries, s).crashed { CrashExplains(net, targets, retries, s, passed); }
    }
  }

  lemma StopStands(net: Network, targets: seq<Target>, retries: int, s: State, passed: nat, stop: nat)
    requires targets != [] && Standing(net, targets, retries, s, passed, stop) && !Running(s) && !s.crashed
    ensures Explained(net, targets, retries, s.log, Result(s.node))
  {
    if retries > 0 { StopExplains(net, targets, retries, s, passed); }
  }

  /**
   * The loop, for every run that ends.  With retries of 0 and more it ends by
   * the pair (targets left, counter), fetch `k` goes to target `k / retries`,
   * and it returns the first node found; with fewer it stays at the first target.
   */
  method TryProbe(net: Network, targets: seq<Target>, retries: int) returns (outcome: Outcome, log: seq<Target>)
    requires Ends(net, targets, retries)
    ensures Explained(net, targets, retries, log, outcome)
  {
    var remaining, counter: int, node := targets, retries, None;
    log := [];
    if targets == [] { return Result(None), []; }
    ghost var passed, stop: nat := 0, 0;
    if retries < 0 { stop :| Fetch(net, stop, targets[0]) != Refused; }
    while counter != 0 && node == None && remaining != []
      invariant Standing(net, targets, retries, State(remaining, counter, node, false, log), passed, stop)
      decreases |remaining|, if retries < 0 then stop + 1 - |log| else counter
    {
      ghost var s := State(remaining, counter, node, false, log);
      RoundStands(net, targets, retries, s, passed, stop);
      var target := remaining[0];
      var reply := Fetch(net, |log|, target);
      log := log + [target];
      if reply.Crashed? { return Raised, log; }
      node := if reply.Found? then Some(reply.node) else None;
      passed := if counter == 1 then passed + 1 else passed;
      counter := counter - 1;
      if counter == 0 {
        remaining := remaining[1..];
        if remaining != [] { counter := retries; }
      }
      assert State(remaining, counter, node, false, log) == Round(net, retries, s);
    }
    StopStands(net, targets, retries, State(remaining, counter, node, false, log), passed, stop);
    return Result(node), log;
  }

  /** The explanation leaves no choice: the replies determine fetches and outcome. */
  lemma ExplainsUnique(net: Network, targets: seq<Target>, retries: int,
                       log1: seq<Target>, o1: Outcome, log2: seq<Target>, o2: Outcome)
    requires retries > 0
    requires Explains(net, targets, retries, log1, o1) && Explains(net, targets, retries, log2, o2)
    ensures log1 == log2 && o1 == o2
  {
    NoLonger(net, targets, retries, log1, o1, log2, o2);
    NoLonger(net, targets, retries, log2, o2, log1, o1);
    assert log1 == log2;
  }

  lemma NoLonger(net: Network, targets: seq<Target>, retries: int,
                 log1: seq<Target>, o1: Outcome, log2: seq<Target>, o2: Outcome)
    requires retries > 0
    requires Explains(net, targets, retries, log1, o1) && Explains(net, targets, retries, log2, o2)
    ensures |log2| <= |log1|
  {
    var k := |log1| - 1;
    assert 0 <= k < |log2| ==> log1[k] == log2[k];
    assert k < 0 ==> |log1| == retries * |targets|;
  }

  /** It makes all `retries * |targets|` fetches exactly when every fetch before the last is refused. */
  lemma FullCountIff(net: Network, targets: seq<Target>, retries: int, log: seq<Target>, outcome: Outcome)
    requires retries > 0 && Explains(net, targets, retries, log, outcome)
    ensures |log| == retries * |targets| <==>
              forall k :: 0 <= k < retries * |targets| - 1 ==> Fetch(net, k, TargetOf(targets, retries, k)) == Refused
  {
    if |log| < retries * |targets| {
      assert log != [];
      var k := |log| - 1;
      assert Fetch(net, k, TargetOf(targets, retries, k)) != Refused;
    }
  }

  /** With negative retries the counter never reaches zero: only the first target is ever fetched. */
  lemma {:induction false} ForeverFirst(net: Network, targets: seq<Target>, retries: int, s: State, n: nat)
    requires targets != [] && s.remaining == targets && s.counter < 0
    requires forall t :: t in s.log ==> t == targets[0]
    ensures var end := Rounds(net, retries, s, n);
            && end.remaining == targets && end.counter < 0
            && (forall t :: t in end.log ==> t == targets[0])
            && (|end.log| == |s.log| + n || !Running(end))
    decreases n
  {
    if n > 0 && Running(s) {
      ForeverFirst(net, targets, retries, Round(net, retries, s), n - 1);
    }
  }

  /** The targets of a probe for a discovered peer. */
  function ProbeTargets(address: string, extra: seq<string>): seq<Target> {
    [PeerAddress(address)] + if extra == [] then [] else [AddressList(extra)]
  }

  /** Fetch `k` is the first one that is not refused, and its reply is `reply`. */
  ghost predicate FirstAnswer(net: Network, address: string, retries: int, reply: Reply) {
    exists k: nat :: k < retries && net(k, address) == reply && forall m: nat :: m < k ==> net(m, address) == Refused
  }

  /**
   * The ordinary probe, without extra addresses: at most `retries` fetches of its
   * one address, and the outcome is that of the first one not refused.
   */
  lemma PlainProbe(net: Network, address: string, retries: int, log: seq<Target>, outcome: Outcome)
    requires retries > 0 && Explains(net, ProbeTargets(address, []), retries, log, outcome)
    ensures |log| <= retries && forall t :: t in log ==> t == PeerAddress(address)
    ensures outcome == Result(None) <==> forall k: nat :: k < retries ==> net(k, address) == Refused
    ensures outcome == Raised <==> FirstAnswer(net, address, retries, Crashed)
    ensures forall node :: outcome == Result(Some(node)) <==> FirstAnswer(net, address, retries, Found(node))
  {
    var targets := ProbeTargets(address, []);
    assert |targets| == 1 && targets[0] == PeerAddress(address);
    forall k: nat | k < retries ensures TargetOf(targets, retries, k) == PeerAddress(address) {
      DivisionIsUnique(k, 0, k, retries);
    }
    forall k: nat | k < |log| ensures log[k] == PeerAddress(address) && Fetch(net, k, log[k]) == net(k, address) {
      assert log[k] == TargetOf(targets, retries, k);
    }
    var last := |log| - 1;
    assert forall k: nat :: k < last ==> net(k, address) == Refused;
    if last >= 0 && net(last, address) != Refused {
      assert FirstAnswer(net, address, retries, net(last, address));
    }
  }

  /**
   * Extra addresses are never tried: while they remain the probe either finds the
   * peer at its own address or raises, and if that address refuses every retry
   * the next fetch raises.
   */
  lemma ExtraAddressesRaise(net: Network, address: string, extra: seq<string>, retries: int,
                            log: seq<Target>, outcome: Outcome)
    requires retries > 0 && extra != []
    requires Explains(net, ProbeTargets(address, extra), retries, log, outcome)
    ensures outcome != Result(None)
    ensures forall k :: 0 <= k < |log| && k < retries ==> log[k] == PeerAddress(address)
    ensures (forall k :: 0 <= k < retries ==> net(k, address) == Refused) ==> outcome == Raised && |log| == retries + 1
  {
    var targets := ProbeTargets(address, extra);
    assert |targets| == 2;
    forall k | 0 <= k < retries * 2
      ensures TargetOf(targets, retries, k) == if k < retries then PeerAddress(address) else AddressList(extra)
    {
      if k < retries { DivisionIsUnique(k, 0, k, retries); } else { DivisionIsUnique(k, 1, k - retries, retries); }
    }
    var last := |log| - 1;
    assert last > retries ==> Fetch(net, retries, log[retries]) == Refused;
    assert last <= retries;
    assert last >= 0 ==> log[last] == TargetOf(targets, retries, last);
  }
}
