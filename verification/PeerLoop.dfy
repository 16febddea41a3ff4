/**
 * The lifecycle of one connection (`Peer.peerloop`): the first sync, the
 * periodic checks, and the failure detector that gives the peer up.
 */
module PeerLoop {

  datatype Status = Connecting | Syncing | Online | Lost

  /** What a check finds: no answer, or the peer's version and whether a sync now would succeed. */
  datatype Answer = Unreachable | Answered(version: nat, syncOk: bool)

  const FIRST_INTERVAL := 30
  const CHECK_INTERVAL := 15
  const RETRY_INTERVAL := 5

  /** The check raises nothing: the peer answered, and was in sync or could be synced. */
  predicate Succeeds(lastSync: nat, answer: Answer) {
    answer.Answered? && (answer.version == lastSync || answer.syncOk)
  }

  function Recorded(lastSync: nat, answer: Answer): nat {
    if Succeeds(lastSync, answer) then answer.version else lastSync
  }

  /** Whether each check of a sequence succeeds, if all were made. */
  function Outcomes(lastSync: nat, answers: seq<Answer>): (r: seq<bool>)
    ensures |r| == |answers|
    decreases |answers|
  {
    if answers == [] then []
    else [Succeeds(lastSync, answers[0])] + Outcomes(Recorded(lastSync, answers[0]), answers[1..])
  }

  // ---------- the detector ----------

  /** `slept` lists the sleeps made so far, one before each check. */
  datatype Detector = Detector(fails: nat, interval: nat, slept: seq<nat>, lost: bool)

  const FRESH := Detector(0, FIRST_INTERVAL, [], false)

  function Check(d: Detector, ok: bool): Detector {
    if d.lost then d
    else if ok then Detector(0, CHECK_INTERVAL, d.slept + [d.interval], false)
    else Detector(d.fails + 1, RETRY_INTERVAL, d.slept + [d.interval], d.fails + 1 >= 2)
  }

  function Detect(d: Detector, outcomes: seq<bool>): Detector
    decreases |outcomes|
  {
    if outcomes == [] then d else Detect(Check(d, outcomes[0]), outcomes[1..])
  }

  /** Checks `k` and `k + 1` both fail. */
  predicate DoubleFailAt(outcomes: seq<bool>, k: int) {
    0 <= k && k + 1 < |outcomes| && !outcomes[k] && !outcomes[k + 1]
  }

  lemma {:induction false} DetectPlus(d: Detector, a: seq<bool>, b: seq<bool>)
    ensures Detect(d, a + b) == Detect(Detect(d, a), b)
    decreases |a|
  {
    if a == [] {
      assert a + b == b;
    } else {
      assert (a + b)[1..] == a[1..] + b;
      DetectPlus(Check(d, a[0]), a[1..], b);
    }
  }

  lemma {:induction false} LostStays(d: Detector, outcomes: seq<bool>)
    requires d.lost
    ensures Detect(d, outcomes) == d
  {
    if outcomes != [] {
      LostStays(d, outcomes[1..]);
    }
  }

  /** While no two adjacent checks failed, every check is made and the detector remembers the last one. */
  lemma {:induction false} NotYetLost(outcomes: seq<bool>)
    requires forall k :: !DoubleFailAt(outcomes, k)
    ensures var d := Detect(FRESH, outcomes);
            && !d.lost && |d.slept| == |outcomes|
            && (if outcomes == [] then d == FRESH
                else if outcomes[|outcomes| - 1] then d.fails == 0 && d.interval == CHECK_INTERVAL
                else d.fails == 1 && d.interval == RETRY_INTERVAL
                     && d.slept[|outcomes| - 1] == if |outcomes| == 1 then FIRST_INTERVAL else CHECK_INTERVAL)
    decreases |outcomes|
  {
    if outcomes != [] {
      var n := |outcomes| - 1;
      var before := outcomes[..n];
      assert forall k :: DoubleFailAt(before, k) ==> DoubleFailAt(outcomes, k);
      NotYetLost(before);
      assert outcomes == before + [outcomes[n]];
      DetectPlus(FRESH, before, [outcomes[n]]);
      assert [outcomes[n]][1..] == [];
      assert !DoubleFailAt(outcomes, n - 1);
    }
  }

  /** Checks `k`, `k + 1` are the first to fail in a row, and the sleeps end there. */
  ghost predicate LostAt(outcomes: seq<bool>, d: Detector, k: int) {
    && DoubleFailAt(outcomes, k) && (forall j :: j < k ==> !DoubleFailAt(outcomes, j))
    && (k > 0 ==> outcomes[k - 1])
    && |d.slept| == k + 2
    && d.slept[k] == (if k == 0 then FIRST_INTERVAL else CHECK_INTERVAL) && d.slept[k + 1] == RETRY_INTERVAL
  }

  /**
   * The failure detector is exact: over any outcomes the peer is lost exactly
   * when two adjacent checks failed; no check is made after the first such pair;
   * and between the last success and the loss it slept 15 + 5, or 30 + 5 when no
   * check had succeeded.
   */
  lemma DetectorExact(outcomes: seq<bool>)
    ensures var d := Detect(FRESH, outcomes);
            && (d.lost <==> exists k :: DoubleFailAt(outcomes, k))
            && (!d.lost ==> |d.slept| == |outcomes|)
    ensures var d := Detect(FRESH, outcomes);
            d.lost ==> exists k :: LostAt(outcomes, d, k)
  {
    if exists k :: DoubleFailAt(outcomes, k) {
      var k :| DoubleFailAt(outcomes, k);
      var first := FirstDoubleFail(outcomes, k);
      var before := outcomes[..first + 1];
      forall j ensures !DoubleFailAt(before, j) {
        if DoubleFailAt(before, j) {
          assert DoubleFailAt(outcomes, j);
        }
      }
      NotYetLost(before);
      var rest := outcomes[first + 1..];
      assert outcomes == before + rest;
      DetectPlus(FRESH, before, rest);
      assert rest[0] == outcomes[first + 1];
      var d := Detect(FRESH, before);
      LostStays(Check(d, rest[0]), rest[1..]);
      if first > 0 {
        assert !DoubleFailAt(outcomes, first - 1);
      }
      assert LostAt(outcomes, Detect(FRESH, outcomes), first);
    } else {
      NotYetLost(outcomes);
    }
  }

  lemma FirstDoubleFail(outcomes: seq<bool>, k: nat) returns (first: nat)
    requires DoubleFailAt(outcomes, k)
    ensures first <= k && DoubleFailAt(outcomes, first)
    ensures forall j :: j < first ==> !DoubleFailAt(outcomes, j)
  {
    first := 0;
    while !DoubleFailAt(outcomes, first)
      invariant first <= k
      invariant forall j :: j < first ==> !DoubleFailAt(outcomes, j)
      decreases k - first
    {
      first := first + 1;
    }
  }

  // ---------- the loop with its syncs ----------

  /** The peer object between checks; `alive` is false once its loop has ended. */
  datatype LoopState = LoopState(status: Status, lastSync: nat, detector: Detector, alive: bool)

  /** `sync`: nothing when in sync; otherwise the version read is recorded last. */
  function Synced(s: LoopState, answer: Answer): LoopState
    requires Succeeds(s.lastSync, answer)
  {
    if answer.version == s.lastSync then s else s.(status := Online, lastSync := answer.version)
  }

  /** The start of the loop: an exception in the first sync ends the loop at once. */
  function Begin(first: Answer): LoopState {
    var s := LoopState(Syncing, 0, FRESH, true);
    if Succeeds(0, first) then Synced(s, first) else s.(alive := false)
  }

  function CheckPeer(s: LoopState, answer: Answer): LoopState {
    if !s.alive then s
    else if Succeeds(s.lastSync, answer) then Synced(s, answer).(detector := Check(s.detector, true))
    else
      var d := Check(s.detector, false);
      s.(detector := d, status := if d.lost then Lost else s.status, alive := !d.lost)
  }

  function CheckAll(s: LoopState, answers: seq<Answer>): LoopState
    decreases |answers|
  {
    if answers == [] then s else CheckAll(CheckPeer(s, answers[0]), answers[1..])
  }

  lemma {:induction false} CheckAllStopped(s: LoopState, answers: seq<Answer>)
    requires !s.alive
    ensures CheckAll(s, answers) == s
  {
    if answers != [] {
      CheckAllStopped(s, answers[1..]);
    }
  }

  /** The loop's detector is the detector run on the outcomes of the checks. */
  lemma {:induction false} LoopDetects(s: LoopState, answers: seq<Answer>)
    requires s.alive && !s.detector.lost && s.status != Lost
    ensures var end := CheckAll(s, answers);
            && end.detector == Detect(s.detector, Outcomes(s.lastSync, answers))
            && (end.status == Lost <==> end.detector.lost) && (end.alive <==> !end.detector.lost)
    decreases |answers|
  {
    if answers != [] {
      var next := CheckPeer(s, answers[0]);
      var outcomes := Outcomes(s.lastSync, answers);
      assert outcomes[1..] == Outcomes(Recorded(s.lastSync, answers[0]), answers[1..]);
      if next.alive {
        LoopDetects(next, answers[1..]);
      } else {
        CheckAllStopped(next, answers[1..]);
        LostStays(next.detector, outcomes[1..]);
      }
    }
  }

  /**
   * A loop whose first sync succeeded marks its peer lost exactly when two
   * adjacent checks failed; a loop whose first sync raised ends without ever
   * marking the peer.
   */
  lemma LostExactly(first: Answer, answers: seq<Answer>)
    ensures var end := CheckAll(Begin(first), answers);
            end.status == Lost <==>
              Succeeds(0, first) && exists k :: DoubleFailAt(Outcomes(Begin(first).lastSync, answers), k)
    ensures !Succeeds(0, first) ==> CheckAll(Begin(first), answers) == Begin(first) && Begin(first).status == Syncing
  {
    if Succeeds(0, first) {
      LoopDetects(Begin(first), answers);
      DetectorExact(Outcomes(Begin(first).lastSync, answers));
    } else {
      CheckAllStopped(Begin(first), answers);
    }
  }

  /** What the first sync and one check leave of the peer: its status, its recorded version, its interval. */
  lemma CheckMeaning(s: LoopState, answer: Answer)
    requires s.alive && !s.detector.lost && s.detector.fails <= 1
    ensures var next := CheckPeer(s, answer);
            var ok := answer.Answered? && (answer.version == s.lastSync || answer.syncOk);
            && (ok ==>
                  && next.alive && next.lastSync == answer.version
                  && next.status == (if answer.version == s.lastSync then s.status else Online)
                  && next.detector.fails == 0 && next.detector.interval == 15)
            && (!ok && s.detector.fails == 0 ==>
                  && next.alive && next.lastSync == s.lastSync && next.status == s.status
                  && next.detector.fails == 1 && next.detector.interval == 5)
            && (!ok && s.detector.fails == 1 ==>
                  !next.alive && next.lastSync == s.lastSync && next.status == Lost)
  {
  }

  lemma BeginMeaning(first: Answer)
    ensures var s := Begin(first);
            && (s.alive <==> first.Answered? && (first.version == 0 || first.syncOk))
            && s.status == (if s.alive && first.version != 0 then Online else Syncing)
            && s.lastSync == (if s.alive then first.version else 0)
            && s.detector.fails == 0 && s.detector.interval == 30 && s.detector.slept == []
  {
  }

  /** Check `k` is the last one that succeeded, if any did. */
  ghost predicate LastSuccess(outcomes: seq<bool>, k: int) {
    && -1 <= k < |outcomes| && (k >= 0 ==> outcomes[k])
    && forall j :: k < j < |outcomes| ==> !outcomes[j]
  }

  /** Some check found another version than the recorded one and could sync. */
  ghost predicate SyncedSomewhere(lastSync: nat, answers: seq<Answer>)
    decreases |answers|
  {
    answers != [] &&
    ((Succeeds(lastSync, answers[0]) && answers[0].version != lastSync)
     || SyncedSomewhere(Recorded(lastSync, answers[0]), answers[1..]))
  }

  /**
   * While the peer is not lost, its recorded version is that of the last check
   * that succeeded, and it is online exactly when it was or some check synced it.
   */
  lemma {:induction false} LoopRecords(s: LoopState, answers: seq<Answer>, k: int)
    requires s.alive && !s.detector.lost && s.status != Lost
    requires CheckAll(s, answers).alive && LastSuccess(Outcomes(s.lastSync, answers), k)
    ensures var end := CheckAll(s, answers);
            if k >= 0 then answers[k].Answered? && answers[k].version == end.lastSync else end.lastSync == s.lastSync
    ensures CheckAll(s, answers).status == if SyncedSomewhere(s.lastSync, answers) then Online else s.status
    decreases |answers|
  {
    if answers != [] {
      var next, rest := CheckPeer(s, answers[0]), answers[1..];
      var outcomes := Outcomes(s.lastSync, answers);
      if !next.alive {
        CheckAllStopped(next, rest);
      }
      assert outcomes[0] == Succeeds(s.lastSync, answers[0]) && outcomes[1..] == Outcomes(next.lastSync, rest);
      assert forall j :: 0 <= j < |rest| ==> outcomes[1..][j] == outcomes[j + 1] && rest[j] == answers[j + 1];
      LoopRecords(next, rest, if k >= 0 then k - 1 else -1);
    }
  }

  /** The loop stops at the check that loses the peer: later answers are never asked for. */
  lemma {:induction false} ChecksMade(s: LoopState, answers: seq<Answer>)
    requires s.alive && !s.detector.lost && s.status != Lost
    ensures var end := CheckAll(s, answers);
            var made := |end.detector.slept| - |s.detector.slept|;
            && 0 <= made <= |answers| && (end.alive ==> made == |answers|)
            && end == CheckAll(s, answers[..made])
    decreases |answers|
  {
    if answers != [] {
      var next, rest := CheckPeer(s, answers[0]), answers[1..];
      var end := CheckAll(s, answers);
      if next.alive {
        ChecksMade(next, rest);
        var made := |end.detector.slept| - |s.detector.slept|;
        assert answers[..made][0] == answers[0] && answers[..made][1..] == rest[..made - 1];
      } else {
        CheckAllStopped(next, rest);
        assert answers[..1][0] == answers[0] && answers[..1][1..] == [];
      }
    }
  }

  /** The peer object and its loop as the source writes it. */
  class Peer {
    var status: Status
    var lastSyncStateVersion: nat
    var fails: nat
    var checkInterval: nat
    var slept: seq<nat>
    var alive: bool

    constructor ()
      ensures status == Connecting && lastSyncStateVersion == 0 && alive && slept == []
    {
      status, lastSyncStateVersion, fails, checkInterval, slept, alive := Connecting, 0, 0, FIRST_INTERVAL, [], true;
    }

    function Now(): LoopState
      reads this
    {
      LoopState(status, lastSyncStateVersion, Detector(fails, checkInterval, slept, fails >= 2), alive)
    }

    /** Returns false where the source raises. */
    method Sync(answer: Answer) returns (ok: bool)
      modifies this`status, this`lastSyncStateVersion
      ensures ok <==> Succeeds(old(lastSyncStateVersion), answer)
      ensures lastSyncStateVersion == Recorded(old(lastSyncStateVersion), answer)
      ensures status == if ok && answer.version != old(lastSyncStateVersion) then Online else old(status)
    {
      if answer.Unreachable? { return false; }
      if answer.version == lastSyncStateVersion { return true; }
      if !answer.syncOk { return false; }
      status := Online;
      lastSyncStateVersion := answer.version;
      return true;
    }

    /** The loop, over the answers of the checks up to some moment. */
    method Loop(first: Answer, answers: seq<Answer>)
      requires alive && lastSyncStateVersion == 0 && slept == []
      modifies this
      ensures Now() == CheckAll(Begin(first), answers)
    {
      status := Syncing;
      fails, checkInterval := 0, FIRST_INTERVAL;
      var ok := Sync(first);
      if !ok {
        alive := false;
        CheckAllStopped(Begin(first), answers);
        return;
      }
      var i := 0;
      while i < |answers|
        invariant 0 <= i <= |answers|
        invariant alive && fails < 2
        invariant CheckAll(Now(), answers[i..]) == CheckAll(Begin(first), answers)
      {
        assert answers[i..][0] == answers[i] && answers[i..][1..] == answers[i + 1..];
        slept := slept + [checkInterval];
        var good := Sync(answers[i]);
        if good {
          fails, checkInterval := 0, CHECK_INTERVAL;
        } else {
          checkInterval, fails := RETRY_INTERVAL, fails + 1;
          if fails >= 2 {
            alive := false;
            status := Lost;
            CheckAllStopped(Now(), answers[i + 1..]);
            return;
          }
        }
        i := i + 1;
      }
    }
  }
}
