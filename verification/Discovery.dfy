/** The DNS discovery loop (`DNSDiscovery.browse`) and the events it emits. */
module Discovery {
  import opened Common

  type Address = string

  datatype Event = Discovered(node: Address) | Undiscovered(node: Address)

  /** The events about one address, as `true` for discovered. */
  function About(events: seq<Event>, x: Address): seq<bool> {
    if events == [] then []
    else (if events[0].node == x then [events[0].Discovered?] else []) + About(events[1..], x)
  }

  lemma AboutFirst(e: Event, rest: seq<Event>, x: Address)
    ensures About([e] + rest, x) == (if e.node == x then [e.Discovered?] else []) + About(rest, x)
  {
    assert ([e] + rest)[1..] == rest;
  }

  lemma {:induction false} AboutPlus(a: seq<Event>, b: seq<Event>, x: Address)
    ensures About(a + b, x) == About(a, x) + About(b, x)
  {
    if a == [] {
      assert a + b == b;
    } else {
      var rest := a[1..];
      assert a + b == [a[0]] + (rest + b);
      AboutFirst(a[0], rest + b, x);
      AboutPlus(rest, b, x);
    }
  }

  /** The list `n` times `b`. */
  function Times(b: bool, n: nat): seq<bool> {
    seq(n, _ => b)
  }

  function Others(answer: seq<Address>, self: Address): (r: seq<Address>)
    ensures forall x :: x in r <==> x in answer && x != self
  {
    if answer == [] then []
    else
      assert answer == [answer[0]] + answer[1..];
      (if answer[0] != self then [answer[0]] else []) + Others(answer[1..], self)
  }

  /** Only the own address is left out; every other one keeps its multiplicity. */
  lemma {:induction false} OthersCount(answer: seq<Address>, self: Address, x: Address)
    ensures CountOf(Others(answer, self), x) == if x == self then 0 else CountOf(answer, x)
  {
    if answer != [] {
      OthersCount(answer[1..], self, x);
      var rest := Others(answer[1..], self);
      assert ([answer[0]] + rest)[1..] == rest && [] + rest == rest;
    }
  }

  /**
   * What one round does: afterwards the node set is the answer without self; an
   * address that was known is undiscovered once if it left; a newcomer is
   * discovered as often as the answer lists it.
   */
  ghost predicate RoundDoes(self: Address, before: set<Address>, answer: seq<Address>,
                            after: set<Address>, events: seq<Event>) {
    && after == Elements(Others(answer, self))
    && forall x :: About(events, x) ==
         if x in before then Times(false, if x in Others(answer, self) then 0 else 1)
         else Times(true, CountOf(Others(answer, self), x))
  }

  class DnsDiscovery {
    const address: Address
    var nodes: set<Address>
    var emitted: seq<Event>

    constructor (address: Address)
      ensures this.address == address && nodes == {} && emitted == []
    {
      this.address, nodes, emitted := address, {}, [];
    }

    /** `list(filter(lambda x: x not in result, self.nodes))`, in any order. */
    method Goodbyers(result: seq<Address>) returns (leaving: seq<Address>)
      ensures NoRepeats(leaving)
      ensures forall x :: x in leaving <==> x in nodes && x !in result
    {
      leaving := [];
      var todo := nodes;
      while todo != {}
        invariant todo <= nodes && NoRepeats(leaving)
        invariant forall x :: x in leaving <==> x in nodes && x !in todo && x !in result
        decreases |todo|
      {
        var x :| x in todo;
        if x !in result { leaving := leaving + [x]; }
        todo := todo - {x};
      }
    }

    /** The newcomers of an answer, repetitions included. */
    method Newcomers(result: seq<Address>) returns (coming: seq<Address>)
      ensures forall x :: CountOf(coming, x) == if x in nodes then 0 else CountOf(result, x)
    {
      coming := [];
      var i := 0;
      assert result[..0] == [];
      while i < |result|
        invariant 0 <= i <= |result|
        invariant forall x :: CountOf(coming, x) == if x in nodes then 0 else CountOf(result[..i], x)
      {
        assert result[..i + 1] == result[..i] + [result[i]];
        forall x ensures CountOf(result[..i + 1], x) == CountOf(result[..i], x) + if result[i] == x then 1 else 0 {
          CountAppend(result[..i], result[i], x);
        }
        if result[i] !in nodes {
          forall x ensures CountOf(coming + [result[i]], x) == CountOf(coming, x) + if result[i] == x then 1 else 0 {
            CountAppend(coming, result[i], x);
          }
          coming := coming + [result[i]];
        }
        i := i + 1;
      }
      assert result[..i] == result;
    }

    /** The loop over the newcomers. */
    method Welcome(coming: seq<Address>)
      modifies this`nodes, this`emitted
      ensures nodes == old(nodes) + Elements(coming)
      ensures emitted == old(emitted) + EventsFor(coming, true)
    {
      var i := 0;
      while i < |coming|
        invariant 0 <= i <= |coming|
        invariant nodes == old(nodes) + Elements(coming[..i])
        invariant emitted == old(emitted) + EventsFor(coming[..i], true)
      {
        assert coming[..i + 1] == coming[..i] + [coming[i]];
        EventsForPlus(coming[..i], coming[i], true);
        nodes := nodes + {coming[i]};
        emitted := emitted + [Discovered(coming[i])];
        i := i + 1;
      }
      assert coming[..i] == coming;
    }

    /** The loop over the leaving nodes. */
    method Dismiss(leaving: seq<Address>)
      modifies this`nodes, this`emitted
      ensures nodes == old(nodes) - Elements(leaving)
      ensures emitted == old(emitted) + EventsFor(leaving, false)
    {
      var i := 0;
      while i < |leaving|
        invariant 0 <= i <= |leaving|
        invariant nodes == old(nodes) - Elements(leaving[..i])
        invariant emitted == old(emitted) + EventsFor(leaving[..i], false)
      {
        assert leaving[..i + 1] == leaving[..i] + [leaving[i]];
        EventsForPlus(leaving[..i], leaving[i], false);
        nodes := nodes - {leaving[i]};
        emitted := emitted + [Undiscovered(leaving[i])];
        i := i + 1;
      }
      assert leaving[..i] == leaving;
    }

    /** One round of `browse` on an answer; the events of the round are returned as well. */
    method Round(answer: seq<Address>) returns (ghost events: seq<Event>)
      modifies this`nodes, this`emitted
      ensures emitted == old(emitted) + events
      ensures RoundDoes(address, old(nodes), answer, nodes, events)
    {
      var result := Others(answer, address);
      var coming := Newcomers(result);
      var leaving := Goodbyers(result);
      Welcome(coming);
      Dismiss(leaving);
      events := EventsFor(coming, true) + EventsFor(leaving, false);
      RoundEvents(old(nodes), result, coming, leaving);
      assert emitted == old(emitted) + events;
    }
  }

  function EventsFor(nodes: seq<Address>, discovered: bool): seq<Event> {
    seq(|nodes|, i requires 0 <= i < |nodes| => if discovered then Discovered(nodes[i]) else Undiscovered(nodes[i]))
  }

  lemma EventsForPlus(nodes: seq<Address>, x: Address, discovered: bool)
    ensures EventsFor(nodes + [x], discovered)
         == EventsFor(nodes, discovered) + [if discovered then Discovered(x) else Undiscovered(x)]
  {
  }

  lemma {:induction false} AboutEventsFor(nodes: seq<Address>, discovered: bool, x: Address)
    ensures About(EventsFor(nodes, discovered), x) == Times(discovered, CountOf(nodes, x))
  {
    if nodes != [] {
      AboutEventsFor(nodes[1..], discovered, x);
      assert EventsFor(nodes, discovered)[1..] == EventsFor(nodes[1..], discovered);
    }
  }

  /** From the newcomers and the leaving nodes to what the round does. */
  lemma RoundEvents(before: set<Address>, result: seq<Address>, coming: seq<Address>, leaving: seq<Address>)
    requires forall x :: CountOf(coming, x) == if x in before then 0 else CountOf(result, x)
    requires NoRepeats(leaving) && forall x :: x in leaving <==> x in before && x !in result
    ensures before + Elements(coming) - Elements(leaving) == Elements(result)
    ensures forall x :: About(EventsFor(coming, true) + EventsFor(leaving, false), x) ==
              if x in before then Times(false, if x in result then 0 else 1) else Times(true, CountOf(result, x))
  {
    forall x
      ensures x in coming <==> x !in before && x in result
      ensures About(EventsFor(coming, true) + EventsFor(leaving, false), x) ==
                if x in before then Times(false, if x in result then 0 else 1) else Times(true, CountOf(result, x))
    {
      CountZero(coming, x);
      CountZero(result, x);
      CountZero(leaving, x);
      CountAtMostOne(leaving, x);
      AboutPlus(EventsFor(coming, true), EventsFor(leaving, false), x);
      AboutEventsFor(coming, true, x);
      AboutEventsFor(leaving, false, x);
      assert Times(true, 0) == [] && Times(false, 0) == [];
    }
  }

  // ---------- many rounds ----------

  /** The events about an address alternate, starting with discovered; `present` is the last state. */
  predicate Alternates(log: seq<bool>, present: bool)
    decreases |log|
  {
    if log == [] then !present
    else log[|log| - 1] == present && Alternates(log[..|log| - 1], !present)
  }

  function Ones(log: seq<bool>): int {
    if log == [] then 0 else (if log[0] then 1 else -1) + Ones(log[1..])
  }

  datatype RoundLog = RoundLog(answer: seq<Address>, nodes: set<Address>, events: seq<Event>)

  /** The rounds follow each other from a given node set. */
  ghost predicate Follow(self: Address, start: set<Address>, rounds: seq<RoundLog>)
    decreases |rounds|
  {
    rounds == []
    || (RoundDoes(self, start, rounds[0].answer, rounds[0].nodes, rounds[0].events)
        && Follow(self, rounds[0].nodes, rounds[1..]))
  }

  function AllEvents(rounds: seq<RoundLog>): seq<Event> {
    if rounds == [] then [] else rounds[0].events + AllEvents(rounds[1..])
  }

  function LastNodes(start: set<Address>, rounds: seq<RoundLog>): set<Address>
    decreases |rounds|
  {
    if rounds == [] then start else LastNodes(rounds[0].nodes, rounds[1..])
  }

  lemma OneMore(log: seq<bool>, b: bool)
    requires Alternates(log, !b)
    ensures Alternates(log + [b], b)
  {
    assert (log + [b])[..|log|] == log;
  }

  ghost predicate AllAlternate(log: seq<Event>, nodes: set<Address>) {
    forall x :: Alternates(About(log, x), x in nodes)
  }

  /** No newcomer is listed twice in the answer of a round. */
  ghost predicate NewcomersOnce(self: Address, before: set<Address>, answer: seq<Address>) {
    forall x :: x !in before ==> CountOf(Others(answer, self), x) <= 1
  }

  /**
   * One round keeps the alternation of every address exactly when no newcomer is
   * listed twice.
   */
  lemma RoundAlternatesIff(self: Address, before: set<Address>, round: RoundLog, log: seq<Event>)
    requires RoundDoes(self, before, round.answer, round.nodes, round.events)
    requires AllAlternate(log, before)
    ensures AllAlternate(log + round.events, round.nodes)
       <==> NewcomersOnce(self, before, round.answer)
  {
    forall x
      ensures Alternates(About(log + round.events, x), x in round.nodes)
         <==> x in before || CountOf(Others(round.answer, self), x) <= 1
    {
      AboutPlus(log, round.events, x);
      var past, added := About(log, x), About(round.events, x);
      var n := CountOf(Others(round.answer, self), x);
      CountZero(Others(round.answer, self), x);
      if |added| == 0 {
        assert past + added == past;
      } else if |added| == 1 {
        assert added == [added[0]];
        OneMore(past, added[0]);
      } else {
        TwiceIsNoAlternation(past, n);
        assert added == Times(true, n);
      }
    }
  }

  lemma TwiceIsNoAlternation(log: seq<bool>, n: nat)
    requires n >= 2
    ensures !Alternates(log + Times(true, n), true)
  {
    var all := log + Times(true, n);
    var front := all[..|all| - 1];
    assert all[|all| - 1] && front[|front| - 1];
  }

  /** The state that the last event about an address announces. */
  predicate LastState(log: seq<bool>) {
    log != [] && log[|log| - 1]
  }

  /** After a round the last event about an address is its membership, repeated newcomers included. */
  lemma RoundEndsInState(self: Address, before: set<Address>, round: RoundLog, log: seq<Event>, x: Address)
    requires RoundDoes(self, before, round.answer, round.nodes, round.events)
    requires AllAlternate(log, before)
    ensures LastState(About(log + round.events, x)) == (x in round.nodes)
  {
    AboutPlus(log, round.events, x);
    CountZero(Others(round.answer, self), x);
    var past, added := About(log, x), About(round.events, x);
    assert Alternates(past, x in before);
    if added == [] {
      assert past + added == past;
    }
  }

  /** What comes before alternates as well. */
  lemma {:induction false} AlternatesPrefix(a: seq<bool>, b: seq<bool>, present: bool)
    requires Alternates(a + b, present)
    ensures Alternates(a, LastState(a))
    decreases |b|
  {
    if b == [] {
      assert a + b == a;
    } else {
      var front := b[..|b| - 1];
      assert (a + b)[..|a + b| - 1] == a + front;
      AlternatesPrefix(a, front, !present);
    }
  }

  /** No newcomer of any round is listed twice. */
  ghost predicate EachOnce(self: Address, start: set<Address>, rounds: seq<RoundLog>)
    decreases |rounds|
  {
    rounds == []
    || (NewcomersOnce(self, start, rounds[0].answer) && EachOnce(self, rounds[0].nodes, rounds[1..]))
  }

  /** In a run that alternates the first round does. */
  lemma FirstRoundAlternates(self: Address, start: set<Address>, round: RoundLog, log: seq<Event>,
                             later: seq<Event>, nodes: set<Address>)
    requires RoundDoes(self, start, round.answer, round.nodes, round.events)
    requires AllAlternate(log, start) && AllAlternate((log + round.events) + later, nodes)
    ensures AllAlternate(log + round.events, round.nodes)
  {
    forall x ensures Alternates(About(log + round.events, x), x in round.nodes) {
      AboutPlus(log + round.events, later, x);
      AlternatesPrefix(About(log + round.events, x), About(later, x), x in nodes);
      RoundEndsInState(self, start, round, log, x);
    }
  }

  /**
   * Discovery reconciliation over any run of rounds: the node set is the last
   * answer without self, and the events of each address strictly alternate,
   * starting with discovered, exactly when no newcomer was listed twice.
   */
  lemma {:induction false} Reconciles(self: Address, start: set<Address>, rounds: seq<RoundLog>, log: seq<Event>)
    requires Follow(self, start, rounds) && AllAlternate(log, start)
    ensures rounds != [] ==> LastNodes(start, rounds) == Elements(Others(rounds[|rounds| - 1].answer, self))
    ensures AllAlternate(log + AllEvents(rounds), LastNodes(start, rounds)) <==> EachOnce(self, start, rounds)
    decreases |rounds|
  {
    if rounds == [] {
      assert log + AllEvents(rounds) == log;
    } else {
      var next, later := log + rounds[0].events, AllEvents(rounds[1..]);
      assert next + later == log + AllEvents(rounds);
      LastAnswer(self, rounds[0].nodes, rounds[1..]);
      RoundAlternatesIff(self, start, rounds[0], log);
      if AllAlternate(log + AllEvents(rounds), LastNodes(start, rounds)) {
        FirstRoundAlternates(self, start, rounds[0], log, later, LastNodes(start, rounds));
      }
      if AllAlternate(next, rounds[0].nodes) {
        Reconciles(self, rounds[0].nodes, rounds[1..], next);
      }
    }
  }

  lemma {:induction false} LastAnswer(self: Address, start: set<Address>, rounds: seq<RoundLog>)
    requires Follow(self, start, rounds)
    ensures rounds != [] ==> LastNodes(start, rounds) == Elements(Others(rounds[|rounds| - 1].answer, self))
    decreases |rounds|
  {
    if |rounds| > 1 {
      LastAnswer(self, rounds[0].nodes, rounds[1..]);
    }
  }

  // ---------- counting events ----------

  function Member(nodes: set<Address>, x: Address): int {
    if x in nodes then 1 else 0
  }

  lemma {:induction false} OnesAreCounted(b: bool, n: nat)
    ensures Ones(Times(b, n)) == if b then n as int else -(n as int)
  {
    if n > 0 {
      OnesAreCounted(b, n - 1);
      assert Times(b, n)[1..] == Times(b, n - 1);
    }
  }

  lemma {:induction false} OnesPlus(a: seq<bool>, b: seq<bool>)
    ensures Ones(a + b) == Ones(a) + Ones(b)
  {
    if a == [] {
      assert a + b == b;
    } else {
      assert (a + b)[1..] == a[1..] + b;
      OnesPlus(a[1..], b);
    }
  }

  /** How far the events of a round about an address exceed the change of its membership. */
  lemma RoundExcess(self: Address, before: set<Address>, round: RoundLog, x: Address)
    requires RoundDoes(self, before, round.answer, round.nodes, round.events)
    ensures var n := CountOf(Others(round.answer, self), x);
            Ones(About(round.events, x)) - Member(round.nodes, x) + Member(before, x)
            == if x in before || n <= 1 then 0 else n - 1
  {
    var n := CountOf(Others(round.answer, self), x);
    CountZero(Others(round.answer, self), x);
    OnesAreCounted(true, n);
    OnesAreCounted(false, if x in Others(round.answer, self) then 0 else 1);
  }

  /** The events of a run about an address never fall short of the change of its membership. */
  lemma {:induction false} RunExcess(self: Address, start: set<Address>, rounds: seq<RoundLog>, x: Address)
    requires Follow(self, start, rounds)
    ensures Ones(About(AllEvents(rounds), x)) >= Member(LastNodes(start, rounds), x) - Member(start, x)
    decreases |rounds|
  {
    if rounds != [] {
      RoundExcess(self, start, rounds[0], x);
      RunExcess(self, rounds[0].nodes, rounds[1..], x);
      AboutPlus(rounds[0].events, AllEvents(rounds[1..]), x);
      OnesPlus(About(rounds[0].events, x), About(AllEvents(rounds[1..]), x));
    }
  }

  /** Discovered minus undiscovered events of each address are the change of its membership. */
  ghost predicate EventsCount(start: set<Address>, rounds: seq<RoundLog>) {
    forall x :: Ones(About(AllEvents(rounds), x)) == Member(LastNodes(start, rounds), x) - Member(start, x)
  }

  lemma EventsCountStep(self: Address, start: set<Address>, rounds: seq<RoundLog>)
    requires rounds != [] && Follow(self, start, rounds)
    ensures EventsCount(start, rounds) <==>
              NewcomersOnce(self, start, rounds[0].answer) && EventsCount(rounds[0].nodes, rounds[1..])
  {
    var later := AllEvents(rounds[1..]);
    forall x
      ensures Ones(About(AllEvents(rounds), x)) == Member(LastNodes(start, rounds), x) - Member(start, x) <==>
                && (x !in start ==> CountOf(Others(rounds[0].answer, self), x) <= 1)
                && Ones(About(later, x)) == Member(LastNodes(start, rounds), x) - Member(rounds[0].nodes, x)
    {
      RoundExcess(self, start, rounds[0], x);
      RunExcess(self, rounds[0].nodes, rounds[1..], x);
      AboutPlus(rounds[0].events, later, x);
      OnesPlus(About(rounds[0].events, x), About(later, x));
    }
  }

  /**
   * Over any run discovered minus undiscovered events are the change of
   * membership, for every address, exactly when no newcomer was listed twice.
   */
  lemma {:induction false} EventsCountMembership(self: Address, start: set<Address>, rounds: seq<RoundLog>)
    requires Follow(self, start, rounds)
    ensures EventsCount(start, rounds) <==> EachOnce(self, start, rounds)
    decreases |rounds|
  {
    if rounds != [] {
      EventsCountStep(self, start, rounds);
      EventsCountMembership(self, rounds[0].nodes, rounds[1..]);
    }
  }

  // ---------- answers with and without duplicates ----------

  /** Duplicate-free answers list no newcomer twice. */
  lemma {:induction false} DuplicateFreeAnswers(self: Address, start: set<Address>, rounds: seq<RoundLog>)
    requires forall i :: 0 <= i < |rounds| ==> NoRepeats(rounds[i].answer)
    ensures EachOnce(self, start, rounds)
    decreases |rounds|
  {
    if rounds != [] {
      OthersNoRepeats(rounds[0].answer, self);
      forall x ensures CountOf(Others(rounds[0].answer, self), x) <= 1 {
        CountAtMostOne(Others(rounds[0].answer, self), x);
      }
      DuplicateFreeAnswers(self, rounds[0].nodes, rounds[1..]);
    }
  }

  lemma {:induction false} OthersNoRepeats(answer: seq<Address>, self: Address)
    requires NoRepeats(answer)
    ensures NoRepeats(Others(answer, self))
  {
    if answer != [] {
      OthersNoRepeats(answer[1..], self);
      assert forall i :: 0 <= i < |Others(answer[1..], self)| ==> Others(answer[1..], self)[i] in answer[1..];
    }
  }

  /** The first answer lists a newcomer twice: it is discovered twice without leaving in between. */
  lemma RepeatedNewcomerExample()
    ensures var events := [Discovered("a"), Discovered("a")];
            RoundDoes("s", {}, ["a", "a"], {"a"}, events) && AllAlternate([], {}) && !AllAlternate(events, {"a"})
  {
    var answer, events := ["a", "a"], [Discovered("a"), Discovered("a")];
    assert answer[1..] == ["a"] && ["a"][1..] == [] && "a"[0] != "s"[0];
    assert Others(answer, "s") == answer;
    assert events[1..] == [Discovered("a")] && [Discovered("a")][1..] == [];
    forall x ensures About(events, x) == Times(true, CountOf(answer, x)) {
      assert CountOf(["a"], x) == if x == "a" then 1 else 0;
      assert About([Discovered("a")], x) == if x == "a" then [true] else [];
    }
    assert About(events, "a") == [true, true] && [true, true][..1] == [true];
    assert !Alternates(About(events, "a"), true);
  }
}
