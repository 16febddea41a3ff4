/**
 * What the stacks of the streaming machine hold each time it pops: the exact
 * path of the finished node, and that node fully built.
 */
module StackInvariant {
  import opened SubPath
  import opened JsonStreamer
  import opened TreeSelection

  /** The states in which the machine pops during a run, in order. */
  function PopTrace(rules: seq<Rule>, s: State, events: seq<Event>): seq<State>
    decreases events
  {
    if events == [] || s.Dead? then []
    else (if Pops(events[0]) then [Arrive(s, events[0])] else [])
         + PopTrace(rules, Step(rules, s, events[0]), events[1..])
  }

  /** `len(keys) == depth == len(values)`, the path is exact and the value is complete. */
  predicate PopsNode(at: State, node: Node) {
    && at.Live? && at.keys == node.path && at.depth == |at.values| == |node.path|
    && at.values != [] && Last(at.values) == Build(node.value)
  }

  predicate Tracks(trace: seq<State>, nodes: seq<Node>) {
    |trace| <= |nodes| && forall i :: 0 <= i < |trace| ==> PopsNode(trace[i], nodes[i])
  }

  /** The pops of a run that ended in `end` follow `nodes`, to the last one unless it raised. */
  predicate Follows(trace: seq<State>, nodes: seq<Node>, end: State) {
    Tracks(trace, nodes) && (end.Live? ==> |trace| == |nodes|)
  }

  lemma {:induction false} TracePlus(rules: seq<Rule>, s: State, a: seq<Event>, b: seq<Event>)
    ensures PopTrace(rules, s, a + b) == PopTrace(rules, s, a) + PopTrace(rules, Run(rules, s, a), b)
    decreases |a|
  {
    if a == [] {
      assert a + b == b;
    } else {
      assert (a + b)[1..] == a[1..] + b;
      if s.Live? {
        TracePlus(rules, Step(rules, s, a[0]), a[1..], b);
      } else {
        RunDead(rules, s, a);
      }
    }
  }

  lemma FollowsPlus(rules: seq<Rule>, s: State, a: seq<Event>, b: seq<Event>, m: seq<Node>, n: seq<Node>)
    requires Follows(PopTrace(rules, s, a), m, Run(rules, s, a))
    requires Run(rules, s, a).Live? ==>
               Follows(PopTrace(rules, Run(rules, s, a), b), n, Run(rules, s, a + b))
    ensures Follows(PopTrace(rules, s, a + b), m + n, Run(rules, s, a + b))
  {
    RunPlus(rules, s, a, b);
    TracePlus(rules, s, a, b);
    var mid := Run(rules, s, a);
    if mid.Dead? {
      RunDead(rules, mid, b);
    }
    FollowsJoin(PopTrace(rules, s, a), PopTrace(rules, mid, b), m, n, mid, Run(rules, s, a + b));
  }

  lemma FollowsJoin(first: seq<State>, second: seq<State>, m: seq<Node>, n: seq<Node>, mid: State, end: State)
    requires Follows(first, m, mid)
    requires if mid.Live? then Follows(second, n, end) else second == [] && end.Dead?
    ensures Follows(first + second, m + n, end)
  {
  }

  lemma TraceOne(rules: seq<Rule>, s: State, e: Event)
    requires s.Live?
    ensures PopTrace(rules, s, [e]) == if Pops(e) then [Arrive(s, e)] else []
    ensures Run(rules, s, [e]) == Step(rules, s, e)
  {
    assert [e][1..] == [];
  }

  lemma {:induction false} TraceNode(rules: seq<Rule>, s: State, j: Json, inObject: bool)
    requires Ready(s)
    ensures Follows(PopTrace(rules, s, Events(j, inObject)), Nodes(j, s.keys), Run(rules, s, Events(j, inObject)))
    decreases j, 1
  {
    match j
    case Atom(a) => TraceOne(rules, s, Events(j, inObject)[0]);
    case Arr(items) => TraceArray(rules, s, items);
    case Obj(members) => TraceObject(rules, s, members);
  }

  lemma {:induction false} TraceArray(rules: seq<Rule>, s: State, items: seq<Json>)
    requires Ready(s)
    ensures var events := Events(Arr(items), false);
            Follows(PopTrace(rules, s, events), Nodes(Arr(items), s.keys), Run(rules, s, events))
    decreases items, 3
  {
    var inside := Step(rules, s, ArrayStart);
    assert Front(inside.keys) == s.keys;
    TraceItems(rules, inside, items);
    ArrayFilled(rules, s, items);
    CloseTrace(rules, s, Arr(items), ArrayStart, ItemEvents(items), ArrayEnd);
  }

  /** At the end of an array the value stack ends in the finished list. */
  lemma ArrayFilled(rules: seq<Rule>, s: State, items: seq<Json>)
    requires Ready(s)
    ensures var inside := Step(rules, s, ArrayStart);
            var end := Run(rules, inside, ItemEvents(items));
            inside.Live? &&
            (end.Live? ==> Arrive(end, ArrayEnd) == end.(keys := s.keys)
                           && end.values == s.values + [Build(Arr(items))] && end.depth == s.depth + 1)
  {
    ItemsEmit(rules, s, items);
    assert Front(s.keys + [At(|items|)]) == s.keys;
  }

  lemma ArrayOpens(rules: seq<Rule>, s: State)
    requires Ready(s)
    ensures var inside := Step(rules, s, ArrayStart);
            && inside == Live(s.keys + [At(0)], s.values + [PyList([])], s.depth + 1, s.out)
            && Front(inside.keys) == s.keys && Front(inside.values) == s.values
            && Last(inside.keys) == At(0) && Last(inside.values) == PyList([])
  {
  }

  lemma ItemsEmit(rules: seq<Rule>, s: State, items: seq<Json>)
    requires Ready(s)
    ensures var inside := Step(rules, s, ArrayStart);
            inside.Live? &&
            Run(rules, inside, ItemEvents(items)) ==
              Emit(inside.(keys := s.keys + [At(|items|)], values := s.values + [Build(Arr(items))]),
                   Select(rules, ItemNodes(items, s.keys, 0)))
  {
    ArrayOpens(rules, s);
    RunItems(rules, Step(rules, s, ArrayStart), items);
    assert [] + BuildItems(items) == BuildItems(items);
  }

  lemma {:induction false} TraceObject(rules: seq<Rule>, s: State, members: seq<Member>)
    requires Ready(s)
    ensures var events := Events(Obj(members), false);
            Follows(PopTrace(rules, s, events), Nodes(Obj(members), s.keys), Run(rules, s, events))
    decreases members, 3
  {
    var inside := Step(rules, s, ObjectStart);
    assert Front(inside.values) == s.values;
    RunMembers(rules, inside, members);
    TraceMembers(rules, inside, members);
    CloseTrace(rules, s, Obj(members), ObjectStart, MemberEvents(members), ObjectEnd);
  }

  lemma CloseTrace(rules: seq<Rule>, s: State, j: Json, open: Event, body: seq<Event>, close: Event)
    requires Ready(s) && !Pops(open) && Pops(close) && !j.Atom?
    requires var inside := Step(rules, s, open);
             var end := Run(rules, inside, body);
             && inside.Live?
             && Follows(PopTrace(rules, inside, body), Below(j, s.keys), end)
             && (end.Live? ==> Arrive(end, close).Live? && Arrive(end, close).keys == s.keys
                               && end.values == s.values + [Build(j)] && end.depth == s.depth + 1
                               && Arrive(end, close).values == end.values && Arrive(end, close).depth == end.depth)
    ensures var events := [open] + body + [close];
            Follows(PopTrace(rules, s, events), Nodes(j, s.keys), Run(rules, s, events))
  {
    TraceOne(rules, s, open);
    FollowsPlus(rules, s, [open], body, [], Below(j, s.keys)) by {
      RunPlus(rules, s, [open], body);
    }
    assert [] + Below(j, s.keys) == Below(j, s.keys);
    RunPlus(rules, s, [open], body);
    RunPlus(rules, s, [open] + body, [close]);
    var end := Run(rules, s, [open] + body);
    if end.Live? {
      TraceOne(rules, end, close);
    }
    FollowsPlus(rules, s, [open] + body, [close], Below(j, s.keys), [Node(s.keys, j)]);
  }

  /** Between two items of an array: one more key than values, the last ones an index and a list. */
  predicate InArray(s: State) {
    && s.Live? && s.keys != [] && s.values != [] && s.depth == |s.values| == |s.keys| - 1
    && Last(s.keys).At? && Last(s.keys).index >= 0 && Last(s.values).PyList?
  }

  lemma {:induction false} TraceItem(rules: seq<Rule>, s: State, item: Json)
    requires InArray(s)
    ensures var next := Run(rules, s, Events(item, false));
            && Follows(PopTrace(rules, s, Events(item, false)), Nodes(item, s.keys), next)
            && (next.Live? ==> InArray(next) && Front(next.keys) == Front(s.keys)
                               && Last(next.keys) == At(Last(s.keys).index + 1))
    decreases item, 2
  {
    RunNode(rules, s, item, false);
    TraceNode(rules, s, item, false);
  }

  lemma {:induction false} TraceItems(rules: seq<Rule>, s: State, items: seq<Json>)
    requires InArray(s)
    ensures Follows(PopTrace(rules, s, ItemEvents(items)),
                    ItemNodes(items, Front(s.keys), Last(s.keys).index),
                    Run(rules, s, ItemEvents(items)))
    decreases items, 2
  {
    if items != [] {
      var path, index := Front(s.keys), Last(s.keys).index;
      var head, rest := Events(items[0], false), items[1..];
      assert s.keys == path + [At(index)];
      TraceItem(rules, s, items[0]);
      RunPlus(rules, s, head, ItemEvents(rest));
      var next := Run(rules, s, head);
      if next.Live? {
        TraceItems(rules, next, rest);
      }
      FollowsPlus(rules, s, head, ItemEvents(rest), Nodes(items[0], s.keys), ItemNodes(rest, path, index + 1));
    }
  }

  /** Between two members of an object: as many keys as values, the last one a dictionary. */
  predicate InObject(s: State) {
    s.Live? && s.keys != [] && s.values != [] && s.depth == |s.values| == |s.keys| && Last(s.values).PyDict?
  }

  lemma {:induction false} TraceMember(rules: seq<Rule>, s: State, member: Member)
    requires InObject(s)
    ensures var head := [KeyEvent(member.key)] + Events(member.value, true);
            var next := Run(rules, s, head);
            && Follows(PopTrace(rules, s, head), Nodes(member.value, s.keys + [Name(member.key)]), next)
            && (next.Live? ==> InObject(next) && next.keys == s.keys)
    decreases member, 3
  {
    var key, value := member.key, member.value;
    var at := s.(keys := s.keys + [Name(key)]);
    assert Front(at.keys) == s.keys;
    TraceOne(rules, s, KeyEvent(key));
    RunPlus(rules, s, [KeyEvent(key)], Events(value, true));
    RunNode(rules, at, value, true);
    TraceNode(rules, at, value, true);
    FollowsPlus(rules, s, [KeyEvent(key)], Events(value, true), [], Nodes(value, at.keys));
    assert [] + Nodes(value, at.keys) == Nodes(value, at.keys);
  }

  lemma {:induction false} TraceMembers(rules: seq<Rule>, s: State, members: seq<Member>)
    requires InObject(s)
    ensures Follows(PopTrace(rules, s, MemberEvents(members)),
                    MemberNodes(members, s.keys),
                    Run(rules, s, MemberEvents(members)))
    decreases members, 2
  {
    if members != [] {
      var member, rest := members[0], members[1..];
      var head := [KeyEvent(member.key)] + Events(member.value, true);
      TraceMember(rules, s, member);
      RunPlus(rules, s, head, MemberEvents(rest));
      var next := Run(rules, s, head);
      if next.Live? {
        TraceMembers(rules, next, rest);
      }
      FollowsPlus(rules, s, head, MemberEvents(rest),
                  Nodes(member.value, s.keys + [Name(member.key)]), MemberNodes(rest, s.keys));
    }
  }

  /**
   * The stack invariant of a whole run: the i-th pop finds on the stacks the
   * exact path and the finished value of the i-th node; unless a rule raises,
   * every node is popped once.
   */
  lemma PopsFollowTheTree(rules: seq<Rule>, j: Json)
    ensures Tracks(PopTrace(rules, START, Document(j)), Nodes(j, [NoKey]))
    ensures Run(rules, START, Document(j)).Live? ==>
              |PopTrace(rules, START, Document(j))| == |Nodes(j, [NoKey])|
  {
    var body, nodes := Events(j, false), Nodes(j, [NoKey]);
    TraceNode(rules, START, j, false);
    TraceOne(rules, START, DocStart);
    RunPlus(rules, START, [DocStart], body);
    FollowsPlus(rules, START, [DocStart], body, [], nodes);
    assert [] + nodes == nodes;
    var end := Run(rules, START, [DocStart] + body);
    if end.Live? {
      TraceOne(rules, end, DocEnd);
    }
    RunPlus(rules, START, [DocStart] + body, [DocEnd]);
    FollowsPlus(rules, START, [DocStart] + body, [DocEnd], nodes, []);
    assert nodes + [] == nodes;
  }
}
