/**
 * The simple definition that the streaming machine refines: list the nodes of
 * the finished tree in document order, keep those at depth `|rules|` whose path
 * satisfies the rules, and build each.
 */
module TreeSelection {
  import opened Common
  import opened SubPath
  import opened JsonStreamer

  // ---------- nodes of a tree ----------

  datatype Node = Node(path: seq<PathKey>, value: Json)

  /** Every node at or below `j`, children before parents (the order in which they are finished). */
  function Nodes(j: Json, path: seq<PathKey>): seq<Node>
    decreases j, 1
  {
    Below(j, path) + [Node(path, j)]
  }

  function Below(j: Json, path: seq<PathKey>): seq<Node>
    decreases j, 0
  {
    match j
    case Atom(_) => []
    case Arr(items) => ItemNodes(items, path, 0)
    case Obj(members) => MemberNodes(members, path)
  }

  function ItemNodes(items: seq<Json>, path: seq<PathKey>, first: nat): seq<Node>
    decreases items, 2
  {
    if items == [] then []
    else Nodes(items[0], path + [At(first)]) + ItemNodes(items[1..], path, first + 1)
  }

  /** Every occurrence of a repeated key is a node of its own. */
  function MemberNodes(members: seq<Member>, path: seq<PathKey>): seq<Node>
    decreases members, 2
  {
    if members == [] then []
    else Nodes(members[0].value, path + [Name(members[0].key)]) + MemberNodes(members[1..], path)
  }

  /** The value found by walking `path` down from `j`; a repeated key may lead to several. */
  predicate Reaches(j: Json, path: seq<PathKey>, target: Json) {
    if path == [] then j == target
    else match j
         case Atom(_) => false
         case Arr(items) =>
           && path[0].At? && 0 <= path[0].index < |items|
           && Reaches(items[path[0].index], path[1..], target)
         case Obj(members) =>
           exists i :: 0 <= i < |members| && path[0] == Name(members[i].key)
                       && Reaches(members[i].value, path[1..], target)
  }

  // ---------- selection ----------

  /** The selected values, and the exception that cut the selection short, if any. */
  datatype Selection = Selection(out: seq<Py>, error: Option<PyError>)

  function Select(rules: seq<Rule>, nodes: seq<Node>): Selection {
    if nodes == [] then Selection([], None)
    else if |nodes[0].path| != |rules| then Select(rules, nodes[1..])
    else match JudgeAll(nodes[0].path, rules)
         case Raises(e) => Selection([], Some(e))
         case No => Select(rules, nodes[1..])
         case Yes => var rest := Select(rules, nodes[1..]);
                     Selection([Build(nodes[0].value)] + rest.out, rest.error)
  }

  function Then(a: Selection, b: Selection): Selection {
    if a.error.Some? then a else Selection(a.out + b.out, b.error)
  }

  lemma {:induction false} SelectPlus(rules: seq<Rule>, a: seq<Node>, b: seq<Node>)
    ensures Select(rules, a + b) == Then(Select(rules, a), Select(rules, b))
  {
    if a == [] {
      assert a + b == b;
    } else {
      assert (a + b)[1..] == a[1..] + b;
      SelectPlus(rules, a[1..], b);
    }
  }

  /** The live state `s` with the selection `sel` emitted, or the exception it ended with. */
  function Emit(s: State, sel: Selection): State
    requires s.Live?
  {
    if sel.error.Some? then Dead(s.out + sel.out, sel.error.value)
    else s.(out := s.out + sel.out)
  }

  lemma EmitThen(s: State, t: State, a: Selection, b: Selection)
    requires s.Live? && t.Live? && t.out == s.out
    requires a.error.None? && Emit(s, a).Live?
    ensures Emit(Emit(s, a).(keys := t.keys, values := t.values, depth := t.depth), b) == Emit(t, Then(a, b))
  {
    assert (s.out + a.out) + b.out == s.out + (a.out + b.out);
  }

  // ---------- the machine performs the selection ----------

  /** Where the machine stands when the node with path `keys` is about to be read. */
  predicate Ready(s: State) {
    && s.Live? && s.keys != [] && s.depth == |s.values| == |s.keys| - 1
    && (s.values != [] ==> match Last(s.values)
                           case PyAtom(_) => false
                           case PyList(_) => Last(s.keys).At?
                           case PyDict(_) => true)
  }

  /** The state after a node was read: its value is stored in its parent. */
  function Stored(s: State, val: Py): State
    requires Ready(s)
  {
    Absorb(s.keys, s.values, s.depth + 1, s.out, val)
  }

  /** Storing a value neither raises nor looks at what was yielded before. */
  lemma StoredEmits(s: State, val: Py, more: seq<Py>)
    requires Ready(s)
    ensures Stored(s, val).Live? && Stored(s, val).depth == s.depth && Stored(s, val).out == s.out
    ensures Absorb(s.keys, s.values, s.depth + 1, s.out + more, val)
         == Emit(Stored(s, val), Selection(more, None))
  {
  }

  lemma SelectOne(rules: seq<Rule>, node: Node)
    ensures Select(rules, [node]) ==
              if |node.path| != |rules| then Selection([], None)
              else match JudgeAll(node.path, rules)
                   case Raises(e) => Selection([], Some(e))
                   case No => Selection([], None)
                   case Yes => Selection([Build(node.value)], None)
  {
    assert [node][1..] == [];
    assert Select(rules, []) == Selection([], None);
    assert [Build(node.value)] + [] == [Build(node.value)];
  }

  /** The pop of a finished node emits that node and stores it. */
  lemma PopSelects(rules: seq<Rule>, s: State, j: Json)
    requires Ready(s)
    ensures Stored(s, Build(j)).Live? && Stored(s, Build(j)).depth == s.depth && Stored(s, Build(j)).out == s.out
    ensures Pop(rules, s.keys, s.values + [Build(j)], s.depth + 1, s.out)
         == Emit(Stored(s, Build(j)), Select(rules, [Node(s.keys, j)]))
  {
    var val := Build(j);
    assert Front(s.values + [val]) == s.values;
    assert s.out + [] == s.out;
    SelectOne(rules, Node(s.keys, j));
    StoredEmits(s, val, []);
    StoredEmits(s, val, [val]);
  }

  lemma RunOne(rules: seq<Rule>, s: State, e: Event)
    ensures Run(rules, s, [e]) == Step(rules, s, e)
  {
    assert [e][1..] == [];
  }

  /**
   * Reading one node: the machine emits exactly the selected nodes at and below
   * it, in order, and leaves the value in its parent.
   */
  lemma {:induction false} RunNode(rules: seq<Rule>, s: State, j: Json, inObject: bool)
    requires Ready(s)
    ensures Stored(s, Build(j)).Live?
    ensures Run(rules, s, Events(j, inObject)) == Emit(Stored(s, Build(j)), Select(rules, Nodes(j, s.keys)))
    decreases j, 1
  {
    match j
    case Atom(a) => RunAtom(rules, s, a, inObject);
    case Arr(items) => RunArray(rules, s, items);
    case Obj(members) => RunObject(rules, s, members);
  }

  lemma RunAtom(rules: seq<Rule>, s: State, a: Scalar, inObject: bool)
    requires Ready(s)
    ensures Stored(s, PyAtom(a)).Live?
    ensures Run(rules, s, Events(Atom(a), inObject))
         == Emit(Stored(s, PyAtom(a)), Select(rules, Nodes(Atom(a), s.keys)))
  {
    PopSelects(rules, s, Atom(a));
    RunOne(rules, s, Events(Atom(a), inObject)[0]);
    assert [] + [Node(s.keys, Atom(a))] == [Node(s.keys, Atom(a))];
  }

  lemma {:induction false} RunArray(rules: seq<Rule>, s: State, items: seq<Json>)
    requires Ready(s)
    ensures Stored(s, Build(Arr(items))).Live?
    ensures Run(rules, s, Events(Arr(items), false))
         == Emit(Stored(s, Build(Arr(items))), Select(rules, Nodes(Arr(items), s.keys)))
    decreases items, 3
  {
    var j := Arr(items);
    var inside := Live(s.keys + [At(0)], s.values + [PyList([])], s.depth + 1, s.out);
    var filled := Live(s.keys + [At(|items|)], s.values + [Build(j)], s.depth + 1, s.out);
    assert Front(inside.keys) == s.keys && Front(inside.values) == s.values && Front(filled.keys) == s.keys;
    RunItems(rules, inside, items);
    assert [] + BuildItems(items) == BuildItems(items);
    CloseNode(rules, s, j, ArrayStart, ItemEvents(items), ArrayEnd, inside, filled);
  }

  lemma {:induction false} RunObject(rules: seq<Rule>, s: State, members: seq<Member>)
    requires Ready(s)
    ensures Stored(s, Build(Obj(members))).Live?
    ensures Run(rules, s, Events(Obj(members), false))
         == Emit(Stored(s, Build(Obj(members))), Select(rules, Nodes(Obj(members), s.keys)))
    decreases members, 3
  {
    var j := Obj(members);
    var inside := Live(s.keys, s.values + [PyDict(map[])], s.depth + 1, s.out);
    var filled := Live(s.keys, s.values + [Build(j)], s.depth + 1, s.out);
    assert Front(inside.values) == s.values;
    RunMembers(rules, inside, members);
    CloseNode(rules, s, j, ObjectStart, MemberEvents(members), ObjectEnd, inside, filled);
  }

  /** From the run of a container's body to the run of the whole container. */
  lemma CloseNode(rules: seq<Rule>, s: State, j: Json, open: Event, body: seq<Event>, close: Event,
                  inside: State, filled: State)
    requires Ready(s)
    requires Step(rules, s, open) == inside
    requires filled.Live? && filled.values == s.values + [Build(j)]
    requires filled.depth == s.depth + 1 && filled.out == s.out
    requires close == ArrayEnd || close == ObjectEnd
    requires close == ArrayEnd ==> filled.keys != [] && Front(filled.keys) == s.keys
    requires close == ObjectEnd ==> filled.keys == s.keys
    requires Run(rules, inside, body) == Emit(filled, Select(rules, Below(j, s.keys)))
    ensures Stored(s, Build(j)).Live?
    ensures Run(rules, s, [open] + body + [close])
         == Emit(Stored(s, Build(j)), Select(rules, Nodes(j, s.keys)))
  {
    RunPlus(rules, s, [open] + body, [close]);
    RunPlus(rules, s, [open], body);
    RunOne(rules, s, open);
    RunOne(rules, Run(rules, inside, body), close);
    SelectPlus(rules, Below(j, s.keys), [Node(s.keys, j)]);
    FinishNode(rules, s, j, filled, Select(rules, Below(j, s.keys)), close);
  }

  /** A closing event pops the finished container. */
  lemma StepClose(rules: seq<Rule>, keys: seq<PathKey>, filled: State, close: Event)
    requires filled.Live?
    requires close == ArrayEnd || close == ObjectEnd
    requires close == ArrayEnd ==> filled.keys != [] && Front(filled.keys) == keys
    requires close == ObjectEnd ==> filled.keys == keys
    ensures Step(rules, filled, close) == Pop(rules, keys, filled.values, filled.depth, filled.out)
  {
  }

  /** The closing event, whether or not a node below raised. */
  lemma FinishNode(rules: seq<Rule>, s: State, j: Json, filled: State, below: Selection, close: Event)
    requires Ready(s)
    requires filled.Live? && filled.values == s.values + [Build(j)]
    requires filled.depth == s.depth + 1 && filled.out == s.out
    requires close == ArrayEnd || close == ObjectEnd
    requires close == ArrayEnd ==> filled.keys != [] && Front(filled.keys) == s.keys
    requires close == ObjectEnd ==> filled.keys == s.keys
    ensures Stored(s, Build(j)).Live?
    ensures Step(rules, Emit(filled, below), close)
         == Emit(Stored(s, Build(j)), Then(below, Select(rules, [Node(s.keys, j)])))
  {
    PopSelects(rules, s, j);
    if below.error.None? {
      PopAfter(rules, s, j, below);
      StepClose(rules, s.keys, filled.(out := s.out + below.out), close);
    }
  }

  /** The pop of a node after the nodes below it. */
  lemma PopAfter(rules: seq<Rule>, s: State, j: Json, below: Selection)
    requires Ready(s) && below.error.None?
    ensures Stored(s, Build(j)).Live?
    ensures Pop(rules, s.keys, s.values + [Build(j)], s.depth + 1, s.out + below.out)
         == Emit(Stored(s, Build(j)), Then(below, Select(rules, [Node(s.keys, j)])))
  {
    var own := Select(rules, [Node(s.keys, j)]);
    StoredEmits(s, Build(j), below.out);
    PopSelects(rules, s.(out := s.out + below.out), j);
    assert (s.out + below.out) + own.out == s.out + (below.out + own.out);
  }

  lemma {:induction false} RunItems(rules: seq<Rule>, s: State, items: seq<Json>)
    requires s.Live? && s.keys != [] && s.values != [] && s.depth == |s.values| == |s.keys| - 1
    requires Last(s.keys).At? && Last(s.keys).index >= 0 && Last(s.values).PyList?
    ensures Run(rules, s, ItemEvents(items))
         == Emit(s.(keys := Front(s.keys) + [At(Last(s.keys).index + |items|)],
                    values := Front(s.values) + [PyList(Last(s.values).items + BuildItems(items))]),
                 Select(rules, ItemNodes(items, Front(s.keys), Last(s.keys).index)))
    decreases items, 2
  {
    var path, index, done := Front(s.keys), Last(s.keys).index, Last(s.values).items;
    if items == [] {
      assert done + [] == done;
      assert s.out + [] == s.out;
      assert s.keys == path + [At(index)];
    } else {
      var here, rest := Nodes(items[0], path + [At(index)]), ItemNodes(items[1..], path, index + 1);
      assert s.keys == path + [At(index)];
      RunPlus(rules, s, Events(items[0], false), ItemEvents(items[1..]));
      RunNode(rules, s, items[0], false);
      SelectPlus(rules, here, rest);
      var next := Stored(s, Build(items[0]));
      assert Front(next.keys) == path && Front(next.values) == Front(s.values);
      assert (done + [Build(items[0])]) + BuildItems(items[1..]) == done + BuildItems(items);
      var sel := Select(rules, here);
      if sel.error.None? {
        RunItems(rules, Emit(next, sel), items[1..]);
        var end := s.(keys := path + [At(index + |items|)],
                      values := Front(s.values) + [PyList(done + BuildItems(items))]);
        EmitThen(next, end, sel, Select(rules, rest));
      } else {
        RunDead(rules, Emit(next, sel), ItemEvents(items[1..]));
      }
    }
  }

  lemma {:induction false} RunMembers(rules: seq<Rule>, s: State, members: seq<Member>)
    requires s.Live? && s.keys != [] && s.values != [] && s.depth == |s.values| == |s.keys|
    requires Last(s.values).PyDict?
    ensures Run(rules, s, MemberEvents(members))
         == Emit(s.(values := Front(s.values) + [PyDict(BuildMembers(Last(s.values).entries, members))]),
                 Select(rules, MemberNodes(members, s.keys)))
    decreases members, 2
  {
    if members == [] {
      assert s.out + [] == s.out;
      assert Front(s.values) + [Last(s.values)] == s.values;
    } else {
      var key, value, entries := members[0].key, members[0].value, Last(s.values).entries;
      var here, rest := Nodes(value, s.keys + [Name(key)]), MemberNodes(members[1..], s.keys);
      var at := s.(keys := s.keys + [Name(key)]);
      RunPlus(rules, s, [KeyEvent(key)] + Events(value, true), MemberEvents(members[1..]));
      RunPlus(rules, s, [KeyEvent(key)], Events(value, true));
      RunOne(rules, s, KeyEvent(key));
      RunNode(rules, at, value, true);
      SelectPlus(rules, here, rest);
      var next := Stored(at, Build(value));
      assert Front(at.keys) == s.keys && Front(next.values) == Front(s.values);
      var sel := Select(rules, here);
      if sel.error.None? {
        RunMembers(rules, Emit(next, sel), members[1..]);
        var end := s.(values := Front(s.values) + [PyDict(BuildMembers(entries, members))]);
        EmitThen(next, end, sel, Select(rules, rest));
      } else {
        RunDead(rules, Emit(next, sel), MemberEvents(members[1..]));
      }
    }
  }

  /** The specification of a whole run. */
  function Selected(rules: seq<Rule>, j: Json): Selection {
    Select(rules, Nodes(j, [NoKey]))
  }

  /**
   * Streaming refines selection: on every document and every rule list the
   * machine yields exactly the selected values in document order, raises exactly
   * when selection does, and otherwise ends with its stacks as it found them.
   */
  lemma StreamingRefinesSelection(rules: seq<Rule>, j: Json)
    ensures Run(rules, START, Document(j)) == Emit(START, Selected(rules, j))
    ensures Selected(rules, j).error.None? ==>
              Run(rules, START, Document(j)) == Live([NoKey], [], 0, Selected(rules, j).out)
  {
    RunPlus(rules, START, [DocStart] + Events(j, false), [DocEnd]);
    RunPlus(rules, START, [DocStart], Events(j, false));
    RunOne(rules, START, DocStart);
    RunNode(rules, START, j, false);
    var end := Run(rules, START, Events(j, false));
    RunOne(rules, end, DocEnd);
    assert [] + Selected(rules, j).out == Selected(rules, j).out;
  }

  // ---------- what the selection means ----------

  /** A node is listed exactly when its path leads to it. */
  lemma {:induction false} NodesAreReachable(j: Json, prefix: seq<PathKey>, node: Node)
    ensures node in Nodes(j, prefix) <==>
              |prefix| <= |node.path| && node.path[..|prefix|] == prefix
              && Reaches(j, node.path[|prefix|..], node.value)
    decreases j, 1
  {
    if |prefix| <= |node.path| && node.path[..|prefix|] == prefix {
      if |prefix| == |node.path| {
        assert node.path == prefix;
      } else {
        assert node.path[|prefix|..][1..] == node.path[|prefix| + 1..];
      }
    }
    match j
    case Atom(_) =>
    case Arr(items) => ItemsAreReachable(items, prefix, 0, node);
    case Obj(members) => MembersAreReachable(members, prefix, node);
  }

  lemma {:induction false} ItemsAreReachable(items: seq<Json>, prefix: seq<PathKey>, first: nat, node: Node)
    ensures node in ItemNodes(items, prefix, first) <==>
              |prefix| < |node.path| && node.path[..|prefix|] == prefix
              && node.path[|prefix|].At? && first <= node.path[|prefix|].index < first + |items|
              && Reaches(items[node.path[|prefix|].index - first], node.path[|prefix| + 1..], node.value)
    decreases items, 2
  {
    if items != [] {
      NodesAreReachable(items[0], prefix + [At(first)], node);
      ItemsAreReachable(items[1..], prefix, first + 1, node);
      ExtendsPrefix(prefix, At(first), node.path);
    }
  }

  lemma {:induction false} MembersAreReachable(members: seq<Member>, prefix: seq<PathKey>, node: Node)
    ensures node in MemberNodes(members, prefix) <==>
              |prefix| < |node.path| && node.path[..|prefix|] == prefix
              && exists i :: 0 <= i < |members| && node.path[|prefix|] == Name(members[i].key)
                             && Reaches(members[i].value, node.path[|prefix| + 1..], node.value)
    decreases members, 2
  {
    if members != [] {
      NodesAreReachable(members[0].value, prefix + [Name(members[0].key)], node);
      MembersAreReachable(members[1..], prefix, node);
      ExtendsPrefix(prefix, Name(members[0].key), node.path);
      assert members == [members[0]] + members[1..];
    }
  }

  lemma ExtendsPrefix(prefix: seq<PathKey>, key: PathKey, path: seq<PathKey>)
    ensures |prefix| + 1 <= |path| && path[..|prefix| + 1] == prefix + [key]
       <==> |prefix| < |path| && path[..|prefix|] == prefix && path[|prefix|] == key
  {
    if |prefix| < |path| {
      assert path[..|prefix| + 1] == path[..|prefix|] + [path[|prefix|]];
    }
  }

  /** A rule list raises on a document when some node at its depth makes `all(...)` raise. */
  ghost predicate RaisesSomewhere(rules: seq<Rule>, nodes: seq<Node>) {
    exists i :: 0 <= i < |nodes| && |nodes[i].path| == |rules| && JudgeAll(nodes[i].path, rules).Raises?
  }

  /** Selection raises exactly when some node raises, and only with the two errors of `_judge`. */
  lemma {:induction false} SelectRaises(rules: seq<Rule>, nodes: seq<Node>)
    ensures Select(rules, nodes).error.Some? <==> RaisesSomewhere(rules, nodes)
    ensures Select(rules, nodes).error.Some? ==> Select(rules, nodes).error.value in {TypeError, ZeroDivisionError}
  {
    if nodes != [] {
      SelectRaises(rules, nodes[1..]);
      JudgeRaises(nodes[0].path, rules);
      assert RaisesSomewhere(rules, nodes[1..]) ==> RaisesSomewhere(rules, nodes) by {
        if RaisesSomewhere(rules, nodes[1..]) {
          var i :| 0 <= i < |nodes[1..]| && |nodes[1..][i].path| == |rules|
                   && JudgeAll(nodes[1..][i].path, rules).Raises?;
          assert nodes[i + 1] == nodes[1..][i];
        }
      }
      if RaisesSomewhere(rules, nodes) && !RaisesSomewhere(rules, [nodes[0]]) {
        var i :| 0 <= i < |nodes| && |nodes[i].path| == |rules| && JudgeAll(nodes[i].path, rules).Raises?;
        assert [nodes[0]][0] == nodes[0];
        assert nodes[1..][i - 1] == nodes[i];
      }
    }
  }

  lemma {:induction false} JudgeRaises(keys: seq<PathKey>, rules: seq<Rule>)
    ensures JudgeAll(keys, rules).Raises? ==> JudgeAll(keys, rules).error in {TypeError, ZeroDivisionError}
  {
    if keys != [] && rules != [] {
      JudgeRaises(keys[1..], rules[1..]);
    }
  }

  /** `all(...)` holds exactly when every rule accepts its key. */
  lemma {:induction false} JudgeAllMeansEvery(keys: seq<PathKey>, rules: seq<Rule>)
    requires |keys| == |rules|
    ensures JudgeAll(keys, rules) == Yes <==> forall i :: 0 <= i < |keys| ==> Judge(keys[i], rules[i]) == Yes
  {
    if keys != [] {
      JudgeAllMeansEvery(keys[1..], rules[1..]);
      assert forall i :: 1 <= i < |keys| ==> keys[i] == keys[1..][i - 1] && rules[i] == rules[1..][i - 1];
    }
  }

  lemma {:induction false} SelectOut(rules: seq<Rule>, nodes: seq<Node>, val: Py)
    requires Select(rules, nodes).error.None?
    ensures val in Select(rules, nodes).out <==>
              exists i :: 0 <= i < |nodes| && |nodes[i].path| == |rules|
                          && JudgeAll(nodes[i].path, rules) == Yes && Build(nodes[i].value) == val
  {
    if nodes != [] {
      SelectOut(rules, nodes[1..], val);
      assert nodes == [nodes[0]] + nodes[1..];
    }
  }

  /** `path` leads from the root of `j` to `target`, has one key per rule and satisfies every rule. */
  ghost predicate Matched(rules: seq<Rule>, j: Json, path: seq<PathKey>, target: Json) {
    && Reaches(j, path, target)
    && |path| + 1 == |rules|
    && forall i :: 0 <= i < |rules| ==> Judge(([NoKey] + path)[i], rules[i]) == Yes
  }

  lemma MatchedIsSelected(rules: seq<Rule>, j: Json, path: seq<PathKey>, target: Json)
    ensures Matched(rules, j, path, target) <==>
              var node := Node([NoKey] + path, target);
              node in Nodes(j, [NoKey]) && |node.path| == |rules| && JudgeAll(node.path, rules) == Yes
  {
    NodesAreReachable(j, [NoKey], Node([NoKey] + path, target));
    assert ([NoKey] + path)[1..] == path;
    if |path| + 1 == |rules| {
      JudgeAllMeansEvery([NoKey] + path, rules);
    }
  }

  /**
   * When nothing raises, the yielded values are those of the nodes whose path
   * below the root has one key per rule and satisfies every rule.
   */
  lemma YieldedMeaning(rules: seq<Rule>, j: Json, val: Py)
    requires Run(rules, START, Document(j)).Live?
    ensures val in Run(rules, START, Document(j)).out <==>
              exists path, target :: Matched(rules, j, path, target) && Build(target) == val
  {
    var nodes := Nodes(j, [NoKey]);
    StreamingRefinesSelection(rules, j);
    SelectOut(rules, nodes, val);
    forall path, target | Matched(rules, j, path, target) && Build(target) == val
      ensures val in Selected(rules, j).out
    {
      MatchedIsSelected(rules, j, path, target);
    }
    if val in Selected(rules, j).out {
      var i :| 0 <= i < |nodes| && |nodes[i].path| == |rules|
               && JudgeAll(nodes[i].path, rules) == Yes && Build(nodes[i].value) == val;
      NodesAreReachable(j, [NoKey], nodes[i]);
      var path := nodes[i].path[1..];
      assert nodes[i].path == [NoKey] + path;
      MatchedIsSelected(rules, j, path, nodes[i].value);
    }
  }

  /** In a built dictionary every key is present and its last occurrence wins. */
  lemma {:induction false} LastKeyWins(entries: map<PathKey, Py>, members: seq<Member>, i: nat)
    requires i < |members|
    requires forall k :: i < k < |members| ==> members[k].key != members[i].key
    ensures Name(members[i].key) in BuildMembers(entries, members)
    ensures BuildMembers(entries, members)[Name(members[i].key)] == Build(members[i].value)
    decreases |members|
  {
    var next := entries[Name(members[0].key) := Build(members[0].value)];
    if i > 0 {
      LastKeyWins(next, members[1..], i - 1);
    } else {
      KeyIsKept(next, members[1..], Name(members[0].key));
    }
  }

  /** ... and it has no other keys. */
  lemma {:induction false} NoOtherKeys(entries: map<PathKey, Py>, members: seq<Member>, key: PathKey)
    requires key !in entries && forall k :: 0 <= k < |members| ==> Name(members[k].key) != key
    ensures key !in BuildMembers(entries, members)
    decreases |members|
  {
    if members != [] {
      NoOtherKeys(entries[Name(members[0].key) := Build(members[0].value)], members[1..], key);
    }
  }

  lemma {:induction false} KeyIsKept(entries: map<PathKey, Py>, members: seq<Member>, key: PathKey)
    requires key in entries
    requires forall k :: 0 <= k < |members| ==> Name(members[k].key) != key
    ensures key in BuildMembers(entries, members)
    ensures BuildMembers(entries, members)[key] == entries[key]
    decreases |members|
  {
    if members != [] {
      KeyIsKept(entries[Name(members[0].key) := Build(members[0].value)], members[1..], key);
    }
  }

  // ---------- selection at one depth ----------

  lemma {:induction false} BelowIsDeeper(j: Json, path: seq<PathKey>, i: nat)
    requires i < |Below(j, path)|
    ensures |Below(j, path)[i].path| > |path|
  {
    var node := Below(j, path)[i];
    assert node in Nodes(j, path);
    match j
    case Atom(_) =>
    case Arr(items) => ItemsAreReachable(items, path, 0, node);
    case Obj(members) => MembersAreReachable(members, path, node);
  }

  lemma {:induction false} SelectSkips(rules: seq<Rule>, nodes: seq<Node>)
    requires forall i :: 0 <= i < |nodes| ==> |nodes[i].path| != |rules|
    ensures Select(rules, nodes) == Selection([], None)
  {
    if nodes != [] {
      SelectSkips(rules, nodes[1..]);
    }
  }

  lemma SelectAt(rules: seq<Rule>, j: Json, path: seq<PathKey>)
    requires |path| == |rules|
    ensures Select(rules, Nodes(j, path)) == Select(rules, [Node(path, j)])
  {
    forall i | 0 <= i < |Below(j, path)| ensures |Below(j, path)[i].path| != |rules| {
      BelowIsDeeper(j, path, i);
    }
    SelectSkips(rules, Below(j, path));
    SelectPlus(rules, Below(j, path), [Node(path, j)]);
    var own := Select(rules, [Node(path, j)]);
    assert [] + own.out == own.out;
  }
}
