/**
 * Top-down evaluation of a path, selector by selector over the finished tree,
 * and the proof that the bottom-up streaming machine computes it.
 */
module PathSemantics {
  import opened Common
  import opened Arithmetic
  import opened SubPath
  import opened JsonStreamer
  import opened TreeSelection

  /** What a selector means for the key of a child. */
  ghost predicate Accepts(rule: Rule, key: PathKey) {
    match rule
    case Root => true
    case Key(None) => true
    case Key(Some(name)) => key == Name(name)
    case Indexes(list) => key.At? && exists i :: 0 <= i < |list| && list[i] == key.index
    case Slice(start, end, step) =>
      && key.At? && start <= key.index && (end.Some? ==> key.index < end.value)
      && step != 0 && InSteps(start, step, key.index)
  }

  /** When comparing a key with a slice raises, and what. */
  ghost predicate Fails(rule: Rule, key: PathKey, e: PyError) {
    rule.Slice? &&
    if !key.At? then e == TypeError
    else rule.start <= key.index && (rule.end.Some? ==> key.index < rule.end.value)
         && rule.step == 0 && e == ZeroDivisionError
  }

  /** `i` is `start` plus a multiple of `step`. */
  ghost predicate InSteps(start: int, step: int, i: int) {
    exists q: int :: i == start + q * step
  }

  /** The values at the end of a path: the accepted children's values, selector by selector. */
  ghost function Eval(j: Json, rules: seq<Rule>): seq<Json>
    decreases j, 1
  {
    if rules == [] then [j]
    else match j
         case Atom(_) => []
         case Arr(items) => EvalItems(items, 0, rules)
         case Obj(members) => EvalMembers(members, rules)
  }

  ghost function EvalItems(items: seq<Json>, first: nat, rules: seq<Rule>): seq<Json>
    requires rules != []
    decreases items, 2
  {
    if items == [] then []
    else (if Accepts(rules[0], At(first)) then Eval(items[0], rules[1..]) else [])
         + EvalItems(items[1..], first + 1, rules)
  }

  ghost function EvalMembers(members: seq<Member>, rules: seq<Rule>): seq<Json>
    requires rules != []
    decreases members, 2
  {
    if members == [] then []
    else (if Accepts(rules[0], Name(members[0].key)) then Eval(members[0].value, rules[1..]) else [])
         + EvalMembers(members[1..], rules)
  }

  /** The remainders of one number by `c` and by `-c` are equal. */
  lemma SameRemainder(x: int, c: int)
    requires c > 0
    ensures x % c == x % (-c)
  {
    var d := x / (-c);
    assert x == d * (-c) + x % (-c);
    assert d * (-c) == (-d) * c;
    DivisionIsUnique(x, -d, x % (-c), c);
  }

  lemma MultiplesOf(x: int, c: int)
    requires c > 0
    ensures x % c == 0 <==> InSteps(0, c, x)
  {
    if x % c == 0 {
      assert x == 0 + (x / c) * c;
    }
    if InSteps(0, c, x) {
      var q: int :| x == 0 + q * c;
      DivisionIsUnique(x, q, 0, c);
    }
  }

  /** The sign of the step and the start do not matter for what is a multiple. */
  lemma SameSteps(start: int, step: int, i: int)
    ensures InSteps(start, step, i) <==> InSteps(0, -step, i - start)
    ensures InSteps(start, step, i) <==> InSteps(0, step, i - start)
  {
    if InSteps(start, step, i) {
      var q: int :| i == start + q * step;
      assert i - start == 0 + (-q) * (-step) && i - start == 0 + q * step;
    }
    if InSteps(0, -step, i - start) {
      var q: int :| i - start == 0 + q * (-step);
      assert i == start + (-q) * step;
    }
    if InSteps(0, step, i - start) {
      var q: int :| i - start == 0 + q * step;
      assert i == start + q * step;
    }
  }

  lemma StepsAreMultiples(start: int, step: int, i: int)
    requires step != 0
    ensures (i - start) % step == 0 <==> InSteps(start, step, i)
  {
    var c := if step > 0 then step else -step;
    MultiplesOf(i - start, c);
    SameRemainder(i - start, c);
    SameSteps(start, step, i);
  }

  /** `_judge` accepts exactly the keys that the selector means, and raises exactly where it fails. */
  lemma JudgeMeaning(rule: Rule, key: PathKey)
    ensures Judge(key, rule) == Yes <==> Accepts(rule, key)
    ensures forall e :: Judge(key, rule) == Raises(e) <==> Fails(rule, key, e)
  {
    if rule.Slice? && rule.step != 0 && key.At? {
      StepsAreMultiples(rule.start, rule.step, key.index);
    }
  }

  /** The first selector that does not accept its key fails. */
  ghost predicate FailsOn(rules: seq<Rule>, path: seq<PathKey>, e: PyError) {
    exists k :: 0 <= k < |rules| && k < |path| && Fails(rules[k], path[k], e) && AcceptsTo(rules, path, k)
  }

  /** The selectors before position `k` accept their keys. */
  ghost predicate AcceptsTo(rules: seq<Rule>, path: seq<PathKey>, k: nat)
    requires k <= |rules| && k <= |path|
  {
    forall i :: 0 <= i < k ==> Accepts(rules[i], path[i])
  }

  /** `all(...)` accepts a path of one key per rule when every selector does, and raises when the first other fails. */
  lemma {:induction false} JudgeAllMeaning(path: seq<PathKey>, rules: seq<Rule>)
    requires |path| == |rules|
    ensures JudgeAll(path, rules) == Yes <==> AcceptsTo(rules, path, |path|)
    ensures forall e :: JudgeAll(path, rules) == Raises(e) <==> FailsOn(rules, path, e)
  {
    if path != [] {
      JudgeMeaning(rules[0], path[0]);
      JudgeAllMeaning(path[1..], rules[1..]);
      AcceptsShift(rules, path);
      forall e ensures JudgeAll(path, rules) == Raises(e) <==> FailsOn(rules, path, e) {
        FailsShift(rules, path, e);
      }
    }
  }

  lemma AcceptsShift(rules: seq<Rule>, path: seq<PathKey>)
    requires path != [] && |path| == |rules|
    ensures forall k :: 0 < k <= |path| ==>
              (AcceptsTo(rules, path, k) <==> Accepts(rules[0], path[0]) && AcceptsTo(rules[1..], path[1..], k - 1))
  {
    forall k | 0 < k <= |path|
      ensures AcceptsTo(rules, path, k) <==> Accepts(rules[0], path[0]) && AcceptsTo(rules[1..], path[1..], k - 1)
    {
      assert forall i :: 1 <= i < k ==> rules[i] == rules[1..][i - 1] && path[i] == path[1..][i - 1];
      assert forall i :: 0 <= i < k - 1 ==> rules[1..][i] == rules[i + 1] && path[1..][i] == path[i + 1];
    }
  }

  lemma FailsShift(rules: seq<Rule>, path: seq<PathKey>, e: PyError)
    requires path != [] && |path| == |rules|
    ensures FailsOn(rules, path, e) <==>
              || Fails(rules[0], path[0], e)
              || (Accepts(rules[0], path[0]) && FailsOn(rules[1..], path[1..], e))
  {
    AcceptsShift(rules, path);
    if FailsOn(rules, path, e) {
      var k :| 0 <= k < |rules| && Fails(rules[k], path[k], e) && AcceptsTo(rules, path, k);
      if k > 0 {
        assert Fails(rules[1..][k - 1], path[1..][k - 1], e);
      }
    }
    if Fails(rules[0], path[0], e) {
      assert AcceptsTo(rules, path, 0);
    }
    if Accepts(rules[0], path[0]) && FailsOn(rules[1..], path[1..], e) {
      var k :| 0 <= k < |rules[1..]| && Fails(rules[1..][k], path[1..][k], e) && AcceptsTo(rules[1..], path[1..], k);
      assert Fails(rules[k + 1], path[k + 1], e) && AcceptsTo(rules, path, k + 1);
    }
  }

  // ---------- runs that raise ----------

  /** The path leads from the root of `j` to some node, has one key per rule, and a selector fails on it. */
  ghost predicate FailsAt(rules: seq<Rule>, j: Json, path: seq<PathKey>, target: Json, e: PyError) {
    Reaches(j, path, target) && |path| + 1 == |rules| && FailsOn(rules, [NoKey] + path, e)
  }

  /** A run ends in an exception exactly when a selector fails on some path, and it is the one of such a path. */
  lemma RunRaisesIff(rules: seq<Rule>, j: Json)
    ensures Run(rules, START, Document(j)).Dead? <==> exists path, target, e :: FailsAt(rules, j, path, target, e)
    ensures Run(rules, START, Document(j)).Dead? ==>
              exists path, target :: FailsAt(rules, j, path, target, Run(rules, START, Document(j)).error)
  {
    var nodes := Nodes(j, [NoKey]);
    StreamingRefinesSelection(rules, j);
    SelectRaises(rules, nodes);
    if path, target, e :| FailsAt(rules, j, path, target, e) {
      var node := Node([NoKey] + path, target);
      NodesAreReachable(j, [NoKey], node);
      assert node.path[1..] == path;
      JudgeAllMeaning(node.path, rules);
    }
    if Select(rules, nodes).error.Some? {
      var i := FirstRaise(rules, nodes);
      NodesAreReachable(j, [NoKey], nodes[i]);
      JudgeAllMeaning(nodes[i].path, rules);
      assert nodes[i].path == [NoKey] + nodes[i].path[1..];
      assert FailsAt(rules, j, nodes[i].path[1..], nodes[i].value, Select(rules, nodes).error.value);
    }
  }

  lemma {:induction false} FirstRaise(rules: seq<Rule>, nodes: seq<Node>) returns (i: nat)
    requires Select(rules, nodes).error.Some?
    ensures i < |nodes| && |nodes[i].path| == |rules|
    ensures JudgeAll(nodes[i].path, rules) == Raises(Select(rules, nodes).error.value)
  {
    if |nodes[0].path| == |rules| && JudgeAll(nodes[0].path, rules).Raises? {
      i := 0;
    } else {
      var k := FirstRaise(rules, nodes[1..]);
      i := k + 1;
    }
  }

  /** A rule list without slices raises on no document. */
  lemma WithoutSlices(rules: seq<Rule>, j: Json)
    requires forall rule :: rule in rules ==> !rule.Slice?
    ensures Run(rules, START, Document(j)).Live?
  {
    RunRaisesIff(rules, j);
  }

  // ---------- top-down evaluation, exceptions included ----------

  /** Some path of `n` keys leads from `j` to a node. */
  predicate Deep(j: Json, n: nat)
    decreases j, 1
  {
    n == 0 || match j
              case Atom(_) => false
              case Arr(items) => DeepItems(items, n - 1)
              case Obj(members) => DeepMembers(members, n - 1)
  }

  predicate DeepItems(items: seq<Json>, n: nat)
    decreases items, 2
  {
    items != [] && (Deep(items[0], n) || DeepItems(items[1..], n))
  }

  predicate DeepMembers(members: seq<Member>, n: nat)
    decreases members, 2
  {
    members != [] && (Deep(members[0].value, n) || DeepMembers(members[1..], n))
  }

  /** What a selector says about the key of a child, by `Accepts` and `Fails` alone. */
  ghost function Meaning(rule: Rule, key: PathKey): Verdict {
    if Accepts(rule, key) then Yes
    else if Fails(rule, key, TypeError) then Raises(TypeError)
    else if Fails(rule, key, ZeroDivisionError) then Raises(ZeroDivisionError)
    else No
  }

  const NOTHING := Selection([], None)

  /**
   * The values at the end of a path, selector by selector from the root, and the
   * exception that ends them.  A selector that fails on a child raises only when
   * that child has a node as deep as the path is long.
   */
  ghost function Evaluate(j: Json, rules: seq<Rule>): Selection
    decreases j, 1
  {
    if rules == [] then Selection([Build(j)], None)
    else match j
         case Atom(_) => NOTHING
         case Arr(items) => EvaluateItems(items, 0, rules)
         case Obj(members) => EvaluateMembers(members, rules)
  }

  /** The value below a child, given what the selectors up to the child say. */
  ghost function EvaluateBelow(verdict: Verdict, j: Json, rules: seq<Rule>): Selection
    decreases j, 2
  {
    match verdict
    case Yes => Evaluate(j, rules)
    case No => NOTHING
    case Raises(e) => if Deep(j, |rules|) then Selection([], Some(e)) else NOTHING
  }

  ghost function EvaluateItems(items: seq<Json>, first: nat, rules: seq<Rule>): Selection
    requires rules != []
    decreases items, 3
  {
    if items == [] then NOTHING
    else Then(EvaluateBelow(Meaning(rules[0], At(first)), items[0], rules[1..]),
              EvaluateItems(items[1..], first + 1, rules))
  }

  ghost function EvaluateMembers(members: seq<Member>, rules: seq<Rule>): Selection
    requires rules != []
    decreases members, 3
  {
    if members == [] then NOTHING
    else Then(EvaluateBelow(Meaning(rules[0], Name(members[0].key)), members[0].value, rules[1..]),
              EvaluateMembers(members[1..], rules))
  }

  lemma {:induction false} JudgeAllPlus(path: seq<PathKey>, key: PathKey, rules: seq<Rule>)
    requires |path| < |rules|
    ensures JudgeAll(path + [key], rules) ==
              if JudgeAll(path, rules) == Yes then Judge(key, rules[|path|]) else JudgeAll(path, rules)
  {
    if path == [] {
      assert path + [key] == [key] && [key][1..] == [];
    } else {
      assert (path + [key])[1..] == path[1..] + [key];
      JudgeAllPlus(path[1..], key, rules[1..]);
    }
  }

  lemma ThenNothing(a: Selection)
    ensures Then(a, NOTHING) == a && Then(NOTHING, a) == a
  {
    assert a.out + [] == a.out && [] + a.out == a.out;
  }

  lemma NotDeeper(j: Json, rules: seq<Rule>, path: seq<PathKey>)
    requires |path| < |rules|
    ensures Select(rules, Nodes(j, path)) == Select(rules, Below(j, path))
  {
    var own := [Node(path, j)];
    SelectPlus(rules, Below(j, path), own);
    SelectSkips(rules, own);
    ThenNothing(Select(rules, Below(j, path)));
  }

  /** Bottom-up selection at and below one node is top-down evaluation from that node. */
  lemma {:induction false} SelectEvaluates(rules: seq<Rule>, j: Json, path: seq<PathKey>)
    requires |path| <= |rules|
    ensures Select(rules, Nodes(j, path)) == EvaluateBelow(JudgeAll(path, rules), j, rules[|path|..])
    decreases j, 1
  {
    if |path| == |rules| {
      SelectAt(rules, j, path);
      SelectOne(rules, Node(path, j));
    } else {
      NotDeeper(j, rules, path);
      match j {
        case Atom(_) =>
        case Arr(items) => SelectEvaluatesItems(rules, items, path, 0);
        case Obj(members) => SelectEvaluatesMembers(rules, members, path);
      }
    }
  }

  /** The items of an array, given what the selectors up to the array say. */
  ghost function ItemsBelow(verdict: Verdict, items: seq<Json>, first: nat, rules: seq<Rule>): Selection
    requires rules != []
  {
    match verdict
    case Yes => EvaluateItems(items, first, rules)
    case No => NOTHING
    case Raises(e) => if DeepItems(items, |rules| - 1) then Selection([], Some(e)) else NOTHING
  }

  ghost function MembersBelow(verdict: Verdict, members: seq<Member>, rules: seq<Rule>): Selection
    requires rules != []
  {
    match verdict
    case Yes => EvaluateMembers(members, rules)
    case No => NOTHING
    case Raises(e) => if DeepMembers(members, |rules| - 1) then Selection([], Some(e)) else NOTHING
  }

  lemma MeaningIsJudge(rule: Rule, key: PathKey)
    ensures Judge(key, rule) == Meaning(rule, key)
  {
    JudgeMeaning(rule, key);
  }

  lemma {:induction false} SelectEvaluatesItems(rules: seq<Rule>, items: seq<Json>, path: seq<PathKey>, first: nat)
    requires |path| < |rules|
    ensures Select(rules, ItemNodes(items, path, first))
         == ItemsBelow(JudgeAll(path, rules), items, first, rules[|path|..])
    decreases items, 2
  {
    if items != [] {
      var key := At(first);
      SelectPlus(rules, Nodes(items[0], path + [key]), ItemNodes(items[1..], path, first + 1));
      SelectEvaluates(rules, items[0], path + [key]);
      SelectEvaluatesItems(rules, items[1..], path, first + 1);
      JudgeAllPlus(path, key, rules);
      MeaningIsJudge(rules[|path|], key);
      assert rules[|path|..][1..] == rules[|path| + 1..];
      ThenNothing(Select(rules, ItemNodes(items[1..], path, first + 1)));
    }
  }

  lemma {:induction false} SelectEvaluatesMembers(rules: seq<Rule>, members: seq<Member>, path: seq<PathKey>)
    requires |path| < |rules|
    ensures Select(rules, MemberNodes(members, path))
         == MembersBelow(JudgeAll(path, rules), members, rules[|path|..])
    decreases members, 2
  {
    if members != [] {
      var key := Name(members[0].key);
      SelectPlus(rules, Nodes(members[0].value, path + [key]), MemberNodes(members[1..], path));
      SelectEvaluates(rules, members[0].value, path + [key]);
      SelectEvaluatesMembers(rules, members[1..], path);
      JudgeAllPlus(path, key, rules);
      MeaningIsJudge(rules[|path|], key);
      assert rules[|path|..][1..] == rules[|path| + 1..];
      ThenNothing(Select(rules, MemberNodes(members[1..], path)));
    }
  }

  // ---------- the values alone ----------

  lemma BuildItemsPlus(a: seq<Json>, b: seq<Json>)
    ensures BuildItems(a + b) == BuildItems(a) + BuildItems(b)
  {
  }

  /** An evaluation that no exception ends yields the plain values of the path. */
  lemma {:induction false} EvaluateIsEval(j: Json, rules: seq<Rule>)
    requires Evaluate(j, rules).error.None?
    ensures Evaluate(j, rules).out == BuildItems(Eval(j, rules))
    decreases j, 1
  {
    if rules != [] {
      match j {
        case Atom(_) =>
        case Arr(items) => EvaluateItemsIsEval(items, 0, rules);
        case Obj(members) => EvaluateMembersIsEval(members, rules);
      }
    }
  }

  lemma {:induction false} EvaluateItemsIsEval(items: seq<Json>, first: nat, rules: seq<Rule>)
    requires rules != [] && EvaluateItems(items, first, rules).error.None?
    ensures EvaluateItems(items, first, rules).out == BuildItems(EvalItems(items, first, rules))
    decreases items, 2
  {
    if items != [] {
      var accepted := Accepts(rules[0], At(first));
      if accepted { EvaluateIsEval(items[0], rules[1..]); }
      EvaluateItemsIsEval(items[1..], first + 1, rules);
      BuildItemsPlus(if accepted then Eval(items[0], rules[1..]) else [], EvalItems(items[1..], first + 1, rules));
    }
  }

  lemma {:induction false} EvaluateMembersIsEval(members: seq<Member>, rules: seq<Rule>)
    requires rules != [] && EvaluateMembers(members, rules).error.None?
    ensures EvaluateMembers(members, rules).out == BuildItems(EvalMembers(members, rules))
    decreases members, 2
  {
    if members != [] {
      var accepted := Accepts(rules[0], Name(members[0].key));
      if accepted { EvaluateIsEval(members[0].value, rules[1..]); }
      EvaluateMembersIsEval(members[1..], rules);
      BuildItemsPlus(if accepted then Eval(members[0].value, rules[1..]) else [], EvalMembers(members[1..], rules));
    }
  }

  // ---------- from path texts ----------

  /**
   * Streaming computes top-down evaluation: for every document and every path
   * text that parses, the machine yields exactly the values of the path, in
   * document order, each fully built, and ends with the same exception if any.
   */
  lemma StreamingEvaluates(text: string, j: Json)
    requires Parse(text).Ok?
    ensures var rules := Parse(text).value;
            var result := Evaluate(j, rules[1..]);
            Run(rules, START, Document(j)) ==
              match result.error
              case None => Live([NoKey], [], 0, result.out)
              case Some(e) => Dead(result.out, e)
  {
    var rules := Parse(text).value;
    SelectEvaluates(rules, j, [NoKey]);
    StreamingRefinesSelection(rules, j);
    assert [] + Selected(rules, j).out == Selected(rules, j).out;
    assert JudgeAll([NoKey], rules) == Yes by { assert [NoKey][1..] == []; }
  }

  /** Unless a selector fails on some path, these are the plain values of the path. */
  lemma StreamingEvaluatesPlain(text: string, j: Json)
    requires Parse(text).Ok?
    requires !exists path, target, e :: FailsAt(Parse(text).value, j, path, target, e)
    ensures var rules := Parse(text).value;
            Run(rules, START, Document(j)) == Live([NoKey], [], 0, BuildItems(Eval(j, rules[1..])))
  {
    RunRaisesIff(Parse(text).value, j);
    StreamingEvaluates(text, j);
    EvaluateIsEval(j, Parse(text).value[1..]);
  }

  /** In particular for every path text without slices, on every document. */
  lemma StreamingWithoutSlices(text: string, j: Json)
    requires Parse(text).Ok?
    requires forall rule :: rule in Parse(text).value ==> !rule.Slice?
    ensures var rules := Parse(text).value;
            Run(rules, START, Document(j)) == Live([NoKey], [], 0, BuildItems(Eval(j, rules[1..])))
  {
    WithoutSlices(Parse(text).value, j);
    StreamingEvaluates(text, j);
    EvaluateIsEval(j, Parse(text).value[1..]);
  }
}
