/**
 * The one-pass JSONPath evaluator `json_streamer`: an event machine with a key
 * stack, a value stack and a depth counter, proved to refine the selection of
 * nodes from the finished tree.
 */
module JsonStreamer {
  import opened Common
  import opened SubPath

  // ---------- documents, events and built values ----------

  datatype Scalar = Null | Truth(b: bool) | Number(x: real) | Text(s: string)

  datatype Member = Member(key: string, value: Json)

  /** A JSON document; the members of an object keep their order and repetitions. */
  datatype Json =
    | Atom(a: Scalar)
    | Arr(items: seq<Json>)
    | Obj(members: seq<Member>)

  /** What stands on the key stack: `None`, an object key or an array index. */
  datatype PathKey = NoKey | Name(name: string) | At(index: int)

  /** A Python value under construction: scalar, list or dictionary. */
  datatype Py =
    | PyAtom(a: Scalar)
    | PyList(items: seq<Py>)
    | PyDict(entries: map<PathKey, Py>)

  /** The events of the tokenizer. */
  datatype Event =
    | DocStart | DocEnd
    | ObjectStart | ObjectEnd
    | ArrayStart | ArrayEnd
    | KeyEvent(key: string)
    | ValueEvent(v: Scalar)
    | ElementEvent(e: Scalar)

  function Events(j: Json, inObject: bool): seq<Event> {
    match j
    case Atom(a) => [if inObject then ValueEvent(a) else ElementEvent(a)]
    case Arr(items) => [ArrayStart] + ItemEvents(items) + [ArrayEnd]
    case Obj(members) => [ObjectStart] + MemberEvents(members) + [ObjectEnd]
  }

  function ItemEvents(items: seq<Json>): seq<Event> {
    if items == [] then [] else Events(items[0], false) + ItemEvents(items[1..])
  }

  function MemberEvents(members: seq<Member>): seq<Event> {
    if members == [] then []
    else [KeyEvent(members[0].key)] + Events(members[0].value, true) + MemberEvents(members[1..])
  }

  /** The event sequence of a whole document. */
  function Document(j: Json): seq<Event> {
    [DocStart] + Events(j, false) + [DocEnd]
  }

  /** The Python value of a document; in a dictionary the last occurrence of a key wins. */
  function Build(j: Json): Py
    decreases j
  {
    match j
    case Atom(a) => PyAtom(a)
    case Arr(items) => PyList(BuildItems(items))
    case Obj(members) => PyDict(BuildMembers(map[], members))
  }

  function BuildItems(items: seq<Json>): (r: seq<Py>)
    ensures |r| == |items|
    ensures forall i :: 0 <= i < |items| ==> r[i] == Build(items[i])
  {
    if items == [] then [] else [Build(items[0])] + BuildItems(items[1..])
  }

  function BuildMembers(entries: map<PathKey, Py>, members: seq<Member>): map<PathKey, Py>
    decreases members
  {
    if members == [] then entries
    else BuildMembers(entries[Name(members[0].key) := Build(members[0].value)], members[1..])
  }

  // ---------- the rules ----------

  datatype Verdict = Yes | No | Raises(error: PyError)

  /** `_judge`: slice rules compare the key with integers, so other keys raise. */
  function Judge(key: PathKey, rule: Rule): Verdict {
    match rule
    case Root => Yes
    case Key(None) => Yes
    case Key(Some(name)) => if key == Name(name) then Yes else No
    case Indexes(list) => if key.At? && key.index in list then Yes else No
    case Slice(start, end, step) =>
      if !key.At? then Raises(TypeError)
      else if start > key.index then No
      else if end.Some? && key.index >= end.value then No
      else if step == 0 then Raises(ZeroDivisionError)
      else if (key.index - start) % step == 0 then Yes
      else No
  }

  /** `all(_judge(*elem) for elem in zip(keys, rules))`, stopping at the first failure. */
  function JudgeAll(keys: seq<PathKey>, rules: seq<Rule>): Verdict {
    if keys == [] || rules == [] then Yes
    else match Judge(keys[0], rules[0])
         case Yes => JudgeAll(keys[1..], rules[1..])
         case verdict => verdict
  }

  // ---------- the machine ----------

  /** Either the generator is running, or an exception has ended it. */
  datatype State =
    | Live(keys: seq<PathKey>, values: seq<Py>, depth: int, out: seq<Py>)
    | Dead(yielded: seq<Py>, error: PyError)

  const START := Live([NoKey], [], 0, [])

  function Last<T>(s: seq<T>): T
    requires s != []
  {
    s[|s| - 1]
  }

  function Front<T>(s: seq<T>): seq<T>
    requires s != []
  {
    s[..|s| - 1]
  }

  /** Storing a finished value into the container on top of the value stack. */
  function Absorb(keys: seq<PathKey>, values: seq<Py>, depth: int, out: seq<Py>, val: Py): State {
    if values == [] then Live(keys, values, depth - 1, out)
    else match Last(values)
         case PyAtom(_) => Live(keys, values, depth - 1, out)
         case PyDict(entries) =>
           if keys == [] then Dead(out, IndexError)
           else Live(Front(keys), Front(values) + [PyDict(entries[Last(keys) := val])], depth - 1, out)
         case PyList(items) =>
           if keys == [] then Dead(out, IndexError)
           else if !Last(keys).At? then Dead(out, TypeError)
           else Live(Front(keys) + [At(Last(keys).index + 1)],
                     Front(values) + [PyList(items + [val])], depth - 1, out)
  }

  /** The pop: judge the finished value, yield it, store it in its parent. */
  function Pop(rules: seq<Rule>, keys: seq<PathKey>, values: seq<Py>, depth: int, out: seq<Py>): State {
    if values == [] then Dead(out, IndexError)
    else
      var val := Last(values);
      var verdict := if |rules| == depth then JudgeAll(keys, rules) else No;
      match verdict
      case Raises(e) => Dead(out, e)
      case Yes => Absorb(keys, Front(values), depth, out + [val], val)
      case No => Absorb(keys, Front(values), depth, out, val)
  }

  /** The state of the stacks just before the pop, for the events that pop. */
  function Arrive(s: State, e: Event): State
    requires s.Live?
  {
    match e
    case ValueEvent(v) => s.(values := s.values + [PyAtom(v)], depth := s.depth + 1)
    case ElementEvent(v) => s.(values := s.values + [PyAtom(v)], depth := s.depth + 1)
    case ArrayEnd => if s.keys == [] then Dead(s.out, IndexError) else s.(keys := Front(s.keys))
    case _ => s
  }

  predicate Pops(e: Event) {
    e.ObjectEnd? || e.ArrayEnd? || e.ValueEvent? || e.ElementEvent?
  }

  function Step(rules: seq<Rule>, s: State, e: Event): State {
    if s.Dead? then s
    else match e
         case DocStart => s
         case DocEnd => s
         case ObjectStart => s.(depth := s.depth + 1, values := s.values + [PyDict(map[])])
         case ArrayStart =>
           s.(depth := s.depth + 1, values := s.values + [PyList([])], keys := s.keys + [At(0)])
         case KeyEvent(key) => s.(keys := s.keys + [Name(key)])
         case _ =>
           var at := Arrive(s, e);
           if at.Dead? then at else Pop(rules, at.keys, at.values, at.depth, at.out)
  }

  function Run(rules: seq<Rule>, s: State, events: seq<Event>): State
    decreases events
  {
    if events == [] then s else Run(rules, Step(rules, s, events[0]), events[1..])
  }

  // ---------- the loop of the source ----------

  /** The generator object: its stacks are updated event by event. */
  class Streamer {
    const rules: seq<Rule>
    var queue: seq<Event>
    var keys: seq<PathKey>
    var values: seq<Py>
    var depth: int
    var out: seq<Py>
    var error: Option<PyError>

    function Now(): State
      reads this
    {
      if error.Some? then Dead(out, error.value) else Live(keys, values, depth, out)
    }

    constructor (rules: seq<Rule>)
      ensures this.rules == rules && queue == [] && Now() == START
    {
      this.rules := rules;
      queue, keys, values, depth, out, error := [], [NoKey], [], 0, [], None;
    }

    /** The test of one finished value against all rules; `error` is set by a rule that raises. */
    method Matches() returns (ok: bool)
      requires error.None?
      modifies this`error
      ensures ok <==> JudgeAll(keys, rules) == Yes
      ensures error == (match JudgeAll(keys, rules) case Raises(e) => Some(e) case _ => None)
    {
      var i := 0;
      while i < |keys| && i < |rules|
        invariant 0 <= i <= |keys| && i <= |rules|
        invariant error.None?
        invariant JudgeAll(keys, rules) == JudgeAll(keys[i..], rules[i..])
      {
        assert keys[i..][0] == keys[i] && rules[i..][0] == rules[i];
        assert keys[i..][1..] == keys[i + 1..] && rules[i..][1..] == rules[i + 1..];
        var verdict := Judge(keys[i], rules[i]);
        if verdict.Raises? { error := Some(verdict.error); }
        if !verdict.Yes? { return false; }
        i := i + 1;
      }
      return true;
    }

    /** The code under `if pop_flag`. */
    method PopValue()
      requires error.None?
      modifies this`keys, this`values, this`depth, this`out, this`error
      ensures Now() == Pop(rules, old(keys), old(values), old(depth), old(out))
    {
      if values == [] {
        error := Some(IndexError);
        return;
      }
      var val := values[|values| - 1];
      if |rules| == depth {
        var ok := Matches();
        if error.Some? { return; }
        if ok { out := out + [val]; }
      }
      values := values[..|values| - 1];
      if values != [] && values[|values| - 1].PyDict? {
        if keys == [] { error := Some(IndexError); return; }
        var key := keys[|keys| - 1];
        keys := keys[..|keys| - 1];
        var top := values[|values| - 1].entries;
        values := values[..|values| - 1] + [PyDict(top[key := val])];
      } else if values != [] && values[|values| - 1].PyList? {
        if keys == [] { error := Some(IndexError); return; }
        var key := keys[|keys| - 1];
        keys := keys[..|keys| - 1];
        var top := values[|values| - 1].items;
        values := values[..|values| - 1] + [PyList(top + [val])];
        if !key.At? { error := Some(TypeError); return; }
        keys := keys + [At(key.index + 1)];
      }
      depth := depth - 1;
    }

    /** The branches on the event name. */
    method Handle(event: Event)
      requires error.None?
      modifies this`keys, this`values, this`depth, this`out, this`error
      ensures Now() == Step(rules, old(Now()), event)
    {
      var popFlag := false;
      match event {
        case DocStart =>
        case DocEnd =>
        case ObjectStart =>
          depth, values := depth + 1, values + [PyDict(map[])];
        case ArrayStart =>
          depth, values, keys := depth + 1, values + [PyList([])], keys + [At(0)];
        case ObjectEnd =>
          popFlag := true;
        case ArrayEnd =>
          if keys == [] { error := Some(IndexError); return; }
          keys, popFlag := keys[..|keys| - 1], true;
        case KeyEvent(key) =>
          keys := keys + [Name(key)];
        case ValueEvent(v) =>
          depth, values, popFlag := depth + 1, values + [PyAtom(v)], true;
        case ElementEvent(v) =>
          depth, values, popFlag := depth + 1, values + [PyAtom(v)], true;
      }
      assert popFlag <==> Pops(event);
      assert popFlag ==> Live(keys, values, depth, out) == Arrive(old(Now()), event);
      if popFlag { PopValue(); }
    }

    /** One chunk of input: its events are queued and the queue is drained. */
    method Feed(chunk: seq<Event>)
      requires queue == []
      modifies this
      ensures queue == [] || error.Some?
      ensures Now() == Run(rules, old(Now()), chunk)
    {
      queue := chunk;
      while queue != [] && error.None?
        invariant Run(rules, Now(), queue) == Run(rules, old(Now()), chunk)
        decreases |queue|
      {
        var event := queue[0];
        queue := queue[1..];
        Handle(event);
      }
      if error.Some? {
        RunDead(rules, Now(), queue);
      }
    }
  }

  lemma {:induction false} RunDead(rules: seq<Rule>, s: State, events: seq<Event>)
    requires s.Dead?
    ensures Run(rules, s, events) == s
  {
    if events != [] {
      RunDead(rules, s, events[1..]);
    }
  }

  lemma {:induction false} RunPlus(rules: seq<Rule>, s: State, a: seq<Event>, b: seq<Event>)
    ensures Run(rules, s, a + b) == Run(rules, Run(rules, s, a), b)
    decreases |a|
  {
    if a == [] {
      assert a + b == b;
    } else {
      assert (a + b)[1..] == a[1..] + b;
      RunPlus(rules, Step(rules, s, a[0]), a[1..], b);
    }
  }

  function Flatten(chunks: seq<seq<Event>>): seq<Event> {
    if chunks == [] then [] else chunks[0] + Flatten(chunks[1..])
  }

  function RunChunks(rules: seq<Rule>, s: State, chunks: seq<seq<Event>>): State
    decreases |chunks|
  {
    if chunks == [] then s else RunChunks(rules, Run(rules, s, chunks[0]), chunks[1..])
  }

  /** The output does not depend on how the events are cut into chunks. */
  lemma {:induction false} ChunksDoNotMatter(rules: seq<Rule>, s: State, chunks: seq<seq<Event>>)
    ensures RunChunks(rules, s, chunks) == Run(rules, s, Flatten(chunks))
    decreases |chunks|
  {
    if chunks != [] {
      RunPlus(rules, s, chunks[0], Flatten(chunks[1..]));
      ChunksDoNotMatter(rules, Run(rules, s, chunks[0]), chunks[1..]);
    }
  }
}
