/**
 * The JSONPath subset of `parse_subpath`: the rules, the parser as it consumes
 * its character list, and a printer that inverts it.
 */
module SubPath {
  import opened Common
  import opened PyInt

  /**
   * One entry of the rule list.  `Key(None)` is the wildcard `.*`; `Slice` and
   * `Indexes` are the two forms of a `range` rule.
   */
  datatype Rule =
    | Root
    | Key(name: Option<string>)
    | Slice(start: int, end: Option<int>, step: int)
    | Indexes(list: seq<int>)

  type Parsed<T> = Result<T, PyError>

  // ---------- the parser as a function ----------

  /** `_ext_str`: the characters before the first stop character, and the rest. */
  function ExtStr(chars: string, stops: string): (r: (string, string))
    ensures r.0 + r.1 == chars
    ensures forall c :: c in r.0 ==> c !in stops
    ensures r.1 == "" || r.1[0] in stops
  {
    if chars == "" || chars[0] in stops then ("", chars)
    else
      var (taken, rest) := ExtStr(chars[1..], stops);
      ([chars[0]] + taken, rest)
  }

  /** `int(text) if text else default`. */
  function IntOr(text: string, default: Option<int>): Parsed<Option<int>> {
    if text == "" then Ok(default)
    else match ToInt(text)
         case None => Err(ValueError)
         case Some(n) => Ok(Some(n))
  }

  predicate IsSorted(s: seq<int>) {
    forall i, j :: 0 <= i < j < |s| ==> s[i] <= s[j]
  }

  function Insert(x: int, s: seq<int>): (r: seq<int>)
    requires IsSorted(s)
    ensures IsSorted(r) && |r| == |s| + 1
    ensures forall y :: y in r <==> y == x || y in s
  {
    if s == [] || x <= s[0] then [x] + s
    else
      assert s == [s[0]] + s[1..];
      var rest := Insert(x, s[1..]);
      assert forall i :: 0 <= i < |rest| ==> rest[i] in rest;
      [s[0]] + rest
  }

  /** Python's `sorted` on integers. */
  function Sorted(s: seq<int>): (r: seq<int>)
    ensures IsSorted(r) && |r| == |s|
    ensures forall y :: y in r <==> y in s
  {
    if s == [] then []
    else
      assert s == [s[0]] + s[1..];
      Insert(s[0], Sorted(s[1..]))
  }

  lemma {:induction false} InsertKeepsElements(x: int, s: seq<int>)
    requires IsSorted(s)
    ensures multiset(Insert(x, s)) == multiset(s) + multiset{x}
  {
    if s != [] && x > s[0] {
      InsertKeepsElements(x, s[1..]);
      assert s == [s[0]] + s[1..];
    }
  }

  /** `Sorted` is a sort: an ordered permutation of its argument. */
  lemma {:induction false} SortedIsPermutation(s: seq<int>)
    ensures IsSorted(Sorted(s))
    ensures multiset(Sorted(s)) == multiset(s)
  {
    if s != [] {
      SortedIsPermutation(s[1..]);
      InsertKeepsElements(s[0], Sorted(s[1..]));
      assert s == [s[0]] + s[1..];
    }
  }

  /** After `[start:` has been read: the end, the optional step, the bracket. */
  function ParseSlice(startText: string, chars: string): (r: Parsed<(Rule, string)>)
    ensures r.Ok? ==> |r.value.1| < |chars|
    ensures r.Ok? ==> r.value.0.Slice?
  {
    match IntOr(startText, Some(0))
    case Err(e) => Err(e)
    case Ok(start) =>
      var (endText, afterEnd) := ExtStr(chars, ":]");
      match IntOr(endText, None)
      case Err(e) => Err(e)
      case Ok(end) =>
        if afterEnd == "" then Err(IndexError)
        else if afterEnd[0] != ':' then Ok((Slice(start.value, end, 1), afterEnd[1..]))
        else
          var (stepText, afterStep) := ExtStr(afterEnd[1..], "]");
          match IntOr(stepText, Some(1))
          case Err(e) => Err(e)
          case Ok(step) =>
            if afterStep == "" then Err(IndexError)
            else Ok((Slice(start.value, end, step.value), afterStep[1..]))
  }

  /** The loop `while chars.pop(0) != ']'` that reads the further indexes. */
  function ParseIndexTail(chars: string): (r: Parsed<(seq<int>, string)>)
    ensures r.Ok? ==> |r.value.1| < |chars|
    decreases |chars|
  {
    if chars == "" then Err(IndexError)
    else if chars[0] == ']' then Ok(([], chars[1..]))
    else
      var (text, rest) := ExtStr(chars[1..], ",]");
      match ToInt(text)
      case None => Err(ValueError)
      case Some(n) =>
        match ParseIndexTail(rest)
        case Err(e) => Err(e)
        case Ok((tail, after)) => Ok(([n] + tail, after))
  }

  /** One selector: its rule and the characters left. */
  function ParseSelector(chars: string): (r: Parsed<(Rule, string)>)
    requires chars != ""
    ensures r.Ok? ==> |r.value.1| < |chars|
  {
    var rest := chars[1..];
    if chars[0] == '.' then
      if rest == "" then Err(IndexError)
      else if rest[0] == '*' then Ok((Key(None), rest[1..]))
      else
        var (name, after) := ExtStr(rest, ".[");
        Ok((Key(Some(name)), after))
    else if chars[0] == '[' then
      var (text, after) := ExtStr(rest, ":,");
      if after == "" then Err(IndexError)
      else if after[0] == ':' then ParseSlice(text, after[1..])
      else
        match ToInt(text)
        case None => Err(ValueError)
        case Some(first) =>
          match ParseIndexTail(after)
          case Err(e) => Err(e)
          case Ok((tail, left)) => Ok((Indexes(Sorted([first] + tail)), left))
    else Err(RuntimeError)
  }

  function ParseSelectors(chars: string): Parsed<seq<Rule>>
    decreases |chars|
  {
    if chars == "" then Ok([])
    else
      match ParseSelector(chars)
      case Err(e) => Err(e)
      case Ok((rule, rest)) =>
        match ParseSelectors(rest)
        case Err(e) => Err(e)
        case Ok(rules) => Ok([rule] + rules)
  }

  /** `parse_subpath` as a function of its argument. */
  function Parse(subpath: string): Parsed<seq<Rule>> {
    if subpath == "" then Err(IndexError)
    else if subpath[0] != '$' then Err(RuntimeError)
    else
      match ParseSelectors(subpath[1..])
      case Err(e) => Err(e)
      case Ok(rules) => Ok([Root] + rules)
  }

  // ---------- the parser as the loops of the source ----------

  method TakeUntil(chars: string, stops: string) returns (taken: string, rest: string)
    ensures (taken, rest) == ExtStr(chars, stops)
  {
    taken, rest := "", chars;
    assert "" + ExtStr(chars, stops).0 == ExtStr(chars, stops).0;
    while rest != "" && rest[0] !in stops
      invariant ExtStr(chars, stops) == (taken + ExtStr(rest, stops).0, ExtStr(rest, stops).1)
      decreases |rest|
    {
      assert ExtStr(rest, stops).0 == [rest[0]] + ExtStr(rest[1..], stops).0;
      assert taken + ([rest[0]] + ExtStr(rest[1..], stops).0)
          == (taken + [rest[0]]) + ExtStr(rest[1..], stops).0;
      taken, rest := taken + [rest[0]], rest[1..];
    }
    assert taken + "" == taken;
  }

  method ReadSlice(startText: string, input: string) returns (r: Parsed<(Rule, string)>)
    ensures r == ParseSlice(startText, input)
  {
    var start := IntOr(startText, Some(0));
    if start.Err? { return Err(start.error); }
    var text, chars := TakeUntil(input, ":]");
    var end := IntOr(text, None);
    if end.Err? { return Err(end.error); }
    if chars == "" { return Err(IndexError); }
    var last := chars[0];
    chars := chars[1..];
    if last != ':' { return Ok((Slice(start.value.value, end.value, 1), chars)); }
    text, chars := TakeUntil(chars, "]");
    var step := IntOr(text, Some(1));
    if step.Err? { return Err(step.error); }
    if chars == "" { return Err(IndexError); }
    return Ok((Slice(start.value.value, end.value, step.value.value), chars[1..]));
  }

  method ReadIndexes(first: int, input: string) returns (r: Parsed<(Rule, string)>)
    ensures ParseIndexTail(input).Err? ==> r == Err(ParseIndexTail(input).error)
    ensures ParseIndexTail(input).Ok? ==>
              r == Ok((Indexes(Sorted([first] + ParseIndexTail(input).value.0)), ParseIndexTail(input).value.1))
  {
    var chars, list := input, [first];
    ghost var whole := ParseIndexTail(input);
    while true
      invariant whole.Err? ==> ParseIndexTail(chars) == whole
      invariant whole.Ok? ==> ParseIndexTail(chars).Ok? && ParseIndexTail(chars).value.1 == whole.value.1
      invariant whole.Ok? ==> list + ParseIndexTail(chars).value.0 == [first] + whole.value.0
      decreases |chars|
    {
      if chars == "" { return Err(IndexError); }
      if chars[0] == ']' {
        assert list + [] == list;
        return Ok((Indexes(Sorted(list)), chars[1..]));
      }
      var text, rest := TakeUntil(chars[1..], ",]");
      var n := ToInt(text);
      if n.None? { return Err(ValueError); }
      if whole.Ok? {
        assert list + ([n.value] + ParseIndexTail(rest).value.0)
            == (list + [n.value]) + ParseIndexTail(rest).value.0;
      }
      list, chars := list + [n.value], rest;
    }
  }

  method ReadSelector(input: string) returns (r: Parsed<(Rule, string)>)
    requires input != ""
    ensures r == ParseSelector(input)
  {
    var head, chars := input[0], input[1..];
    if head == '.' {
      if chars == "" { return Err(IndexError); }
      if chars[0] == '*' { return Ok((Key(None), chars[1..])); }
      var name, rest := TakeUntil(chars, ".[");
      return Ok((Key(Some(name)), rest));
    } else if head == '[' {
      var text, rest := TakeUntil(chars, ":,");
      if rest == "" { return Err(IndexError); }
      if rest[0] == ':' {
        r := ReadSlice(text, rest[1..]);
      } else {
        var first := ToInt(text);
        if first.None? { return Err(ValueError); }
        r := ReadIndexes(first.value, rest);
      }
    } else {
      return Err(RuntimeError);
    }
  }

  /** The character-consuming loop computes `Parse`; it ends because the list shrinks. */
  method ParseSubpath(subpath: string) returns (r: Parsed<seq<Rule>>)
    ensures r == Parse(subpath)
  {
    if subpath == "" { return Err(IndexError); }
    if subpath[0] != '$' { return Err(RuntimeError); }
    var chars, result := subpath[1..], [Root];
    ghost var whole := ParseSelectors(chars);
    while chars != ""
      invariant whole.Err? ==> ParseSelectors(chars) == whole
      invariant whole.Ok? ==> ParseSelectors(chars).Ok?
      invariant whole.Ok? ==> result + ParseSelectors(chars).value == [Root] + whole.value
      decreases |chars|
    {
      var read := ReadSelector(chars);
      if read.Err? { return Err(read.error); }
      var (rule, rest) := read.value;
      if whole.Ok? {
        assert result + ([rule] + ParseSelectors(rest).value)
            == (result + [rule]) + ParseSelectors(rest).value;
      }
      result, chars := result + [rule], rest;
    }
    assert result + [] == result;
    return Ok(result);
  }

  // ---------- the printer ----------

  function IndexesText(list: seq<int>): string {
    if list == [] then "]" else "," + (IntText(list[0]) + IndexesText(list[1..]))
  }

  function RuleText(rule: Rule): string {
    match rule
    case Root => ""
    case Key(None) => ".*"
    case Key(Some(name)) => "." + name
    case Slice(start, end, step) =>
      "[" + (IntText(start) + (":" + ((if end.None? then "" else IntText(end.value)) + (":" + (IntText(step) + "]")))))
    case Indexes(list) =>
      if list == [] then "[]" else "[" + (IntText(list[0]) + IndexesText(list[1..]))
  }

  function SelectorsText(rules: seq<Rule>): string {
    if rules == [] then "" else RuleText(rules[0]) + SelectorsText(rules[1..])
  }

  function Print(rules: seq<Rule>): string {
    if rules == [] then "" else "$" + SelectorsText(rules[1..])
  }

  /** A selector that can stand before `following`: an empty key must not come last. */
  predicate CanonicalSelector(rule: Rule, following: seq<Rule>) {
    match rule
    case Root => false
    case Key(None) => true
    case Key(Some(name)) =>
      && '.' !in name && '[' !in name
      && (if name == "" then following != [] else name[0] != '*')
    case Slice(_, _, _) => true
    case Indexes(list) => |list| >= 2 && IsSorted(list)
  }

  predicate CanonicalSelectors(rules: seq<Rule>) {
    rules == [] || (CanonicalSelector(rules[0], rules[1..]) && CanonicalSelectors(rules[1..]))
  }

  /** The rule lists that have a textual form. */
  predicate Canonical(rules: seq<Rule>) {
    rules != [] && rules[0] == Root && CanonicalSelectors(rules[1..])
  }

  // ---------- parser and printer undo each other ----------

  lemma {:induction false} ExtStrStops(taken: string, rest: string, stops: string)
    requires forall c :: c in taken ==> c !in stops
    requires rest == "" || rest[0] in stops
    ensures ExtStr(taken + rest, stops) == (taken, rest)
  {
    if taken == "" {
      assert taken + rest == rest;
    } else {
      assert taken[0] in taken;
      assert (taken + rest)[1..] == taken[1..] + rest;
      ExtStrStops(taken[1..], rest, stops);
      assert [taken[0]] + taken[1..] == taken;
    }
  }

  lemma ExtStrNumber(n: int, rest: string, stops: string)
    requires '-' !in stops && forall c :: IsDigit(c) ==> c !in stops
    requires rest != "" && rest[0] in stops
    ensures ExtStr(IntText(n) + rest, stops) == (IntText(n), rest)
    ensures ToInt(IntText(n)) == Some(n)
  {
    ExtStrStops(IntText(n), rest, stops);
    ToIntOfText(n);
  }

  lemma ParseIndexTailStep(n: int, tail: string)
    requires tail != "" && tail[0] in ",]"
    requires ParseIndexTail(tail).Ok?
    ensures ParseIndexTail("," + (IntText(n) + tail))
         == Ok(([n] + ParseIndexTail(tail).value.0, ParseIndexTail(tail).value.1))
  {
    assert ("," + (IntText(n) + tail))[1..] == IntText(n) + tail;
    ExtStrNumber(n, tail, ",]");
  }

  lemma {:induction false} ParseIndexTailPrinted(list: seq<int>, rest: string)
    ensures IndexesText(list) != "" && IndexesText(list)[0] in ",]"
    ensures ParseIndexTail(IndexesText(list) + rest) == Ok((list, rest))
  {
    if list == [] {
      assert ("]" + rest)[1..] == rest;
    } else {
      var tail := IndexesText(list[1..]) + rest;
      ParseIndexTailPrinted(list[1..], rest);
      ParseIndexTailStep(list[0], tail);
      assert IndexesText(list) + rest == "," + (IntText(list[0]) + tail);
      assert [list[0]] + list[1..] == list;
    }
  }

  lemma ParseSlicePrinted(start: int, end: Option<int>, step: int, rest: string)
    ensures ParseSlice(IntText(start),
              (if end.None? then "" else IntText(end.value)) + (":" + (IntText(step) + ("]" + rest))))
         == Ok((Slice(start, end, step), rest))
  {
    ToIntOfText(start);
    var afterStep := "]" + rest;
    var afterEnd := ":" + (IntText(step) + afterStep);
    if end.None? {
      ExtStrStops("", afterEnd, ":]");
    } else {
      ExtStrNumber(end.value, afterEnd, ":]");
    }
    assert afterEnd[1..] == IntText(step) + afterStep;
    ExtStrNumber(step, afterStep, "]");
    assert afterStep[1..] == rest;
  }

  lemma {:induction false} SortedIsIdentity(s: seq<int>)
    requires IsSorted(s)
    ensures Sorted(s) == s
  {
    if s != [] {
      SortedIsIdentity(s[1..]);
      assert s == [s[0]] + s[1..];
    }
  }

  lemma ParseKeyPrinted(name: string, rest: string)
    requires '.' !in name && '[' !in name
    requires if name == "" then rest != "" else name[0] != '*'
    requires rest == "" || rest[0] in ".["
    ensures ParseSelector(("." + name) + rest) == Ok((Key(Some(name)), rest))
  {
    assert (("." + name) + rest)[1..] == name + rest;
    ExtStrStops(name, rest, ".[");
  }

  lemma ParseSliceRulePrinted(rule: Rule, rest: string)
    requires rule.Slice?
    ensures ParseSelector(RuleText(rule) + rest) == Ok((rule, rest))
  {
    var start, end, step := rule.start, rule.end, rule.step;
    var endText := if end.None? then "" else IntText(end.value);
    var after := endText + (":" + (IntText(step) + ("]" + rest)));
    var chars := RuleText(rule) + rest;
    assert chars == "[" + (IntText(start) + (":" + after));
    assert chars[1..] == IntText(start) + (":" + after);
    ExtStrNumber(start, ":" + after, ":,");
    assert (":" + after)[1..] == after;
    ParseSlicePrinted(start, end, step, rest);
  }

  lemma ParseIndexesStep(n: int, tail: string)
    requires tail != "" && tail[0] == ','
    requires ParseIndexTail(tail).Ok?
    ensures ParseSelector("[" + (IntText(n) + tail))
         == Ok((Indexes(Sorted([n] + ParseIndexTail(tail).value.0)), ParseIndexTail(tail).value.1))
  {
    assert ("[" + (IntText(n) + tail))[1..] == IntText(n) + tail;
    ExtStrNumber(n, tail, ":,");
  }

  lemma Regroup(a: string, b: string, c: string, d: string)
    ensures (a + (b + c)) + d == a + (b + (c + d))
  {
  }

  lemma ParseIndexesPrinted(list: seq<int>, rest: string)
    requires |list| >= 2 && IsSorted(list)
    ensures ParseSelector(RuleText(Indexes(list)) + rest) == Ok((Indexes(list), rest))
  {
    var tail := IndexesText(list[1..]) + rest;
    ParseIndexTailPrinted(list[1..], rest);
    ParseIndexesStep(list[0], tail);
    Regroup("[", IntText(list[0]), IndexesText(list[1..]), rest);
    assert [list[0]] + list[1..] == list;
    SortedIsIdentity(list);
  }

  lemma ParseSelectorPrinted(rule: Rule, following: seq<Rule>, rest: string)
    requires CanonicalSelector(rule, following)
    requires rest == "" ==> following == []
    requires rest == "" || rest[0] in ".["
    ensures RuleText(rule) != "" && RuleText(rule)[0] in ".["
    ensures ParseSelector(RuleText(rule) + rest) == Ok((rule, rest))
  {
    match rule
    case Key(None) =>
      assert (".*" + rest)[1..] == "*" + rest;
      assert ("*" + rest)[1..] == rest;
    case Key(Some(name)) => ParseKeyPrinted(name, rest);
    case Slice(_, _, _) => ParseSliceRulePrinted(rule, rest);
    case Indexes(list) => ParseIndexesPrinted(list, rest);
  }

  lemma {:induction false} ParseSelectorsPrinted(rules: seq<Rule>)
    requires CanonicalSelectors(rules)
    ensures SelectorsText(rules) == "" <==> rules == []
    ensures rules != [] ==> SelectorsText(rules)[0] in ".["
    ensures ParseSelectors(SelectorsText(rules)) == Ok(rules)
  {
    if rules != [] {
      ParseSelectorsPrinted(rules[1..]);
      ParseSelectorPrinted(rules[0], rules[1..], SelectorsText(rules[1..]));
      assert [rules[0]] + rules[1..] == rules;
    }
  }

  /** Printing a canonical rule list and parsing the text gives the list back. */
  lemma ParsePrint(rules: seq<Rule>)
    requires Canonical(rules)
    ensures Parse(Print(rules)) == Ok(rules)
  {
    ParseSelectorsPrinted(rules[1..]);
    assert Print(rules)[1..] == SelectorsText(rules[1..]);
    assert [Root] + rules[1..] == rules;
  }

  lemma ParseSelectorCanonical(chars: string, following: seq<Rule>)
    requires chars != "" && ParseSelector(chars).Ok?
    requires following == [] ==> ParseSelector(chars).value.1 == ""
    ensures CanonicalSelector(ParseSelector(chars).value.0, following)
  {
    var rest := chars[1..];
    if chars[0] == '.' && rest != "" && rest[0] != '*' {
      var (name, after) := ExtStr(rest, ".[");
      assert name != "" ==> name[0] == (name + after)[0];
    } else if chars[0] == '[' {
      var (text, after) := ExtStr(rest, ":,");
      if after != "" && after[0] == ',' {
        assert ParseIndexTail(after).Ok?;
        assert |ParseIndexTail(after).value.0| >= 1;
      }
    }
  }

  lemma {:induction false} ParseSelectorsCanonical(chars: string)
    requires ParseSelectors(chars).Ok?
    ensures CanonicalSelectors(ParseSelectors(chars).value)
    ensures ParseSelectors(chars).value == [] <==> chars == ""
    decreases |chars|
  {
    if chars != "" {
      var (rule, rest) := ParseSelector(chars).value;
      ParseSelectorsCanonical(rest);
      ParseSelectorCanonical(chars, ParseSelectors(rest).value);
      assert ([rule] + ParseSelectors(rest).value)[1..] == ParseSelectors(rest).value;
    }
  }

  /**
   * The parser's range is exactly the canonical lists: a rule list is the
   * parse of some text if and only if it is canonical.
   */
  lemma ParseRange(rules: seq<Rule>)
    ensures Canonical(rules) <==> exists s :: Parse(s) == Ok(rules)
  {
    if Canonical(rules) {
      ParsePrint(rules);
    }
    forall s | Parse(s) == Ok(rules) ensures Canonical(rules) {
      ParseSelectorsCanonical(s[1..]);
      assert rules[1..] == ParseSelectors(s[1..]).value;
    }
  }

  /** Printing what was parsed and parsing it again changes nothing, for every accepted text. */
  lemma ParsePrintParse(s: string)
    requires Parse(s).Ok?
    ensures Parse(Print(Parse(s).value)) == Parse(s)
  {
    ParseRange(Parse(s).value);
    ParsePrint(Parse(s).value);
  }
}
