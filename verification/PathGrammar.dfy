/**
 * The language of `parse_subpath`: which texts are paths, the rules that each
 * spells, and the exception that every other text raises.
 */
module PathGrammar {
  import opened Common
  import opened PyInt
  import opened SubPath

  // ---------- numbers inside selectors ----------

  /** A number, or nothing for the default. */
  predicate NumberOr(text: string, default: Option<int>, value: Option<int>) {
    if text == "" then value == default else value.Some? && ToInt(text) == value
  }

  /** Text where a number is expected that is none. */
  predicate Malformed(text: string) {
    text != "" && ToInt(text).None?
  }

  lemma IntOrMeaning(text: string, default: Option<int>)
    ensures Malformed(text) <==> IntOr(text, default) == Err(ValueError)
    ensures !Malformed(text) ==> IntOr(text, default).Ok? && NumberOr(text, default, IntOr(text, default).value)
    ensures forall value :: NumberOr(text, default, value) ==> IntOr(text, default) == Ok(value)
  {
  }

  /** No number contains a character that ends one. */
  lemma NumberHasNoStop(text: string, c: char)
    requires ToInt(text).Some? && c in ":,]["
    ensures c !in text
  {
    ToIntMeaning(text, ToInt(text).value);
    var before, s, after, sign, body :|
      Spaces(before) && Spaces(after) && text == before + (s + after)
      && Signed(s, sign, body) && ToInt(text).value == SignedValue(sign, body);
    assert c !in before && c !in after && c !in body && c !in sign;
    assert c !in s;
  }

  lemma NumberOrHasNoStop(text: string, default: Option<int>, value: Option<int>, stops: string)
    requires NumberOr(text, default, value) && forall c :: c in stops ==> c in ":,]["
    ensures Clear(text, stops)
  {
    forall c | c in text ensures c !in stops {
      if c in stops { NumberHasNoStop(text, c); }
    }
  }

  // ---------- the texts of one selector ----------

  /** No character of the text is one of the stops. */
  predicate Clear(text: string, stops: string) {
    forall c :: c in text ==> c !in stops
  }

  /** The text ends, or goes on with one of the stops. */
  predicate EndsOr(text: string, stops: string) {
    text == "" || text[0] in stops
  }

  lemma ReadTo(taken: string, rest: string, stops: string)
    requires Clear(taken, stops) && EndsOr(rest, stops)
    ensures ExtStr(taken + rest, stops) == (taken, rest)
  {
    ExtStrStops(taken, rest, stops);
  }

  /** What follows the first colon of a slice. */
  function SliceEnd(b: string, c: Option<string>): string {
    b + SliceTail(c)
  }

  function StepText(c: Option<string>): string {
    if c.None? then "" else c.value
  }

  /** `[a:b]` or `[a:b:c]`, any number left out. */
  ghost predicate SliceSpells(text: string, start: int, end: Option<int>, step: int) {
    exists a, b, c ::
      && text == "[" + (a + (":" + SliceEnd(b, c)))
      && NumberOr(a, Some(0), Some(start)) && NumberOr(b, None, end) && NumberOr(StepText(c), Some(1), Some(step))
  }

  /** `,n` for each text, and the bracket. */
  function TailText(texts: seq<string>): string {
    if texts == [] then "]" else "," + (texts[0] + TailText(texts[1..]))
  }

  predicate AreNumbers(texts: seq<string>, list: seq<int>) {
    |texts| == |list| && forall i :: 0 <= i < |texts| ==> ToInt(texts[i]) == Some(list[i])
  }

  /** `[n,m,...]` with at least two numbers; the list is sorted. */
  ghost predicate IndexesSpell(text: string, list: seq<int>) {
    exists first, n, texts, more ::
      && text == "[" + (first + TailText(texts)) && ToInt(first) == Some(n)
      && texts != [] && AreNumbers(texts, more) && list == Sorted([n] + more)
  }

  ghost predicate SelectorSpells(text: string, rule: Rule) {
    match rule
    case Root => false
    case Key(None) => text == ".*"
    case Key(Some(name)) => text == "." + name && '.' !in name && '[' !in name && (name != "" ==> name[0] != '*')
    case Slice(start, end, step) => SliceSpells(text, start, end, step)
    case Indexes(list) => IndexesSpell(text, list)
  }

  /** One selector after the other; a lone `.` must not come last. */
  ghost predicate SelectorsSpell(text: string, rules: seq<Rule>)
    decreases |rules|
  {
    if rules == [] then text == ""
    else exists piece, rest ::
      && text == piece + rest && SelectorSpells(piece, rules[0])
      && MayFollow(rules[0], rest) && SelectorsSpell(rest, rules[1..])
  }

  /** A name goes on to the next `.` or `[`, and reading an empty one needs a next character. */
  predicate MayFollow(rule: Rule, rest: string) {
    rule.Key? && rule.name.Some? ==> EndsOr(rest, ".[") && (rule.name.value == "" ==> rest != "")
  }

  // ---------- a spelled selector is read ----------

  /** The characters after the opening bracket and a first number. */
  lemma AfterFirst(a: string, stop: char, more: string)
    requires Clear(a, ":,") && stop in ":,"
    ensures ExtStr(("[" + (a + ([stop] + more)))[1..], ":,") == (a, [stop] + more)
  {
    ReadTo(a, [stop] + more, ":,");
    assert ("[" + (a + ([stop] + more)))[1..] == a + ([stop] + more);
  }

  /** A slice is read from its first colon on. */
  lemma SliceAfterStart(a: string, more: string)
    requires Clear(a, ":,")
    ensures ParseSelector("[" + (a + (":" + more))) == ParseSlice(a, more)
  {
    AfterFirst(a, ':', more);
    assert ([':'] + more)[1..] == more;
    assert "[" + (a + ([':'] + more)) == "[" + (a + (":" + more));
  }

  lemma Assoc(a: string, b: string, c: string)
    ensures (a + b) + c == a + (b + c)
  {
  }

  lemma ShortSliceIsRead(a: string, b: string, start: int, end: Option<int>, rest: string)
    requires NumberOr(a, Some(0), Some(start)) && NumberOr(b, None, end)
    ensures ParseSlice(a, b + ("]" + rest)) == Ok((Slice(start, end, 1), rest))
  {
    assert ExtStr(b + ("]" + rest), ":]") == (b, "]" + rest) by {
      NumberOrHasNoStop(b, None, end, ":]");
      ReadTo(b, "]" + rest, ":]");
    }
    assert ("]" + rest)[0] == ']' && ("]" + rest)[1..] == rest;
    IntOrMeaning(a, Some(0));
    IntOrMeaning(b, None);
  }

  lemma LongSliceIsRead(a: string, b: string, c: string, start: int, end: Option<int>, step: int, rest: string)
    requires NumberOr(a, Some(0), Some(start)) && NumberOr(b, None, end) && NumberOr(c, Some(1), Some(step))
    ensures ParseSlice(a, b + (":" + (c + ("]" + rest)))) == Ok((Slice(start, end, step), rest))
  {
    var after := ":" + (c + ("]" + rest));
    assert ExtStr(b + after, ":]") == (b, after) by {
      NumberOrHasNoStop(b, None, end, ":]");
      ReadTo(b, after, ":]");
    }
    assert after[0] == ':' && after[1..] == c + ("]" + rest);
    assert ExtStr(c + ("]" + rest), "]") == (c, "]" + rest) by {
      NumberOrHasNoStop(c, Some(1), Some(step), "]");
      ReadTo(c, "]" + rest, "]");
    }
    assert ("]" + rest)[1..] == rest;
    IntOrMeaning(a, Some(0));
    IntOrMeaning(b, None);
    IntOrMeaning(c, Some(1));
  }

  lemma SliceIsRead(a: string, b: string, c: Option<string>, start: int, end: Option<int>, step: int, rest: string)
    requires NumberOr(a, Some(0), Some(start)) && NumberOr(b, None, end) && NumberOr(StepText(c), Some(1), Some(step))
    ensures ParseSlice(a, SliceEnd(b, c) + rest) == Ok((Slice(start, end, step), rest))
  {
    if c.None? {
      ShortSliceIsRead(a, b, start, end, rest);
      Assoc(b, "]", rest);
    } else {
      LongSliceIsRead(a, b, c.value, start, end, step, rest);
      Assoc(b, ":" + (c.value + "]"), rest);
      Regroup(":", c.value, "]", rest);
    }
  }

  lemma SliceSpelled(text: string, rule: Rule, rest: string)
    requires rule.Slice? && SelectorSpells(text, rule)
    ensures ParseSelector(text + rest) == Ok((rule, rest))
  {
    var a, b, c :| text == "[" + (a + (":" + SliceEnd(b, c)))
      && NumberOr(a, Some(0), Some(rule.start)) && NumberOr(b, None, rule.end)
      && NumberOr(StepText(c), Some(1), Some(rule.step));
    var more := SliceEnd(b, c) + rest;
    assert ParseSelector("[" + (a + (":" + more))) == Ok((rule, rest)) by {
      NumberOrHasNoStop(a, Some(0), Some(rule.start), ":,");
      SliceIsRead(a, b, c, rule.start, rule.end, rule.step, rest);
      SliceAfterStart(a, more);
    }
    Regroup("[", a, ":" + SliceEnd(b, c), rest);
    Assoc(":", SliceEnd(b, c), rest);
  }

  /** One further index: the parse of the tail depends on its text and on what follows. */
  lemma TailStep(text: string, more: string)
    requires Clear(text, ",]") && EndsOr(more, ",]")
    ensures ParseIndexTail("," + (text + more)) ==
              match ToInt(text)
              case None => Err(ValueError)
              case Some(n) => (match ParseIndexTail(more)
                               case Err(e) => Err(e)
                               case Ok((tail, after)) => Ok(([n] + tail, after)))
  {
    ReadTo(text, more, ",]");
    assert ("," + (text + more))[1..] == text + more;
  }

  lemma {:induction false} TailIsRead(texts: seq<string>, list: seq<int>, rest: string)
    requires AreNumbers(texts, list)
    ensures TailText(texts) != "" && TailText(texts)[0] in ",]"
    ensures ParseIndexTail(TailText(texts) + rest) == Ok((list, rest))
  {
    if texts == [] {
      assert ("]" + rest)[1..] == rest;
    } else {
      var more := TailText(texts[1..]) + rest;
      TailIsRead(texts[1..], list[1..], rest);
      NumberOrHasNoStop(texts[0], None, Some(list[0]), ",]");
      TailStep(texts[0], more);
      Regroup(",", texts[0], TailText(texts[1..]), rest);
      assert [list[0]] + list[1..] == list;
    }
  }

  lemma IndexesAreRead(first: string, n: int, texts: seq<string>, more: seq<int>, rest: string)
    requires ToInt(first) == Some(n) && texts != [] && AreNumbers(texts, more)
    ensures ParseSelector("[" + (first + (TailText(texts) + rest))) == Ok((Indexes(Sorted([n] + more)), rest))
  {
    TailIsRead(texts, more, rest);
    NumberOrHasNoStop(first, None, Some(n), ":,");
    var after := TailText(texts) + rest;
    assert after[0] == ',';
    assert after == [','] + after[1..];
    AfterFirst(first, ',', after[1..]);
  }

  lemma IndexesSpelled(text: string, rule: Rule, rest: string)
    requires rule.Indexes? && SelectorSpells(text, rule)
    ensures ParseSelector(text + rest) == Ok((rule, rest))
  {
    var first, n, texts, more :| text == "[" + (first + TailText(texts)) && ToInt(first) == Some(n)
      && texts != [] && AreNumbers(texts, more) && rule.list == Sorted([n] + more);
    IndexesAreRead(first, n, texts, more, rest);
    Regroup("[", first, TailText(texts), rest);
  }

  lemma KeySpelled(text: string, rule: Rule, rest: string)
    requires rule.Key? && SelectorSpells(text, rule) && MayFollow(rule, rest)
    ensures ParseSelector(text + rest) == Ok((rule, rest))
  {
    match rule.name
    case None =>
      assert (".*" + rest)[1..] == "*" + rest;
      assert ("*" + rest)[1..] == rest;
    case Some(name) => ParseKeyPrinted(name, rest);
  }

  /** A selector is read from any of its spellings, and nothing more is consumed. */
  lemma SelectorSpelled(text: string, rule: Rule, rest: string)
    requires SelectorSpells(text, rule) && MayFollow(rule, rest)
    ensures text != "" && ParseSelector(text + rest) == Ok((rule, rest))
  {
    match rule
    case Key(_) => KeySpelled(text, rule, rest);
    case Slice(_, _, _) => SliceSpelled(text, rule, rest);
    case Indexes(_) => IndexesSpelled(text, rule, rest);
  }

  // ---------- what was read is spelled ----------

  lemma ReadFrom(chars: string, stops: string) returns (taken: string, rest: string)
    ensures ExtStr(chars, stops) == (taken, rest)
    ensures chars == taken + rest && Clear(taken, stops) && EndsOr(rest, stops)
  {
    var r := ExtStr(chars, stops);
    taken, rest := r.0, r.1;
  }

  lemma FirstChar(s: string, c: char)
    requires s != "" && s[0] == c
    ensures s == [c] + s[1..]
  {
  }

  lemma {:induction false} TailSpelled(chars: string) returns (texts: seq<string>)
    requires ParseIndexTail(chars).Ok? && EndsOr(chars, ",]")
    ensures var (list, rest) := ParseIndexTail(chars).value;
            AreNumbers(texts, list) && chars == TailText(texts) + rest
    decreases |chars|
  {
    if chars[0] == ']' {
      texts := [];
      FirstChar(chars, ']');
    } else {
      var text, more := ReadFrom(chars[1..], ",]");
      var tail := TailSpelled(more);
      texts := [text] + tail;
      assert texts[1..] == tail;
      FirstChar(chars, ',');
      var rest := ParseIndexTail(more).value.1;
      Regroup(",", text, TailText(tail), rest);
    }
  }

  /** `text` spells the rule that is read, and `rest` is left. */
  ghost predicate Spelled(chars: string, rule: Rule, rest: string) {
    exists text :: text != "" && chars == text + rest && SelectorSpells(text, rule)
  }

  lemma SliceSpelledBy(a: string, more: string, rule: Rule, rest: string)
    requires ParseSlice(a, more) == Ok((rule, rest))
    ensures Spelled("[" + (a + (":" + more)), rule, rest)
  {
    IntOrMeaning(a, Some(0));
    var b, after := ReadFrom(more, ":]");
    IntOrMeaning(b, None);
    if after[0] == ']' {
      FirstChar(after, ']');
      SpelledWith(a, b, None, rule, rest);
    } else {
      var c, end := ReadFrom(after[1..], "]");
      IntOrMeaning(c, Some(1));
      FirstChar(after, ':');
      FirstChar(end, ']');
      assert after == SliceTail(Some(c)) + rest by { Regroup(":", c, "]", rest); }
      SpelledWith(a, b, Some(c), rule, rest);
    }
  }

  function SliceTail(c: Option<string>): string {
    if c.None? then "]" else ":" + (c.value + "]")
  }

  lemma SpelledWith(a: string, b: string, c: Option<string>, rule: Rule, rest: string)
    requires rule.Slice? && NumberOr(a, Some(0), Some(rule.start)) && NumberOr(b, None, rule.end)
    requires NumberOr(StepText(c), Some(1), Some(rule.step))
    ensures Spelled("[" + (a + (":" + (b + (SliceTail(c) + rest)))), rule, rest)
  {
    var text := "[" + (a + (":" + SliceEnd(b, c)));
    assert "[" + (a + (":" + (b + (SliceTail(c) + rest)))) == text + rest by { ShapedSlice(a, b, c, rest); }
    assert SelectorSpells(text, rule);
  }

  /** Where the text of a slice ends. */
  lemma ShapedSlice(a: string, b: string, c: Option<string>, rest: string)
    ensures var text := "[" + (a + (":" + SliceEnd(b, c)));
            "[" + (a + (":" + (b + (SliceTail(c) + rest)))) == text + rest
  {
    Regroup("[", a, ":" + SliceEnd(b, c), rest);
    Assoc(":", SliceEnd(b, c), rest);
    Assoc(b, SliceTail(c), rest);
  }

  lemma IndexesSpelledBy(first: string, chars: string, rule: Rule, rest: string)
    requires chars != "" && chars[0] == ',' && ToInt(first).Some? && ParseIndexTail(chars).Ok?
    requires rule == Indexes(Sorted([ToInt(first).value] + ParseIndexTail(chars).value.0))
    requires rest == ParseIndexTail(chars).value.1
    ensures Spelled("[" + (first + chars), rule, rest)
  {
    var texts := TailSpelled(chars);
    IndexesSpelledWith(first, ToInt(first).value, texts, ParseIndexTail(chars).value.0, chars, rest);
  }

  lemma IndexesSpelledWith(first: string, n: int, texts: seq<string>, more: seq<int>, chars: string, rest: string)
    requires ToInt(first) == Some(n) && AreNumbers(texts, more)
    requires chars == TailText(texts) + rest && chars[0] == ','
    ensures Spelled("[" + (first + chars), Indexes(Sorted([n] + more)), rest)
  {
    var text := "[" + (first + TailText(texts));
    assert text != "";
    assert "[" + (first + chars) == text + rest by { Regroup("[", first, TailText(texts), rest); }
    assert IndexesSpell(text, Sorted([n] + more));
  }

  lemma NameSpelledBy(chars: string, name: string, rest: string)
    requires chars == "." + (name + rest) && Clear(name, ".[") && EndsOr(rest, ".[")
    requires name + rest != "" && (name + rest)[0] != '*'
    ensures Spelled(chars, Key(Some(name)), rest) && MayFollow(Key(Some(name)), rest)
  {
    var text := "." + name;
    assert chars == text + rest by { Assoc(".", name, rest); }
    assert name != "" ==> name[0] == (name + rest)[0];
    assert SelectorSpells(text, Key(Some(name)));
    if name == "" { assert name + rest == rest; }
  }

  /** Whatever the parser reads as a selector spells its rule. */
  lemma SelectorIsSpelled(chars: string)
    requires chars != "" && ParseSelector(chars).Ok?
    ensures var (rule, rest) := ParseSelector(chars).value; Spelled(chars, rule, rest) && MayFollow(rule, rest)
  {
    var more := chars[1..];
    var (rule, rest) := ParseSelector(chars).value;
    if chars[0] == '.' {
      FirstChar(chars, '.');
      if more[0] == '*' {
        FirstChar(more, '*');
        assert chars == ".*" + rest;
        assert SelectorSpells(".*", rule);
      } else {
        var name, after := ReadFrom(more, ".[");
        NameSpelledBy(chars, name, after);
      }
    } else {
      FirstChar(chars, '[');
      var text, after := ReadFrom(more, ":,");
      if after[0] == ':' {
        FirstChar(after, ':');
        SliceSpelledBy(text, after[1..], rule, rest);
      } else {
        IndexesSpelledBy(text, after, rule, rest);
      }
    }
  }

  // ---------- the language ----------

  lemma {:induction false} ReadIsSpelled(text: string)
    requires ParseSelectors(text).Ok?
    ensures SelectorsSpell(text, ParseSelectors(text).value)
    decreases |text|
  {
    if text != "" {
      var (rule, rest) := ParseSelector(text).value;
      var rules := ParseSelectors(rest).value;
      SelectorIsSpelled(text);
      ReadIsSpelled(rest);
      assert ([rule] + rules)[0] == rule && ([rule] + rules)[1..] == rules;
      var piece :| piece != "" && text == piece + rest && SelectorSpells(piece, rule);
    }
  }

  lemma {:induction false} SpelledIsRead(text: string, rules: seq<Rule>)
    requires SelectorsSpell(text, rules)
    ensures ParseSelectors(text) == Ok(rules)
    decreases |rules|
  {
    if rules != [] {
      var piece, rest :| text == piece + rest && SelectorSpells(piece, rules[0])
        && MayFollow(rules[0], rest) && SelectorsSpell(rest, rules[1..]);
      SelectorSpelled(piece, rules[0], rest);
      SpelledIsRead(rest, rules[1..]);
      assert [rules[0]] + rules[1..] == rules;
    }
  }

  /** A text parses to a rule list exactly when it is `$` followed by spellings of the rules. */
  lemma ParseMeaning(text: string, rules: seq<Rule>)
    ensures Parse(text) == Ok(rules) <==>
              && text != "" && text[0] == '$' && rules != [] && rules[0] == Root
              && SelectorsSpell(text[1..], rules[1..])
  {
    if Parse(text) == Ok(rules) {
      ReadIsSpelled(text[1..]);
      assert rules[1..] == ParseSelectors(text[1..]).value;
    }
    if text != "" && rules != [] && rules[0] == Root && SelectorsSpell(text[1..], rules[1..]) {
      SpelledIsRead(text[1..], rules[1..]);
      assert rules == [Root] + rules[1..];
    }
  }

  // ---------- the exceptions ----------

  /** What is wrong with a slice after its first colon; `a` is its first number. */
  ghost predicate SliceFails(a: string, more: string, e: PyError) {
    if Malformed(a) then e == ValueError
    else exists b, after :: more == b + after && Clear(b, ":]") && EndsOr(after, ":]") && AfterEndFails(b, after, e)
  }

  ghost predicate AfterEndFails(b: string, after: string, e: PyError) {
    if Malformed(b) then e == ValueError
    else if after == "" then e == IndexError
    else after[0] == ':' &&
         exists c, end :: after[1..] == c + end && Clear(c, "]") && EndsOr(end, "]")
                          && if Malformed(c) then e == ValueError else end == "" && e == IndexError
  }

  /** What is wrong with the further indexes: one that is no number, or no bracket at the end. */
  ghost predicate TailFails(chars: string, e: PyError)
    decreases |chars|
  {
    if chars == "" then e == IndexError
    else chars[0] == ',' &&
         exists text, rest ::
           && chars[1..] == text + rest && Clear(text, ",]") && EndsOr(rest, ",]")
           && if ToInt(text).None? then e == ValueError else TailFails(rest, e)
  }

  /**
   * What is wrong with a selector: it starts with neither `.` nor `[`, it ends
   * too early, or a number in it is malformed.
   */
  ghost predicate SelectorFails(chars: string, e: PyError)
    requires chars != ""
  {
    if chars[0] == '.' then chars == "." && e == IndexError
    else if chars[0] == '[' then
      exists text, after ::
        && chars[1..] == text + after && Clear(text, ":,") && EndsOr(after, ":,")
        && if after == "" then e == IndexError
           else if after[0] == ':' then SliceFails(text, after[1..], e)
           else if ToInt(text).None? then e == ValueError
           else TailFails(after, e)
    else e == RuntimeError
  }

  lemma SliceFailsMeaning(a: string, more: string, e: PyError)
    ensures ParseSlice(a, more) == Err(e) <==> SliceFails(a, more, e)
  {
    IntOrMeaning(a, Some(0));
    if !Malformed(a) {
      var b, after := ReadFrom(more, ":]");
      IntOrMeaning(b, None);
      forall b', after' | more == b' + after' && Clear(b', ":]") && EndsOr(after', ":]")
        ensures b' == b && after' == after
      {
        ReadTo(b', after', ":]");
      }
      AfterEndMeaning(a, b, after, more, e);
    }
  }

  lemma AfterEndMeaning(a: string, b: string, after: string, more: string, e: PyError)
    requires !Malformed(a) && ExtStr(more, ":]") == (b, after)
    ensures ParseSlice(a, more) == Err(e) <==> AfterEndFails(b, after, e)
  {
    IntOrMeaning(a, Some(0));
    IntOrMeaning(b, None);
    if !Malformed(b) && after != "" && after[0] == ':' {
      var c, end := ReadFrom(after[1..], "]");
      IntOrMeaning(c, Some(1));
      forall c', end' | after[1..] == c' + end' && Clear(c', "]") && EndsOr(end', "]")
        ensures c' == c && end' == end
      {
        ReadTo(c', end', "]");
      }
    }
  }

  lemma {:induction false} TailFailsMeaning(chars: string, e: PyError)
    requires EndsOr(chars, ",]")
    ensures ParseIndexTail(chars) == Err(e) <==> TailFails(chars, e)
    decreases |chars|
  {
    if chars != "" && chars[0] == ',' {
      var text, rest := ReadFrom(chars[1..], ",]");
      forall text', rest' | chars[1..] == text' + rest' && Clear(text', ",]") && EndsOr(rest', ",]")
        ensures text' == text && rest' == rest
      {
        ReadTo(text', rest', ",]");
      }
      TailFailsMeaning(rest, e);
    }
  }

  /** A selector raises exactly where something is wrong with it, and the exception says what. */
  lemma SelectorFailsMeaning(chars: string, e: PyError)
    requires chars != ""
    ensures ParseSelector(chars) == Err(e) <==> SelectorFails(chars, e)
  {
    if chars[0] == '.' {
      FirstChar(chars, '.');
    } else if chars[0] == '[' {
      var text, after := ReadFrom(chars[1..], ":,");
      forall text', after' | chars[1..] == text' + after' && Clear(text', ":,") && EndsOr(after', ":,")
        ensures text' == text && after' == after
      {
        ReadTo(text', after', ":,");
      }
      if after != "" && after[0] == ':' {
        SliceFailsMeaning(text, after[1..], e);
      } else if after != "" {
        TailFailsMeaning(after, e);
      }
    }
  }

  /** Selectors are spelled up to one that fails. */
  ghost predicate SelectorsFail(text: string, e: PyError)
    decreases |text|
  {
    text != "" &&
    (SelectorFails(text, e)
     || exists piece, rule, rest ::
          && piece != "" && text == piece + rest && SelectorSpells(piece, rule) && MayFollow(rule, rest)
          && SelectorsFail(rest, e))
  }

  lemma {:induction false} SelectorsFailMeaning(text: string, e: PyError)
    ensures ParseSelectors(text) == Err(e) <==> SelectorsFail(text, e)
    decreases |text|
  {
    if text != "" {
      SelectorFailsMeaning(text, e);
      if ParseSelector(text).Ok? {
        var (rule, rest) := ParseSelector(text).value;
        SelectorIsSpelled(text);
        SelectorsFailMeaning(rest, e);
      }
      forall piece, rule, rest
        | piece != "" && text == piece + rest && SelectorSpells(piece, rule) && MayFollow(rule, rest)
        ensures ParseSelector(text) == Ok((rule, rest))
      {
        SelectorSpelled(piece, rule, rest);
      }
    }
  }

  /** Every text that is no path raises, and which exception it raises. */
  lemma ParseFails(text: string, e: PyError)
    ensures Parse(text) == Err(e) <==>
              if text == "" then e == IndexError
              else if text[0] != '$' then e == RuntimeError
              else SelectorsFail(text[1..], e)
  {
    if text != "" {
      SelectorsFailMeaning(text[1..], e);
    }
  }
}
