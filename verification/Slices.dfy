/**
 * From path text to values: `$[a:b:c]` streams the Python slice `xs[a:b:c]`
 * (section 2.3.4 of RFC 9535 for non-negative bounds and a positive step), and
 * `$[i,j,...]` streams the listed elements.
 */
module Slices {
  import opened Common
  import opened Arithmetic
  import opened PyInt
  import opened SubPath
  import opened JsonStreamer
  import opened TreeSelection

  /** The elements of `xs[i:stop:step]`. */
  function PySlice<T>(xs: seq<T>, i: nat, stop: int, step: int): seq<T>
    requires step >= 1
    decreases |xs| - i
  {
    if i < stop && i < |xs| then [xs[i]] + PySlice(xs, i + step, stop, step) else []
  }

  /** The elements at the indexes of a sorted list, skipping repetitions and indexes out of range. */
  function Picks<T>(xs: seq<T>, list: seq<int>): seq<T> {
    if list == [] then []
    else if list[0] < 0 || list[0] >= |xs| || (|list| > 1 && list[1] == list[0]) then Picks(xs, list[1..])
    else [xs[list[0]]] + Picks(xs, list[1..])
  }

  /** The array elements whose index a rule accepts, in array order. */
  function Accepted(rule: Rule, items: seq<Json>, first: nat): seq<Py> {
    if items == [] then []
    else (if Judge(At(first), rule) == Yes then [Build(items[0])] else []) + Accepted(rule, items[1..], first + 1)
  }

  // ---------- selection directly below an array ----------

  /** One child below the root: what a rule makes of it, and the children after it. */
  lemma SelectChild(rule: Rule, key: PathKey, j: Json, rest: seq<Node>)
    ensures Select([Root, rule], Nodes(j, [NoKey, key]) + rest) ==
              match Judge(key, rule)
              case Raises(e) => Selection([], Some(e))
              case No => Select([Root, rule], rest)
              case Yes => Then(Selection([Build(j)], None), Select([Root, rule], rest))
  {
    var path := [NoKey, key];
    SelectPlus([Root, rule], Nodes(j, path), rest);
    SelectAt([Root, rule], j, path);
    SelectOne([Root, rule], Node(path, j));
    assert path[1..] == [key] && [Root, rule][1..] == [rule];
    assert [key][1..] == [] && JudgeAll([], [rule][1..]) == Yes;
    assert JudgeAll([key], [rule]) == Judge(key, rule);
    var after := Select([Root, rule], rest);
    assert [] + after.out == after.out;
  }

  lemma {:induction false} SelectItems(rule: Rule, items: seq<Json>, first: nat)
    requires forall i :: first <= i < first + |items| ==> !Judge(At(i), rule).Raises?
    ensures Select([Root, rule], ItemNodes(items, [NoKey], first)) == Selection(Accepted(rule, items, first), None)
  {
    if items != [] {
      assert [NoKey] + [At(first)] == [NoKey, At(first)];
      SelectChild(rule, At(first), items[0], ItemNodes(items[1..], [NoKey], first + 1));
      SelectItems(rule, items[1..], first + 1);
    }
  }

  /** The rule raises on none of the first `n` array indexes. */
  ghost predicate Quiet(rule: Rule, n: nat) {
    forall i :: 0 <= i < n ==> !Judge(At(i), rule).Raises?
  }

  /** Below a composite root only its children can be selected by two rules. */
  lemma SelectedBelow(rule: Rule, j: Json)
    ensures Selected([Root, rule], j) == Select([Root, rule], Below(j, [NoKey]))
  {
    var root := [Node([NoKey], j)];
    SelectPlus([Root, rule], Below(j, [NoKey]), root);
    SelectSkips([Root, rule], root);
    var out := Select([Root, rule], Below(j, [NoKey])).out;
    assert out + [] == out;
  }

  /** Streaming `$<rule>` over an array, when the rule raises on none of its indexes. */
  lemma StreamArray(rule: Rule, items: seq<Json>)
    requires Quiet(rule, |items|)
    ensures Run([Root, rule], START, Document(Arr(items))) == Live([NoKey], [], 0, Accepted(rule, items, 0))
  {
    StreamingRefinesSelection([Root, rule], Arr(items));
    SelectedBelow(rule, Arr(items));
    SelectItems(rule, items, 0);
  }

  // ---------- slices ----------

  /** Between two indexes of a slice no index belongs to it. */
  lemma GapIsRejected(a: nat, end: Option<int>, c: int, i: nat, q: nat)
    requires c >= 1 && i < a + Times(q, c) && (q == 0 || a + Times(q, c) < i + c)
    ensures Judge(At(i), Slice(a, end, c)) == No
  {
    if a <= i {
      TimesIsProduct(q - 1, c);
      DivisionIsUnique(i - a, q - 1, i - a - Times(q - 1, c), c);
    }
  }

  /** An index of a slice is accepted unless it is at or past the end. */
  lemma HitIsJudged(a: nat, end: Option<int>, c: int, q: nat, i: int)
    requires c >= 1 && i == a + Times(q, c) && i >= a
    ensures (Judge(At(i), Slice(a, end, c)) == Yes) <==> (end.Some? ==> i < end.value)
  {
    TimesIsProduct(q, c);
    DivisionIsUnique(i - a, q, 0, c);
  }

  lemma AcceptedStep(rule: Rule, items: seq<Json>, first: nat)
    requires first < |items|
    ensures Accepted(rule, items[first..], first)
         == (if Judge(At(first), rule) == Yes then [Build(items[first])] else [])
            + Accepted(rule, items[first + 1..], first + 1)
  {
    assert items[first..][0] == items[first] && items[first..][1..] == items[first + 1..];
  }

  /** The elements from `i` on whose position a mask picks. */
  function Chosen(xs: seq<Py>, mask: seq<bool>, i: nat): seq<Py>
    requires |xs| == |mask|
    decreases |xs| - i
  {
    if i >= |xs| then [] else (if mask[i] then [xs[i]] else []) + Chosen(xs, mask, i + 1)
  }

  lemma {:induction false} AcceptedIsChosen(rule: Rule, items: seq<Json>, mask: seq<bool>, i: nat)
    requires |items| == |mask| && i <= |items|
    requires forall k :: 0 <= k < |items| ==> mask[k] == (Judge(At(k), rule) == Yes)
    ensures Accepted(rule, items[i..], i) == Chosen(BuildItems(items), mask, i)
    decreases |items| - i
  {
    if i < |items| {
      AcceptedStep(rule, items, i);
      AcceptedIsChosen(rule, items, mask, i + 1);
    } else {
      assert items[i..] == [];
    }
  }

  /** `next` is the q-th index of a slice with no end, the first that is not before `first`. */
  ghost predicate NextIndex(a: nat, c: int, first: nat, q: nat, next: nat) {
    next == a + Times(q, c) && a <= next && first <= next && (q == 0 || next < first + c)
  }

  /** The mask picks a position exactly when it is the next index and before the end. */
  ghost predicate SliceMask(mask: seq<bool>, a: nat, stop: int, c: int) {
    forall first: nat, q: nat, next: nat :: first < |mask| && NextIndex(a, c, first, q, next) ==>
      (mask[first] <==> first == next && next < stop)
  }

  lemma {:induction false} ChosenSlice(xs: seq<Py>, mask: seq<bool>, a: nat, stop: int, c: int,
                                       first: nat, q: nat, next: nat)
    requires |xs| == |mask| && c >= 1 && SliceMask(mask, a, stop, c)
    requires first <= |xs| && NextIndex(a, c, first, q, next)
    ensures Chosen(xs, mask, first) == PySlice(xs, next, stop, c)
    decreases |xs| - first
  {
    if first < |xs| {
      assert mask[first] <==> first == next && next < stop;
      if first < next {
        ChosenSlice(xs, mask, a, stop, c, first + 1, q, next);
      } else {
        SliceStep(xs, next, stop, c);
        ChosenSlice(xs, mask, a, stop, c, first + 1, q + 1, next + c);
      }
    }
  }

  lemma SliceStep(xs: seq<Py>, i: nat, stop: int, step: int)
    requires step >= 1 && i < |xs|
    ensures PySlice(xs, i, stop, step) == (if i >= stop then [] else [xs[i]]) + PySlice(xs, i + step, stop, step)
  {
  }

  /** The accepted items are the slice. */
  lemma AcceptedSlice(items: seq<Json>, a: nat, end: Option<int>, c: int)
    requires c >= 1
    ensures Accepted(Slice(a, end, c), items, 0)
         == PySlice(BuildItems(items), a, if end.Some? then end.value else |items|, c)
  {
    var rule, stop := Slice(a, end, c), if end.Some? then end.value else |items|;
    var mask := seq(|items|, i requires 0 <= i < |items| => Judge(At(i), rule) == Yes);
    forall first: nat, q: nat, next: nat | first < |mask| && NextIndex(a, c, first, q, next)
      ensures mask[first] <==> first == next && next < stop
    {
      if first < next {
        GapIsRejected(a, end, c, first, q);
      } else {
        HitIsJudged(a, end, c, q, next);
      }
    }
    assert items[0..] == items;
    AcceptedIsChosen(rule, items, mask, 0);
    ChosenSlice(BuildItems(items), mask, a, stop, c, 0, 0, a);
  }

  lemma ParseOneSelector(chars: string, rule: Rule)
    requires chars != "" && ParseSelector(chars) == Ok((rule, ""))
    ensures Parse("$" + chars) == Ok([Root, rule])
  {
    assert ("$" + chars)[1..] == chars;
    assert ParseSelectors("") == Ok([]);
    assert ParseSelectors(chars) == Ok([rule] + []);
    assert [Root] + ([rule] + []) == [Root, rule];
  }

  function OptText(n: Option<nat>): string {
    if n.Some? then IntText(n.value) else ""
  }

  /**
   * The slice paths of the grammar with natural numbers: each number may be left
   * out, and so may the second colon when there is no step.
   */
  function SlicePath(start: Option<nat>, end: Option<nat>, step: Option<nat>, short: bool): string {
    "$" + ("[" + (OptText(start) + (":" + SliceTail(end, step, short))))
  }

  function SliceTail(end: Option<nat>, step: Option<nat>, short: bool): string {
    OptText(end) + (if short && step.None? then "]" else ":" + (OptText(step) + "]"))
  }

  function Or(n: Option<nat>, default: nat): nat {
    if n.Some? then n.value else default
  }

  function Stop(end: Option<nat>): Option<int> {
    if end.Some? then Some(end.value) else None
  }

  lemma OptTextParts(n: Option<nat>, rest: string, stops: string)
    requires '-' !in stops && forall c :: IsDigit(c) ==> c !in stops
    requires rest != "" && rest[0] in stops
    ensures ExtStr(OptText(n) + rest, stops) == (OptText(n), rest)
    ensures OptText(n) == "" <==> n.None?
    ensures n.Some? ==> ToInt(OptText(n)) == Some(n.value)
  {
    if n.Some? {
      ExtStrNumber(n.value, rest, stops);
    } else {
      ExtStrStops("", rest, stops);
    }
  }

  lemma ParseSliceTail(startText: string, start: Option<nat>, end: Option<nat>, step: Option<nat>, short: bool)
    requires startText == OptText(start)
    ensures ParseSlice(startText, SliceTail(end, step, short)) == Ok((Slice(Or(start, 0), Stop(end), Or(step, 1)), ""))
  {
    OptTextParts(start, ":", ":");
    if short && step.None? {
      OptTextParts(end, "]", ":]");
    } else {
      var afterEnd := ":" + (OptText(step) + "]");
      OptTextParts(end, afterEnd, ":]");
      assert afterEnd[1..] == OptText(step) + "]";
      OptTextParts(step, "]", "]");
    }
  }

  /** Left-out numbers mean start 0, no end, and step 1. */
  lemma ParseSlicePath(start: Option<nat>, end: Option<nat>, step: Option<nat>, short: bool)
    ensures Parse(SlicePath(start, end, step, short)) == Ok([Root, Slice(Or(start, 0), Stop(end), Or(step, 1))])
  {
    var tail := SliceTail(end, step, short);
    var chars := "[" + (OptText(start) + (":" + tail));
    OptTextParts(start, ":" + tail, ":,");
    assert chars[1..] == OptText(start) + (":" + tail);
    assert (":" + tail)[1..] == tail;
    ParseSliceTail(OptText(start), start, end, step, short);
    ParseOneSelector(chars, Slice(Or(start, 0), Stop(end), Or(step, 1)));
  }

  lemma SliceIsQuiet(a: int, end: Option<int>, c: int, n: nat)
    requires c >= 1
    ensures Quiet(Slice(a, end, c), n)
  {
  }

  lemma StreamSlice(items: seq<Json>, a: nat, end: Option<int>, c: int)
    requires c >= 1
    ensures Run([Root, Slice(a, end, c)], START, Document(Arr(items)))
         == Live([NoKey], [], 0, PySlice(BuildItems(items), a, if end.Some? then end.value else |items|, c))
  {
    SliceIsQuiet(a, end, c, |items|);
    StreamArray(Slice(a, end, c), items);
    AcceptedSlice(items, a, end, c);
  }

  /** Slices mean slices, from the text of the path to the values. */
  lemma SliceMeansSlice(items: seq<Json>, start: Option<nat>, end: Option<nat>, step: Option<nat>, short: bool)
    requires Or(step, 1) >= 1
    ensures Parse(SlicePath(start, end, step, short)).Ok?
    ensures Run(Parse(SlicePath(start, end, step, short)).value, START, Document(Arr(items)))
         == Live([NoKey], [], 0, PySlice(BuildItems(items), Or(start, 0), Or(end, |items|), Or(step, 1)))
  {
    ParseSlicePath(start, end, step, short);
    StreamSlice(items, Or(start, 0), Stop(end), Or(step, 1));
  }

  // ---------- the two exceptions of a slice ----------

  lemma {:induction false} SelectZeroStep(a: int, end: Option<int>, items: seq<Json>, first: nat)
    ensures var reached := if first <= a then a else first;
            Select([Root, Slice(a, end, 0)], ItemNodes(items, [NoKey], first)) ==
              Selection([], if reached < first + |items| && (end.Some? ==> reached < end.value)
                            then Some(ZeroDivisionError) else None)
  {
    if items != [] {
      assert [NoKey] + [At(first)] == [NoKey, At(first)];
      SelectChild(Slice(a, end, 0), At(first), items[0], ItemNodes(items[1..], [NoKey], first + 1));
      SelectZeroStep(a, end, items[1..], first + 1);
    }
  }

  lemma RunRaises(rules: seq<Rule>, j: Json, e: PyError)
    requires Selected(rules, j) == Selection([], Some(e))
    ensures Run(rules, START, Document(j)) == Dead([], e)
  {
    StreamingRefinesSelection(rules, j);
    assert START.out + Selected(rules, j).out == [];
  }

  /** Step 0 raises exactly when the array has an index from start on and before the end. */
  lemma ZeroStepRaises(items: seq<Json>, a: int, end: Option<int>)
    ensures var first := if a < 0 then 0 else a;
            Run([Root, Slice(a, end, 0)], START, Document(Arr(items)))
            == if first < |items| && (end.Some? ==> first < end.value) then Dead([], ZeroDivisionError)
               else Live([NoKey], [], 0, [])
  {
    var rule, j := Slice(a, end, 0), Arr(items);
    var first := if a < 0 then 0 else a;
    SelectedBelow(rule, j);
    SelectZeroStep(a, end, items, 0);
    if first < |items| && (end.Some? ==> first < end.value) {
      RunRaises([Root, rule], j, ZeroDivisionError);
    } else {
      StreamingRefinesSelection([Root, rule], j);
    }
  }

  /** A slice of an object raises exactly when the object has a member. */
  lemma SliceOfObjectRaises(members: seq<Member>, start: int, end: Option<int>, step: int)
    ensures Run([Root, Slice(start, end, step)], START, Document(Obj(members)))
         == if members != [] then Dead([], TypeError) else Live([NoKey], [], 0, [])
  {
    var rule, j := Slice(start, end, step), Obj(members);
    SelectedBelow(rule, j);
    if members != [] {
      var key := Name(members[0].key);
      assert [NoKey] + [key] == [NoKey, key];
      SelectChild(rule, key, members[0].value, MemberNodes(members[1..], [NoKey]));
      RunRaises([Root, rule], j, TypeError);
    } else {
      StreamingRefinesSelection([Root, rule], j);
    }
  }

  // ---------- index lists ----------

  /** `rest` is the part of the listed indexes not yet passed when the array is at `first`. */
  ghost predicate Covers(list: seq<int>, first: nat, rest: seq<int>) {
    && IsSorted(rest)
    && (forall v :: v in rest ==> v in list && (v < 0 || first <= v))
    && (forall v :: v in list && first <= v ==> v in rest)
  }

  lemma CoversDrop(list: seq<int>, first: nat, rest: seq<int>)
    requires Covers(list, first, rest) && rest != []
    requires rest[0] < 0 || (|rest| > 1 && rest[1] == rest[0])
    ensures Covers(list, first, rest[1..])
  {
    assert rest == [rest[0]] + rest[1..];
    assert |rest| > 1 ==> rest[1..][0] == rest[1];
  }

  lemma FirstIsLeast(list: seq<int>)
    requires IsSorted(list) && list != []
    ensures forall v :: v in list ==> list[0] <= v
  {
  }

  lemma CoversNext(list: seq<int>, first: nat, rest: seq<int>)
    requires Covers(list, first, rest)
    requires rest != [] ==> rest[0] >= 0 && !(|rest| > 1 && rest[1] == rest[0])
    ensures first in list <==> rest != [] && rest[0] == first
    ensures Covers(list, first + 1, if rest != [] && rest[0] == first then rest[1..] else rest)
  {
    if rest != [] {
      assert rest[0] in rest;
      assert rest == [rest[0]] + rest[1..];
      FirstIsLeast(rest);
      assert forall v :: v in rest[1..] ==> rest[0] < v;
    }
  }

  lemma {:induction false} AcceptedIndexes(items: seq<Json>, list: seq<int>, first: nat, rest: seq<int>)
    requires first <= |items| && Covers(list, first, rest)
    ensures Accepted(Indexes(list), items[first..], first) == Picks(BuildItems(items), rest)
    decreases |items| - first + |rest|
  {
    assert rest != [] ==> rest[0] in rest;
    if rest != [] && (rest[0] < 0 || (|rest| > 1 && rest[1] == rest[0])) {
      CoversDrop(list, first, rest);
      AcceptedIndexes(items, list, first, rest[1..]);
    } else if rest != [] && rest[0] >= |items| {
      FirstIsLeast(rest);
      AcceptedNone(items, list, first, rest);
      PicksNone(BuildItems(items), rest);
    } else if first < |items| {
      assert items[first..][0] == items[first] && items[first..][1..] == items[first + 1..];
      CoversNext(list, first, rest);
      AcceptedIndexes(items, list, first + 1, if rest != [] && rest[0] == first then rest[1..] else rest);
    }
  }

  lemma {:induction false} AcceptedNone(items: seq<Json>, list: seq<int>, first: nat, rest: seq<int>)
    requires first <= |items|
    requires forall v :: v in rest ==> v >= |items|
    requires forall v :: v in list && first <= v ==> v in rest
    ensures Accepted(Indexes(list), items[first..], first) == []
    decreases |items| - first
  {
    if first < |items| {
      assert items[first..][1..] == items[first + 1..];
      AcceptedNone(items, list, first + 1, rest);
    }
  }

  lemma {:induction false} PicksNone(xs: seq<Py>, rest: seq<int>)
    requires forall v :: v in rest ==> v >= |xs|
    ensures Picks(xs, rest) == []
  {
    if rest != [] {
      assert forall v :: v in rest[1..] ==> v in rest;
      assert rest[0] in rest;
      PicksNone(xs, rest[1..]);
    }
  }

  /** Strictly ascending, hence without repetition. */
  ghost predicate Ascending(ix: seq<int>) {
    forall k, l :: 0 <= k < l < |ix| ==> ix[k] < ix[l]
  }

  /** `ix` lists exactly the indexes of `list` that are in range of `n` elements, ascending. */
  ghost predicate InRangeOf(ix: seq<int>, list: seq<int>, n: nat) {
    && Ascending(ix)
    && (forall k :: 0 <= k < |ix| ==> 0 <= ix[k] < n && ix[k] in list)
    && (forall v :: v in list && 0 <= v < n ==> v in ix)
  }

  ghost predicate ElementsAt<T>(xs: seq<T>, list: seq<int>, ix: seq<int>, out: seq<T>) {
    && InRangeOf(ix, list, |xs|)
    && |out| == |ix| && forall k :: 0 <= k < |ix| ==> out[k] == xs[ix[k]]
  }

  /** `out` holds the elements at the listed indexes in range, each once, in array order. */
  ghost predicate ListedOnceInOrder<T>(xs: seq<T>, list: seq<int>, out: seq<T>) {
    exists ix: seq<int> :: ElementsAt(xs, list, ix, out)
  }

  /** The indexes of the elements that `Picks` takes. */
  function PickIndexes(n: nat, list: seq<int>): seq<int> {
    if list == [] then []
    else if list[0] < 0 || list[0] >= n || (|list| > 1 && list[1] == list[0]) then PickIndexes(n, list[1..])
    else [list[0]] + PickIndexes(n, list[1..])
  }

  lemma InRangeOfCons(x: int, ix: seq<int>, list: seq<int>, n: nat)
    requires InRangeOf(ix, list, n) && 0 <= x < n && forall v :: v in list ==> x < v
    ensures InRangeOf([x] + ix, [x] + list, n)
  {
    assert forall v :: v in [x] + list <==> v == x || v in list;
    assert forall v :: v in [x] + ix <==> v == x || v in ix;
  }

  lemma InRangeOfSkip(x: int, ix: seq<int>, list: seq<int>, n: nat)
    requires InRangeOf(ix, list, n) && (x < 0 || x >= n || x in list)
    ensures InRangeOf(ix, [x] + list, n)
  {
    assert forall v :: v in [x] + list <==> v == x || v in list;
  }

  lemma {:induction false} PickIndexesInRange(n: nat, list: seq<int>)
    requires IsSorted(list)
    ensures InRangeOf(PickIndexes(n, list), list, n)
  {
    if list != [] {
      var x, rest := list[0], list[1..];
      PickIndexesInRange(n, rest);
      assert list == [x] + rest;
      if x < 0 || x >= n || (rest != [] && rest[0] == x) {
        assert rest != [] ==> rest[0] in rest;
        InRangeOfSkip(x, PickIndexes(n, rest), rest, n);
      } else {
        assert forall v :: v in rest ==> x < v;
        InRangeOfCons(x, PickIndexes(n, rest), rest, n);
      }
    }
  }

  lemma {:induction false} PicksAtIndexes<T>(xs: seq<T>, list: seq<int>)
    ensures |Picks(xs, list)| == |PickIndexes(|xs|, list)|
    ensures forall k :: 0 <= k < |Picks(xs, list)| ==>
              0 <= PickIndexes(|xs|, list)[k] < |xs| && Picks(xs, list)[k] == xs[PickIndexes(|xs|, list)[k]]
  {
    if list != [] {
      PicksAtIndexes(xs, list[1..]);
    }
  }

  /** What `Picks` takes, in terms of the list before sorting. */
  lemma PicksMeaning<T>(xs: seq<T>, list: seq<int>)
    ensures ListedOnceInOrder(xs, list, Picks(xs, Sorted(list)))
  {
    PickIndexesInRange(|xs|, Sorted(list));
    PicksAtIndexes(xs, Sorted(list));
    assert ElementsAt(xs, list, PickIndexes(|xs|, Sorted(list)), Picks(xs, Sorted(list)));
  }

  /** The description leaves no choice. */
  lemma ListedOnceUnique<T>(xs: seq<T>, list: seq<int>, out1: seq<T>, out2: seq<T>)
    requires ListedOnceInOrder(xs, list, out1) && ListedOnceInOrder(xs, list, out2)
    ensures out1 == out2
  {
    var ix1: seq<int> :| ElementsAt(xs, list, ix1, out1);
    var ix2: seq<int> :| ElementsAt(xs, list, ix2, out2);
    InRangeInclude(ix1, ix2, list, |xs|);
    InRangeInclude(ix2, ix1, list, |xs|);
    AscendingUnique(ix1, ix2);
  }

  lemma InRangeInclude(a: seq<int>, b: seq<int>, list: seq<int>, n: nat)
    requires InRangeOf(a, list, n) && InRangeOf(b, list, n)
    ensures forall v :: v in a ==> v in b
  {
  }

  lemma {:induction false} AscendingUnique(a: seq<int>, b: seq<int>)
    requires Ascending(a) && Ascending(b) && forall v :: v in a <==> v in b
    ensures a == b
    decreases |a|
  {
    assert a != [] ==> a[0] in a;
    assert a == [] ==> b == [] by {
      if b != [] { assert b[0] in b; }
    }
    if a != [] {
      assert b[0] in b;
      assert a == [a[0]] + a[1..] && b == [b[0]] + b[1..];
      assert a[0] == b[0];
      forall v ensures v in a[1..] <==> v in b[1..] {
        assert v in a <==> v == a[0] || v in a[1..];
        assert v in b <==> v == b[0] || v in b[1..];
        assert a[0] !in a[1..] && b[0] !in b[1..];
      }
      AscendingUnique(a[1..], b[1..]);
    }
  }

  /** The path `$[i,j,...]`, in the order the caller wrote it. */
  function IndexPath(list: seq<int>): string
    requires list != []
  {
    "$" + ("[" + (IntText(list[0]) + IndexesText(list[1..])))
  }

  lemma ParseIndexTailWhole(list: seq<int>)
    requires list != []
    ensures IndexesText(list) != "" && IndexesText(list)[0] == ','
    ensures ParseIndexTail(IndexesText(list)) == Ok((list, ""))
  {
    ParseIndexTailPrinted(list, "");
    assert IndexesText(list) + "" == IndexesText(list);
  }

  lemma ParseWrittenIndexes(n: int, rest: seq<int>)
    requires rest != []
    ensures ParseSelector("[" + (IntText(n) + IndexesText(rest))) == Ok((Indexes(Sorted([n] + rest)), ""))
  {
    ParseIndexTailWhole(rest);
    ParseIndexesFrom(n, rest, IndexesText(rest));
  }

  lemma ParseIndexesFrom(n: int, list: seq<int>, tail: string)
    requires tail != "" && tail[0] == ',' && ParseIndexTail(tail) == Ok((list, ""))
    ensures ParseSelector("[" + (IntText(n) + tail)) == Ok((Indexes(Sorted([n] + list)), ""))
  {
    ParseIndexesStep(n, tail);
  }

  lemma ParseIndexPath(list: seq<int>)
    requires |list| >= 2
    ensures Parse(IndexPath(list)) == Ok([Root, Indexes(Sorted(list))])
  {
    ParseWrittenIndexes(list[0], list[1..]);
    assert [list[0]] + list[1..] == list;
    ParseOneSelector("[" + (IntText(list[0]) + IndexesText(list[1..])), Indexes(Sorted(list)));
  }

  /**
   * An index list of two or more entries yields the elements at the listed
   * indexes in range, each once and in array order, whatever the order or
   * repetition in the path.
   */
  lemma IndexListMeansPicks(items: seq<Json>, list: seq<int>)
    requires |list| >= 2
    ensures Parse(IndexPath(list)).Ok?
    ensures var out := Picks(BuildItems(items), Sorted(list));
            && Run(Parse(IndexPath(list)).value, START, Document(Arr(items))) == Live([NoKey], [], 0, out)
            && ListedOnceInOrder(BuildItems(items), list, out)
  {
    ParseIndexPath(list);
    StreamArray(Indexes(Sorted(list)), items);
    assert items[0..] == items;
    AcceptedIndexes(items, Sorted(list), 0, Sorted(list));
    PicksMeaning(BuildItems(items), list);
  }

  /** A single index is not a path of this parser: reading on past `]` it runs out of characters. */
  lemma SingleIndexRaises(n: int)
    ensures Parse("$" + ("[" + (IntText(n) + "]"))) == Err(IndexError)
  {
    var body := IntText(n) + "]";
    assert forall c :: c in body ==> c !in ":,";
    NoColonRaises(body);
  }

  lemma NoColonRaises(body: string)
    requires forall c :: c in body ==> c !in ":,"
    ensures Parse("$" + ("[" + body)) == Err(IndexError)
  {
    assert ("[" + body)[1..] == body;
    assert ("$" + ("[" + body))[1..] == "[" + body;
    ExtStrStops(body, "", ":,");
    assert body + "" == body;
  }

  /** Every element of a slice is one of the array, at the stated index. */
  lemma {:induction false} PySliceAt<T>(xs: seq<T>, i: nat, stop: int, step: int, k: nat)
    requires step >= 1 && k < |PySlice(xs, i, stop, step)|
    ensures i + k * step < |xs| && i + k * step < stop
    ensures PySlice(xs, i, stop, step)[k] == xs[i + k * step]
    decreases k
  {
    if k > 0 {
      assert i + step + (k - 1) * step == i + k * step;
      PySliceAt(xs, i + step, stop, step, k - 1);
    }
  }

  /** ... and a slice ends only where the next index is out of range. */
  lemma {:induction false} PySliceEnds<T>(xs: seq<T>, i: nat, stop: int, step: int)
    requires step >= 1
    ensures var next := i + |PySlice(xs, i, stop, step)| * step; next >= |xs| || next >= stop
    decreases |xs| - i
  {
    if i < stop && i < |xs| {
      PySliceEnds(xs, i + step, stop, step);
      var n := |PySlice(xs, i + step, stop, step)|;
      assert i + step + n * step == i + (n + 1) * step;
    }
  }
}
