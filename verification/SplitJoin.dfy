/** Python's `s.split(c)` and `c.join(parts)` for one separator character. */
module SplitJoin {

  /** A first character put before the first part. */
  function Prepend(x: char, parts: seq<string>): (r: seq<string>)
    requires |parts| >= 1
    ensures |r| == |parts|
  {
    [[x] + parts[0]] + parts[1..]
  }

  function Split(s: string, c: char): (r: seq<string>)
    ensures |r| >= 1
  {
    if s == "" then [""]
    else if s[0] == c then [""] + Split(s[1..], c)
    else Prepend(s[0], Split(s[1..], c))
  }

  function Join(parts: seq<string>, c: char): string
    requires |parts| >= 1
  {
    if |parts| == 1 then parts[0] else parts[0] + ([c] + Join(parts[1..], c))
  }

  /** No part contains the separator, nor any character that the text does not contain. */
  lemma {:induction false} PartsWithin(s: string, c: char, x: char)
    requires x == c || x !in s
    ensures forall p :: p in Split(s, c) ==> x !in p
  {
    if s != "" {
      PartsWithin(s[1..], c, x);
      var rest := Split(s[1..], c);
      assert rest[0] in rest;
      assert forall p :: p in rest[1..] ==> p in rest;
    }
  }

  lemma LastPartIsClean(s: string, c: char)
    ensures c !in Split(s, c)[|Split(s, c)| - 1]
  {
    PartsWithin(s, c, c);
    assert Split(s, c)[|Split(s, c)| - 1] in Split(s, c);
  }

  lemma {:induction false} SplitClean(s: string, c: char)
    requires c !in s
    ensures Split(s, c) == [s]
  {
    if s != "" {
      SplitClean(s[1..], c);
      assert [s[0]] + s[1..] == s;
    }
  }

  /** Splitting at a separator splits both sides. */
  lemma {:induction false} SplitPlus(a: string, b: string, c: char)
    ensures Split(a + ([c] + b), c) == Split(a, c) + Split(b, c)
  {
    var s := a + ([c] + b);
    if a == "" {
      assert s == [c] + b && s[1..] == b;
    } else {
      assert s[1..] == a[1..] + ([c] + b);
      SplitPlus(a[1..], b, c);
      PrependPlus(a[0], Split(a[1..], c), Split(b, c));
      assert ([""] + Split(a[1..], c)) + Split(b, c) == [""] + (Split(a[1..], c) + Split(b, c));
    }
  }

  lemma PrependPlus(x: char, front: seq<string>, back: seq<string>)
    requires |front| >= 1
    ensures Prepend(x, front + back) == Prepend(x, front) + back
  {
    assert (front + back)[1..] == front[1..] + back;
  }

  lemma JoinPrepend(x: char, parts: seq<string>, c: char)
    requires |parts| >= 1
    ensures Join(Prepend(x, parts), c) == [x] + Join(parts, c)
  {
    var r := Prepend(x, parts);
    assert r[1..] == parts[1..];
    if |parts| > 1 {
      assert ([x] + parts[0]) + ([c] + Join(parts[1..], c)) == [x] + (parts[0] + ([c] + Join(parts[1..], c)));
    }
  }

  lemma {:induction false} JoinSplit(s: string, c: char)
    ensures Join(Split(s, c), c) == s
  {
    if s != "" {
      JoinSplit(s[1..], c);
      var rest := Split(s[1..], c);
      if s[0] == c {
        JoinEmptyFirst(rest, c);
      } else {
        JoinPrepend(s[0], rest, c);
      }
      assert [s[0]] + s[1..] == s;
    }
  }

  lemma JoinEmptyFirst(parts: seq<string>, c: char)
    requires |parts| >= 1
    ensures Join([""] + parts, c) == [c] + Join(parts, c)
  {
    assert ([""] + parts)[1..] == parts;
    assert "" + ([c] + Join(parts, c)) == [c] + Join(parts, c);
  }

  /** Splitting a join of clean parts gives the parts. */
  lemma {:induction false} SplitJoined(parts: seq<string>, c: char)
    requires |parts| >= 1 && forall p :: p in parts ==> c !in p
    ensures Split(Join(parts, c), c) == parts
  {
    assert parts[0] in parts;
    SplitClean(parts[0], c);
    if |parts| > 1 {
      assert forall p :: p in parts[1..] ==> p in parts;
      SplitJoined(parts[1..], c);
      SplitPlus(parts[0], Join(parts[1..], c), c);
    }
    assert parts == [parts[0]] + parts[1..];
  }

  /** A join of two or more parts contains the separator. */
  lemma JoinContains(parts: seq<string>, c: char)
    requires |parts| >= 2
    ensures c in Join(parts, c)
  {
    assert Join(parts, c)[|parts[0]|] == c;
  }

  /** The last part can be joined on by itself. */
  lemma {:induction false} JoinLast(parts: seq<string>, last: string, c: char)
    requires |parts| >= 1
    ensures Join(parts + [last], c) == Join(parts, c) + ([c] + last)
  {
    var all := parts + [last];
    if |parts| == 1 {
      assert all[1..] == [last];
    } else {
      assert all[1..] == parts[1..] + [last];
      JoinLast(parts[1..], last, c);
      assert parts[0] + ([c] + (Join(parts[1..], c) + ([c] + last)))
          == (parts[0] + ([c] + Join(parts[1..], c))) + ([c] + last);
    }
  }

  /** A join of several parts, split before its last one. */
  lemma JoinEnd(parts: seq<string>, front: seq<string>, last: string, c: char)
    requires |front| >= 1 && parts == front + [last]
    ensures Join(parts, c) == Join(front, c) + ([c] + last)
  {
    JoinLast(front, last, c);
  }

  /** A join of two or more parts, cut at its last separator. */
  lemma JoinCut(parts: seq<string>, c: char)
    requires |parts| >= 2
    ensures Join(parts, c) == Join(parts[..|parts| - 1], c) + ([c] + parts[|parts| - 1])
  {
    var front, last := parts[..|parts| - 1], parts[|parts| - 1];
    assert parts == front + [last];
    JoinEnd(parts, front, last, c);
  }

  /** A text with a separator has several parts. */
  lemma {:induction false} SplitSeveral(s: string, c: char)
    requires c in s
    ensures |Split(s, c)| >= 2
  {
    if s[0] != c {
      assert s == [s[0]] + s[1..];
      SplitSeveral(s[1..], c);
    }
  }

  /** A text with several parts, cut at its last separator. */
  lemma SplitCut(s: string, c: char)
    requires |Split(s, c)| >= 2
    ensures var parts := Split(s, c); s == Join(parts[..|parts| - 1], c) + ([c] + parts[|parts| - 1])
  {
    JoinSplit(s, c);
    JoinCut(Split(s, c), c);
  }
}
