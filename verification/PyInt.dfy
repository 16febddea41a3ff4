/** Python's `int(text)` and `str(number)` for base ten. */
module PyInt {
  import opened Common

  predicate IsDigit(c: char) { '0' <= c <= '9' }

  function DigitValue(c: char): (d: nat)
    requires IsDigit(c)
    ensures d < 10
  {
    c as int - '0' as int
  }

  function DigitChar(d: nat): (c: char)
    requires d < 10
    ensures IsDigit(c) && DigitValue(c) == d
  {
    (d + '0' as int) as char
  }

  /** The characters `str.strip` removes. */
  predicate IsSpace(c: char) {
    || '\t' <= c <= '\r'
    || '\U{1c}' <= c <= ' '
    || c == '\U{85}' || c == '\U{a0}' || c == '\U{1680}'
    || '\U{2000}' <= c <= '\U{200a}'
    || c == '\U{2028}' || c == '\U{2029}' || c == '\U{202f}' || c == '\U{205f}' || c == '\U{3000}'
  }

  function StripLeft(s: string): string {
    if s != "" && IsSpace(s[0]) then StripLeft(s[1..]) else s
  }

  function StripRight(s: string): string {
    if s != "" && IsSpace(s[|s| - 1]) then StripRight(s[..|s| - 1]) else s
  }

  /** Digits, with single underscores allowed between two of them. */
  function ParseDigits(s: string): Option<nat> {
    if s == "" || !IsDigit(s[|s| - 1]) then None
    else if |s| == 1 then Some(DigitValue(s[0]))
    else
      var prefix := if s[|s| - 2] == '_' then s[..|s| - 2] else s[..|s| - 1];
      match ParseDigits(prefix)
      case None => None
      case Some(n) => Some(10 * n + DigitValue(s[|s| - 1]))
  }

  /** `int(s)`; `None` stands for `ValueError`. */
  function ToInt(s: string): Option<int> {
    var t := StripRight(StripLeft(s));
    if t == "" then None
    else
      var body := if t[0] == '-' || t[0] == '+' then t[1..] else t;
      match ParseDigits(body)
      case None => None
      case Some(n) => var value: int := n; Some(if t[0] == '-' then -value else value)
  }

  function NatText(n: nat): (s: string)
    ensures s != ""
    ensures forall c :: c in s ==> IsDigit(c)
  {
    if n < 10 then [DigitChar(n)] else NatText(n / 10) + [DigitChar(n % 10)]
  }

  /** `str(n)`. */
  function IntText(n: int): (s: string)
    ensures s != ""
    ensures forall c :: c in s ==> IsDigit(c) || c == '-'
  {
    if n < 0 then "-" + NatText(-n) else NatText(n)
  }

  lemma {:induction false} ParseNatText(n: nat)
    ensures ParseDigits(NatText(n)) == Some(n)
  {
    if n >= 10 {
      ParseNatText(n / 10);
      var s := NatText(n);
      assert s[..|s| - 1] == NatText(n / 10);
      assert s[|s| - 2] in NatText(n / 10);
    }
  }

  lemma StripNothing(s: string)
    requires s != ""
    requires !IsSpace(s[0]) && !IsSpace(s[|s| - 1])
    ensures StripRight(StripLeft(s)) == s
  {
  }

  lemma ToIntOfNat(n: nat)
    ensures ToInt(NatText(n)) == Some(n)
  {
    var s := NatText(n);
    assert s[0] in s && s[|s| - 1] in s;
    StripNothing(s);
    ParseNatText(n);
  }

  lemma ToIntOfMinus(s: string, n: nat)
    requires |s| >= 2 && s[0] == '-' && !IsSpace(s[|s| - 1]) && ParseDigits(s[1..]) == Some(n)
    ensures ToInt(s) == Some(0 - n)
  {
    StripNothing(s);
  }

  lemma ToIntOfNegative(n: nat)
    ensures ToInt("-" + NatText(n)) == Some(0 - n)
  {
    var body := NatText(n);
    var s := "-" + body;
    assert body[|body| - 1] in body && s[|s| - 1] == body[|body| - 1];
    assert s[1..] == body;
    ParseNatText(n);
    ToIntOfMinus(s, n);
  }

  /** Reading back a printed number gives the number. */
  lemma ToIntOfText(n: int)
    ensures ToInt(IntText(n)) == Some(n)
  {
    if n < 0 {
      ToIntOfNegative(-n);
    } else {
      ToIntOfNat(n);
    }
  }

  // ---------- which texts are numbers ----------

  /** Digits, and single underscores between two of them. */
  ghost predicate WellPlaced(s: string) {
    && s != "" && IsDigit(s[0]) && IsDigit(s[|s| - 1])
    && (forall i :: 0 <= i < |s| ==> IsDigit(s[i]) || s[i] == '_')
    && (forall i :: 0 <= i < |s| - 1 ==> s[i] != '_' || s[i + 1] != '_')
  }

  /** The decimal number read from left to right behind `acc`, passing over underscores. */
  function Decimal(acc: nat, s: string): nat
    decreases |s|
  {
    if s == "" then acc
    else Decimal(if IsDigit(s[0]) then 10 * acc + DigitValue(s[0]) else acc, s[1..])
  }

  lemma {:induction false} DecimalPlus(acc: nat, a: string, b: string)
    ensures Decimal(acc, a + b) == Decimal(Decimal(acc, a), b)
    decreases |a|
  {
    if a == "" {
      assert a + b == b;
    } else {
      assert (a + b)[0] == a[0] && (a + b)[1..] == a[1..] + b;
      DecimalPlus(if IsDigit(a[0]) then 10 * acc + DigitValue(a[0]) else acc, a[1..], b);
    }
  }

  /** One more digit behind the prefix, with an underscore before it or not. */
  lemma DecimalLast(prefix: string, s: string)
    requires s != "" && IsDigit(s[|s| - 1])
    requires prefix == s[..|s| - 1] || (|s| >= 2 && prefix == s[..|s| - 2] && s[|s| - 2] == '_')
    ensures Decimal(0, s) == 10 * Decimal(0, prefix) + DigitValue(s[|s| - 1])
  {
    var last := [s[|s| - 1]];
    DecimalOne(Decimal(0, prefix), s[|s| - 1]);
    if prefix == s[..|s| - 1] {
      assert s == prefix + last;
      DecimalPlus(0, prefix, last);
    } else {
      assert s == (prefix + ['_']) + last;
      DecimalPlus(0, prefix + ['_'], last);
      DecimalPlus(0, prefix, ['_']);
      DecimalOne(Decimal(0, prefix), '_');
    }
  }

  lemma DecimalOne(acc: nat, c: char)
    ensures Decimal(acc, [c]) == if IsDigit(c) then 10 * acc + DigitValue(c) else acc
  {
    assert [c][1..] == "";
  }

  /** The texts that `ParseDigits` accepts, and their value. */
  lemma {:induction false} ParseDigitsMeaning(s: string)
    ensures ParseDigits(s).Some? <==> WellPlaced(s)
    ensures WellPlaced(s) ==> ParseDigits(s) == Some(Decimal(0, s))
    decreases |s|
  {
    if s != "" && IsDigit(s[|s| - 1]) {
      if |s| == 1 {
        assert s[1..] == "";
      } else {
        var prefix := if s[|s| - 2] == '_' then s[..|s| - 2] else s[..|s| - 1];
        ParseDigitsMeaning(prefix);
        DecimalLast(prefix, s);
        PlacedLast(prefix, s);
      }
    }
  }

  lemma PlacedLast(prefix: string, s: string)
    requires |s| >= 2 && IsDigit(s[|s| - 1])
    requires prefix == if s[|s| - 2] == '_' then s[..|s| - 2] else s[..|s| - 1]
    ensures WellPlaced(s) <==> WellPlaced(prefix)
  {
    if WellPlaced(s) && s[|s| - 2] == '_' {
      assert |s| > 2 && s[|s| - 3] != '_';
    }
    if WellPlaced(prefix) {
      assert forall i :: 0 <= i < |prefix| ==> s[i] == prefix[i];
    }
  }

  ghost predicate Spaces(s: string) {
    forall i :: 0 <= i < |s| ==> IsSpace(s[i])
  }

  lemma {:induction false} StripLeftCuts(s: string) returns (before: string)
    ensures Spaces(before) && s == before + StripLeft(s)
    ensures StripLeft(s) != "" ==> !IsSpace(StripLeft(s)[0])
  {
    if s != "" && IsSpace(s[0]) {
      var rest := StripLeftCuts(s[1..]);
      before := [s[0]] + rest;
      assert s == [s[0]] + s[1..];
    } else {
      before := "";
    }
  }

  lemma {:induction false} StripRightCuts(s: string) returns (after: string)
    ensures Spaces(after) && s == StripRight(s) + after
    ensures StripRight(s) != "" ==> !IsSpace(StripRight(s)[|StripRight(s)| - 1])
  {
    if s != "" && IsSpace(s[|s| - 1]) {
      var rest := StripRightCuts(s[..|s| - 1]);
      after := rest + [s[|s| - 1]];
      assert s == s[..|s| - 1] + [s[|s| - 1]];
    } else {
      after := "";
    }
  }

  lemma {:induction false} StripLeftSkips(before: string, s: string)
    requires Spaces(before)
    ensures StripLeft(before + s) == StripLeft(s)
  {
    if before == "" {
      assert before + s == s;
    } else {
      assert (before + s)[0] == before[0] && (before + s)[1..] == before[1..] + s;
      StripLeftSkips(before[1..], s);
    }
  }

  lemma {:induction false} StripRightSkips(s: string, after: string)
    requires Spaces(after)
    ensures StripRight(s + after) == StripRight(s)
  {
    if after == "" {
      assert s + after == s;
    } else {
      var n := |after| - 1;
      assert (s + after)[|s + after| - 1] == after[n] && (s + after)[..|s + after| - 1] == s + after[..n];
      StripRightSkips(s, after[..n]);
    }
  }

  /** White space around a text without any at its ends is stripped. */
  lemma StripAround(before: string, s: string, after: string)
    requires Spaces(before) && Spaces(after) && s != "" && !IsSpace(s[0]) && !IsSpace(s[|s| - 1])
    ensures StripRight(StripLeft(before + (s + after))) == s
  {
    StripLeftSkips(before, s + after);
    assert (s + after)[0] == s[0];
    StripRightSkips(s, after);
  }

  /** The value of digits behind a sign, which may be empty. */
  function SignedValue(sign: string, body: string): int {
    if sign == "-" then 0 - Decimal(0, body) else Decimal(0, body)
  }

  /** A sign, if any, and digits; no white space. */
  ghost predicate Signed(s: string, sign: string, body: string) {
    (sign == "" || sign == "+" || sign == "-") && WellPlaced(body) && s == sign + body
  }

  /** The texts of numbers: white space, a sign, digits with single underscores between them, white space. */
  ghost predicate IsNumber(text: string, n: int) {
    exists before, s, after, sign, body ::
      Spaces(before) && Spaces(after) && text == before + (s + after)
      && Signed(s, sign, body) && n == SignedValue(sign, body)
  }

  /** The body that `ToInt` reads: what follows a sign. */
  function BodyOf(t: string): string
    requires t != ""
  {
    if t[0] == '-' || t[0] == '+' then t[1..] else t
  }

  function SignOf(t: string): string
    requires t != ""
  {
    if t[0] == '-' || t[0] == '+' then [t[0]] else ""
  }

  lemma SignAndBody(t: string)
    requires t != ""
    ensures t == SignOf(t) + BodyOf(t)
    ensures SignOf(t) == "" || SignOf(t) == "+" || SignOf(t) == "-"
    ensures SignOf(t) == "-" <==> t[0] == '-'
  {
    assert t == [t[0]] + t[1..];
    assert "-"[0] == '-';
  }

  lemma SignedParts(s: string, sign: string, body: string)
    requires Signed(s, sign, body)
    ensures |s| > 0 && body == BodyOf(s) && sign == SignOf(s)
    ensures !IsSpace(s[0]) && !IsSpace(s[|s| - 1])
  {
    assert s[|s| - 1] == body[|body| - 1];
    if sign == "" {
      assert s == body;
    } else {
      assert s[0] == sign[0] && s[1..] == body;
    }
  }

  lemma ToIntTrimmed(s: string, n: int)
    requires s != "" && !IsSpace(s[0]) && !IsSpace(s[|s| - 1])
    ensures ToInt(s) == Some(n) <==> WellPlaced(BodyOf(s)) && n == SignedValue(SignOf(s), BodyOf(s))
  {
    StripNothing(s);
    ParseDigitsMeaning(BodyOf(s));
    SignAndBody(s);
  }

  /** `int(text)` succeeds exactly on the texts of numbers, with their value. */
  lemma ToIntMeaning(text: string, n: int)
    ensures ToInt(text) == Some(n) <==> IsNumber(text, n)
  {
    if ToInt(text) == Some(n) {
      NumberIsTrimmed(text, n);
    }
    if IsNumber(text, n) {
      NumberIsRead(text, n);
    }
  }

  lemma NumberIsRead(text: string, n: int)
    requires IsNumber(text, n)
    ensures ToInt(text) == Some(n)
  {
    var before, s, after, sign, body :|
      Spaces(before) && Spaces(after) && text == before + (s + after)
      && Signed(s, sign, body) && n == SignedValue(sign, body);
    SignedParts(s, sign, body);
    ToIntTrimmed(s, n);
    ToIntAround(before, s, after);
  }

  /** White space around a number does not matter. */
  lemma ToIntAround(before: string, s: string, after: string)
    requires Spaces(before) && Spaces(after) && s != "" && !IsSpace(s[0]) && !IsSpace(s[|s| - 1])
    ensures ToInt(before + (s + after)) == ToInt(s)
  {
    StripAround(before, s, after);
    StripNothing(s);
    SameStripped(before + (s + after), s);
  }

  lemma SameStripped(a: string, b: string)
    requires StripRight(StripLeft(a)) == StripRight(StripLeft(b))
    ensures ToInt(a) == ToInt(b)
  {
  }

  lemma NumberIsTrimmed(text: string, n: int)
    requires ToInt(text) == Some(n)
    ensures IsNumber(text, n)
  {
    var left := StripLeft(text);
    var s := StripRight(left);
    var before := StripLeftCuts(text);
    var after := StripRightCuts(left);
    assert s[0] == left[0];
    StripNothing(s);
    ToIntTrimmed(s, n);
    SignAndBody(s);
    assert text == before + (s + after) && Signed(s, SignOf(s), BodyOf(s));
  }

  /** A number after a blank or a tab, as in `$[0, 2]`, is read as well. */
  lemma SpaceBeforeNumber(c: char, n: int)
    requires c == ' ' || c == '\t'
    ensures ToInt([c] + IntText(n)) == Some(n)
  {
    var s := IntText(n);
    assert s[0] in s && s[|s| - 1] in s;
    ToIntOfText(n);
    ToIntAround([c], s, "");
    assert [c] + (s + "") == [c] + s;
  }

  lemma NumberExample()
    ensures ToInt(" -1_0 ") == Some(-10)
  {
    var body := "1_0";
    assert Decimal(0, body) == 10 by {
      assert body[1..] == "_0" && "_0"[1..] == "0" && "0"[1..] == "";
    }
    assert Signed("-1_0", "-", body);
    assert Spaces(" ") && " -1_0 " == " " + ("-1_0" + " ");
    assert IsNumber(" -1_0 ", -10);
    ToIntMeaning(" -1_0 ", -10);
  }
}
