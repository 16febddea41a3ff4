/** Result types and sequence vocabulary shared by the models. */
module Common {

  datatype Option<+T> = None | Some(value: T)

  datatype Result<+T, +E> = Ok(value: T) | Err(error: E)

  /** The Python exceptions that the modelled code can raise. */
  datatype PyError = IndexError | ValueError | TypeError | ZeroDivisionError | KeyError | RuntimeError

  ghost predicate NoRepeats<T>(s: seq<T>) {
    forall i, j :: 0 <= i < j < |s| ==> s[i] != s[j]
  }

  function Elements<T(==)>(s: seq<T>): set<T> {
    set x | x in s
  }

  /** `if x in s: return` followed by `s.append(x)`. */
  function AddOnce<T(==)>(s: seq<T>, x: T): (r: seq<T>)
    ensures Elements(r) == Elements(s) + {x}
    ensures NoRepeats(s) ==> NoRepeats(r)
  {
    if x in s then s else s + [x]
  }

  /** `[n for n in s if n != x]`. */
  function Without<T(==, !new)>(s: seq<T>, x: T): (r: seq<T>)
    ensures forall y :: y in r <==> y in s && y != x
    ensures NoRepeats(s) ==> NoRepeats(r)
    ensures x !in s ==> r == s
  {
    if s == [] then []
    else if s[0] == x then assert s == [s[0]] + s[1..]; Without(s[1..], x)
    else
      assert s == [s[0]] + s[1..];
      var rest := Without(s[1..], x);
      assert forall i :: 0 <= i < |rest| ==> rest[i] in rest;
      [s[0]] + rest
  }

  function CountOf<T(==)>(s: seq<T>, x: T): nat {
    if s == [] then 0 else (if s[0] == x then 1 else 0) + CountOf(s[1..], x)
  }

  lemma {:induction false} CountPlus<T>(a: seq<T>, b: seq<T>, x: T)
    ensures CountOf(a + b, x) == CountOf(a, x) + CountOf(b, x)
  {
    if a == [] {
      assert a + b == b;
    } else {
      CountPlus(a[1..], b, x);
      assert (a + b)[1..] == a[1..] + b;
    }
  }

  lemma CountAppend<T>(s: seq<T>, y: T, x: T)
    ensures CountOf(s + [y], x) == CountOf(s, x) + if y == x then 1 else 0
  {
    CountPlus(s, [y], x);
    assert [y][1..] == [];
  }

  lemma {:induction false} CountZero<T>(s: seq<T>, x: T)
    ensures CountOf(s, x) == 0 <==> x !in s
  {
    if s != [] {
      CountZero(s[1..], x);
      assert s == [s[0]] + s[1..];
    }
  }

  lemma {:induction false} CountAtMostOne<T>(s: seq<T>, x: T)
    requires NoRepeats(s)
    ensures CountOf(s, x) <= 1
  {
    if s != [] {
      CountAtMostOne(s[1..], x);
      CountZero(s[1..], x);
    }
  }
}
