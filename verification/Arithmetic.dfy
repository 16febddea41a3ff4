/** Integer facts about products and division that several proofs use. */
module Arithmetic {

  /** The product `q * c` by repeated addition. */
  function Times(q: nat, c: int): int {
    if q == 0 then 0 else Times(q - 1, c) + c
  }

  lemma {:induction false} TimesIsProduct(q: nat, c: int)
    ensures Times(q, c) == q * c
  {
    if q > 0 {
      TimesIsProduct(q - 1, c);
      assert (q - 1) * c == q * c - c;
    }
  }

  lemma ProductBound(d: int, c: int)
    requires c > 0
    ensures d >= 1 ==> d * c >= c
    ensures d <= -1 ==> d * c <= -c
  {
  }

  /** A quotient and a remainder in range are the quotient and the remainder. */
  lemma DivisionIsUnique(x: int, q: int, r: int, c: int)
    requires c > 0 && 0 <= r < c && x == q * c + r
    ensures x / c == q && x % c == r
  {
    var d := x / c - q;
    assert x == (x / c) * c + x % c;
    assert d * c == r - x % c;
    ProductBound(d, c);
  }
}
