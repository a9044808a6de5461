/** Multiplication and division facts shared by the other modules. */
module Arithmetic {

  lemma MulMonotone(a: int, b: int, c: int)
    requires a <= b && 0 <= c
    ensures a * c <= b * c
  {
    assert (b - a) * c >= 0;
  }

  lemma MulSuccessor(n: int, c: int)
    ensures n * c == (n - 1) * c + c
  {
  }

  lemma QuotientBelow(length: int, c: int)
    requires 0 < c
    ensures length < (length / c + 1) * c
  {
    var q := length / c;
    assert length == q * c + length % c;
    assert (q + 1) * c == q * c + c;
  }

  lemma DivBound(n: nat, c: int, length: int)
    requires 0 < c && n * c <= length
    ensures n <= length / c
  {
    QuotientBelow(length, c);
    if length / c + 1 <= n {
      MulMonotone(length / c + 1, n, c);
    }
  }
}
