/** Small facts about products and quotients. */
module Arith {

  lemma MulMono(a: int, b: int, c: int)
    requires a <= b && 0 <= c
    ensures a * c <= b * c
  {
    assert (b - a) * c >= 0;
  }

  lemma MulCancel(a: int, b: int, c: int)
    requires 0 < c && a * c < b * c
    ensures a < b
  {
    assert (b - a) * c > 0;
  }

  lemma MulPeel(n: int, c: int)
    ensures n * c == c + (n - 1) * c
  {}

  lemma QuotientBelow(j: int, c: int, w: int)
    requires 0 <= j && 1 <= c && j < w * c
    ensures 0 <= j / c < w && 0 <= j % c < c
  {
    assert (j / c) * c <= j;
    MulCancel(j / c, w, c);
  }

  lemma QuotientUnique(j: int, c: int, q: int, r: int)
    requires c >= 1 && j == q * c + r && 0 <= r < c
    ensures j / c == q && j % c == r
  {
    var p := j / c;
    assert p * c <= j < p * c + c;
    assert (p + 1) * c == p * c + c && (q + 1) * c == q * c + c;
    MulCancel(p, q + 1, c);
    MulCancel(q, p + 1, c);
  }

  lemma QuotientStep(j: int, c: int)
    requires 1 <= c <= j
    ensures (j - c) / c == j / c - 1 && (j - c) % c == j % c
  {
    var q, r := (j - c) / c, (j - c) % c;
    assert j == (q + 1) * c + r;
    QuotientUnique(j, c, q + 1, r);
  }
}
