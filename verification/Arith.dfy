/** Small facts of integer arithmetic that the solver is given one at a time. */
module Arith {

  lemma MulAtLeast(m: int, d: int)
    requires m > 0 && d >= 1
    ensures m * d >= m
  {
  }

  lemma MulMono(m: int, a: int, b: int)
    requires m >= 0 && a <= b
    ensures m * a <= m * b
  {
  }

  lemma DivModDef(x: int, m: int)
    requires m > 0
    ensures x == m * (x / m) + x % m && 0 <= x % m < m
  {
  }

  lemma DivNonNeg(x: nat, m: nat)
    requires m > 0
    ensures x / m >= 0
  {
    DivModDef(x, m);
    if x / m < 0 { MulMono(m, x / m, -1); }
  }

  lemma QuotientUnique(m: int, q: int, r: int, q': int, r': int)
    requires m > 0 && m * q + r == m * q' + r' && 0 <= r < m && 0 <= r' < m
    ensures q == q' && r == r'
  {
    assert m * (q - q') == m * q - m * q' == r' - r;
    assert m * (q' - q) == r - r';
    if q > q' {
      MulAtLeast(m, q - q');
    } else if q < q' {
      MulAtLeast(m, q' - q);
    }
  }

  /** Division with remainder is unique. */
  lemma ModUnique(x: int, m: int, q: int, r: int)
    requires m > 0 && x == m * q + r && 0 <= r < m
    ensures x / m == q && x % m == r
  {
    DivModDef(x, m);
    QuotientUnique(m, q, r, x / m, x % m);
  }

  lemma ModOfMultiple(q: int, m: int)
    requires m > 0
    ensures (m * q) % m == 0
  {
    ModUnique(m * q, m, q, 0);
  }

  lemma ModSmall(x: int, m: int)
    requires 0 <= x < m
    ensures x % m == x && x / m == 0
  {
    ModUnique(x, m, 0, x);
  }

  lemma MulAssoc(a: int, b: int, c: int)
    ensures a * (b * c) == (a * b) * c
  {
  }

  lemma MulDist(a: int, b: int, c: int)
    ensures a * (b + c) == a * b + a * c
  {
  }

  lemma MulNeg(a: int, b: int)
    ensures a * -b == -(a * b)
  {
  }

  lemma MulDist3(p: int, a: int, b: int, c: int)
    ensures p * (a + b + c) == p * a + p * b + p * c
  {
    MulDist(p, a + b, c);
    MulDist(p, a, b);
  }

  /** p * (q * r) with the first two factors swapped. */
  lemma MulSwap(p: int, q: int, r: int)
    ensures p * (q * r) == (q * p) * r
  {
    MulAssoc(q, p, r);
    MulAssoc(p, q, r);
  }

  lemma DivBelow(b: nat, w: nat, n: nat)
    requires w > 0 && b < w * n
    ensures b / w < n
  {
    DivModDef(b, w);
    if b / w >= n { MulMono(w, n, b / w); }
  }

  lemma DivDiv(a: int, m: int, n: int)
    requires m > 0 && n > 0
    ensures m * n > 0
    ensures a / (m * n) == (a / m) / n
  {
    DivModDef(a, m);
    DivModDef(a / m, n);
    var q, r := a / m, a % m;
    var q', r' := q / n, q % n;
    MulMono(m, r', n - 1);
    MulMono(m, 0, r');
    MulDist(m, n, -1);
    MulDist(m, n * q', r');
    MulAssoc(m, n, q');
    MulAtLeast(m, n);
    ModUnique(a, m * n, q', m * r' + r);
  }
}
