/** Facts about Euclidean division and remainder by a variable divisor,
  * which the solver does not find on its own. */
module Arithmetic {

  /** A non-zero multiple of a positive N is at least N in size. */
  lemma {:induction false} MulSign(N: int, d: int)
    requires N > 0
    ensures d > 0 ==> N * d >= N
    ensures d < 0 ==> N * d <= -N
    decreases if d < 0 then -d else d
  {
    if d > 1 {
      MulSign(N, d - 1);
    } else if d < -1 {
      MulSign(N, d + 1);
    }
  }

  /** Quotient and remainder are unique. */
  lemma DivModUnique(m: int, N: int, q: int, r: int)
    requires 0 <= r < N && m == N * q + r
    ensures m / N == q && m % N == r
  {
    MulSign(N, q - m / N);
  }

  /** The division identity, stated for a divisor the solver cannot see. */
  lemma DivMod(m: int, N: int)
    requires N > 0
    ensures m == N * (m / N) + m % N && 0 <= m % N < N
  {
  }

  /** Multiplying by at least 2 at least doubles. */
  lemma {:induction false} MulAtLeastTwice(N: int, d: int)
    requires N >= 2
    ensures d >= 0 ==> N * d >= 2 * d
    ensures d < 0 ==> N * d <= 2 * d
    decreases if d < 0 then -d else d
  {
    if d > 0 {
      MulAtLeastTwice(N, d - 1);
    } else if d < 0 {
      MulAtLeastTwice(N, d + 1);
    }
  }

  /** The quotient of a natural number by N >= 2: a natural number, smaller
    * than the dividend unless that is 0, and 0 exactly when the dividend is
    * below N, in which case the remainder is the dividend itself. */
  lemma QuotientBounds(m: int, N: int)
    requires m >= 0 && N >= 2
    ensures 0 <= m / N <= m && (m > 0 ==> m / N < m)
    ensures m / N == 0 <==> m < N
    ensures m < N ==> m % N == m
  {
    DivMod(m, N);
    MulAtLeastTwice(N, m / N);
    MulSign(N, m / N);
  }

  /** Multiplying by a non-negative c keeps the order. */
  lemma MulMonotone(c: int, a: int, b: int)
    requires c >= 0 && a <= b
    ensures c * a <= c * b
  {
    if c > 0 && a < b {
      MulSign(c, b - a);
    }
  }
}
