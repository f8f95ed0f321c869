/** The lookup tables of src/boards/main/transform.hpp: the Hann window,
  * read with a bit mask that wraps any index into the table, and the
  * row-major table of DCT-II coefficients with its row dot product.
  *
  * Doubles and floats are modelled as exact reals; `gcem::sin`,
  * `gcem::cos` and `gcem::sqrt` are parameters of the tables.
  */
module Transform {
  import opened Arithmetic

  /** The value of `pi` both classes use. */
  const Pi: real := 3.14159265358979323846

  const TwoTo31: int := 0x8000_0000
  const TwoTo32: int := 0x1_0000_0000

  type Positive = n: int | n > 0 witness 1

  /** The range of a 32-bit `int`. */
  predicate IsInt32(n: int) {
    -TwoTo31 <= n < TwoTo31
  }

  // ---------------------------------------------------------------------
  // Powers of two and the bit mask
  // ---------------------------------------------------------------------

  /** `isPowerOf2(n)`: 1, 2, 4, 8, ... */
  predicate IsPowerOf2(n: int) {
    n == 1 || (n > 1 && n % 2 == 0 && IsPowerOf2(n / 2))
  }

  /** Bitwise `&` of two naturals, one binary digit at a time. */
  function BitAnd(a: nat, b: nat): nat {
    if a == 0 || b == 0 then 0
    else 2 * BitAnd(a / 2, b / 2) + (if a % 2 == 1 && b % 2 == 1 then 1 else 0)
  }

  /** The 32 bits of an `int`, read as an unsigned number (two's complement). */
  function Bits(n: int): (u: nat)
    requires IsInt32(n)
    ensures u < TwoTo32 && (u - n) % TwoTo32 == 0
  {
    if n < 0 then n + TwoTo32 else n
  }

  /** `n & (N - 1)` keeps the low bits of `x`: the remainder modulo `N`. */
  lemma {:induction false} LowBits(x: nat, N: int)
    requires IsPowerOf2(N)
    ensures BitAnd(x, N - 1) == x % N
  {
    if N > 1 && x != 0 {
      var M := N / 2;
      LowBits(x / 2, M);
      assert (N - 1) / 2 == M - 1 && (N - 1) % 2 == 1;
      assert BitAnd(x, N - 1) == 2 * ((x / 2) % M) + x % 2;
      HalvedRemainder(x, M);
    }
  }

  /** The remainder modulo 2M from the remainder of x / 2 modulo M and the
    * last binary digit of x. */
  lemma HalvedRemainder(x: int, M: int)
    requires M > 0
    ensures x % (2 * M) == 2 * ((x / 2) % M) + x % 2
  {
    var q, r := x / 2, x % 2;
    var a, b := q / M, q % M;
    assert q == M * a + b;
    assert x == (2 * M) * a + (2 * b + r);
    DivModUnique(x, 2 * M, a, 2 * b + r);
  }

  /** A power of two not above `P`, itself a power of two, divides `P`. */
  lemma {:induction false} PowerDivides(P: int, N: int)
    requires IsPowerOf2(N) && IsPowerOf2(P) && N <= P
    ensures P % N == 0 && P == N * (P / N)
  {
    if N > 1 {
      var M := N / 2;
      PowerDivides(P / 2, M);
      var c := (P / 2) / M;
      assert P == N * c;
      DivModUnique(P, N, c, 0);
    }
  }

  lemma {:induction false} ProductOfPowers(a: int, b: int)
    requires IsPowerOf2(a) && IsPowerOf2(b)
    ensures IsPowerOf2(a * b)
  {
    if b > 1 {
      ProductOfPowers(a, b / 2);
      assert a * b == 2 * (a * (b / 2));
    }
  }

  /** Adding a multiple of N does not change the remainder. */
  lemma ShiftByMultiple(n: int, c: int, N: int)
    requires 0 < N
    ensures (n + N * c) % N == n % N
  {
    DivModUnique(n + N * c, N, n / N + c, n % N);
  }

  /** `n & (N - 1)` on a 32-bit `int`: the mask taken on the two's
    * complement bits of `n`. */
  function Mask(n: int, N: int): int
    requires IsInt32(n) && 1 <= N <= TwoTo31
  {
    BitAnd(Bits(n), N - 1)
  }

  /** Masking with `N - 1` wraps every `int`, negative ones included, to its
    * Euclidean remainder modulo `N`. */
  lemma MaskIsRemainder(n: int, N: int)
    requires IsInt32(n) && IsPowerOf2(N) && N <= TwoTo31
    ensures Mask(n, N) == n % N
  {
    LowBits(Bits(n), N);
    if n < 0 {
      WordWraps(n, N);
    }
  }

  /** Adding 2^32 keeps the remainder modulo a power of two up to 2^31. */
  lemma WordWraps(n: int, N: int)
    requires IsPowerOf2(N) && N <= TwoTo31
    ensures (n + TwoTo32) % N == n % N
  {
    assert IsPowerOf2(0x1_0000);
    ProductOfPowers(0x1_0000, 0x1_0000);
    PowerDivides(TwoTo32, N);
    ShiftByMultiple(n, TwoTo32 / N, N);
  }

  // ---------------------------------------------------------------------
  // The Hann window
  // ---------------------------------------------------------------------

  /** Entry n of the window: sin²(π(n + ½)/N). */
  function HannEntry(sin: real -> real, N: int, n: int): real
    requires N != 0
  {
    var x := sin(Pi * (n as real + 0.5) / N as real);
    x * x
  }

  ghost predicate SineBounded(sin: real -> real) {
    forall x :: -1.0 <= sin(x) <= 1.0
  }

  /** sin(π - x) = sin(x). */
  ghost predicate SineReflects(sin: real -> real) {
    forall x :: sin(Pi - x) == sin(x)
  }

  /** With a sine in [-1, 1], every window entry lies in [0, 1]. */
  lemma HannEntryInUnitInterval(sin: real -> real, N: int, n: int)
    requires N != 0 && SineBounded(sin)
    ensures 0.0 <= HannEntry(sin, N, n) <= 1.0
  {
    var x := sin(Pi * (n as real + 0.5) / N as real);
    if x >= 0.0 {
      assert x * x <= x * 1.0;
    } else {
      assert x * x <= (-x) * 1.0;
    }
  }

  /** The window is symmetric: entry N - 1 - n equals entry n. */
  lemma HannIsSymmetric(sin: real -> real, N: int, n: int)
    requires N > 0 && SineReflects(sin)
    ensures HannEntry(sin, N, N - 1 - n) == HannEntry(sin, N, n)
  {
    var d, y := N as real, n as real + 0.5;
    assert (N - 1 - n) as real + 0.5 == d - y;
    assert Pi * (d - y) / d == Pi - Pi * y / d by {
      assert Pi * (d - y) == Pi * d - Pi * y;
      assert (Pi * d - Pi * y) / d == Pi * d / d - Pi * y / d;
      assert Pi * d / d == Pi;
    }
  }

  /** `HannWindow<N>`. */
  class HannWindow {
    const N: int
    const sin: real -> real
    var lut: array<real>

    ghost predicate Valid()
      reads this, lut
    {
      IsPowerOf2(N) && N <= TwoTo31 && lut.Length == N &&
      forall n :: 0 <= n < N ==> lut[n] == HannEntry(sin, N, n)
    }

    /** Fills the table with the window's N entries. */
    constructor (N: int, sin: real -> real)
      requires IsPowerOf2(N) && N <= TwoTo31
      ensures Valid() && this.N == N && this.sin == sin && fresh(lut)
    {
      this.N, this.sin := N, sin;
      var table := new real[N];
      for n := 0 to N
        invariant forall i :: 0 <= i < n ==> table[i] == HannEntry(sin, N, i)
      {
        var x := sin(Pi * (n as real + 0.5) / N as real);
        table[n] := x * x;
      }
      lut := table;
    }

    /** `operator[]`: any `int` index, wrapped into the table by the mask. */
    function Get(n: int): (v: real)
      reads this, lut
      requires Valid() && IsInt32(n)
      ensures v == lut[n % N] == HannEntry(sin, N, n % N)
    {
      MaskIsRemainder(n, N);
      lut[Mask(n, N)]
    }
  }

  /** Reading the window is periodic: indices N apart give the same entry. */
  lemma WindowIsPeriodic(w: HannWindow, n: int)
    requires w.Valid() && IsInt32(n) && IsInt32(n + w.N)
    ensures w.Get(n + w.N) == w.Get(n)
  {
    assert (n + w.N) % w.N == n % w.N by {
      ShiftByMultiple(n, 1, w.N);
    }
  }

  /** Every value read from the window lies in [0, 1]. */
  lemma WindowInUnitInterval(w: HannWindow, n: int)
    requires w.Valid() && IsInt32(n) && SineBounded(w.sin)
    ensures 0.0 <= w.Get(n) <= 1.0
  {
    HannEntryInUnitInterval(w.sin, w.N, n % w.N);
  }

  // ---------------------------------------------------------------------
  // The DCT table
  // ---------------------------------------------------------------------

  /** Coefficient (k, n) of the orthonormal DCT-II: cos(π/N (n + ½) k),
    * scaled by sqrt(2/N), and row 0 once more by sqrt(½). */
  function DctCoefficient(cos: real -> real, sqrt: real -> real, N: Positive, k: int, n: int): real
  {
    var x := cos(Pi / N as real * (n as real + 0.5) * k as real);
    var scaling := sqrt(2.0 / N as real) * (if k == 0 then sqrt(0.5) else 1.0);
    x * scaling
  }

  /** Row-major placement: (k, n) goes to k·N + n, which lies in the table
    * and gives back k and n by division. */
  lemma RowMajor(N: Positive, k: int, n: int)
    requires 0 <= k < N && 0 <= n < N
    ensures 0 <= k * N + n < N * N
    ensures (k * N + n) / N == k && (k * N + n) % N == n
  {
    assert k * N <= (N - 1) * N by {
      MulSign(N, N - 1 - k);
    }
    DivModUnique(k * N + n, N, k, n);
  }

  /** Row k ends inside the table. */
  lemma RowFits(N: Positive, k: int)
    requires 0 <= k < N
    ensures k * N + N <= N * N
  {
    MulSign(N, N - 1 - k);
  }

  /** Every index of the table is the place of exactly one coefficient,
    * (i / N, i % N): the constructor writes each entry once. */
  lemma EachIndexHasOnePlace(N: Positive, i: int, k: int, n: int)
    requires 0 <= i < N * N
    ensures 0 <= i / N < N && 0 <= i % N < N && (i / N) * N + i % N == i
    ensures 0 <= k < N && 0 <= n < N && k * N + n == i ==> k == i / N && n == i % N
  {
    DivMod(i, N);
    MulSign(N, i / N);
    if i / N >= N {
      MulMonotone(N, N, i / N);
    }
    if 0 <= k < N && 0 <= n < N && k * N + n == i {
      RowMajor(N, k, n);
    }
  }

  /** No two coefficients share a place: each index is written once. */
  lemma PlacesAreDistinct(N: Positive, k: int, n: int, k': int, n': int)
    requires 0 <= k < N && 0 <= n < N && 0 <= k' < N && 0 <= n' < N
    requires k * N + n == k' * N + n'
    ensures k == k' && n == n'
  {
    RowMajor(N, k, n);
    RowMajor(N, k', n');
  }

  /** Σ x[n]·row[n], summed from n = 0 upwards as the source does. */
  function Dot(x: seq<real>, row: seq<real>): real
    requires |x| == |row|
  {
    if x == [] then 0.0
    else Dot(x[..|x| - 1], row[..|row| - 1]) + x[|x| - 1] * row[|row| - 1]
  }

  /** Σ_{n < m} x[n]·w(n). */
  function WeightedSum(x: seq<real>, w: int -> real, m: nat): real
    requires m <= |x|
  {
    if m == 0 then 0.0 else WeightedSum(x, w, m - 1) + x[m - 1] * w(m - 1)
  }

  /** Coefficient k of the DCT of x: Σ_{n < |x|} x[n]·C(k, n). */
  function DctSum(cos: real -> real, sqrt: real -> real, N: Positive, x: seq<real>, k: int): real {
    WeightedSum(x, n => DctCoefficient(cos, sqrt, N, k, n), |x|)
  }

  /** `DiscreteCosineTransformTable<N>`. */
  class DctTable {
    const N: Positive
    const cos: real -> real
    const sqrt: real -> real
    var lut: array<real>

    ghost predicate Valid()
      reads this, lut
    {
      N * N < TwoTo31 && lut.Length == N * N &&
      forall i :: 0 <= i < N * N ==> lut[i] == DctCoefficient(cos, sqrt, N, i / N, i % N)
    }

    /** Fills the table row by row: coefficient (k, n) at index k·N + n. */
    constructor (N: Positive, cos: real -> real, sqrt: real -> real)
      requires N * N < TwoTo31
      ensures Valid() && this.N == N && this.cos == cos && this.sqrt == sqrt && fresh(lut)
    {
      this.N, this.cos, this.sqrt := N, cos, sqrt;
      var table := new real[N * N];
      ghost var rowStart := 0;
      for k := 0 to N
        invariant rowStart == k * N <= N * N
        invariant forall i :: 0 <= i < rowStart ==> table[i] == DctCoefficient(cos, sqrt, N, i / N, i % N)
      {
        RowFits(N, k);
        FillDctRow(table, N, k, cos, sqrt);
        rowStart := rowStart + N;
        assert rowStart == (k + 1) * N <= N * N;
      }
      lut := table;
    }

    /** `evaluate(x, k)`: the dot product of x with row k of the table,
      * which is coefficient k of the DCT of x. */
    method Evaluate(x: seq<real>, k: int) returns (result: real)
      requires Valid() && |x| == N && 0 <= k < N
      ensures k * N + N <= lut.Length && result == Dot(x, lut[k * N .. k * N + N])
      ensures result == DctSum(cos, sqrt, N, x, k)
    {
      RowFits(N, k);
      result := RowDot(lut, k * N, x);
      RowHoldsCoefficients(this, k);
      assert x[..N] == x;
      ghost var row := lut[k * N .. k * N + N];
      assert row[..N] == row;
      DotIsWeightedSum(x, row, n => DctCoefficient(cos, sqrt, N, k, n), N);
    }
  }

  /** The loop of `evaluate`: Σ x[n]·lut[rowStart + n], from n = 0 upwards. */
  method RowDot(lut: array<real>, rowStart: int, x: seq<real>) returns (result: real)
    requires 0 <= rowStart && rowStart + |x| <= lut.Length
    ensures result == Dot(x, lut[rowStart .. rowStart + |x|])
  {
    ghost var row := lut[rowStart .. rowStart + |x|];
    result := 0.0;
    for n := 0 to |x|
      invariant result == Dot(x[..n], row[..n])
    {
      assert x[..n + 1][..n] == x[..n] && row[..n + 1][..n] == row[..n];
      result := result + x[n] * lut[rowStart + n];
    }
    assert x[..|x|] == x && row[..|x|] == row;
  }

  /** Row k of a filled table holds the coefficients (k, 0), ..., (k, N - 1). */
  lemma RowHoldsCoefficients(t: DctTable, k: int)
    requires t.Valid() && 0 <= k < t.N
    ensures k * t.N + t.N <= t.lut.Length
    ensures forall n :: 0 <= n < t.N ==>
      t.lut[k * t.N .. k * t.N + t.N][n] == DctCoefficient(t.cos, t.sqrt, t.N, k, n)
  {
    RowFits(t.N, k);
    forall n | 0 <= n < t.N
      ensures t.lut[k * t.N .. k * t.N + t.N][n] == DctCoefficient(t.cos, t.sqrt, t.N, k, n)
    {
      RowMajor(t.N, k, n);
      assert t.lut[k * t.N .. k * t.N + t.N][n] == t.lut[k * t.N + n];
    }
  }

  /** A dot product with a row of weights is the weighted sum. */
  lemma {:induction false} DotIsWeightedSum(x: seq<real>, row: seq<real>, w: int -> real, m: nat)
    requires m <= |x| == |row|
    requires forall n :: 0 <= n < |row| ==> row[n] == w(n)
    ensures Dot(x[..m], row[..m]) == WeightedSum(x, w, m)
  {
    if m > 0 {
      DotIsWeightedSum(x, row, w, m - 1);
      assert x[..m][..m - 1] == x[..m - 1] && row[..m][..m - 1] == row[..m - 1];
    }
  }

  /** The inner loop of the constructor: row k, coefficient (k, n) at k·N + n. */
  method FillDctRow(table: array<real>, N: Positive, k: int, cos: real -> real, sqrt: real -> real)
    requires 0 <= k < N && k * N + N <= table.Length == N * N
    requires forall i :: 0 <= i < k * N ==> table[i] == DctCoefficient(cos, sqrt, N, i / N, i % N)
    modifies table
    ensures forall i :: 0 <= i < k * N + N ==> table[i] == DctCoefficient(cos, sqrt, N, i / N, i % N)
  {
    for n := 0 to N
      invariant forall i :: 0 <= i < k * N + n ==> table[i] == DctCoefficient(cos, sqrt, N, i / N, i % N)
    {
      RowMajor(N, k, n);
      var x := cos(Pi / N as real * (n as real + 0.5) * k as real);
      var scaling := sqrt(2.0 / N as real) * (if k == 0 then sqrt(0.5) else 1.0);
      ghost var c := DctCoefficient(cos, sqrt, N, k, n);
      assert x * scaling == c;
      table[k * N + n] := x * scaling;
      forall i | 0 <= i < k * N + n + 1
        ensures table[i] == DctCoefficient(cos, sqrt, N, i / N, i % N)
      {
        if i == k * N + n {
          assert i / N == k && i % N == n;
        }
      }
    }
  }

  /** Σ_{n < m} x[n]. */
  function Total(x: seq<real>, m: nat): real
    requires m <= |x|
  {
    if m == 0 then 0.0 else Total(x, m - 1) + x[m - 1]
  }

  /** Row 0 is flat, so coefficient 0 of the transform (what `evaluate`
    * returns for k = 0) is one constant, cos(0)·sqrt(2/N)·sqrt(½), times
    * the plain sum of the input. */
  lemma FirstRowIsFlat(cos: real -> real, sqrt: real -> real, N: Positive, x: seq<real>)
    ensures DctSum(cos, sqrt, N, x, 0) == cos(0.0) * (sqrt(2.0 / N as real) * sqrt(0.5)) * Total(x, |x|)
  {
    var c := cos(0.0) * (sqrt(2.0 / N as real) * sqrt(0.5));
    var w := n => DctCoefficient(cos, sqrt, N, 0, n);
    forall n ensures w(n) == c {
      assert Pi / N as real * (n as real + 0.5) * 0 as real == 0.0;
    }
    ConstantWeights(x, w, c, |x|);
  }

  lemma {:induction false} ConstantWeights(x: seq<real>, w: int -> real, c: real, m: nat)
    requires m <= |x| && forall n :: w(n) == c
    ensures WeightedSum(x, w, m) == c * Total(x, m)
  {
    if m > 0 {
      ConstantWeights(x, w, c, m - 1);
    }
  }
}
