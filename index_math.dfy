/** Exact integer arithmetic behind the index formulas of the structural ECDF
    transforms: the truncating and ceiling size computations, NumPy's
    round-half-to-even, and the rounded `linspace(0, dim-1, num=n)` index row. */
module IndexMath {

  /** A configured factor (scale, window, sub-window size or slide ratio) as the
      exact fraction num/den. */
  datatype Ratio = Ratio(num: nat, den: nat)

  /** The factors the transforms are written for: 0 < num/den <= 1. */
  predicate InUnitInterval(r: Ratio) {
    0 < r.num <= r.den
  }

  predicate AllInUnitInterval(rs: seq<Ratio>) {
    forall r <- rs :: InUnitInterval(r)
  }

  /** interp1d needs at least two knots: every factor must keep two of the
      `dim` columns. */
  predicate AllKeepTwo(dim: nat, rs: seq<Ratio>)
    requires AllInUnitInterval(rs)
  {
    forall r <- rs :: FloorMul(dim, r) >= 2
  }

  // ---------------------------------------------------------------------------
  // Division helpers
  // ---------------------------------------------------------------------------

  lemma MulPositiveAtLeast(a: int, d: int)
    requires a >= 1 && d > 0
    ensures a * d >= d
  {
  }

  /** Quotient and remainder are determined by any decomposition x == q*d + m. */
  lemma DivUnique(x: int, d: int, q: int, m: int)
    requires d > 0 && x == q * d + m && 0 <= m < d
    ensures x / d == q && x % d == m
  {
    var q', m' := x / d, x % d;
    assert (q - q') * d == m' - m;
    if q > q' {
      MulPositiveAtLeast(q - q', d);
    } else if q' > q {
      MulPositiveAtLeast(q' - q, d);
    }
  }

  /** The quotient's multiple lies within one divisor below the dividend. */
  lemma DivBounds(a: nat, b: nat)
    requires b > 0
    ensures (a / b) * b <= a < (a / b) * b + b
  {
    assert a == (a / b) * b + a % b;
  }

  /** Ceiling of a/b for non-negative a and positive b. */
  function CeilDiv(a: nat, b: nat): (c: nat)
    requires b > 0
    ensures a <= c * b
    ensures a > 0 ==> (c - 1) * b < a && c >= 1
    ensures a == 0 ==> c == 0
  {
    var c := (a + b - 1) / b;
    assert (a + b - 1) == c * b + (a + b - 1) % b;
    c
  }

  /** `int(dim * r)`: Python's truncation, the floor for a non-negative product. */
  function FloorMul(dim: nat, r: Ratio): (n: nat)
    requires r.den > 0
    ensures n * r.den <= dim * r.num < (n + 1) * r.den
  {
    var n := (dim * r.num) / r.den;
    assert dim * r.num == n * r.den + (dim * r.num) % r.den;
    n
  }

  /** `int(np.ceil(dim * r))`. */
  function CeilMul(dim: nat, r: Ratio): (c: nat)
    requires r.den > 0
    ensures dim * r.num <= c * r.den
    ensures dim * r.num > 0 ==> (c - 1) * r.den < dim * r.num
    ensures dim * r.num == 0 ==> c == 0
  {
    CeilDiv(dim * r.num, r.den)
  }

  /** A factor in (0, 1] keeps at most `dim` samples, and exactly `dim` only
      when it is 1. */
  lemma {:induction false} FloorMulUnit(dim: nat, r: Ratio)
    requires InUnitInterval(r) && dim >= 1
    ensures FloorMul(dim, r) <= dim
    ensures FloorMul(dim, r) == dim <==> r.num == r.den
  {
    var n := FloorMul(dim, r);
    MulMonotone(r.num, r.den, dim);
    MulCancel(n, dim, r.den);
    if r.num == r.den {
      DivUnique(dim * r.num, r.den, dim, 0);
    }
    if n == dim {
      MulCancel(r.den, r.num, dim);
    }
  }

  lemma MulMonotone(a: int, b: int, c: nat)
    requires a <= b
    ensures c * a <= c * b && a * c <= b * c
  {
    assert c * (b - a) >= 0;
  }

  /** Row k of block i, in blocks of m rows: a row of the first n blocks. */
  lemma BlockIndex(i: nat, n: nat, k: nat, m: nat)
    requires i < n && k < m
    ensures 0 <= i * m + k < n * m
  {
    MulMonotone(i + 1, n, m);
  }

  lemma MulCancel(a: int, b: int, d: int)
    requires d > 0 && a * d <= b * d
    ensures a <= b
  {
  }

  lemma MulCancelStrict(a: int, b: int, d: int)
    requires d > 0 && a * d < b * d
    ensures a < b
  {
  }

  /** A factor in (0, 1] applied by ceiling to a positive length gives a
      length between 1 and that length. */
  lemma {:induction false} CeilMulUnit(dim: nat, r: Ratio)
    requires InUnitInterval(r) && dim >= 1
    ensures 1 <= CeilMul(dim, r) <= dim
  {
    var c := CeilMul(dim, r);
    MulPositiveAtLeast(dim, r.num);
    MulMonotone(r.num, r.den, dim);
    MulCancelStrict(c - 1, dim, r.den);
  }

  // ---------------------------------------------------------------------------
  // Round half to even (np.around)
  // ---------------------------------------------------------------------------

  /** `np.around(p / q)` for the non-negative rational p/q: the nearest integer,
      and at an exact tie the even one of the two neighbours. */
  function RoundHalfEven(p: nat, q: nat): (r: nat)
    requires q > 0
    ensures q * (2 * r) <= 2 * p + q && 2 * p <= q * (2 * r) + q
    ensures 2 * p == q * (2 * r) + q || 2 * p + q == q * (2 * r) ==> r % 2 == 0
  {
    var fl, rem := p / q, p % q;
    assert p == q * fl + rem;
    if 2 * rem < q then fl
    else if 2 * rem > q then fl + 1
    else if fl % 2 == 0 then fl
    else fl + 1
  }

  /** Rounding is monotone. */
  lemma RoundMonotone(p1: nat, p2: nat, q: nat)
    requires q > 0 && p1 <= p2
    ensures RoundHalfEven(p1, q) <= RoundHalfEven(p2, q)
  {
    var f1, f2 := p1 / q, p2 / q;
    assert p1 == q * f1 + p1 % q && p2 == q * f2 + p2 % q;
    MulCancelStrict(f1, f2 + 1, q);
    if f1 == f2 {
      assert p1 % q <= p2 % q;
    }
  }

  /** Two points more than one unit apart round to different integers. */
  lemma RoundGap(p1: nat, p2: nat, q: nat)
    requires q > 0 && p1 + q < p2
    ensures RoundHalfEven(p1, q) < RoundHalfEven(p2, q)
  {
    var r1, r2 := RoundHalfEven(p1, q), RoundHalfEven(p2, q);
    MulCancelStrict(2 * r1, 2 * r2, q);
  }

  /** An exact multiple rounds to itself. */
  lemma RoundExact(m: nat, q: nat)
    requires q > 0
    ensures RoundHalfEven(m * q, q) == m
  {
    DivUnique(m * q, q, m, 0);
  }

  // ---------------------------------------------------------------------------
  // The rounded linspace index row
  // ---------------------------------------------------------------------------

  /** Every index lies in [0, dim). */
  predicate IndicesBelow(idx: seq<nat>, dim: nat) {
    forall k :: 0 <= k < |idx| ==> idx[k] < dim
  }

  predicate NonDecreasing(idx: seq<nat>) {
    forall k1, k2 :: 0 <= k1 <= k2 < |idx| ==> idx[k1] <= idx[k2]
  }

  predicate StrictlyIncreasing(idx: seq<nat>) {
    forall k1, k2 :: 0 <= k1 < k2 < |idx| ==> idx[k1] < idx[k2]
  }

  /** The k-th of n evenly spaced points over [0, dim-1], rounded: the
      integer within one half of k*(dim-1)/(n-1). */
  function SamplePoint(dim: nat, n: nat, k: nat): (p: nat)
    requires dim >= 1 && n >= 2
    ensures (n - 1) * (2 * p) <= 2 * (k * (dim - 1)) + (n - 1)
    ensures 2 * (k * (dim - 1)) <= (n - 1) * (2 * p) + (n - 1)
  {
    RoundHalfEven(k * (dim - 1), n - 1)
  }

  lemma SamplePointMonotone(dim: nat, n: nat, k1: nat, k2: nat)
    requires dim >= 1 && n >= 2 && k1 <= k2
    ensures SamplePoint(dim, n, k1) <= SamplePoint(dim, n, k2)
  {
    MulMonotone(k1, k2, dim - 1);
    RoundMonotone(k1 * (dim - 1), k2 * (dim - 1), n - 1);
  }

  lemma SamplePointBelow(dim: nat, n: nat)
    requires dim >= 1 && n >= 2
    ensures forall k :: 0 <= k < n ==> SamplePoint(dim, n, k) < dim
  {
    forall k | 0 <= k < n
      ensures SamplePoint(dim, n, k) < dim
    {
      SamplePointMonotone(dim, n, k, n - 1);
      assert (n - 1) * (dim - 1) == (dim - 1) * (n - 1);
      RoundExact(dim - 1, n - 1);
    }
  }

  /** `np.int32(np.around(np.linspace(0, dim-1, num=n)))`, with exact
      arithmetic: n evenly spaced points over [0, dim-1], rounded half to even.
      `linspace` with one point gives [0] and with none gives []. */
  function SampleIndices(dim: nat, n: nat): (idx: seq<nat>)
    requires dim >= 1
    ensures |idx| == n && IndicesBelow(idx, dim)
  {
    if n == 0 then []
    else if n == 1 then [0]
    else
      SamplePointBelow(dim, n);
      seq(n, k requires 0 <= k < n => SamplePoint(dim, n, k))
  }

  /** The index row is sorted; from two points on it starts at 0 and ends at
      dim-1. */
  lemma {:induction false} SampleIndicesShape(dim: nat, n: nat)
    requires dim >= 1
    ensures NonDecreasing(SampleIndices(dim, n))
    ensures n >= 2 ==> SampleIndices(dim, n)[0] == 0 && SampleIndices(dim, n)[n - 1] == dim - 1
  {
    var idx := SampleIndices(dim, n);
    if n >= 2 {
      forall k1, k2 | 0 <= k1 <= k2 < n
        ensures idx[k1] <= idx[k2]
      {
        SamplePointMonotone(dim, n, k1, k2);
      }
      RoundExact(0, n - 1);
      assert (n - 1) * (dim - 1) == (dim - 1) * (n - 1);
      RoundExact(dim - 1, n - 1);
    }
  }

  /** With no more points than columns, no two points round to the same column. */
  lemma {:induction false} SampleIndicesDistinct(dim: nat, n: nat)
    requires dim >= 1 && n <= dim
    ensures StrictlyIncreasing(SampleIndices(dim, n))
  {
    var idx := SampleIndices(dim, n);
    if n >= 2 {
      forall k1, k2 | 0 <= k1 < k2 < n
        ensures idx[k1] < idx[k2]
      {
        if n == dim {
          assert k1 * (dim - 1) == k1 * (n - 1);
          RoundExact(k1, n - 1);
          assert k2 * (dim - 1) == k2 * (n - 1);
          RoundExact(k2, n - 1);
        } else {
          assert (k1 + 1) * (dim - 1) == k1 * (dim - 1) + (dim - 1);
          RoundGap(k1 * (dim - 1), (k1 + 1) * (dim - 1), n - 1);
          SamplePointMonotone(dim, n, k1 + 1, k2);
        }
      }
    }
  }

  /** With as many points as columns, the index row is 0, 1, ..., dim-1. */
  lemma {:induction false} SampleIndicesFull(dim: nat)
    requires dim >= 1
    ensures forall k :: 0 <= k < dim ==> SampleIndices(dim, dim)[k] == k
  {
    if dim >= 2 {
      forall k | 0 <= k < dim
        ensures SampleIndices(dim, dim)[k] == k
      {
        RoundExact(k, dim - 1);
      }
    }
  }
}
