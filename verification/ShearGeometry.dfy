/** The eight-dimensional shear test and the admission filter, and the geometry of the
    distance they measure. */
module ShearGeometry {
  import opened Bits
  import opened Words
  import opened IntegerSqrt

  const MAX_SHEAR_BOUND_FIXED: int := 150000
  /** The largest squared distance whose integer square root is within the bound. */
  const MAX_DIST_SQ: int := 150001 * 150001 - 1
  const E8_DIM: nat := 8

  /** Eight coordinates. In C they are 64-bit; nothing below needs that bound. */
  type Vector = v: seq<int> | |v| == E8_DIM witness [0, 0, 0, 0, 0, 0, 0, 0]

  const STATUS_ADMITTED: int := 0
  const ERR_SEQUENCE_MISMATCH: int := -1
  const ERR_CAPABILITY_PERM_DENIED: int := -2
  const ERR_SHEAR_BOUND_BREACH: int := -3

  /** The exact difference in one coordinate. */
  function Delta(a: Vector, b: Vector, i: nat): int
    requires i < E8_DIM
  {
    b[i] - a[i]
  }

  /** Squared Euclidean distance over the first `n` coordinates, in unbounded integers. */
  function SumSq(a: Vector, b: Vector, n: nat): nat
    requires n <= E8_DIM
  {
    if n == 0 then 0 else SumSq(a, b, n - 1) + Sq(Delta(a, b, n - 1))
  }

  function Sq(x: int): nat {
    SquareNonNegative(x);
    x * x
  }

  lemma SquareNonNegative(x: int)
    ensures x * x >= 0
  {
  }

  function DistSq(a: Vector, b: Vector): nat {
    SumSq(a, b, E8_DIM)
  }

  /** All eight coordinates enter, each with the square of its difference. */
  lemma EightSquares(a: Vector, b: Vector)
    ensures DistSq(a, b) ==
            (b[0] - a[0]) * (b[0] - a[0]) + (b[1] - a[1]) * (b[1] - a[1]) +
            (b[2] - a[2]) * (b[2] - a[2]) + (b[3] - a[3]) * (b[3] - a[3]) +
            (b[4] - a[4]) * (b[4] - a[4]) + (b[5] - a[5]) * (b[5] - a[5]) +
            (b[6] - a[6]) * (b[6] - a[6]) + (b[7] - a[7]) * (b[7] - a[7])
  {
    assert SumSq(a, b, 1) == SumSq(a, b, 0) + Sq(Delta(a, b, 0));
    assert SumSq(a, b, 2) == SumSq(a, b, 1) + Sq(Delta(a, b, 1));
    assert SumSq(a, b, 3) == SumSq(a, b, 2) + Sq(Delta(a, b, 2));
    assert SumSq(a, b, 4) == SumSq(a, b, 3) + Sq(Delta(a, b, 3));
    assert SumSq(a, b, 5) == SumSq(a, b, 4) + Sq(Delta(a, b, 4));
    assert SumSq(a, b, 6) == SumSq(a, b, 5) + Sq(Delta(a, b, 5));
    assert SumSq(a, b, 7) == SumSq(a, b, 6) + Sq(Delta(a, b, 6));
    assert SumSq(a, b, 8) == SumSq(a, b, 7) + Sq(Delta(a, b, 7));
  }

  lemma {:induction false} ZeroTerms(a: Vector, b: Vector, n: nat, i: nat)
    requires i < n <= E8_DIM && SumSq(a, b, n) == 0
    ensures a[i] == b[i]
  {
    if i == n - 1 {
      ZeroSquare(b[i] - a[i]);
    } else {
      ZeroTerms(a, b, n - 1, i);
    }
  }

  lemma ZeroSquare(x: int)
    requires x * x == 0
    ensures x == 0
  {
  }

  /** Only equal vectors are at distance 0. */
  lemma DistanceZeroExactly(a: Vector, b: Vector)
    ensures DistSq(a, b) == 0 <==> a == b
  {
    if DistSq(a, b) == 0 {
      forall i | 0 <= i < E8_DIM
        ensures a[i] == b[i]
      {
        ZeroTerms(a, b, E8_DIM, i);
      }
    }
    if a == b {
      EightSquares(a, b);
    }
  }

  /** A step x in any one coordinate is a squared distance of x * x. */
  lemma OneCoordinate(a: Vector, i: nat, x: int)
    requires i < 8
    ensures DistSq(a, a[i := a[i] + x]) == x * x
  {
    EightSquares(a, a[i := a[i] + x]);
  }

  // ---------------------------------------------------------------------
  // What the C code computes, with two's-complement wrap-around

  /** `metric` is the value `evaluate_shear_invariant` stores: the integer square root of the
      64-bit sum, and 0 when that sum is not positive. */
  ghost predicate IsMetric(metric: int, a: Vector, b: Vector) {
    var s := WrapI64(DistSq(a, b));
    metric == if s <= 0 then 0 else FloorSqrt(s)
  }

  predicate ShearAccepts(a: Vector, b: Vector) {
    WrapI64(DistSq(a, b)) <= MAX_DIST_SQ
  }

  /** Reduction commutes with adding a square: wrapping the difference, its square and the
      running sum at every step gives the reduction of the exact sum. */
  lemma WrapAccumulate(s: int, x: int)
    ensures WrapI64(WrapI64(s) + WrapI64(WrapI64(x) * WrapI64(x))) == WrapI64(s + Sq(x))
  {
    WrapI64Congruent(s);
    WrapI64Congruent(x);
    WrapI64Congruent(WrapI64(x) * WrapI64(x));
    var j :| WrapI64(s) == s + j * 0x1_0000_0000_0000_0000;
    var k :| WrapI64(x) == x + k * 0x1_0000_0000_0000_0000;
    var w := WrapI64(x);
    var l :| WrapI64(w * w) == w * w + l * 0x1_0000_0000_0000_0000;
    SquareShift(x, k);
    WrapI64Shift(s + Sq(x), j + (2 * x * k + k * k * 0x1_0000_0000_0000_0000) + l);
  }

  lemma SquareShift(x: int, k: int)
    ensures (x + k * 0x1_0000_0000_0000_0000) * (x + k * 0x1_0000_0000_0000_0000) ==
            x * x + (2 * x * k + k * k * 0x1_0000_0000_0000_0000) * 0x1_0000_0000_0000_0000
  {
  }

  /** The bound on the integer root is a bound on the number under the root. */
  lemma RootWithinBound(v: nat)
    ensures FloorSqrt(v) <= MAX_SHEAR_BOUND_FIXED <==> v <= MAX_DIST_SQ
  {
    FloorSqrtMeaning(v);
    var r := FloorSqrt(v);
    if r <= MAX_SHEAR_BOUND_FIXED {
      MulMonotone(r + 1, 150001);
    } else {
      MulMonotone(150001, r);
    }
  }

  /** `evaluate_shear_invariant` */
  method EvaluateShearInvariant(prior: Vector, candidate: Vector) returns (ok: bool, metric: i64)
    ensures IsMetric(metric, prior, candidate)
    ensures ok <==> metric <= MAX_SHEAR_BOUND_FIXED
    ensures ok <==> ShearAccepts(prior, candidate)
  {
    var sumSq: int := 0;
    var i := 0;
    while i < E8_DIM
      invariant 0 <= i <= E8_DIM
      invariant sumSq == WrapI64(SumSq(prior, candidate, i))
    {
      WrapAccumulate(SumSq(prior, candidate, i), Delta(prior, candidate, i));
      var delta: int := WrapI64(candidate[i] - prior[i]);
      sumSq := WrapI64(sumSq + WrapI64(delta * delta));
      i := i + 1;
    }
    metric := Isqrt64(sumSq);
    if sumSq > 0 {
      RootWithinBound(sumSq);
    }
    ok := metric <= MAX_SHEAR_BOUND_FIXED;
  }

  function AdmitCode(badge: u64, expectedSeq: u32, incomingSeq: u32, prior: Vector, candidate: Vector): int {
    if incomingSeq != expectedSeq then ERR_SEQUENCE_MISMATCH
    else if badge % 8 != 7 then ERR_CAPABILITY_PERM_DENIED
    else if !ShearAccepts(prior, candidate) then ERR_SHEAR_BOUND_BREACH
    else STATUS_ADMITTED
  }

  /** `strawman_admit_proposal` */
  method StrawmanAdmitProposal(badge: u64, expectedSeq: u32, incomingSeq: u32, prior: Vector, candidate: Vector)
    returns (code: int)
    ensures code == AdmitCode(badge, expectedSeq, incomingSeq, prior, candidate)
    ensures code == 0 <==> incomingSeq == expectedSeq && badge % 8 == 7 && ShearAccepts(prior, candidate)
    ensures code == -1 <==> incomingSeq != expectedSeq
    ensures code == -2 <==> incomingSeq == expectedSeq && badge % 8 != 7
    ensures code == -3 <==> incomingSeq == expectedSeq && badge % 8 == 7 && !ShearAccepts(prior, candidate)
  {
    if incomingSeq != expectedSeq {
      return ERR_SEQUENCE_MISMATCH;
    }
    assert And(badge, 7) == badge % 8 by {
      assert Pow2(3) == 8;
      AndLowMask(badge, 3);
    }
    if And(badge, 7) != 7 {
      return ERR_CAPABILITY_PERM_DENIED;
    }
    var ok, _ := EvaluateShearInvariant(prior, candidate);
    if !ok {
      return ERR_SHEAR_BOUND_BREACH;
    }
    return STATUS_ADMITTED;
  }

  /** For every pair of vectors: the test accepts those within the bound and, beyond it, just
      those whose exact squared distance no longer fits 63 bits and is negative or small once
      reduced to 64 bits. */
  lemma ShearAcceptsExactly(a: Vector, b: Vector)
    ensures ShearAccepts(a, b) <==>
            || DistSq(a, b) <= MAX_DIST_SQ
            || (DistSq(a, b) >= 0x8000_0000_0000_0000 &&
                (DistSq(a, b) % 0x1_0000_0000_0000_0000 >= 0x8000_0000_0000_0000 ||
                 DistSq(a, b) % 0x1_0000_0000_0000_0000 <= MAX_DIST_SQ))
  {
  }

  /** The metric is the integer distance for every pair whose sum of squares fits. */
  lemma MetricWithoutOverflow(metric: int, a: Vector, b: Vector)
    requires IsMetric(metric, a, b) && DistSq(a, b) < 0x8000_0000_0000_0000
    ensures IsFloorSqrt(metric, DistSq(a, b))
  {
    FloorSqrtMeaning(DistSq(a, b));
  }

  /** A coordinate that is off by 2^32 is accepted: its square reduces to 0. */
  lemma OverflowedVectorIsAccepted()
    ensures var origin: Vector := [0, 0, 0, 0, 0, 0, 0, 0];
            var far: Vector := [0x1_0000_0000, 0, 0, 0, 0, 0, 0, 0];
            DistSq(origin, far) == 0x1_0000_0000_0000_0000 && ShearAccepts(origin, far)
  {
    var origin: Vector := [0, 0, 0, 0, 0, 0, 0, 0];
    var far: Vector := [0x1_0000_0000, 0, 0, 0, 0, 0, 0, 0];
    assert SumSq(origin, far, 2) == SumSq(origin, far, 1) == 0x1_0000_0000_0000_0000;
    assert SumSq(origin, far, 4) == SumSq(origin, far, 3) == 0x1_0000_0000_0000_0000;
    assert SumSq(origin, far, 6) == SumSq(origin, far, 5) == 0x1_0000_0000_0000_0000;
    assert SumSq(origin, far, 8) == SumSq(origin, far, 7) == 0x1_0000_0000_0000_0000;
  }

  // ---------------------------------------------------------------------
  // Geometry

  /** Inner product of the steps a -> b and b -> c. */
  function Cross(a: Vector, b: Vector, c: Vector, n: nat): int
    requires n <= E8_DIM
  {
    if n == 0 then 0 else Cross(a, b, c, n - 1) + Delta(a, b, n - 1) * Delta(b, c, n - 1)
  }

  lemma {:induction false} LawOfCosines(a: Vector, b: Vector, c: Vector, n: nat)
    requires n <= E8_DIM
    ensures SumSq(a, c, n) == SumSq(a, b, n) + SumSq(b, c, n) + 2 * Cross(a, b, c, n)
  {
    if n != 0 {
      LawOfCosines(a, b, c, n - 1);
      var x, y := Delta(a, b, n - 1), Delta(b, c, n - 1);
      assert (x + y) * (x + y) == x * x + y * y + 2 * (x * y);
    }
  }

  lemma {:induction false} CauchySchwarz(a: Vector, b: Vector, c: Vector, n: nat)
    requires n <= E8_DIM
    ensures Sq(Cross(a, b, c, n)) <= SumSq(a, b, n) * SumSq(b, c, n)
  {
    if n != 0 {
      CauchySchwarz(a, b, c, n - 1);
      CauchySchwarzStep(SumSq(a, b, n - 1), SumSq(b, c, n - 1), Cross(a, b, c, n - 1),
                        Delta(a, b, n - 1), Delta(b, c, n - 1));
    }
  }

  lemma CauchySchwarzStep(p: nat, q: nat, s: int, x: int, y: int)
    requires Sq(s) <= p * q
    ensures Sq(s + x * y) <= (p + Sq(x)) * (q + Sq(y))
  {
    var u, v := s * (x * y), p * (y * y) + q * (x * x);
    assert 2 * u <= v by {
      TwiceProductBound(p * (y * y), q * (x * x), u) by {
        assert u * u == (s * s) * ((x * y) * (x * y));
        assert (p * (y * y)) * (q * (x * x)) == (p * q) * ((x * y) * (x * y));
        MulRight(s * s, p * q, (x * y) * (x * y));
        MulSign(p, y * y);
        MulSign(q, x * x);
      }
    }
    assert (s + x * y) * (s + x * y) == s * s + 2 * u + (x * y) * (x * y);
    assert (p + x * x) * (q + y * y) == p * q + v + (x * x) * (y * y);
    assert (x * x) * (y * y) == (x * y) * (x * y);
  }

  lemma MulRight(m: int, n: int, k: int)
    requires m <= n && k >= 0
    ensures m * k <= n * k
  {
  }

  lemma MulSign(m: int, n: int)
    requires m >= 0 && n >= 0
    ensures m * n >= 0
  {
  }

  /** u^2 <= m n gives 2u <= m + n. */
  lemma TwiceProductBound(m: int, n: int, u: int)
    requires m >= 0 && n >= 0 && u * u <= m * n
    ensures 2 * u <= m + n
  {
    assert (m + n) * (m + n) == 4 * (m * n) + (m - n) * (m - n);
    SquareNonNegative(m - n);
    assert (2 * u) * (2 * u) == 4 * (u * u);
    SquareLess(2 * u, m + n + 1) by {
      assert (m + n + 1) * (m + n + 1) == (m + n) * (m + n) + 2 * (m + n) + 1;
    }
  }

  lemma StrictProduct(p: nat, q: nat, s: int, t: int)
    requires s > 0 && t > 0 && p < s * s && q < t * t
    ensures p * q < (s * t) * (s * t)
  {
    assert (s * t) * (s * t) == (s * s) * (t * t);
    MulRight(p, s * s - 1, q);
    MulRight(q, t * t - 1, s * s);
    assert (s * s - 1) * q == (s * s) * q - q;
    assert (s * s) * (t * t - 1) == (s * s) * (t * t) - s * s;
  }

  /** Minkowski's inequality for strict integer bounds: steps shorter than s and t make a
      path shorter than s + t. */
  lemma Minkowski(a: Vector, b: Vector, c: Vector, s: int, t: int)
    requires s > 0 && t > 0
    requires DistSq(a, b) < s * s && DistSq(b, c) < t * t
    ensures DistSq(a, c) <= (s + t) * (s + t) - 4
  {
    var p, q, x := DistSq(a, b), DistSq(b, c), Cross(a, b, c, E8_DIM);
    LawOfCosines(a, b, c, E8_DIM);
    CauchySchwarz(a, b, c, E8_DIM);
    StrictProduct(p, q, s, t);
    MulSign(s, t);
    SquareLess(x, s * t);
    assert (s + t) * (s + t) == s * s + t * t + 2 * (s * t);
  }

  /** The metric obeys the triangle law up to one unit, whenever no sum overflows. */
  lemma QuasiTriangle(a: Vector, b: Vector, c: Vector, ab: int, bc: int, ac: int)
    requires IsMetric(ab, a, b) && IsMetric(bc, b, c) && IsMetric(ac, a, c)
    requires DistSq(a, b) < 0x8000_0000_0000_0000 && DistSq(b, c) < 0x8000_0000_0000_0000
            && DistSq(a, c) < 0x8000_0000_0000_0000
    ensures ac <= ab + bc + 1
  {
    MetricWithoutOverflow(ab, a, b);
    MetricWithoutOverflow(bc, b, c);
    MetricWithoutOverflow(ac, a, c);
    Minkowski(a, b, c, ab + 1, bc + 1);
    SquareLess(ac, ab + bc + 2);
  }

  function Constant3(x: int): Vector {
    [x, x, x, 0, 0, 0, 0, 0]
  }

  lemma Constant3DistSq(x: int, y: int)
    ensures DistSq(Constant3(x), Constant3(y)) == 3 * Sq(y - x)
  {
    var a, b := Constant3(x), Constant3(y);
    var s := Sq(y - x);
    assert SumSq(a, b, 1) == s && SumSq(a, b, 2) == 2 * s && SumSq(a, b, 3) == 3 * s;
    assert SumSq(a, b, 4) == 3 * s && SumSq(a, b, 5) == 3 * s;
    assert SumSq(a, b, 6) == 3 * s && SumSq(a, b, 7) == 3 * s;
  }

  lemma Constant3Metric(x: int, y: int, root: nat)
    requires 3 * Sq(y - x) < 100 && root * root <= 3 * Sq(y - x) <= root * root + 2 * root
    ensures IsMetric(root, Constant3(x), Constant3(y))
  {
    var v := 3 * Sq(y - x);
    Constant3DistSq(x, y);
    RootRemUnique(v, root, v - root * root);
  }

  /** The unit in the triangle law cannot be dropped: from anywhere on the diagonal, two steps
      of metric 1 make one of metric 3. */
  lemma QuasiTriangleIsTight(x: int)
    ensures IsMetric(1, Constant3(x), Constant3(x + 1))
    ensures IsMetric(1, Constant3(x + 1), Constant3(x + 2))
    ensures IsMetric(3, Constant3(x), Constant3(x + 2))
  {
    Constant3Metric(x, x + 1, 1);
    Constant3Metric(x + 1, x + 2, 1);
    Constant3Metric(x, x + 2, 3);
  }

  ghost predicate AcceptedChain(path: seq<Vector>) {
    forall i :: 0 <= i < |path| - 1 ==>
      ShearAccepts(path[i], path[i + 1]) && DistSq(path[i], path[i + 1]) < 0x8000_0000_0000_0000
  }

  /** A chain of k accepted steps ends less than k * 150001 away from where it began. */
  lemma {:induction false} ChainBound(path: seq<Vector>)
    requires |path| >= 2 && AcceptedChain(path)
    ensures var k := |path| - 1;
            DistSq(path[0], path[k]) < Sq(k * 150001)
  {
    var k := |path| - 1;
    ShearAcceptsExactly(path[k - 1], path[k]);
    if k >= 2 {
      ChainBound(path[..k]);
      Minkowski(path[0], path[k - 1], path[k], (k - 1) * 150001, 150001);
      assert (k - 1) * 150001 + 150001 == k * 150001;
    }
  }
}
