/** The floating-point library routines the ray tracer calls but whose bodies
    are not part of this model (`sqrt`, `Normalize`, `Norm`, `pow`, `cos`,
    `sin`, `SolveQuadratic`, `Clamp`) and the constants of its global header
    (`kEpsilon`, `kInfinity`, `kPi`). They are bundled into one value that
    every operation needing them takes as a parameter; `Lawful` states the few
    laws the proofs rely on. */
module Numerics {
  import opened Vectors

  datatype Numerics = Numerics(
    sqrt: real -> real,
    normalize: Vec3 -> Vec3,
    norm: Vec3 -> real,
    pow: (real, real) -> real,
    cos: real -> real,
    sin: real -> real,
    /** `SolveQuadratic(a, b, c, x0, x1)`: whether real roots exist, and the two roots. */
    solveQuadratic: (real, real, real) -> (bool, real, real),
    /** `Clamp(lo, hi, v)`. */
    clamp: (real, real, real) -> real,
    epsilon: real,
    infinity: real,
    pi: real)
  {
    /** The laws the proofs use: the square root of a non-negative number is
        its non-negative square root; a length is never negative; clamping lands in the range and leaves a
        value already in the range alone; the tolerance is positive. */
    ghost predicate Lawful() {
      && (forall x :: x >= 0.0 ==> sqrt(x) >= 0.0 && sqrt(x) * sqrt(x) == x)
      && (forall v :: norm(v) >= 0.0)
      && (forall lo, hi, v :: lo <= hi ==> lo <= clamp(lo, hi, v) <= hi)
      && (forall lo, hi, v :: lo <= v <= hi ==> clamp(lo, hi, v) == v)
      && epsilon > 0.0
    }

    /** `SolveQuadratic` for a proper quadratic (`a != 0`): when it reports
        real roots, both out-parameters are roots and the first is the
        smaller. */
    ghost predicate SolvesQuadratics() {
      forall a, b, c :: a != 0.0 && solveQuadratic(a, b, c).0 ==>
        && IsRoot(a, b, c, solveQuadratic(a, b, c).1)
        && IsRoot(a, b, c, solveQuadratic(a, b, c).2)
        && solveQuadratic(a, b, c).1 <= solveQuadratic(a, b, c).2
    }

    /** `cos` and `sin` of one angle are the coordinates of a point of the
        unit circle. */
    ghost predicate OnUnitCircle() {
      forall x :: cos(x) * cos(x) + sin(x) * sin(x) == 1.0
    }
  }

  /** `x` solves `a x^2 + b x + c = 0`. */
  predicate IsRoot(a: real, b: real, c: real, x: real) {
    a * x * x + b * x + c == 0.0
  }

  /** A quotient where the divisor may be zero: where the C++ code would
      produce an IEEE infinity or NaN this model yields 0. */
  function Quot(a: real, b: real): (r: real)
    ensures b != 0.0 ==> r * b == a
    ensures b == 0.0 ==> r == 0.0
  {
    if b != 0.0 then a / b else 0.0
  }

  /** A quotient of a product scales the quotient of its second factor. */
  lemma QuotOfProduct(x: real, s: real, a: real, b: real)
    requires x == s * a
    ensures Quot(x, b) == s * Quot(a, b)
  {
  }

  function Abs(x: real): (r: real)
    ensures r >= 0.0 && (r == x || r == -x)
  {
    if x < 0.0 then -x else x
  }

  /** Consequences of the square-root law. */
  lemma SqrtFacts(num: Numerics, x: real)
    requires num.Lawful() && x >= 0.0
    ensures num.sqrt(x) >= 0.0 && num.sqrt(x) * num.sqrt(x) == x
    ensures x > 0.0 ==> num.sqrt(x) > 0.0
    ensures x <= 1.0 ==> num.sqrt(x) <= 1.0
    ensures x == 1.0 ==> num.sqrt(x) == 1.0
  {
    var s := num.sqrt(x);
    assert s >= 0.0 && s * s == x;
    if s > 1.0 {
      assert s * s > 1.0 * s;
    }
  }

  /** Multiplying by a non-zero number keeps or reverses an order. */
  lemma MulMono(a: real, b: real, d: real)
    ensures d > 0.0 ==> (a <= b <==> a * d <= b * d) && (a < b <==> a * d < b * d)
    ensures d < 0.0 ==> (a <= b <==> b * d <= a * d) && (a < b <==> b * d < a * d)
  {
    assert b * d - a * d == (b - a) * d;
  }

  /** A number in [-1, 1] has its square in [0, 1]; in (-1, 1), below 1. */
  lemma SquareInUnit(x: real)
    requires -1.0 <= x <= 1.0
    ensures 0.0 <= x * x <= 1.0
    ensures -1.0 < x < 1.0 ==> x * x < 1.0
  {
    if x >= 0.0 {
      MulMono(x, 1.0, x);
    } else {
      MulMono(-x, 1.0, -x);
    }
  }
}
