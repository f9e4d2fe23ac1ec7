/**
 * Two-dimensional vector arithmetic over the reals: the value type behind
 * every position, velocity and acceleration of the simulation.
 *
 * Magnitudes and distances are kept squared, so that no square root is
 * needed; comparing squared quantities is how the rest of the model avoids
 * `Math.sqrt`.
 */
module Vector2D {

  datatype Vec = Vec(x: real, y: real)

  /** The zero vector, `{x: 0, y: 0}`. */
  const Zero: Vec := Vec(0.0, 0.0)

  /** `Math.abs` on reals. */
  function Abs(r: real): (a: real)
    ensures a >= 0.0 && (a == r || a == -r)
  {
    if r < 0.0 then -r else r
  }

  function Add2D(v1: Vec, v2: Vec): Vec {
    Vec(v1.x + v2.x, v1.y + v2.y)
  }

  function MultiplyScalar2D(v: Vec, k: real): Vec {
    Vec(v.x * k, v.y * k)
  }

  function DotProduct(v1: Vec, v2: Vec): real {
    v1.x * v2.x + v1.y * v2.y
  }

  /** The square of `getMagnitude(v)`. */
  function SquaredMagnitude(v: Vec): real {
    v.x * v.x + v.y * v.y
  }

  /** The square of the four-argument `euclideanDistance(x1, y1, x2, y2)`. */
  function SquaredDistance(x1: real, y1: real, x2: real, y2: real): real {
    (x1 - x2) * (x1 - x2) + (y1 - y2) * (y1 - y2)
  }

  /** The two-argument `euclideanDistance(p1, p2)`, which hands the
      coordinates on to the four-argument form. */
  function SquaredDistanceOf(p1: Vec, p2: Vec): real {
    SquaredDistance(p1.x, p1.y, p2.x, p2.y)
  }

  lemma Add2DCommutes(v1: Vec, v2: Vec)
    ensures Add2D(v1, v2) == Add2D(v2, v1)
  {
  }

  lemma Add2DAssociates(v1: Vec, v2: Vec, v3: Vec)
    ensures Add2D(Add2D(v1, v2), v3) == Add2D(v1, Add2D(v2, v3))
  {
  }

  lemma Add2DIdentity(v: Vec)
    ensures Add2D(v, Zero) == v && Add2D(Zero, v) == v
  {
  }

  lemma ScaleByOne(v: Vec)
    ensures MultiplyScalar2D(v, 1.0) == v
  {
  }

  lemma NegateTwice(v: Vec)
    ensures MultiplyScalar2D(MultiplyScalar2D(v, -1.0), -1.0) == v
  {
  }

  lemma DotProductSymmetric(v1: Vec, v2: Vec)
    ensures DotProduct(v1, v2) == DotProduct(v2, v1)
  {
  }

  lemma DotSelfIsSquaredMagnitude(v: Vec)
    ensures DotProduct(v, v) == SquaredMagnitude(v)
    ensures SquaredMagnitude(v) >= 0.0
  {
    SumOfSquares(v.x, v.y);
  }

  /** A sum of two squares is never negative, and is positive as soon as
      one of the two is non-zero. */
  lemma SumOfSquares(a: real, b: real)
    ensures a * a + b * b >= 0.0
    ensures a != 0.0 ==> a * a + b * b > 0.0
    ensures b != 0.0 ==> a * a + b * b > 0.0
  {
  }

  /** The vector pointing the other way. */
  function Negate(v: Vec): Vec {
    Vec(-v.x, -v.y)
  }

  /** Scaling by `-1` negates both components. */
  lemma ScaleByMinusOne(v: Vec)
    ensures MultiplyScalar2D(v, -1.0) == Negate(v)
  {
  }

  lemma NegationKeepsMagnitude(v: Vec)
    ensures SquaredMagnitude(MultiplyScalar2D(v, -1.0)) == SquaredMagnitude(v)
  {
  }

  lemma DistanceProperties(p1: Vec, p2: Vec)
    ensures SquaredDistanceOf(p1, p2) == SquaredDistanceOf(p2, p1)
    ensures SquaredDistanceOf(p1, p2) >= 0.0
    ensures SquaredDistanceOf(p1, p1) == 0.0
  {
    SumOfSquares(p1.x - p2.x, p1.y - p2.y);
  }

  /** The vector form of the distance is the magnitude of the difference
      of the two position vectors. */
  lemma DistanceIsMagnitudeOfDifference(p1: Vec, p2: Vec)
    ensures SquaredDistanceOf(p1, p2)
         == SquaredMagnitude(Add2D(p1, MultiplyScalar2D(p2, -1.0)))
  {
  }
}
