/**
 * Where the `Nodiverse` constructor places its nodes. Node `k` of `n` is
 * put on the diagonal at `(pos, pos)`, with `pos` drawn uniformly from the
 * `k`-th of `n` equal slices; `offset` is the value of `Math.random()`,
 * in `[0, 1)`, that picks the point within the slice.
 *
 * As written, the slices divide the whole width, although a node of
 * radius 26 fits only where `pos <= Width - 52`; the last node of the
 * default fifteen therefore always starts outside the canvas.
 * `PlacementAsWritten` models that; `Placement` divides only the range a node
 * fits in, and is what the model's constructor uses.
 */
module Layout {
  import opened Vector2D
  import opened Wrappers
  import opened GameConfig
  import opened Forces
  import opened Boundary
  import Nodes

  /** The radius every node is created with. */
  const InitialRadius: real := 26.0

  /** The number of nodes when none is given. */
  const DefaultNodeCount: nat := 15

  /** `nIdx * step + Math.random() * step` with `step = width / nodeCount`. */
  function PlacementAsWritten(k: nat, n: nat, offset: real): real
    requires n > 0
  {
    var step := Width / n as real;
    k as real * step + offset * step
  }

  /** With the default fifteen nodes, the last one starts to the right of
      where the canvas ends for a node of its size, whatever the draw. */
  lemma LastNodeStartsOutside(offset: real)
    requires 0.0 <= offset < 1.0
    ensures var p := PlacementAsWritten(14, DefaultNodeCount, offset);
      p > Width - 2.0 * InitialRadius && !InBox(p, p, 2.0 * InitialRadius)
  {
  }

  /** On the first tick that node rests, so its boost gives it a velocity
      of whole numbers; for the draw θ = π/2 that velocity is `(0, 4)`. The
      node then moves down, stays beyond the right wall, and reaches
      `applyBoundaryImpluse` with no horizontal velocity: the slope
      `v.y / v.x` the impulse divides by is undefined. */
  lemma AsWrittenFirstTickDividesByZero(offset: real)
    requires 0.0 <= offset < 1.0
    ensures var p := PlacementAsWritten(14, DefaultNodeCount, offset);
      var acc := BoostAcc(DefaultBoost, Zero, Vec(0.0, 1.0));
      var v := Vec(Deadband(acc.x), Deadband(acc.y));
      v == Vec(0.0, 4.0) &&
      WallHit(Shifted(Motion(Vec(p, p), v), None, None).x,
              Shifted(Motion(Vec(p, p), v), None, None).y, 2.0 * InitialRadius) == Some(Right) &&
      !PerpendicularMoving(Shifted(Motion(Vec(p, p), v), None, None), v, 2.0 * InitialRadius)
  {
    var p := PlacementAsWritten(14, DefaultNodeCount, offset);
    var v := Vec(0.0, 4.0);
    assert (0.0 * 4.0).Floor == 0 && (1.0 * 4.0).Floor == 4;
    assert Shifted(Motion(Vec(p, p), v), None, None) == Vec(p, p + 4.0);
  }

  /** The placement that keeps every node of radius `radius` inside the
      canvas: the slices divide `[0, Width - 2 * radius]`. */
  function Placement(k: nat, n: nat, offset: real, radius: real): real
    requires n > 0
  {
    var step := (Width - 2.0 * radius) / n as real;
    k as real * step + offset * step
  }

  /** Every node placed this way starts inside the canvas, within its own
      slice. */
  lemma PlacementInside(k: nat, n: nat, offset: real, radius: real)
    requires k < n
    requires 0.0 <= offset < 1.0
    requires 0.0 <= 2.0 * radius <= Width && 2.0 * radius <= Height
    ensures var p := Placement(k, n, offset, radius);
      InBox(p, p, 2.0 * radius) &&
      k as real * ((Width - 2.0 * radius) / n as real) <= p <= (k + 1) as real * ((Width - 2.0 * radius) / n as real)
  {
    var span := Width - 2.0 * radius;
    var step := span / n as real;
    var t := k as real + offset;
    assert step >= 0.0;
    assert t < n as real;
    NonNegativeProduct(offset, step);
    Nodes.ScaleMono(offset, 1.0, step);
    Nodes.ScaleMono(t, n as real, step);
    assert n as real * step == span;
    assert k as real * step + offset * step == t * step;
  }

  lemma NonNegativeProduct(a: real, b: real)
    requires a >= 0.0 && b >= 0.0
    ensures a * b >= 0.0
  {
  }
}
