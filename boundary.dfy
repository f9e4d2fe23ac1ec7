/**
 * The canvas boundary: the out-of-bounds test, clamping into the canvas,
 * the dead-zone `rectify`, the elastic impulse a node receives where it
 * hits a wall, and the translation of a node by its velocity.
 *
 * A node is a disc of diameter `d` whose position is the top-left corner
 * of its bounding square, so it lies inside the canvas when its position
 * is within `[0, Width - d] x [0, Height - d]`.
 */
module Boundary {
  import opened Vector2D
  import opened Wrappers
  import opened GameConfig

  /** The node's bounding square lies within the canvas. */
  predicate InBox(x: real, y: real, d: real) {
    0.0 <= x <= Width - d && 0.0 <= y <= Height - d
  }

  /** `isOutOfBounds(nodeX, nodeY, nodeRadius)`. The source takes either a
      radius or a node; a caller holding a node passes its radius here. A
      missing radius is the thrown error. */
  function IsOutOfBounds(x: real, y: real, radius: Option<real>): (r: Result<bool>)
    ensures r.Thrown? <==> radius.None?
  {
    match radius
    case None => Thrown("Undefined nodeRadius for isOutOfBounds()")
    case Some(rad) =>
      var d := rad * 2.0;
      Ok(x < 0.0 || y < 0.0 || x > Width - d || y > Height - d)
  }

  /** `toInBoundsX`. */
  function ToInBoundsX(x: real, d: real): (r: real)
    ensures d <= Width ==> 0.0 <= r <= Width - d
    ensures 0.0 <= x <= Width - d ==> r == x
  {
    if x < 0.0 then 0.0
    else if x <= Width - d then x
    else Width - d
  }

  /** `toInBoundsY`. */
  function ToInBoundsY(y: real, d: real): (r: real)
    ensures d <= Height ==> 0.0 <= r <= Height - d
    ensures 0.0 <= y <= Height - d ==> r == y
  {
    if y < 0.0 then 0.0
    else if y <= Height - d then y
    else Height - d
  }

  /** A node is out of bounds exactly when clamping would move it. */
  lemma OutOfBoundsIffClampMoves(x: real, y: real, radius: real)
    ensures IsOutOfBounds(x, y, Some(radius)) == Ok(false) <==>
      ToInBoundsX(x, radius * 2.0) == x && ToInBoundsY(y, radius * 2.0) == y
    ensures IsOutOfBounds(x, y, Some(radius)) == Ok(!InBox(x, y, radius * 2.0))
  {
  }

  /** Clamping picks the point of the allowed range nearest to `x`. */
  lemma ToInBoundsXIsNearest(x: real, d: real, other: real)
    requires 0.0 <= other <= Width - d
    ensures Abs(ToInBoundsX(x, d) - x) <= Abs(other - x)
  {
  }

  lemma ToInBoundsYIsNearest(y: real, d: real, other: real)
    requires 0.0 <= other <= Height - d
    ensures Abs(ToInBoundsY(y, d) - y) <= Abs(other - y)
  {
  }

  lemma ToInBoundsIdempotent(x: real, y: real, d: real)
    requires d <= Width && d <= Height
    ensures ToInBoundsX(ToInBoundsX(x, d), d) == ToInBoundsX(x, d)
    ensures ToInBoundsY(ToInBoundsY(y, d), d) == ToInBoundsY(y, d)
  {
  }

  /** `rectify`: a value whose absolute value is below 1 is zeroed. The
      source states the test on the floor of the absolute value;
      `RectifyIsFloorTest` shows the two tests agree. */
  function Rectify(m: real): (r: real)
    ensures r == 0.0 <==> Abs(m) < 1.0
    ensures r == 0.0 || r == m
  {
    if Abs(m) < 1.0 then 0.0 else m
  }

  /** The test as the source writes it: the value is zeroed when the floor
      of its absolute value is at most `.01`. A floor is a whole number, so
      that happens exactly when the absolute value is below 1. */
  lemma RectifyIsFloorTest(m: real)
    ensures Rectify(m) == if Abs(m).Floor as real <= 0.01 then 0.0 else m
  {
    if Abs(m) >= 1.0 {
      assert Abs(m).Floor >= 1;
    }
  }

  lemma RectifyIdempotent(m: real)
    ensures Rectify(Rectify(m)) == Rectify(m)
  {
  }

  /** The dead band `updateTime` applies to each velocity component: a
      component of magnitude below 1 is zeroed. */
  function Deadband(c: real): real {
    if Abs(c) < 1.0 then 0.0 else c
  }

  /** The dead band and `rectify` are the same map. */
  lemma DeadbandIsRectify(c: real)
    ensures Deadband(c) == Rectify(c)
  {
  }

  /** A velocity the dead band leaves alone: every component is zero or
      of magnitude at least 1. */
  predicate Settled(v: Vec) {
    !(-1.0 < v.x < 0.0) && !(0.0 < v.x < 1.0) && !(-1.0 < v.y < 0.0) && !(0.0 < v.y < 1.0)
  }

  /** A settled velocity stays settled when it is reversed. */
  lemma NegationKeepsSettled(v: Vec)
    requires Settled(v)
    ensures Settled(Negate(v))
  {
  }

  lemma DeadbandSettles(v: Vec)
    ensures Settled(Vec(Deadband(v.x), Deadband(v.y)))
    ensures Settled(v) <==> Vec(Deadband(v.x), Deadband(v.y)) == v
  {
  }

  /** The walls, numbered as in the source: 0 left, 1 top, 2 right,
      3 bottom. */
  datatype Wall = Left | Top | Right | Bottom {
    function Index(): nat {
      match this
      case Left => 0
      case Top => 1
      case Right => 2
      case Bottom => 3
    }

    /** Even-numbered walls are vertical (`x` is constant on them). */
    predicate IsVertical() {
      this == Left || this == Right
    }
  }

  /** The wall `applyBoundaryImpluse` treats as hit first: left, top,
      right, bottom, in that order; none when the node is inside. */
  function WallHit(x: real, y: real, d: real): (w: Option<Wall>)
    ensures w.None? <==> InBox(x, y, d)
  {
    if x < 0.0 then Some(Left)
    else if y < 0.0 then Some(Top)
    else if x > Width - d then Some(Right)
    else if y > Height - d then Some(Bottom)
    else None
  }

  /** The node's position crosses the line of wall `w`. */
  predicate Crosses(x: real, y: real, d: real, w: Wall) {
    match w
    case Left => x < 0.0
    case Top => y < 0.0
    case Right => x > Width - d
    case Bottom => y > Height - d
  }

  /** The chosen wall is one the node crosses, and no wall earlier in the
      order is crossed. */
  lemma WallHitIsFirstCrossed(x: real, y: real, d: real)
    requires WallHit(x, y, d).Some?
    ensures Crosses(x, y, d, WallHit(x, y, d).value)
    ensures forall w: Wall :: w.Index() < WallHit(x, y, d).value.Index() ==> !Crosses(x, y, d, w)
  {
  }

  /** The position coordinate on the line of wall `w`: `x` for a vertical
      wall, `y` for a horizontal one. */
  function WallLine(w: Wall, d: real): real {
    match w
    case Left => 0.0
    case Top => 0.0
    case Right => Width - d
    case Bottom => Height - d
  }

  /** The velocity component perpendicular to wall `w` is not zero. */
  predicate MovesAcross(v: Vec, w: Wall) {
    if w.IsVertical() then v.x != 0.0 else v.y != 0.0
  }

  /** What `applyBoundaryImpluse` assumes of its node: when it has hit a
      wall, its velocity perpendicular to that wall is not zero, so that
      the slope of the line of motion is defined. */
  predicate PerpendicularMoving(p: Vec, v: Vec, d: real) {
    match WallHit(p.x, p.y, d)
    case None => true
    case Some(w) => MovesAcross(v, w)
  }

  /** The point where the line of motion through `p` with direction `v`
      meets the line of wall `w`. */
  function CollisionPoint(p: Vec, v: Vec, d: real, w: Wall): Vec
    requires MovesAcross(v, w)
  {
    var b := WallLine(w, d);
    if w.IsVertical() then
      Vec(b, v.y / v.x * (b - p.x) + p.y)
    else
      Vec(v.x / v.y * (b - p.y) + p.x, b)
  }

  lemma CollisionPointIsOnWallAndMotionLine(p: Vec, v: Vec, d: real, w: Wall)
    requires MovesAcross(v, w)
    ensures var c := CollisionPoint(p, v, d, w);
      (if w.IsVertical() then c.x else c.y) == WallLine(w, d) &&
      (c.y - p.y) * v.x == (c.x - p.x) * v.y
  {
    var b := WallLine(w, d);
    if w.IsVertical() {
      SlopeCancels(v.y, v.x, b - p.x);
    } else {
      SlopeCancels(v.x, v.y, b - p.y);
    }
  }

  lemma SlopeCancels(a: real, b: real, t: real)
    requires b != 0.0
    ensures a / b * t * b == t * a
  {
    assert a / b * b == a;
  }

  /** A node's position and velocity. */
  datatype Motion = Motion(position: Vec, velocity: Vec)

  /** The impulse for wall `w`: the velocity perpendicular to the wall is
      reversed and the node is moved to the collision point, clamped into
      the canvas. */
  function Reflect(m: Motion, d: real, w: Wall): Motion
    requires MovesAcross(m.velocity, w)
  {
    var c := CollisionPoint(m.position, m.velocity, d, w);
    var v := if w.IsVertical() then m.velocity.(x := -m.velocity.x)
             else m.velocity.(y := -m.velocity.y);
    Motion(Vec(ToInBoundsX(c.x, d), ToInBoundsY(c.y, d)), v)
  }

  /** `applyBoundaryImpluse(node)` on a node of radius `radius`; a node
      that is inside the canvas is the thrown error. */
  function BoundaryImpulse(m: Motion, radius: real): (r: Result<Motion>)
    requires PerpendicularMoving(m.position, m.velocity, radius * 2.0)
    ensures r.Thrown? <==> InBox(m.position.x, m.position.y, radius * 2.0)
  {
    var d := radius * 2.0;
    var hit := WallHit(m.position.x, m.position.y, d);
    if hit.None? then
      Thrown("applyBoundaryImpluse() called on an node that has not collided with the nodiversal boundary")
    else
      Ok(Reflect(m, d, hit.value))
  }

  /** The impulse is elastic: only the component perpendicular to the wall
      hit changes, and it changes sign; the speed is kept. */
  lemma BoundaryImpulseReflects(m: Motion, radius: real)
    requires PerpendicularMoving(m.position, m.velocity, radius * 2.0)
    requires BoundaryImpulse(m, radius).Ok?
    ensures var w := WallHit(m.position.x, m.position.y, radius * 2.0).value;
      var v := BoundaryImpulse(m, radius).value.velocity;
      if w.IsVertical() then v == Vec(-m.velocity.x, m.velocity.y)
      else v == Vec(m.velocity.x, -m.velocity.y)
    ensures SquaredMagnitude(BoundaryImpulse(m, radius).value.velocity) == SquaredMagnitude(m.velocity)
  {
  }

  /** A node that fits in the canvas is put back inside it, touching the
      wall it hit. */
  lemma BoundaryImpulseLandsInside(m: Motion, radius: real)
    requires PerpendicularMoving(m.position, m.velocity, radius * 2.0)
    requires BoundaryImpulse(m, radius).Ok?
    requires radius * 2.0 <= Width && radius * 2.0 <= Height
    ensures var p := BoundaryImpulse(m, radius).value.position;
      var w := WallHit(m.position.x, m.position.y, radius * 2.0).value;
      InBox(p.x, p.y, radius * 2.0) &&
      (if w.IsVertical() then p.x else p.y) == WallLine(w, radius * 2.0)
  {
  }

  /** A node of radius 18 one pixel beyond the left wall, moving at
      `(-3, 2)`: it is put on the wall where its line of motion meets it,
      and bounces off with velocity `(3, 2)`. */
  lemma LeftWallExample()
    ensures BoundaryImpulse(Motion(Vec(-1.0, 100.0), Vec(-3.0, 2.0)), 18.0) ==
      Ok(Motion(Vec(0.0, 100.0 - 2.0 / 3.0), Vec(3.0, 2.0)))
  {
  }

  /** The position `applyTranslation` moves to before any impulse: each
      coordinate shifted by `dx`/`dy`, or by the velocity where a shift is
      not given, and rectified. */
  function Shifted(m: Motion, dx: Option<real>, dy: Option<real>): Vec {
    Vec(Rectify(m.position.x + dx.GetOr(m.velocity.x)),
        Rectify(m.position.y + dy.GetOr(m.velocity.y)))
  }

  /** `applyTranslation(node, dx, dy)` on a node of radius `radius`. */
  function Translate(m: Motion, radius: real, dx: Option<real>, dy: Option<real>): Motion
    requires PerpendicularMoving(Shifted(m, dx, dy), m.velocity, radius * 2.0)
  {
    var p := Shifted(m, dx, dy);
    var moved := Motion(p, m.velocity);
    if IsOutOfBounds(p.x, p.y, Some(radius)) == Ok(true) then
      BoundaryImpulse(moved, radius).value
    else
      moved
  }

  /** Without a wall in the way the node simply moves to the shifted
      position, keeping its velocity. */
  lemma TranslateWithoutWall(m: Motion, radius: real, dx: Option<real>, dy: Option<real>)
    requires InBox(Shifted(m, dx, dy).x, Shifted(m, dx, dy).y, radius * 2.0)
    ensures Translate(m, radius, dx, dy) == Motion(Shifted(m, dx, dy), m.velocity)
  {
  }

  /** A translation keeps a node that fits in the canvas inside it, keeps
      its speed, and keeps a settled velocity settled. */
  lemma TranslateInvariants(m: Motion, radius: real, dx: Option<real>, dy: Option<real>)
    requires PerpendicularMoving(Shifted(m, dx, dy), m.velocity, radius * 2.0)
    requires radius * 2.0 <= Width && radius * 2.0 <= Height
    ensures var n := Translate(m, radius, dx, dy);
      InBox(n.position.x, n.position.y, radius * 2.0) &&
      SquaredMagnitude(n.velocity) == SquaredMagnitude(m.velocity) &&
      (Settled(m.velocity) ==> Settled(n.velocity))
  {
    var p := Shifted(m, dx, dy);
    if !InBox(p.x, p.y, radius * 2.0) {
      BoundaryImpulseReflects(Motion(p, m.velocity), radius);
      BoundaryImpulseLandsInside(Motion(p, m.velocity), radius);
    }
  }

  /** A node inside a canvas it fits in can always be moved by its
      velocity: if it leaves the canvas, it moves across the wall it hits,
      so the impulse is defined. */
  lemma MoveFromInsideIsSafe(m: Motion, radius: real)
    requires InBox(m.position.x, m.position.y, radius * 2.0)
    requires radius * 2.0 <= Width && radius * 2.0 <= Height
    ensures PerpendicularMoving(Shifted(m, None, None), m.velocity, radius * 2.0)
  {
  }
}
