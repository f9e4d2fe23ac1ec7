/**
 * A node: a disc floating on the canvas. Its position is the top-left
 * corner of the disc's bounding square, so its centre lies one radius to
 * the right of and one radius below the position.
 */
module Nodes {
  import opened Vector2D
  import opened Forces
  import opened Wrappers

  /** The density a node gets when none is given. */
  const DefaultDensity: real := 2.0

  /** `Math.PI`, to the precision of a double. */
  const Pi: real := 3.141592653589793

  /** The mass the constructor records: `PI * radius * radius * density`. */
  function Mass(radius: real, density: real): real {
    Pi * radius * radius * density
  }

  lemma MassPositive(radius: real, density: real)
    requires radius > 0.0 && density > 0.0
    ensures Mass(radius, density) > 0.0
  {
    var a := Pi * radius;
    PositiveProduct(Pi, radius);
    var b := a * radius;
    PositiveProduct(a, radius);
    PositiveProduct(b, density);
  }

  /** The geometry of a node that overlap detection reads. */
  datatype Disc = Disc(position: Vec, radius: real) {
    function Center(): Vec {
      Vec(position.x + radius, position.y + radius)
    }
  }

  /** `isOverlapped`: the sum of the radii exceeds the distance between the
      centres. With `d` that distance, `s > d` holds exactly when `s > 0`
      and `s * s > d * d` (see `OverlapsIffCloserThanRadii`). */
  predicate Overlaps(a: Disc, b: Disc) {
    var s := a.radius + b.radius;
    s > 0.0 && s * s > SquaredDistanceOf(a.Center(), b.Center())
  }

  /** `s > d` for a distance `d >= 0` with square `sq`, decided on
      squares. */
  lemma ExceedsRoot(s: real, d: real, sq: real)
    requires d >= 0.0 && d * d == sq
    ensures s > d <==> s > 0.0 && s * s > sq
  {
    if s > d {
      StrictMonoSquare(d, s);
    } else if s > 0.0 {
      MonoSquare(s, d);
    }
  }

  lemma MonoSquare(s: real, d: real)
    requires 0.0 <= s <= d
    ensures s * s <= d * d
  {
    ScaleMono(s, d, s);
    ScaleMono(s, d, d);
  }

  lemma StrictMonoSquare(d: real, s: real)
    requires 0.0 <= d < s
    ensures d * d < s * s
  {
    PositiveProduct(s - d, s + d);
    assert (s - d) * (s + d) == s * s - d * d;
  }

  lemma ScaleMono(a: real, b: real, c: real)
    requires a <= b && c >= 0.0
    ensures a * c <= b * c
  {
    assert (b - a) * c >= 0.0;
  }

  lemma PositiveProduct(a: real, b: real)
    requires a > 0.0 && b > 0.0
    ensures a * b > 0.0
  {
  }

  /** The squared test agrees with the source's comparison of the radii's
      sum against the Euclidean distance `dist` between the centres. */
  lemma OverlapsIffCloserThanRadii(a: Disc, b: Disc, dist: real)
    requires dist >= 0.0
    requires dist * dist == SquaredDistanceOf(a.Center(), b.Center())
    ensures Overlaps(a, b) <==> a.radius + b.radius > dist
  {
    ExceedsRoot(a.radius + b.radius, dist, SquaredDistanceOf(a.Center(), b.Center()));
  }

  lemma OverlapsSymmetric(a: Disc, b: Disc)
    ensures Overlaps(a, b) <==> Overlaps(b, a)
  {
    DistanceProperties(a.Center(), b.Center());
  }

  /** Every disc of positive radius overlaps itself. */
  lemma OverlapsItself(a: Disc)
    requires a.radius > 0.0
    ensures Overlaps(a, a)
  {
    DistanceProperties(a.Center(), a.Center());
    ExceedsRoot(a.radius + a.radius, 0.0, SquaredDistanceOf(a.Center(), a.Center()));
  }

  /** A Gravitify node. `drawingPosition` is the position of the drawing
      object the node is rendered with. `nodalGroup` holds the indices, in the
      universe's node array, of the nodes the last collision pass grouped it
      with; `inOverlapAlready` and `originalVelocity` are the bookkeeping of
      the collision impulse. */
  class Node {
    var position: Vec
    var velocity: Vec
    var drawingPosition: Vec
    const radius: real
    const density: real
    const mass: real
    var forces: seq<Force>
    var nodalGroup: Option<seq<nat>>
    var inOverlapAlready: bool
    var originalVelocity: Vec

    /** A node at rest at `(initX, initY)` carrying no forces. */
    constructor (initX: real, initY: real, radius: real, drawingPosition: Vec, density: real)
      ensures position == Vec(initX, initY) && velocity == Zero
      ensures this.radius == radius && this.density == density
      ensures mass == Mass(radius, density)
      ensures this.drawingPosition == drawingPosition
      ensures forces == [] && nodalGroup == None && !inOverlapAlready
      ensures originalVelocity == Zero
    {
      position := Vec(initX, initY);
      velocity := Zero;
      this.radius := radius;
      this.density := density;
      mass := Mass(radius, density);
      this.drawingPosition := drawingPosition;
      forces := [];
      nodalGroup := None;
      inOverlapAlready := false;
      originalVelocity := Zero;
    }

    function GetX(): real
      reads this`position
    {
      position.x
    }

    function GetY(): real
      reads this`position
    {
      position.y
    }

    method SetX(newX: real)
      modifies this`position
      ensures position == Vec(newX, old(position.y))
    {
      position := position.(x := newX);
    }

    method SetY(newY: real)
      modifies this`position
      ensures position == Vec(old(position.x), newY)
    {
      position := position.(y := newY);
    }

    /** Copies the node's position onto its drawing object. */
    method RenderUpdate()
      modifies this`drawingPosition
      ensures drawingPosition == position
    {
      drawingPosition := Vec(GetX(), GetY());
    }

    function AsDisc(): (d: Disc)
      reads this`position
      ensures d.position == position && d.radius == radius
    {
      Disc(position, radius)
    }

    predicate IsOverlapped(other: Node)
      reads this`position, other`position
    {
      Overlaps(AsDisc(), other.AsDisc())
    }
  }
}
