/**
 * The forces a node carries. Each produces, once per tick, an acceleration
 * for the node that carries it, computed from that node's current velocity
 * alone: the functions here read a velocity value and return a fresh
 * vector, so no force can change its target.
 */
module Forces {
  import opened Vector2D
  import opened GameConfig

  /** `BoostForce` keeps resting nodes moving; `KineticSurfaceFriction`
      stores the acceleration it computed at construction. */
  datatype Force = Boost(boost: real) | Friction(acc: real)

  /** The boost a `BoostForce` gets when none is given. */
  const DefaultBoost: real := 4.0

  /** The `KineticSurfaceFriction` constructor: the acceleration is fixed
      once, as `-fk * g * TIME_UNIT`. */
  function KineticSurfaceFriction(fk: real): (f: Force)
    ensures f.Friction?
    ensures f.acc == -0.3 * fk
    ensures f.acc > 0.0 <==> fk < 0.0
  {
    Friction(-fk * G * TimeUnit)
  }

  /** `speed` is the magnitude `getMagnitude(v)` of `v`, which the model
      takes as an input instead of computing a square root. */
  predicate SpeedOf(v: Vec, speed: real) {
    DirectionDefined(v, speed) && speed * speed == SquaredMagnitude(v)
  }

  /** What friction needs of the magnitude: it is never negative, and it is
      positive for a moving node, so that the cosine `v.x / speed` and the
      sine `v.y / speed` of the direction of motion are defined. */
  predicate DirectionDefined(v: Vec, speed: real) {
    speed >= 0.0 && (v != Zero ==> speed > 0.0)
  }

  /** `BoostForce.getCasualAcc`. `dir` is `(cos θ, sin θ)` of the random
      angle θ that the source draws on every call. */
  function BoostAcc(boost: real, v: Vec, dir: Vec): Vec {
    if v.x == 0.0 && v.y == 0.0 then
      Vec((dir.x * boost).Floor as real, (dir.y * boost).Floor as real)
    else
      Zero
  }

  /** `KineticSurfaceFriction.getCasualAcc`, with `speed` the magnitude of
      `v`; `v.x / speed` and `v.y / speed` are the cosine and sine of the
      direction of motion. */
  function FrictionAcc(acc: real, v: Vec, speed: real): Vec
    requires DirectionDefined(v, speed)
  {
    if acc >= speed then
      Vec(-v.x, -v.y)
    else
      Vec(if v.x != 0.0 then v.x / speed * acc else 0.0,
          if v.y != 0.0 then v.y / speed * acc else 0.0)
  }

  /** `force.getCasualAcc()`, dispatched on the kind of force. */
  function CasualAcc(f: Force, v: Vec, speed: real, dir: Vec): Vec
    requires f.Friction? ==> DirectionDefined(v, speed)
  {
    match f
    case Boost(boost) => BoostAcc(boost, v, dir)
    case Friction(acc) => FrictionAcc(acc, v, speed)
  }

  /** No force in the list needs the node's speed. */
  predicate FrictionFree(forces: seq<Force>) {
    forall k :: 0 <= k < |forces| ==> forces[k].Boost?
  }

  /** The sum of the accelerations of `forces`, in list order; `dirs[k]` is
      the random direction drawn for `forces[k]`. */
  function TotalAcc(forces: seq<Force>, v: Vec, speed: real, dirs: seq<Vec>): Vec
    requires |dirs| == |forces|
    requires FrictionFree(forces) || DirectionDefined(v, speed)
    decreases |forces|
  {
    if forces == [] then
      Zero
    else
      var n := |forces| - 1;
      assert FrictionFree(forces) ==> FrictionFree(forces[..n]);
      Add2D(TotalAcc(forces[..n], v, speed, dirs[..n]), CasualAcc(forces[n], v, speed, dirs[n]))
  }

  /** One more force extends the sum by its acceleration. */
  lemma TotalAccStep(forces: seq<Force>, v: Vec, speed: real, dirs: seq<Vec>, i: nat)
    requires |dirs| == |forces| && i < |forces|
    requires FrictionFree(forces) || DirectionDefined(v, speed)
    ensures FrictionFree(forces) ==> FrictionFree(forces[..i]) && FrictionFree(forces[..i + 1])
    ensures TotalAcc(forces[..i + 1], v, speed, dirs[..i + 1]) ==
      Add2D(TotalAcc(forces[..i], v, speed, dirs[..i]), CasualAcc(forces[i], v, speed, dirs[i]))
  {
    assert forces[..i + 1][..i] == forces[..i];
    assert dirs[..i + 1][..i] == dirs[..i];
  }

  lemma BoostIdleWhileMoving(boost: real, v: Vec, dir: Vec)
    requires v != Zero
    ensures BoostAcc(boost, v, dir) == Zero
  {
  }

  /** The default boost of 4 in the direction `(cos θ, sin θ)` of a resting
      node yields whole-number components between -4 and 4. */
  lemma DefaultBoostIsBounded(dir: Vec)
    requires -1.0 <= dir.x <= 1.0 && -1.0 <= dir.y <= 1.0
    ensures var a := BoostAcc(DefaultBoost, Zero, dir);
      a.x == a.x.Floor as real && a.y == a.y.Floor as real &&
      -DefaultBoost <= a.x <= DefaultBoost && -DefaultBoost <= a.y <= DefaultBoost
  {
  }

  /** Flooring each component can lengthen the boost: the unit direction
      (-0.6, -0.8) with the default boost 4 gives (-3, -4), of length 5. */
  lemma BoostCanExceedItsMagnitude()
    ensures SquaredMagnitude(Vec(-0.6, -0.8)) == 1.0
    ensures BoostAcc(DefaultBoost, Zero, Vec(-0.6, -0.8)) == Vec(-3.0, -4.0)
    ensures SquaredMagnitude(Vec(-3.0, -4.0)) > DefaultBoost * DefaultBoost
  {
    assert (-0.6 * 4.0).Floor == -3;
    assert (-0.8 * 4.0).Floor == -4;
  }

  /** When the friction acceleration reaches the speed, it stops the node
      exactly. */
  lemma FrictionCancelsWhenWeak(acc: real, v: Vec, speed: real)
    requires DirectionDefined(v, speed) && acc >= speed
    ensures Add2D(v, FrictionAcc(acc, v, speed)) == Zero
  {
  }

  /** Friction acts on no axis along which the node is still. */
  lemma FrictionKeepsStillAxes(acc: real, v: Vec, speed: real)
    requires DirectionDefined(v, speed)
    ensures v.x == 0.0 ==> FrictionAcc(acc, v, speed).x == 0.0
    ensures v.y == 0.0 ==> FrictionAcc(acc, v, speed).y == 0.0
  {
  }

  /** Below the clamp, friction is the velocity scaled by `acc / speed`: it
      opposes the motion only when `acc` is negative (a positive
      coefficient), and then it is never clamped, since `acc >= speed`
      cannot hold. */
  lemma FrictionScalesVelocity(acc: real, v: Vec, speed: real)
    requires DirectionDefined(v, speed) && v != Zero && acc < speed
    ensures FrictionAcc(acc, v, speed) == MultiplyScalar2D(v, acc / speed)
  {
    if v.x != 0.0 { assert v.x / speed * acc == v.x * (acc / speed); }
    if v.y != 0.0 { assert v.y / speed * acc == v.y * (acc / speed); }
  }

  /** The net acceleration of two lists of forces, one after the other,
      is the sum of their net accelerations: the order in which the
      forces are grouped does not matter. */
  lemma {:induction false} TotalAccAppend(f1: seq<Force>, f2: seq<Force>, v: Vec, speed: real, d1: seq<Vec>, d2: seq<Vec>)
    requires |d1| == |f1| && |d2| == |f2|
    requires FrictionFree(f1 + f2) || DirectionDefined(v, speed)
    ensures FrictionFree(f1 + f2) ==> FrictionFree(f1) && FrictionFree(f2)
    ensures TotalAcc(f1 + f2, v, speed, d1 + d2) ==
      Add2D(TotalAcc(f1, v, speed, d1), TotalAcc(f2, v, speed, d2))
    decreases |f2|
  {
    if FrictionFree(f1 + f2) {
      assert forall k :: 0 <= k < |f1| ==> f1[k] == (f1 + f2)[k];
      assert forall k :: 0 <= k < |f2| ==> f2[k] == (f1 + f2)[|f1| + k];
    }
    if f2 == [] {
      assert f1 + f2 == f1 && d1 + d2 == d1;
      Add2DIdentity(TotalAcc(f1, v, speed, d1));
    } else {
      var n := |f2| - 1;
      var m := |f1| + n;
      assert (f1 + f2)[..m] == f1 + f2[..n];
      assert (d1 + d2)[..m] == d1 + d2[..n];
      assert (f1 + f2)[m] == f2[n] && (d1 + d2)[m] == d2[n];
      assert FrictionFree(f2) ==> FrictionFree(f2[..n]);
      TotalAccAppend(f1, f2[..n], v, speed, d1, d2[..n]);
      Add2DAssociates(TotalAcc(f1, v, speed, d1), TotalAcc(f2[..n], v, speed, d2[..n]),
        CasualAcc(f2[n], v, speed, d2[n]));
    }
  }

  /** A moving node that carries only boosts gets no acceleration. */
  lemma {:induction false} TotalAccWhileMoving(forces: seq<Force>, v: Vec, speed: real, dirs: seq<Vec>)
    requires |dirs| == |forces| && FrictionFree(forces) && v != Zero
    ensures TotalAcc(forces, v, speed, dirs) == Zero
  {
    if forces != [] {
      var n := |forces| - 1;
      assert FrictionFree(forces[..n]);
      TotalAccWhileMoving(forces[..n], v, speed, dirs[..n]);
    }
  }
}
