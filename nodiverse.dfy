/**
 * The universe of nodes: the per-node operations that move a node on the
 * canvas, and the `Nodiverse` class that owns the nodes and advances time
 * one tick at a time.
 *
 * Each operation here changes nodes in place and is proved against the
 * value-level definitions of the `Boundary`, `Forces`, `Differentials` and
 * `Grouping` modules.
 */
module Engine {
  import opened Vector2D
  import opened Wrappers
  import opened GameConfig
  import opened Forces
  import opened Nodes
  import opened Boundary
  import opened Differentials
  import opened Grouping
  import opened Layout

  /** A node's position and velocity as a value. */
  function MotionOf(node: Node): Motion
    reads node`position, node`velocity
  {
    Motion(node.position, node.velocity)
  }

  /** `applyBoundaryImpluse(node)`. It returns the message it throws when
      the node has not left the canvas, and `None` when it has applied the
      impulse. */
  method ApplyBoundaryImpulse(node: Node) returns (thrown: Option<string>)
    requires PerpendicularMoving(node.position, node.velocity, node.radius * 2.0)
    modifies node`position, node`velocity
    ensures thrown.Some? <==> InBox(old(node.position.x), old(node.position.y), node.radius * 2.0)
    ensures thrown.Some? ==> MotionOf(node) == old(MotionOf(node))
    ensures thrown.None? ==> MotionOf(node) == BoundaryImpulse(old(MotionOf(node)), node.radius).value
  {
    var nodeX, nodeY := node.GetX(), node.GetY();
    var d := node.radius * 2.0;
    var wall: Wall;
    if nodeX < 0.0 {
      wall := Left;
    } else if nodeY < 0.0 {
      wall := Top;
    } else if nodeX > Width - d {
      wall := Right;
    } else if nodeY > Height - d {
      wall := Bottom;
    } else {
      return Some("applyBoundaryImpluse() called on an node that has not collided with the nodiversal boundary");
    }
    assert WallHit(nodeX, nodeY, d) == Some(wall);
    ReflectOff(node, wall);
    return None;
  }

  /** The impulse of `applyBoundaryImpluse` once the wall is known: the
      node moves to where its line of motion meets the wall, clamped into
      the canvas, and its velocity across the wall is reversed. */
  method ReflectOff(node: Node, wall: Wall)
    requires MovesAcross(node.velocity, wall)
    modifies node`position, node`velocity
    ensures MotionOf(node) == Reflect(old(MotionOf(node)), node.radius * 2.0, wall)
  {
    if wall.IsVertical() {
      ReflectOffVertical(node, wall);
    } else {
      ReflectOffHorizontal(node, wall);
    }
  }

  /** The impulse at the left or the right wall. */
  method ReflectOffVertical(node: Node, wall: Wall)
    requires wall.IsVertical() && MovesAcross(node.velocity, wall)
    modifies node`position, node`velocity
    ensures MotionOf(node) == Reflect(old(MotionOf(node)), node.radius * 2.0, wall)
  {
    ghost var m := MotionOf(node);
    var nodeX, nodeY := node.GetX(), node.GetY();
    var d := node.radius * 2.0;
    var boundX := if wall == Left then 0.0 else Width - d;
    var ratio := node.velocity.y / node.velocity.x;
    var colliX := boundX;
    var colliY := ratio * (colliX - nodeX) + nodeY;
    assert Vec(colliX, colliY) == CollisionPoint(m.position, m.velocity, d, wall);
    node.velocity := node.velocity.(x := -node.velocity.x);
    node.position := Vec(ToInBoundsX(colliX, d), ToInBoundsY(colliY, d));
  }

  /** The impulse at the top or the bottom wall. */
  method ReflectOffHorizontal(node: Node, wall: Wall)
    requires !wall.IsVertical() && MovesAcross(node.velocity, wall)
    modifies node`position, node`velocity
    ensures MotionOf(node) == Reflect(old(MotionOf(node)), node.radius * 2.0, wall)
  {
    ghost var m := MotionOf(node);
    var nodeX, nodeY := node.GetX(), node.GetY();
    var d := node.radius * 2.0;
    var boundY := if wall == Top then 0.0 else Height - d;
    var ratio := node.velocity.x / node.velocity.y;
    var colliY := boundY;
    var colliX := ratio * (colliY - nodeY) + nodeX;
    assert Vec(colliX, colliY) == CollisionPoint(m.position, m.velocity, d, wall);
    node.velocity := node.velocity.(y := -node.velocity.y);
    node.position := Vec(ToInBoundsX(colliX, d), ToInBoundsY(colliY, d));
  }

  /** `applyTranslation(node, dx, dy)`: a missing shift is the node's
      velocity. */
  method ApplyTranslation(node: Node, dx: Option<real>, dy: Option<real>)
    requires PerpendicularMoving(Shifted(MotionOf(node), dx, dy), node.velocity, node.radius * 2.0)
    modifies node`position, node`velocity
    ensures MotionOf(node) == Translate(old(MotionOf(node)), node.radius, dx, dy)
  {
    ghost var m := MotionOf(node);
    var shiftX := dx.GetOr(node.velocity.x);
    var shiftY := dy.GetOr(node.velocity.y);
    var newX := Rectify(node.GetX() + shiftX);
    var newY := Rectify(node.GetY() + shiftY);
    node.position := Vec(newX, newY);
    ghost var moved := Motion(Shifted(m, dx, dy), m.velocity);
    assert MotionOf(node) == moved;
    var out := IsOutOfBounds(newX, newY, Some(node.radius));
    if out == Ok(true) {
      var thrown := ApplyBoundaryImpulse(node);
      assert MotionOf(node) == BoundaryImpulse(moved, node.radius).value;
    }
  }

  /** The force sum of `updateTime`: the accelerations of the node's
      forces, added up in list order. */
  method NetAcceleration(forces: seq<Force>, v: Vec, speed: real, dirs: seq<Vec>) returns (netAcc: Vec)
    requires |dirs| == |forces|
    requires FrictionFree(forces) || DirectionDefined(v, speed)
    ensures netAcc == TotalAcc(forces, v, speed, dirs)
  {
    netAcc := Zero;
    for i := 0 to |forces|
      invariant FrictionFree(forces) ==> FrictionFree(forces[..i])
      invariant netAcc == TotalAcc(forces[..i], v, speed, dirs[..i])
    {
      TotalAccStep(forces, v, speed, dirs, i);
      var forceAcc := CasualAcc(forces[i], v, speed, dirs[i]);
      netAcc := Vec(netAcc.x + forceAcc.x, netAcc.y + forceAcc.y);
    }
    assert forces[..|forces|] == forces;
    assert dirs[..|dirs|] == dirs;
  }

  /** Velocity after the net acceleration is stacked onto it and the dead
      band is applied. */
  function Accelerated(v: Vec, netAcc: Vec): Vec {
    var w := Add2D(v, netAcc);
    Vec(Deadband(w.x), Deadband(w.y))
  }

  /** One node's share of a tick: accelerate, then translate by the new
      velocity. */
  function NodeTick(m: Motion, radius: real, netAcc: Vec): Motion
    requires InBox(m.position.x, m.position.y, radius * 2.0)
    requires radius * 2.0 <= Width && radius * 2.0 <= Height
  {
    var moving := Motion(m.position, Accelerated(m.velocity, netAcc));
    MoveFromInsideIsSafe(moving, radius);
    Translate(moving, radius, None, None)
  }

  /** A tick keeps a node inside the canvas with a settled velocity. */
  lemma NodeTickInvariants(m: Motion, radius: real, netAcc: Vec)
    requires InBox(m.position.x, m.position.y, radius * 2.0)
    requires radius * 2.0 <= Width && radius * 2.0 <= Height
    ensures var n := NodeTick(m, radius, netAcc);
      InBox(n.position.x, n.position.y, radius * 2.0) && Settled(n.velocity) &&
      SquaredMagnitude(n.velocity) == SquaredMagnitude(Accelerated(m.velocity, netAcc))
  {
    var moving := Motion(m.position, Accelerated(m.velocity, netAcc));
    MoveFromInsideIsSafe(moving, radius);
    DeadbandSettles(Add2D(m.velocity, netAcc));
    TranslateInvariants(moving, radius, None, None);
  }

  /** A moving node whose only forces are boosts coasts: its speed does not
      change from one tick to the next. */
  lemma CoastingKeepsSpeed(m: Motion, radius: real, forces: seq<Force>, speed: real, dirs: seq<Vec>)
    requires InBox(m.position.x, m.position.y, radius * 2.0)
    requires radius * 2.0 <= Width && radius * 2.0 <= Height
    requires |dirs| == |forces| && FrictionFree(forces)
    requires m.velocity != Zero && Settled(m.velocity)
    ensures SquaredMagnitude(NodeTick(m, radius, TotalAcc(forces, m.velocity, speed, dirs)).velocity)
      == SquaredMagnitude(m.velocity)
  {
    TotalAccWhileMoving(forces, m.velocity, speed, dirs);
    assert Accelerated(m.velocity, Zero) == m.velocity;
    NodeTickInvariants(m, radius, Zero);
  }

  /** A resting node on which nothing acts stays where it is, unless
      `rectify` snaps a coordinate below 1 to the wall. */
  lemma RestingNodeStays(m: Motion, radius: real)
    requires InBox(m.position.x, m.position.y, radius * 2.0)
    requires radius * 2.0 <= Width && radius * 2.0 <= Height
    requires m.velocity == Zero
    ensures NodeTick(m, radius, Zero) == Motion(Vec(Rectify(m.position.x), Rectify(m.position.y)), Zero)
  {
    var moving := Motion(m.position, Zero);
    NodeTickAtRest(m, radius);
    MoveFromInsideIsSafe(m, radius);
    ShiftedFromRest(m.position, radius);
    TranslateWithoutWall(moving, radius, None, None);
  }

  /** Nothing accelerates a resting node: its tick is the plain translation. */
  lemma NodeTickAtRest(m: Motion, radius: real)
    requires InBox(m.position.x, m.position.y, radius * 2.0)
    requires radius * 2.0 <= Width && radius * 2.0 <= Height
    requires m.velocity == Zero
    ensures PerpendicularMoving(Shifted(m, None, None), m.velocity, radius * 2.0)
    ensures NodeTick(m, radius, Zero) == Translate(m, radius, None, None)
  {
    MoveFromInsideIsSafe(m, radius);
    AcceleratedAtRest();
  }

  lemma AcceleratedAtRest()
    ensures Accelerated(Zero, Zero) == Zero
  {
    assert Deadband(0.0) == 0.0;
  }

  lemma ShiftedFromRest(p: Vec, radius: real)
    requires InBox(p.x, p.y, radius * 2.0)
    ensures Shifted(Motion(p, Zero), None, None) == Vec(Rectify(p.x), Rectify(p.y))
    ensures InBox(Rectify(p.x), Rectify(p.y), radius * 2.0)
  {
    assert p.x + 0.0 == p.x && p.y + 0.0 == p.y;
  }

  /** What every node of a well-formed universe satisfies. */
  ghost predicate Fits(node: Node)
    reads node`position, node`velocity
  {
    node.radius > 0.0 && node.density > 0.0 &&
    node.radius * 2.0 <= Width && node.radius * 2.0 <= Height &&
    InBox(node.position.x, node.position.y, node.radius * 2.0) &&
    Settled(node.velocity)
  }

  /** The body of `updateTime`'s loop for one node; `dirs` are the random
      directions its boosts draw and `speed` the magnitude of its
      velocity. */
  method StepNode(node: Node, dirs: seq<Vec>, speed: real)
    requires Fits(node) && Ready(MotionOf(node), node.radius, node.forces, dirs, speed)
    modifies node`position, node`velocity
    ensures Fits(node)
    ensures MotionOf(node) == Tick(old(MotionOf(node)), node.radius, old(node.forces), dirs, speed)
  {
    ghost var before := MotionOf(node);
    var netAcc := NetAcceleration(node.forces, node.velocity, speed, dirs);
    Accelerate(node, netAcc);
    ghost var moving := MotionOf(node);
    MoveFromInsideIsSafe(moving, node.radius);
    ApplyTranslation(node, None, None);
    assert moving == Motion(before.position, Accelerated(before.velocity, netAcc));
    assert MotionOf(node) == Translate(moving, node.radius, None, None);
    TranslatedIsTick(before, node.radius, netAcc, moving, MotionOf(node));
    assert InBox(node.position.x, node.position.y, node.radius * 2.0);
    assert Settled(node.velocity);
  }

  /** The translation of the accelerated node completes the tick. */
  lemma TranslatedIsTick(m: Motion, radius: real, netAcc: Vec, moving: Motion, after: Motion)
    requires InBox(m.position.x, m.position.y, radius * 2.0)
    requires radius * 2.0 <= Width && radius * 2.0 <= Height
    requires moving == Motion(m.position, Accelerated(m.velocity, netAcc))
    requires PerpendicularMoving(Shifted(moving, None, None), moving.velocity, radius * 2.0)
    requires after == Translate(moving, radius, None, None)
    ensures after == NodeTick(m, radius, netAcc)
    ensures InBox(after.position.x, after.position.y, radius * 2.0) && Settled(after.velocity)
  {
    NodeTickInvariants(m, radius, netAcc);
  }

  /** The velocity update of `updateTime`: the net acceleration is stacked
      onto the velocity, then each component below 1 in magnitude is
      zeroed. */
  method Accelerate(node: Node, netAcc: Vec)
    modifies node`velocity
    ensures node.velocity == Accelerated(old(node.velocity), netAcc)
  {
    var differentials := new Vec[] [netAcc, node.velocity];
    assert differentials[..] == [netAcc, node.velocity];
    ApplyDifferentialAsStack(differentials);
    StackedPair(netAcc, node.velocity);
    assert differentials[..][1] == Add2D(node.velocity, netAcc);
    node.velocity := differentials[1];
    if Abs(node.velocity.x) < 1.0 {
      node.velocity := node.velocity.(x := 0.0);
    }
    if Abs(node.velocity.y) < 1.0 {
      node.velocity := node.velocity.(y := 0.0);
    }
  }

  /** A node with motion `m`, radius `radius` and forces `forces` can take
      its share of a tick: it is inside the canvas, `dirs` holds one
      direction per force, and `speed` is the magnitude of its velocity
      wherever a friction needs it. */
  predicate Ready(m: Motion, radius: real, forces: seq<Force>, dirs: seq<Vec>, speed: real) {
    InBox(m.position.x, m.position.y, radius * 2.0) &&
    radius * 2.0 <= Width && radius * 2.0 <= Height &&
    |dirs| == |forces| &&
    (FrictionFree(forces) || SpeedOf(m.velocity, speed))
  }

  /** The motion a node has after its share of a tick. */
  function Tick(m: Motion, radius: real, forces: seq<Force>, dirs: seq<Vec>, speed: real): Motion
    requires Ready(m, radius, forces, dirs, speed)
  {
    NodeTick(m, radius, TotalAcc(forces, m.velocity, speed, dirs))
  }

  /** `nodalGroup && nodalGroup.length != 1`: the node was grouped with
      other nodes. */
  predicate WasGrouped(g: Option<seq<nat>>) {
    g.Some? && |g.value| != 1
  }

  /** The node is in a group of more than one node that it was not in
      before. */
  predicate JustJoined(node: Node)
    reads node`nodalGroup, node`inOverlapAlready
  {
    node.nodalGroup.Some? && |node.nodalGroup.value| > 1 && !node.inOverlapAlready
  }

  /** Reversing a settled velocity leaves it settled. */
  lemma ReversalKeepsSettled(v: Vec)
    requires Settled(v)
    ensures Settled(Negate(v))
    ensures SquaredMagnitude(Negate(v)) == SquaredMagnitude(v)
  {
    ScaleByMinusOne(v);
    NegationKeepsSettled(v);
    NegationKeepsMagnitude(v);
  }

  /** The body of the second loop of `_applyCollisionImpulse` for one
      node: its velocity is reversed when it has just joined a group of
      more than one node. */
  method ReverseIfJoined(node: Node)
    requires Fits(node) && node.nodalGroup.Some?
    modifies node`velocity
    ensures Fits(node)
    ensures node.velocity == if JustJoined(node) then Negate(old(node.velocity)) else old(node.velocity)
    ensures SquaredMagnitude(node.velocity) == SquaredMagnitude(old(node.velocity))
  {
    var nodalGroup := node.nodalGroup.value;
    if |nodalGroup| > 1 && !node.inOverlapAlready {
      var reversed := MultiplyScalar2D(node.velocity, -1.0);
      ScaleByMinusOne(node.velocity);
      ReversalKeepsSettled(node.velocity);
      node.velocity := reversed;
    }
  }

  class Nodiverse {
    const nodeCount: nat
    const nodes: array<Node>

    ghost function Repr(): set<Node>
      reads nodes
    {
      set k | 0 <= k < nodes.Length :: nodes[k]
    }

    /** The node array holds `nodeCount` distinct nodes. */
    ghost predicate Distinct()
      reads nodes
    {
      nodes.Length == nodeCount &&
      forall a, b :: 0 <= a < b < nodes.Length ==> nodes[a] != nodes[b]
    }

    /** The node array holds `nodeCount` distinct nodes, each inside the
        canvas with a settled velocity. */
    ghost predicate Valid()
      reads nodes, Repr()`position, Repr()`velocity
    {
      Distinct() && forall k :: 0 <= k < nodes.Length ==> Fits(nodes[k])
    }

    /** The discs of the first `i` nodes, in array order. */
    ghost function DiscsUpTo(i: nat): (ds: seq<Disc>)
      requires i <= nodes.Length
      reads nodes, Repr()`position
      ensures |ds| == i
      ensures forall k :: 0 <= k < i ==> ds[k] == nodes[k].AsDisc()
      decreases i
    {
      if i == 0 then [] else DiscsUpTo(i - 1) + [nodes[i - 1].AsDisc()]
    }

    ghost function Discs(): seq<Disc>
      reads nodes, Repr()`position
    {
      DiscsUpTo(nodes.Length)
    }

    /** `new Nodiverse(nodeCount)`: node `k` is placed on the diagonal at
        `Placement(k, nodeCount, offsets[k], 26)`, where `offsets[k]` is the
        `Math.random()` draw, and carries one default boost. */
    constructor (nodeCount: nat, offsets: seq<real>)
      requires |offsets| == nodeCount
      requires forall k :: 0 <= k < nodeCount ==> 0.0 <= offsets[k] < 1.0
      ensures Valid() && fresh(nodes) && fresh(Repr())
      ensures this.nodeCount == nodeCount
      ensures forall k :: 0 <= k < nodeCount ==>
        var p := Placement(k, nodeCount, offsets[k], InitialRadius);
        nodes[k].position == Vec(p, p) && nodes[k].velocity == Zero &&
        nodes[k].radius == InitialRadius && nodes[k].density == DefaultDensity &&
        nodes[k].forces == [Boost(DefaultBoost)] && nodes[k].nodalGroup == None
    {
      this.nodeCount := nodeCount;
      var built: seq<Node> := [];
      for nIdx := 0 to nodeCount
        invariant |built| == nIdx
        invariant forall a, b :: 0 <= a < b < nIdx ==> built[a] != built[b]
        invariant forall k :: 0 <= k < nIdx ==> fresh(built[k])
        invariant forall k :: 0 <= k < nIdx ==>
          var p := Placement(k, nodeCount, offsets[k], InitialRadius);
          built[k].position == Vec(p, p) && built[k].velocity == Zero &&
          built[k].radius == InitialRadius && built[k].density == DefaultDensity &&
          built[k].forces == [Boost(DefaultBoost)] && built[k].nodalGroup == None
      {
        var step := (Width - 2.0 * InitialRadius) / nodeCount as real;
        var pos := nIdx as real * step + offsets[nIdx] * step;
        var node := new Node(pos, pos, InitialRadius, Zero, DefaultDensity);
        node.forces := [Boost(DefaultBoost)];
        built := built + [node];
      }
      nodes := new Node[nodeCount](k requires 0 <= k < nodeCount => built[k]);
      new;
      forall k | 0 <= k < nodeCount
        ensures Fits(nodes[k])
      {
        PlacementInside(k, nodeCount, offsets[k], InitialRadius);
      }
    }

    /** The pairs of nodes whose discs overlap now. */
    ghost function Touching(): set<(int, int)>
      reads nodes, Repr()`position
    {
      OverlapPairs(Discs())
    }

    /** The groups `_detectCollidedNodes` computes for the nodes as they
        are now. */
    ghost function CurrentGroups(): (gs: Groups)
      reads nodes, Repr()`position
      ensures |gs| == nodes.Length
    {
      GroupsOf(nodes.Length, Touching())
    }

    /** `_detectCollidedNodes`. Each node first records whether the last
        pass had grouped it with others, then every node's group becomes
        the one `GroupsOf` defines for the current overlaps. */
    method DetectCollidedNodes()
      requires Valid()
      modifies Repr()`nodalGroup, Repr()`inOverlapAlready
      ensures forall k :: 0 <= k < nodes.Length ==>
        nodes[k].inOverlapAlready == WasGrouped(old(nodes[k].nodalGroup))
      ensures forall k :: 0 <= k < nodes.Length ==> nodes[k].nodalGroup == Some(old(CurrentGroups())[k])
    {
      ghost var discs := Discs();
      ghost var touching := OverlapPairs(discs);
      ResetGroups();
      assert Joining(discs, touching, Singletons(nodes.Length));
      JoinAll(discs, touching, Singletons(nodes.Length));
    }

    /** While `_detectCollidedNodes` visits the pairs: the nodes' discs are
        `discs`, their overlaps `touching`, and their groups `gs`. */
    ghost predicate Joining(discs: seq<Disc>, touching: set<(int, int)>, gs: Groups)
      reads nodes, Repr()`position, Repr()`nodalGroup
    {
      Distinct() && |discs| == nodes.Length && touching == OverlapPairs(discs) && |gs| == nodes.Length &&
      (forall k :: 0 <= k < nodes.Length ==> nodes[k].AsDisc() == discs[k]) &&
      (forall k :: 0 <= k < nodes.Length ==> nodes[k].nodalGroup == Some(gs[k]))
    }

    /** The nested loops of `_detectCollidedNodes`: every pair `i < j` is
        visited in order, starting from groups of one node each. */
    method JoinAll(ghost discs: seq<Disc>, ghost touching: set<(int, int)>, ghost init: Groups)
      requires Joining(discs, touching, init)
      modifies Repr()`nodalGroup
      ensures Joining(discs, touching, Rows(init, touching, |init|))
    {
      ghost var gs := init;
      for i := 0 to nodes.Length
        invariant Joining(discs, touching, gs)
        invariant gs == Rows(init, touching, i)
      {
        JoinLater(i, discs, touching, gs);
        RowsStep(init, touching, i);
        gs := Row(gs, touching, i, nodes.Length);
      }
    }

    /** The first loop of `_detectCollidedNodes`: every node records whether
        it was grouped with others and goes back to a group of its own. */
    method ResetGroups()
      requires Distinct()
      modifies Repr()`nodalGroup, Repr()`inOverlapAlready
      ensures forall k :: 0 <= k < nodes.Length ==>
        nodes[k].inOverlapAlready == WasGrouped(old(nodes[k].nodalGroup))
      ensures forall k :: 0 <= k < nodes.Length ==> nodes[k].nodalGroup == Some([k])
    {
      for i := 0 to nodeCount
        invariant forall k :: 0 <= k < i ==>
          nodes[k].inOverlapAlready == WasGrouped(old(nodes[k].nodalGroup))
        invariant forall k :: 0 <= k < i ==> nodes[k].nodalGroup == Some([k])
        invariant forall k :: i <= k < nodes.Length ==> nodes[k].nodalGroup == old(nodes[k].nodalGroup)
      {
        if nodes[i].nodalGroup.Some? && |nodes[i].nodalGroup.value| != 1 {
          nodes[i].inOverlapAlready := true;
        } else {
          nodes[i].inOverlapAlready := false;
        }
        nodes[i].nodalGroup := Some([i]);
      }
    }

    /** The pass of `_detectCollidedNodes` for node `i`: its group is
        joined, in order, with that of every later node it overlaps. */
    method JoinLater(i: nat, ghost discs: seq<Disc>, ghost touching: set<(int, int)>, ghost gs: Groups)
      requires Joining(discs, touching, gs) && i < nodes.Length
      modifies Repr()`nodalGroup
      ensures Joining(discs, touching, Row(gs, touching, i, nodes.Length))
    {
      ghost var cur := gs;
      for j := i + 1 to nodeCount
        invariant Joining(discs, touching, cur)
        invariant cur == Row(gs, touching, i, j)
      {
        JoinPair(i, j, discs, touching, cur);
        RowStep(gs, touching, i, j);
        cur := PairStep(cur, touching, i, j);
      }
    }

    /** The visit of the pair `(i, j)`: when the two nodes overlap, both
        get the concatenation of their groups. */
    method JoinPair(i: nat, j: nat, ghost discs: seq<Disc>, ghost touching: set<(int, int)>, ghost gs: Groups)
      requires Joining(discs, touching, gs) && i < j < nodes.Length
      modifies {nodes[i], nodes[j]}`nodalGroup
      ensures Joining(discs, touching, PairStep(gs, touching, i, j))
    {
      var iNode: Node, jNode: Node := nodes[i], nodes[j];
      assert iNode.IsOverlapped(jNode) <==> (i, j) in touching;
      if iNode.IsOverlapped(jNode) {
        var newNodalGroup := iNode.nodalGroup.value + jNode.nodalGroup.value;
        iNode.nodalGroup := Some(newNodalGroup);
        jNode.nodalGroup := Some(newNodalGroup);
      }
    }

    /** `_applyCollisionImpulse`: after the groups are recomputed, the
        velocity of every node is saved, and a node that has just joined a
        group of more than one node has its velocity reversed. */
    method ApplyCollisionImpulse()
      requires Valid()
      modifies Repr()`nodalGroup, Repr()`inOverlapAlready, Repr()`originalVelocity, Repr()`velocity
      ensures Valid()
      ensures forall k :: 0 <= k < nodes.Length ==>
        nodes[k].inOverlapAlready == WasGrouped(old(nodes[k].nodalGroup))
      ensures forall k :: 0 <= k < nodes.Length ==> nodes[k].nodalGroup == Some(old(CurrentGroups())[k])
      ensures forall k :: 0 <= k < nodes.Length ==> nodes[k].originalVelocity == old(nodes[k].velocity)
      ensures forall k :: 0 <= k < nodes.Length ==>
        nodes[k].velocity ==
          if |old(CurrentGroups())[k]| > 1 && !nodes[k].inOverlapAlready
          then Negate(old(nodes[k].velocity))
          else old(nodes[k].velocity)
    {
      DetectCollidedNodes();
      SaveVelocities();
      ReverseJoined();
    }

    /** The first loop of `_applyCollisionImpulse`: every node keeps a copy
        of its velocity. */
    method SaveVelocities()
      requires Distinct()
      modifies Repr()`originalVelocity
      ensures forall k :: 0 <= k < nodes.Length ==> nodes[k].originalVelocity == nodes[k].velocity
    {
      for i := 0 to nodeCount
        invariant forall k :: 0 <= k < i ==> nodes[k].originalVelocity == nodes[k].velocity
      {
        nodes[i].originalVelocity := nodes[i].velocity;
      }
    }

    /** The second loop of `_applyCollisionImpulse`: a node that has just
        joined a group of more than one node has its velocity reversed. */
    method ReverseJoined()
      requires Valid()
      requires forall k :: 0 <= k < nodes.Length ==> nodes[k].nodalGroup.Some?
      modifies Repr()`velocity
      ensures Valid()
      ensures forall k :: 0 <= k < nodes.Length ==>
        nodes[k].velocity == if JustJoined(nodes[k]) then Negate(old(nodes[k].velocity)) else old(nodes[k].velocity)
    {
      for i := 0 to nodeCount
        invariant Valid()
        invariant forall k :: 0 <= k < i ==>
          nodes[k].velocity == if JustJoined(nodes[k]) then Negate(old(nodes[k].velocity)) else old(nodes[k].velocity)
        invariant forall k :: i <= k < nodes.Length ==> nodes[k].velocity == old(nodes[k].velocity)
      {
        ReverseIfJoined(nodes[i]);
      }
    }

    /** Each of the first `i` nodes can take its share of a tick. */
    ghost predicate ReadyUpTo(i: nat, dirs: seq<seq<Vec>>, speeds: seq<real>)
      reads nodes, Repr()`position, Repr()`velocity, Repr()`forces
    {
      i <= nodes.Length && |dirs| == nodes.Length && |speeds| == nodes.Length &&
      forall k :: 0 <= k < i ==> Ready(MotionOf(nodes[k]), nodes[k].radius, nodes[k].forces, dirs[k], speeds[k])
    }

    /** The motions the first `i` nodes have after their share of a tick. */
    ghost function TicksUpTo(i: nat, dirs: seq<seq<Vec>>, speeds: seq<real>): (ts: seq<Motion>)
      requires ReadyUpTo(i, dirs, speeds)
      reads nodes, Repr()`position, Repr()`velocity, Repr()`forces
      ensures |ts| == i
      ensures forall k :: 0 <= k < i ==>
        ts[k] == Tick(MotionOf(nodes[k]), nodes[k].radius, nodes[k].forces, dirs[k], speeds[k])
      decreases i
    {
      if i == 0 then []
      else
        var m := MotionOf(nodes[i - 1]);
        TicksUpTo(i - 1, dirs, speeds) + [Tick(m, nodes[i - 1].radius, nodes[i - 1].forces, dirs[i - 1], speeds[i - 1])]
    }

    /** The motions of the first `i` nodes, in array order. */
    ghost function MotionsUpTo(i: nat): (ms: seq<Motion>)
      requires i <= nodes.Length
      reads nodes, Repr()`position, Repr()`velocity
      ensures |ms| == i
      ensures forall k :: 0 <= k < i ==> ms[k] == MotionOf(nodes[k])
      decreases i
    {
      if i == 0 then [] else MotionsUpTo(i - 1) + [MotionOf(nodes[i - 1])]
    }

    /** While the first loop of `updateTime` runs: the first `i` nodes have
        moved to `ticks`, the others are still at `starts`. */
    ghost predicate Stepped(i: nat, ticks: seq<Motion>, starts: seq<Motion>)
      reads nodes, Repr()`position, Repr()`velocity
    {
      Valid() && i <= nodes.Length && |ticks| == nodes.Length && |starts| == nodes.Length &&
      (forall k :: 0 <= k < i ==> MotionOf(nodes[k]) == ticks[k]) &&
      (forall k :: i <= k < nodes.Length ==> MotionOf(nodes[k]) == starts[k])
    }

    /** One iteration of the first loop of `updateTime`. */
    method StepAt(i: nat, dirs: seq<Vec>, speed: real, ghost ticks: seq<Motion>, ghost starts: seq<Motion>)
      requires Stepped(i, ticks, starts) && i < nodes.Length
      requires Ready(starts[i], nodes[i].radius, nodes[i].forces, dirs, speed)
      requires ticks[i] == Tick(starts[i], nodes[i].radius, nodes[i].forces, dirs, speed)
      modifies {nodes[i]}`position, {nodes[i]}`velocity
      ensures Stepped(i + 1, ticks, starts)
    {
      var node := nodes[i];
      StepNode(node, dirs, speed);
      assert MotionOf(node) == ticks[i];
    }

    /** The first loop of `updateTime`: every node in turn is accelerated
        by its forces and moved. */
    method MoveAll(dirs: seq<seq<Vec>>, speeds: seq<real>)
      requires Valid()
      requires ReadyUpTo(nodes.Length, dirs, speeds)
      modifies Repr()`position, Repr()`velocity
      ensures Valid()
      ensures forall k :: 0 <= k < nodes.Length ==> MotionOf(nodes[k]) == old(TicksUpTo(nodes.Length, dirs, speeds))[k]
    {
      ghost var ticks := TicksUpTo(nodes.Length, dirs, speeds);
      ghost var starts := MotionsUpTo(nodes.Length);
      for i := 0 to nodeCount
        invariant Stepped(i, ticks, starts)
      {
        assert Ready(starts[i], nodes[i].radius, nodes[i].forces, dirs[i], speeds[i]);
        StepAt(i, dirs[i], speeds[i], ticks, starts);
      }
    }

    /** `updateTime`: every node in turn is accelerated by its forces and
        moved, then the collision impulse is applied. `dirs[k]` holds the
        directions drawn by node `k`'s forces and `speeds[k]` the magnitude
        of its velocity. */
    method UpdateTime(dirs: seq<seq<Vec>>, speeds: seq<real>)
      requires Valid()
      requires |dirs| == nodes.Length && |speeds| == nodes.Length
      requires forall k :: 0 <= k < nodes.Length ==>
        Ready(MotionOf(nodes[k]), nodes[k].radius, nodes[k].forces, dirs[k], speeds[k])
      modifies Repr()`position, Repr()`velocity, Repr()`nodalGroup, Repr()`inOverlapAlready,
        Repr()`originalVelocity
      ensures Valid()
      ensures forall k :: 0 <= k < nodes.Length ==>
        Motion(nodes[k].position, nodes[k].originalVelocity) ==
          Tick(old(MotionOf(nodes[k])), nodes[k].radius, old(nodes[k].forces), dirs[k], speeds[k])
      ensures forall k :: 0 <= k < nodes.Length ==>
        nodes[k].inOverlapAlready == WasGrouped(old(nodes[k].nodalGroup))
      ensures forall k :: 0 <= k < nodes.Length ==> nodes[k].nodalGroup == Some(CurrentGroups()[k])
      ensures forall k :: 0 <= k < nodes.Length ==>
        nodes[k].velocity ==
          if |CurrentGroups()[k]| > 1 && !nodes[k].inOverlapAlready
          then Negate(nodes[k].originalVelocity)
          else nodes[k].originalVelocity
    {
      MoveAll(dirs, speeds);
      ghost var discs := Discs();
      ApplyCollisionImpulse();
      assert Discs() == discs;
    }
  }
}
