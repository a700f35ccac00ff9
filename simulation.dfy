/** The simulation's mutable bodies and the in-place tick `UpdatePositions`:
    zero every acceleration, visit every pair i < j and add the equal and opposite
    contributions, then kick, drift and record each body's trail. */
module Simulation {
  import opened Vector
  import opened Gravity
  import opened Trail
  import opened Integrator

  /** One entry of the bodies array. The name and the mass are never assigned
      after creation; the kinematic state and the trail are updated in place. */
  class Body {
    const name: string
    const mass: real
    var position: Vec3
    var velocity: Vec3
    var acceleration: Vec3
    /** The recorded display-space points (`trailPositions` of the source; its
        `trail` field is the line object that draws them). */
    var trailPositions: seq<Vec3>

    /** A body as the bodies array declares it: zero acceleration, empty trail. */
    constructor (name: string, mass: real, position: Vec3, velocity: Vec3)
      ensures this.name == name && this.mass == mass
      ensures this.position == position && this.velocity == velocity
      ensures acceleration == Zero && trailPositions == []
    {
      this.name := name;
      this.mass := mass;
      this.position := position;
      this.velocity := velocity;
      acceleration := Zero;
      trailPositions := [];
    }

    /** The body's physical state as a value. */
    function State(): BodyState
      reads this
    {
      BodyState(mass, position, velocity, acceleration, trailPositions)
    }

    /** The per-body step of the third phase: velocity += acceleration h, then
        position += velocity h with the new velocity, then the display-space
        position (the mesh position) is recorded on the trail. */
    method Advance(dt: real, timeScale: real, distanceScale: real)
      modifies this
      ensures State() == Integrator.Advance(old(State()), old(acceleration), dt * timeScale, distanceScale)
    {
      velocity := Add(velocity, Scale(acceleration, dt * timeScale));
      position := Add(position, Scale(velocity, dt * timeScale));
      var meshPosition := ToDisplay(position, distanceScale);
      RecordTrail(meshPosition);
    }

    /** Push the point, then shift the oldest one off if the trail is over capacity. */
    method RecordTrail(p: Vec3)
      modifies this`trailPositions
      ensures trailPositions == Pushed(old(trailPositions), p, TrailCapacity)
    {
      trailPositions := trailPositions + [p];
      if |trailPositions| > TrailCapacity {
        trailPositions := trailPositions[1..];
      }
    }
  }

  /** The states of the bodies, in array order. */
  function Snapshot(bodies: seq<Body>): seq<BodyState>
    reads bodies
  {
    seq(|bodies|, k requires 0 <= k < |bodies| reads bodies => bodies[k].State())
  }

  predicate DistinctBodies(bodies: seq<Body>) {
    forall i, j :: 0 <= i < |bodies| && 0 <= j < |bodies| && i != j ==> bodies[i] != bodies[j]
  }

  /** The fields other than the acceleration are as they were. */
  twostate predicate OnlyAccelerationChanged(bodies: seq<Body>)
    reads bodies
  {
    forall t :: 0 <= t < |bodies| ==>
      bodies[t].position == old(bodies[t].position) &&
      bodies[t].velocity == old(bodies[t].velocity) &&
      bodies[t].trailPositions == old(bodies[t].trailPositions)
  }

  /** First phase: every acceleration is set to zero. */
  method ZeroAccelerations(bodies: seq<Body>)
    requires DistinctBodies(bodies)
    modifies bodies
    ensures OnlyAccelerationChanged(bodies)
    ensures forall t :: 0 <= t < |bodies| ==> bodies[t].acceleration == Zero
  {
    for k := 0 to |bodies|
      invariant OnlyAccelerationChanged(bodies)
      invariant forall t :: 0 <= t < k ==> bodies[t].acceleration == Zero
    {
      bodies[k].acceleration := Zero;
    }
  }

  /** The bodies carry the masses ms, the positions ps and the accelerations acc. */
  ghost predicate Holds(bodies: seq<Body>, ms: seq<real>, ps: seq<Vec3>, acc: seq<Vec3>)
    reads bodies
  {
    |ms| == |bodies| && |ps| == |bodies| && |acc| == |bodies| &&
    forall t :: 0 <= t < |bodies| ==>
      bodies[t].mass == ms[t] && bodies[t].position == ps[t] && bodies[t].acceleration == acc[t]
  }

  /** The body of the inner loop for the pair (i, j): the force between the two
      bodies, added as +F/mA to A and -F/mB to B. With the masses, positions and
      accelerations given as ms, ps and acc, the accelerations afterwards are
      `ApplyPair(acc, ms, ps, norm, (i, j))`. */
  method AddPairForce(bodies: seq<Body>, i: nat, j: nat, norm: Vec3 -> real,
                      ghost ms: seq<real>, ghost ps: seq<Vec3>, ghost acc: seq<Vec3>)
    requires DistinctBodies(bodies) && i < j < |bodies|
    requires Holds(bodies, ms, ps, acc) && Positive(ms) && Separated(ps, norm)
    modifies bodies[i], bodies[j]
    ensures OnlyAccelerationChanged(bodies)
    ensures Holds(bodies, ms, ps, ApplyPair(acc, ms, ps, norm, (i, j)))
  {
    var bodyA, bodyB := bodies[i], bodies[j];
    var distanceVector := Sub(bodyB.position, bodyA.position);
    var distance := norm(distanceVector);
    assert distance == Distance(ps, norm, i, j) > 0.0;
    var forceMagnitude := (G * bodyA.mass * bodyB.mass) / (distance * distance);
    var forceVector := Scale(Scale(distanceVector, 1.0 / distance), forceMagnitude);
    assert forceVector == ForceBetween(ms, ps, norm, (i, j));
    bodyA.acceleration := Add(bodyA.acceleration, Scale(forceVector, 1.0 / bodyA.mass));
    bodyB.acceleration := Add(bodyB.acceleration, Scale(Neg(forceVector), 1.0 / bodyB.mass));
    assert ApplyPair(acc, ms, ps, norm, (i, j))
        == acc[i := bodyA.acceleration][j := bodyB.acceleration];
  }

  /** The inner loop for outer index i: the pairs (i, i + 1), ..., (i, n - 1) in
      turn, on top of the accelerations that the pairs `done` gave. */
  method AccumulateRow(bodies: seq<Body>, i: nat, norm: Vec3 -> real,
                       ghost ms: seq<real>, ghost ps: seq<Vec3>, ghost done: seq<Pair>)
    requires DistinctBodies(bodies) && i < |bodies| && |ms| == |ps| == |bodies|
    requires Positive(ms) && Separated(ps, norm)
    requires Holds(bodies, ms, ps, Accumulate(Zeros(|bodies|), ms, ps, norm, done))
    modifies bodies
    ensures OnlyAccelerationChanged(bodies)
    ensures Holds(bodies, ms, ps, Accumulate(Zeros(|bodies|), ms, ps, norm, done + Row(i, i + 1, |bodies|)))
  {
    var n := |bodies|;
    ghost var zeros := Zeros(n);
    assert done + Row(i, i + 1, i + 1) == done;
    for j := i + 1 to n
      invariant OnlyAccelerationChanged(bodies)
      invariant Holds(bodies, ms, ps, Accumulate(zeros, ms, ps, norm, done + Row(i, i + 1, j)))
    {
      ghost var acc := Accumulate(zeros, ms, ps, norm, done + Row(i, i + 1, j));
      AddPairForce(bodies, i, j, norm, ms, ps, acc);
      AccumulateRowStep(zeros, ms, ps, norm, done, i, j);
    }
  }

  /** Second phase: the nested loop over the pairs i < j. From zero
      accelerations it leaves exactly `NetAccelerations`. */
  method AccumulateForces(bodies: seq<Body>, norm: Vec3 -> real, ghost ms: seq<real>, ghost ps: seq<Vec3>)
    requires DistinctBodies(bodies)
    requires Holds(bodies, ms, ps, Zeros(|bodies|)) && Positive(ms) && Separated(ps, norm)
    modifies bodies
    ensures OnlyAccelerationChanged(bodies)
    ensures Holds(bodies, ms, ps, NetAccelerations(ms, ps, norm))
  {
    var n := |bodies|;
    ghost var zeros := Zeros(n);
    assert Accumulate(zeros, ms, ps, norm, PairsBelow(0, n)) == zeros by {
      assert PairsBelow(0, n) == [];
    }
    for i := 0 to n
      invariant OnlyAccelerationChanged(bodies)
      invariant Holds(bodies, ms, ps, Accumulate(zeros, ms, ps, norm, PairsBelow(i, n)))
    {
      AccumulateRow(bodies, i, norm, ms, ps, PairsBelow(i, n));
      PairsBelowStep(i, n);
    }
  }

  /** Third phase, per body: velocity += acceleration h, then position +=
      velocity h with the new velocity, then the display-space position is
      recorded on the trail. */
  method Integrate(bodies: seq<Body>, dt: real, timeScale: real, distanceScale: real)
    requires DistinctBodies(bodies)
    modifies bodies
    ensures forall t :: 0 <= t < |bodies| ==>
      bodies[t].State() == Advance(old(bodies[t].State()), old(bodies[t].acceleration), dt * timeScale, distanceScale)
  {
    for k := 0 to |bodies|
      invariant forall t :: 0 <= t < k ==>
        bodies[t].State() == Advance(old(bodies[t].State()), old(bodies[t].acceleration), dt * timeScale, distanceScale)
      invariant forall t :: k <= t < |bodies| ==> bodies[t].State() == old(bodies[t].State())
    {
      bodies[k].Advance(dt, timeScale, distanceScale);
    }
  }

  /** The per-body step reads the freshly accumulated acceleration, never the
      one stored in the state it advances. */
  lemma AdvanceIgnoresAcceleration(b: BodyState, a: Vec3, h: real, distanceScale: real)
    ensures Advance(b.(acceleration := a), a, h, distanceScale) == Advance(b, a, h, distanceScale)
  {
  }

  /** One tick of length dt * timeScale. Afterwards the bodies hold exactly the
      states `Tick` computes from their states before. */
  method UpdatePositions(bodies: seq<Body>, dt: real, timeScale: real, distanceScale: real, norm: Vec3 -> real)
    requires DistinctBodies(bodies)
    requires forall k :: 0 <= k < |bodies| ==> bodies[k].mass > 0.0
    requires forall i, j :: 0 <= i < j < |bodies| ==> norm(Sub(bodies[j].position, bodies[i].position)) > 0.0
    modifies bodies
    ensures Snapshot(bodies) == Tick(old(Snapshot(bodies)), dt * timeScale, distanceScale, norm)
  {
    ghost var s0 := Snapshot(bodies);
    ghost var ms, ps := Masses(s0), Positions(s0);
    ZeroAccelerations(bodies);
    assert Holds(bodies, ms, ps, Zeros(|bodies|));
    AccumulateForces(bodies, norm, ms, ps);
    ghost var acc := NetAccelerations(ms, ps, norm);
    ghost var s1 := Snapshot(bodies);
    assert forall t :: 0 <= t < |bodies| ==> s1[t] == s0[t].(acceleration := acc[t]);
    Integrate(bodies, dt, timeScale, distanceScale);
    ghost var target := Tick(s0, dt * timeScale, distanceScale, norm);
    forall t | 0 <= t < |bodies|
      ensures Snapshot(bodies)[t] == target[t]
    {
      AdvanceIgnoresAcceleration(s0[t], acc[t], dt * timeScale, distanceScale);
    }
  }
}
