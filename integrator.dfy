/** One simulation tick on values: accumulate the accelerations, then advance
    each body by semi-implicit Euler and record its display-space position on its
    trail. The heap-based tick in module Simulation is proved equal to `Tick`. */
module Integrator {
  import opened Vector
  import opened Gravity
  import opened Trail

  /** The physical state of one body (the record of the source without its mesh). */
  datatype BodyState = BodyState(mass: real, position: Vec3, velocity: Vec3, acceleration: Vec3, trail: seq<Vec3>)

  datatype Option<T> = None | Some(value: T)

  function Masses(s: seq<BodyState>): seq<real> {
    seq(|s|, k requires 0 <= k < |s| => s[k].mass)
  }

  function Positions(s: seq<BodyState>): seq<Vec3> {
    seq(|s|, k requires 0 <= k < |s| => s[k].position)
  }

  function Velocities(s: seq<BodyState>): seq<Vec3> {
    seq(|s|, k requires 0 <= k < |s| => s[k].velocity)
  }

  function Accelerations(s: seq<BodyState>): seq<Vec3> {
    seq(|s|, k requires 0 <= k < |s| => s[k].acceleration)
  }

  /** Total momentum, the sum of mass times velocity. */
  function Momentum(s: seq<BodyState>): Vec3 {
    WeightedSum(Masses(s), Velocities(s))
  }

  /** Simulation space to display space: scale by distanceScale. */
  function ToDisplay(p: Vec3, distanceScale: real): (r: Vec3)
    ensures distanceScale != 0.0 ==> Scale(r, 1.0 / distanceScale) == p
  {
    UnscaleBack(p, distanceScale);
    Scale(p, distanceScale)
  }

  /** The per-body part of the tick, with the freshly accumulated acceleration
      `a` and the effective step h = dt * timeScale: velocity first, then position
      with the new velocity, then the trail. */
  function Advance(b: BodyState, a: Vec3, h: real, distanceScale: real): BodyState {
    var velocity := Add(b.velocity, Scale(a, h));
    var position := Add(b.position, Scale(velocity, h));
    BodyState(b.mass, position, velocity, a, Pushed(b.trail, ToDisplay(position, distanceScale), TrailCapacity))
  }

  /** Semi-implicit Euler for one body: the velocity gains a h, the position
      moves with the new velocity and so lands a h^2 beyond the explicit-Euler
      point p + v h, the mass stays, and the trail ends with the new position in
      display space without outgrowing its capacity. */
  lemma AdvanceSemiImplicit(b: BodyState, a: Vec3, h: real, distanceScale: real)
    ensures Advance(b, a, h, distanceScale).mass == b.mass
    ensures Advance(b, a, h, distanceScale).acceleration == a
    ensures Advance(b, a, h, distanceScale).velocity == Add(b.velocity, Scale(a, h))
    ensures Advance(b, a, h, distanceScale).position == Add(Add(b.position, Scale(b.velocity, h)), Scale(a, h * h))
    ensures Last(Advance(b, a, h, distanceScale).trail) == ToDisplay(Advance(b, a, h, distanceScale).position, distanceScale)
    ensures |b.trail| <= TrailCapacity ==> |Advance(b, a, h, distanceScale).trail| <= TrailCapacity
  {
    KickDrift(b.position, b.velocity, a, h);
  }

  /** The state after one tick of effective length h. The number and order of
      the bodies and their masses do not change. */
  function Tick(s: seq<BodyState>, h: real, distanceScale: real, norm: Vec3 -> real): (r: seq<BodyState>)
    requires Positive(Masses(s)) && Separated(Positions(s), norm)
    ensures |r| == |s|
    ensures forall k :: 0 <= k < |s| ==> r[k].mass == s[k].mass
  {
    var acc := NetAccelerations(Masses(s), Positions(s), norm);
    seq(|s|, k requires 0 <= k < |s| => Advance(s[k], acc[k], h, distanceScale))
  }

  /** Semi-implicit ordering: the velocity gains a h, and the position moves by
      the new velocity, which puts it a h^2 beyond the explicit-Euler position
      p + v h. */
  lemma TickSemiImplicit(s: seq<BodyState>, h: real, distanceScale: real, norm: Vec3 -> real, k: nat)
    requires Positive(Masses(s)) && Separated(Positions(s), norm)
    requires k < |s|
    ensures Tick(s, h, distanceScale, norm)[k].acceleration == NetAccelerations(Masses(s), Positions(s), norm)[k]
    ensures Tick(s, h, distanceScale, norm)[k].velocity
         == Add(s[k].velocity, Scale(Tick(s, h, distanceScale, norm)[k].acceleration, h))
    ensures Tick(s, h, distanceScale, norm)[k].position
         == Add(Add(s[k].position, Scale(s[k].velocity, h)), Scale(Tick(s, h, distanceScale, norm)[k].acceleration, h * h))
  {
    AdvanceSemiImplicit(s[k], NetAccelerations(Masses(s), Positions(s), norm)[k], h, distanceScale);
  }

  /** A zero effective step changes no position and no velocity. */
  lemma TickZeroStep(s: seq<BodyState>, distanceScale: real, norm: Vec3 -> real)
    requires Positive(Masses(s)) && Separated(Positions(s), norm)
    ensures forall k :: 0 <= k < |s| ==>
      Tick(s, 0.0, distanceScale, norm)[k].position == s[k].position &&
      Tick(s, 0.0, distanceScale, norm)[k].velocity == s[k].velocity
  {
  }

  /** A lone body feels no force and moves in a straight line: p + v h. */
  lemma TickLoneBody(s: seq<BodyState>, h: real, distanceScale: real, norm: Vec3 -> real)
    requires |s| == 1 && Positive(Masses(s)) && Separated(Positions(s), norm)
    ensures Tick(s, h, distanceScale, norm)[0].acceleration == Zero
    ensures Tick(s, h, distanceScale, norm)[0].velocity == s[0].velocity
    ensures Tick(s, h, distanceScale, norm)[0].position == Add(s[0].position, Scale(s[0].velocity, h))
  {
    LoneBodyUnaccelerated(Masses(s), Positions(s), norm);
  }

  /** Each trail stays within capacity and ends with the body's new position in
      display space. */
  lemma TickTrail(s: seq<BodyState>, h: real, distanceScale: real, norm: Vec3 -> real, k: nat)
    requires Positive(Masses(s)) && Separated(Positions(s), norm)
    requires k < |s| && |s[k].trail| <= TrailCapacity
    ensures |Tick(s, h, distanceScale, norm)[k].trail| <= TrailCapacity
    ensures Tick(s, h, distanceScale, norm)[k].trail
         == Pushed(s[k].trail, ToDisplay(Tick(s, h, distanceScale, norm)[k].position, distanceScale), TrailCapacity)
    ensures Last(Tick(s, h, distanceScale, norm)[k].trail) == ToDisplay(Tick(s, h, distanceScale, norm)[k].position, distanceScale)
  {
  }

  function Last<T>(t: seq<T>): T
    requires t != []
  {
    t[|t| - 1]
  }

  /** After a tick the mass-weighted accelerations sum to zero. */
  lemma TickForcesBalance(s: seq<BodyState>, h: real, distanceScale: real, norm: Vec3 -> real)
    requires Positive(Masses(s)) && Separated(Positions(s), norm)
    ensures WeightedSum(Masses(Tick(s, h, distanceScale, norm)), Accelerations(Tick(s, h, distanceScale, norm))) == Zero
  {
    var r := Tick(s, h, distanceScale, norm);
    assert Masses(r) == Masses(s);
    assert Accelerations(r) == NetAccelerations(Masses(s), Positions(s), norm);
    NetForceZero(Masses(s), Positions(s), norm);
  }

  /** The weighted sum is linear in a kick w_k = v_k + a_k h. */
  lemma {:induction false} WeightedSumKick(ms: seq<real>, vs: seq<Vec3>, acc: seq<Vec3>, ws: seq<Vec3>, h: real)
    requires |ms| == |vs| == |acc| == |ws|
    requires forall k :: 0 <= k < |ws| ==> ws[k] == Add(vs[k], Scale(acc[k], h))
    ensures WeightedSum(ms, ws) == Add(WeightedSum(ms, vs), Scale(WeightedSum(ms, acc), h))
    decreases |ws|
  {
    if ws != [] {
      var n := |ws|;
      WeightedSumKick(ms[..n - 1], vs[..n - 1], acc[..n - 1], ws[..n - 1], h);
      KickSumStep(WeightedSum(ms[..n - 1], vs[..n - 1]), WeightedSum(ms[..n - 1], acc[..n - 1]), vs[n - 1], acc[n - 1], ms[n - 1], h);
    }
  }

  /** Total momentum is the same after a tick as before it. */
  lemma TickConservesMomentum(s: seq<BodyState>, h: real, distanceScale: real, norm: Vec3 -> real)
    requires Positive(Masses(s)) && Separated(Positions(s), norm)
    ensures Momentum(Tick(s, h, distanceScale, norm)) == Momentum(s)
  {
    var r := Tick(s, h, distanceScale, norm);
    var acc := NetAccelerations(Masses(s), Positions(s), norm);
    assert Masses(r) == Masses(s);
    WeightedSumKick(Masses(s), Velocities(s), acc, Velocities(r), h);
    NetForceZero(Masses(s), Positions(s), norm);
  }

  /** One played frame of the driver: the elapsed wall-clock time and the two
      sliders as the tick reads them on that call. */
  datatype Frame = Frame(dt: real, timeScale: real, distanceScale: real)

  /** The effective step of a frame, dt * timeScale. */
  function EffectiveStep(f: Frame): real {
    f.dt * f.timeScale
  }

  /** Whether the force law can run on these bodies: positive masses and no two
      bodies at distance zero. */
  predicate Ready(s: seq<BodyState>, norm: Vec3 -> real) {
    Positive(Masses(s)) && Separated(Positions(s), norm)
  }

  /** The driver calling the tick once per played frame. A frame whose bodies
      coincide is where the force law would divide by zero; the run stops there
      with None. */
  function Run(s: seq<BodyState>, frames: seq<Frame>, norm: Vec3 -> real): (r: Option<seq<BodyState>>)
    ensures r.Some? ==> |r.value| == |s| && Masses(r.value) == Masses(s)
    ensures frames != [] && !Ready(s, norm) ==> r.None?
    decreases |frames|
  {
    if frames == [] then Some(s)
    else if Ready(s, norm) then
      var next := Tick(s, EffectiveStep(frames[0]), frames[0].distanceScale, norm);
      assert Masses(next) == Masses(s);
      Run(next, frames[1..], norm)
    else None
  }

  /** One more frame at the end of a run: if the run so far stopped, it stays
      stopped; otherwise the new frame is one tick with that frame's own step and
      display scale, or None when its bodies coincide. */
  lemma {:induction false} RunSnoc(s: seq<BodyState>, frames: seq<Frame>, f: Frame, norm: Vec3 -> real)
    ensures Run(s, frames + [f], norm) ==
      match Run(s, frames, norm)
      case None => None
      case Some(t) =>
        if Ready(t, norm) then Some(Tick(t, EffectiveStep(f), f.distanceScale, norm)) else None
    decreases |frames|
  {
    if frames == [] {
      assert ([] + [f])[1..] == [];
      assert [] + [f] == [f];
    } else {
      assert (frames + [f])[0] == frames[0];
      assert (frames + [f])[1..] == frames[1..] + [f];
      if Ready(s, norm) {
        var g := frames[0];
        RunSnoc(Tick(s, EffectiveStep(g), g.distanceScale, norm), frames[1..], f, norm);
      }
    }
  }

  predicate TrailsBounded(s: seq<BodyState>) {
    forall k :: 0 <= k < |s| ==> |s[k].trail| <= TrailCapacity
  }

  /** Over any number of completed frames: momentum is conserved, and every
      trail stays within capacity. */
  lemma {:induction false} RunInvariants(s: seq<BodyState>, frames: seq<Frame>, norm: Vec3 -> real)
    requires Run(s, frames, norm).Some?
    ensures var t := Run(s, frames, norm).value;
      Momentum(t) == Momentum(s) &&
      (TrailsBounded(s) ==> TrailsBounded(t))
    decreases |frames|
  {
    if frames != [] {
      var f := frames[0];
      var next := Tick(s, EffectiveStep(f), f.distanceScale, norm);
      TickConservesMomentum(s, EffectiveStep(f), f.distanceScale, norm);
      assert Masses(next) == Masses(s);
      RunInvariants(next, frames[1..], norm);
    }
  }
}
