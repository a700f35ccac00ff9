# Solar-system N-body tick, in Dafny

This project models one tick of the browser solar-system simulation (`updatePositions(dt)` in
`script.js`) and proves what the tick promises. A tick over the bodies array runs three phases in place:

1. Zero every body's acceleration. Then visit each pair i < j once, adding `+F/mA` to body A and
   `-F/mB` to body B, where F is Newton's gravitational force `G mA mB / d^2` along the unit
   vector from A to B.
2. Semi-implicit Euler: `velocity += acceleration h`, then `position += velocity h` with the new
   velocity. Here `h = dt * timeScale`.
3. Record the display-space position `position * distanceScale`, which is the mesh position, on the
   body's trail. Shift off the oldest point when the trail is longer than 1000.

The project has five modules:

- `Vector` holds three-component vectors over exact reals: add, sub, negate and scale. `divideScalar`
  is scaling by the reciprocal.
- `Gravity` holds the pair force, the list of pairs the nested loop visits, and the accumulation of
  accelerations over them. It proves that the mass-weighted accelerations sum to zero.
- `Trail` holds the push-then-shift FIFO of capacity 1000, its behaviour over many pushes, and the
  flat coordinate array the line geometry receives.
- `Integrator` models a body's state as a value. `Tick` is the whole step as a function of the old
  states. The lemmas prove the ordering, zero-step, lone-body, trail and momentum properties of
  `Tick`. `Run` is a sequence of ticks, one per played frame, each with that frame's own `dt`,
  `timeScale` and `distanceScale`.
- `Simulation` models the bodies as a `class Body` with mutable fields. `UpdatePositions` runs the
  three loops in place. Its contract is that the bodies afterwards hold exactly
  `Tick(old states, dt * timeScale, distanceScale, norm)`, so every property of `Tick` holds for the
  imperative tick.

Arithmetic is exact `real`. The Euclidean length (`distanceVector.length()`) is a parameter
`norm: Vec3 -> real` of the tick. The tick requires a positive length between every two bodies,
because the source divides by `distance * distance`. `DistinctIsSeparated` shows this follows from
distinct positions when the length is positive definite.

Two behaviours a reader might expect are not in the code, and the model follows the code. Nothing
in the tick checks that `timeScale` is non-negative, so `h` is any real here, and a negative `h`
integrates backwards. Nothing reports two coinciding bodies as an error either: the code divides by
a zero distance and carries on with NaN. The model excludes that case by the tick's precondition,
and `Run` stops with `None` at the frame where it would happen.

## Model

| member | source | states |
|---|---|---|
| Simulation.Body.constructor | script.js:93-140 | a body starts with the given name, mass, position and velocity, zero acceleration and an empty trail |
| Simulation.Body.Advance | script.js:190-201 | the body's new state is `Integrator.Advance` of its old state: kick with its acceleration, drift with the new velocity, record the display position on the trail |
| Simulation.Body.RecordTrail | script.js:197-201 | the trail becomes `Pushed(old trail, p, 1000)`, and no other field changes |
| Simulation.ZeroAccelerations | script.js:164-166 | every acceleration is (0, 0, 0) afterwards, and position, velocity and trail are untouched |
| Simulation.AddPairForce | script.js:170-186 | for the pair (i, j) the accelerations become `ApplyPair` of the old ones: A gains F/mA, B gains -F/mB, and the other bodies and fields are unchanged |
| Simulation.AccumulateRow | script.js:169-187 | the inner loop applies the pairs (i, i+1) ... (i, n-1) in order on top of the accelerations of the pairs visited before |
| Simulation.AccumulateForces | script.js:168-188 | from zeroed accelerations the nested loop leaves exactly `NetAccelerations`, the fold over `Pairs(n)`; only accelerations change |
| Simulation.Integrate | script.js:190-207 | every body is advanced by its own acceleration with step dt * timeScale |
| Simulation.UpdatePositions | script.js:163-208 | the bodies' states afterwards are exactly `Tick` of their states before, so every `Tick` lemma below holds for the in-place tick |
| Gravity.DistinctIsSeparated | script.js:176-177 | with distinct positions and a positive-definite length, no pair is at distance zero, so the force law never divides by zero |
| Gravity.PairForceCubed | script.js:173-179 | `PairForce`, normalize-then-scale by G mA mB / d^2, is the offset from A to B scaled by G mA mB / d^3, so it points from A towards B |
| Gravity.PairForceReversed | script.js:173-179 | with a symmetric length, swapping A and B negates the pair force |
| Gravity.ApplyPairNewton | script.js:179-186 | `ApplyPair`, one pass of the inner loop: mA times A's change of acceleration is F, mB times B's change is -F, and every other body's acceleration is unchanged |
| Gravity.ApplyPairBalanced | script.js:179-186 | one pair leaves the mass-weighted sum of accelerations unchanged |
| Gravity.AccumulateBalanced | script.js:168-188 | `Accumulate`, visiting any list of pairs in order, leaves the mass-weighted sum of accelerations where it started |
| Gravity.EachPairOnce | script.js:168-169 | the pairs visited are exactly those (a, b) with a < b < n, no pair twice, and never a body with itself |
| Gravity.PairsCount | script.js:168-169 | the nested loop visits n (n - 1) / 2 pairs |
| Gravity.NetForceZero | script.js:164-188 | `NetAccelerations`, the accumulation from zero over every pair: the sum of mass times acceleration over all bodies is the zero vector |
| Gravity.TwoBodies | script.js:164-188 | with two bodies, mass times acceleration is F for the first and -F for the second |
| Gravity.LoneBodyUnaccelerated | script.js:164-188 | a lone body ends the accumulation with zero acceleration |
| Trail.Pushed | script.js:197-201 | the trail grows by one until capacity; it is `old + [p]` minus its first element exactly when that exceeds capacity; its last element is p; it stays within capacity |
| Trail.PushAllWindow | script.js:197-201 | FIFO: recording qs from a trail within capacity leaves the newest min(len, 1000) points of old + qs, in order |
| Trail.OverflowEvictsOldest | script.js:197-201 | recording 1050 points into an empty trail leaves exactly the last 1000, so the oldest 50 are evicted |
| Trail.Flatten | script.js:203 | the coordinate array has 3 entries per point: x, y and z of each point in trail order |
| Integrator.ToDisplay | script.js:195 | the display position is the simulation position times distanceScale, and dividing by a non-zero distanceScale gives the simulation position back |
| Integrator.AdvanceSemiImplicit | script.js:190-201 | `Advance`, the per-body step: the velocity gains a h, the position moves with the new velocity to a h^2 beyond p + v h, the mass stays, and the trail ends with the new display position within capacity |
| Integrator.Tick | script.js:163-208 | a tick keeps the number and order of the bodies and every mass |
| Integrator.TickSemiImplicit | script.js:191-193 | the velocity gains a h, and the position moves with the new velocity, landing a h^2 beyond the explicit-Euler point p + v h |
| Integrator.TickZeroStep | script.js:191-193 | with h = 0 no position and no velocity changes |
| Integrator.TickLoneBody | script.js:164-193 | a lone body has zero acceleration, keeps its velocity and moves to p + v h |
| Integrator.TickTrail | script.js:195-201 | each trail stays within 1000, is the push-then-shift of the old trail, and ends with the new position times distanceScale |
| Integrator.TickForcesBalance | script.js:164-188 | after a tick, the mass-weighted accelerations sum to zero |
| Integrator.TickConservesMomentum | script.js:164-193 | total momentum (sum of mass times velocity) after a tick equals the momentum before |
| Integrator.Run | script.js:246-255 | the frame loop calling the tick once per played frame keeps the number of bodies and every mass, and gives None when the first frame's bodies coincide |
| Integrator.RunSnoc | script.js:246-255 | one more frame after a run: a stopped run stays stopped; otherwise the result is one `Tick` with that frame's dt * timeScale and distanceScale, read afresh as at script.js:191 and 195, or None when the bodies coincide |
| Integrator.RunInvariants | script.js:163-208 | over any number of ticks, momentum is conserved and trails within capacity stay within capacity |

## Left out

- The three.js scene, meshes, materials, camera, renderer, grid, GUI sliders and focus-body camera are
  presentation code with no physics in it, and are not modelled.
- The clock and scheduling of the `animate` frame loop (`Date.now()`, `requestAnimationFrame`) are
  not modelled. Each played frame is a `Frame` of `Run`: its elapsed time and the
  `timeScale` and `distanceScale` the sliders held at that call. A paused frame calls no tick and so
  is simply absent from the frames.
- The mesh holds the display position only for rendering, so it is not a field of `Body`. The
  initial placement at script.js:143 and the copy at script.js:195 are the same map, `ToDisplay`,
  which the trail records.
- The upload of the trail to the line geometry (`Float32BufferAttribute`, `setDrawRange`,
  `needsUpdate`) is rendering. Only the flattening into coordinates is modelled, as `Flatten`.
- Floating-point rounding is not modelled: the arithmetic is exact over the reals. The square root
  inside `length()` and `normalize()` is the abstract parameter `norm`.
- The concrete masses, initial positions and velocities are left out, because every property here
  holds for all of them. The gravitational constant `G` is kept.
- UpdatePositions: requires every two bodies a positive distance apart and every mass positive.
  At a zero distance the source divides by zero and runs on with NaN or Infinity; the model does not
  describe that. The masses of the source are fixed positive constants, so the mass precondition
  excludes nothing the program can reach.
- Run: stops with `None` at the first frame whose bodies coincide, where the source would carry
  on with NaN.
- Gravity.Accumulate: a pair that does not name two bodies i < j is skipped. The nested loop never
  produces one.
- THREE.Vector3 objects are modelled as `Vec3` values assigned to fields. The source clones before
  every in-place update, so no vector is shared between bodies and nothing about aliasing is lost.
- Orbital accuracy and energy drift are numerical claims, which cannot be stated over exact reals
  with an abstract length.
