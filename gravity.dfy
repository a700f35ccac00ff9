/** Pairwise Newtonian gravity: the force of one pair, the order in which the
    tick visits the pairs, and the accelerations that result from visiting them
    all, starting from zero. Positions and masses are fixed while the forces are
    accumulated, so they are plain sequences here. The Euclidean length is a
    parameter (`norm`) because the reals have no square root. */
module Gravity {
  import opened Vector

  /** The gravitational constant of the source (m^3 kg^-1 s^-2). */
  const G: real := 0.0000000000667430

  /** An index pair (i, j) of the nested loop. */
  type Pair = (nat, nat)

  predicate Positive(ms: seq<real>) {
    forall k :: 0 <= k < |ms| ==> ms[k] > 0.0
  }

  /** The length of the vector from body i to body j, as the force law measures it. */
  function Distance(ps: seq<Vec3>, norm: Vec3 -> real, i: nat, j: nat): real
    requires i < |ps| && j < |ps|
  {
    norm(Sub(ps[j], ps[i]))
  }

  /** Every two bodies are a positive distance apart: the force law divides by it. */
  predicate Separated(ps: seq<Vec3>, norm: Vec3 -> real) {
    forall i: nat, j: nat :: i < j < |ps| ==> Distance(ps, norm, i, j) > 0.0
  }

  /** A distance function that is positive away from the zero vector, as the
      Euclidean length is. */
  ghost predicate PositiveDefinite(norm: Vec3 -> real) {
    forall v :: v != Zero ==> norm(v) > 0.0
  }

  predicate PairwiseDistinct(ps: seq<Vec3>) {
    forall i, j :: 0 <= i < j < |ps| ==> ps[i] != ps[j]
  }

  /** No two positions coincide, and the length is positive definite: then the
      force law never divides by zero. */
  lemma DistinctIsSeparated(ps: seq<Vec3>, norm: Vec3 -> real)
    requires PositiveDefinite(norm) && PairwiseDistinct(ps)
    ensures Separated(ps, norm)
  {
    forall i: nat, j: nat | i < j < |ps|
      ensures Distance(ps, norm, i, j) > 0.0
    {
      SubZero(ps[j], ps[i]);
    }
  }

  /** The force on A exerted by B: magnitude G mA mB / d^2 along the unit vector
      from A towards B. */
  function PairForce(pa: Vec3, pb: Vec3, ma: real, mb: real, norm: Vec3 -> real): Vec3
    requires norm(Sub(pb, pa)) > 0.0
  {
    var distanceVector := Sub(pb, pa);
    var distance := norm(distanceVector);
    var forceMagnitude := (G * ma * mb) / (distance * distance);
    Scale(Scale(distanceVector, 1.0 / distance), forceMagnitude)
  }

  /** The force law in closed form: the offset from A to B scaled by
      G mA mB / d^3, so the force points from A towards B when the masses are
      positive. */
  lemma PairForceCubed(pa: Vec3, pb: Vec3, ma: real, mb: real, norm: Vec3 -> real)
    requires norm(Sub(pb, pa)) > 0.0
    ensures PairForce(pa, pb, ma, mb, norm) == Scale(Sub(pb, pa), G * ma * mb / Cube(norm(Sub(pb, pa))))
  {
    var v, d, c := Sub(pb, pa), norm(Sub(pb, pa)), G * ma * mb;
    assert c / (d * d) == (G * ma * mb) / (d * d);
    assert PairForce(pa, pb, ma, mb, norm) == Scale(Scale(v, 1.0 / d), c / (d * d));
    NormalizeThenScale(v, d, c);
  }

  /** With a symmetric length, the force B feels from A is the negation of the
      force A feels from B. */
  lemma PairForceReversed(pa: Vec3, pb: Vec3, ma: real, mb: real, norm: Vec3 -> real)
    requires norm(Sub(pb, pa)) > 0.0
    requires norm(Sub(pa, pb)) == norm(Sub(pb, pa))
    ensures PairForce(pb, pa, mb, ma, norm) == Neg(PairForce(pa, pb, ma, mb, norm))
  {
    PairForceCubed(pa, pb, ma, mb, norm);
    PairForceCubed(pb, pa, mb, ma, norm);
    var k := G * ma * mb / Cube(norm(Sub(pb, pa)));
    assert G * mb * ma == G * ma * mb;
    assert Scale(Sub(pa, pb), k) == Neg(Scale(Sub(pb, pa), k));
  }

  /** The force on body p.0 exerted by body p.1. */
  function ForceBetween(ms: seq<real>, ps: seq<Vec3>, norm: Vec3 -> real, p: Pair): Vec3
    requires |ms| == |ps| && Separated(ps, norm)
    requires p.0 < p.1 < |ps|
  {
    assert Distance(ps, norm, p.0, p.1) > 0.0;
    PairForce(ps[p.0], ps[p.1], ms[p.0], ms[p.1], norm)
  }

  /** One pass of the inner loop: A gains +F/mA and B gains -F/mB. */
  function ApplyPair(acc: seq<Vec3>, ms: seq<real>, ps: seq<Vec3>, norm: Vec3 -> real, p: Pair): (r: seq<Vec3>)
    requires |acc| == |ms| == |ps| && Positive(ms) && Separated(ps, norm)
    requires p.0 < p.1 < |ps|
    ensures |r| == |acc|
  {
    var a, b := p.0, p.1;
    var f := ForceBetween(ms, ps, norm, p);
    acc[a := Add(acc[a], Scale(f, 1.0 / ms[a]))][b := Add(acc[b], Scale(Neg(f), 1.0 / ms[b]))]
  }

  /** Newton's second and third laws for one pair: mass times the change of A's
      acceleration is the force F on A, mass times the change of B's is -F, and
      no other body is touched. */
  lemma ApplyPairNewton(acc: seq<Vec3>, ms: seq<real>, ps: seq<Vec3>, norm: Vec3 -> real, p: Pair)
    requires |acc| == |ms| == |ps| && Positive(ms) && Separated(ps, norm)
    requires p.0 < p.1 < |ps|
    ensures forall k :: 0 <= k < |acc| && k != p.0 && k != p.1 ==> ApplyPair(acc, ms, ps, norm, p)[k] == acc[k]
    ensures Scale(Sub(ApplyPair(acc, ms, ps, norm, p)[p.0], acc[p.0]), ms[p.0]) == ForceBetween(ms, ps, norm, p)
    ensures Scale(Sub(ApplyPair(acc, ms, ps, norm, p)[p.1], acc[p.1]), ms[p.1]) == Neg(ForceBetween(ms, ps, norm, p))
  {
    var a, b := p.0, p.1;
    var f := ForceBetween(ms, ps, norm, p);
    AddScaledBack(acc[a], f, ms[a]);
    AddScaledBack(acc[b], Neg(f), ms[b]);
  }

  /** The inner loop's pairs for outer index i: (i, lo), ..., (i, hi - 1). */
  function Row(i: nat, lo: nat, hi: nat): seq<Pair>
    requires lo <= hi
  {
    seq(hi - lo, t => (i, lo + t))
  }

  /** One more pass of the inner loop appends (i, j) to the visited pairs. */
  lemma RowExtend(prefix: seq<Pair>, i: nat, j: nat)
    requires i + 1 <= j
    ensures prefix + Row(i, i + 1, j + 1) == prefix + Row(i, i + 1, j) + [(i, j)]
  {
    assert Row(i, i + 1, j + 1) == Row(i, i + 1, j) + [(i, j)];
  }

  /** The pairs the nested loop has visited once the outer index reaches i. */
  function PairsBelow(i: nat, n: nat): seq<Pair>
    requires i <= n
  {
    if i == 0 then [] else PairsBelow(i - 1, n) + Row(i - 1, i, n)
  }

  /** The pairs below i + 1 are those below i followed by row i. */
  lemma PairsBelowStep(i: nat, n: nat)
    requires i < n
    ensures PairsBelow(i + 1, n) == PairsBelow(i, n) + Row(i, i + 1, n)
  {
  }

  /** Every pair the nested loop visits, in visiting order. */
  function Pairs(n: nat): seq<Pair> {
    PairsBelow(n, n)
  }

  predicate LexLess(p: Pair, q: Pair) {
    p.0 < q.0 || (p.0 == q.0 && p.1 < q.1)
  }

  lemma {:induction false} PairsBelowExact(i: nat, n: nat)
    requires i <= n
    ensures forall a: nat, b: nat :: (a, b) in PairsBelow(i, n) <==> a < i && a < b < n
    ensures forall s, t :: 0 <= s < t < |PairsBelow(i, n)| ==> LexLess(PairsBelow(i, n)[s], PairsBelow(i, n)[t])
  {
    if i > 0 {
      PairsBelowExact(i - 1, n);
      var prev, row := PairsBelow(i - 1, n), Row(i - 1, i, n);
      assert PairsBelow(i, n) == prev + row;
      forall a: nat, b: nat | a < i && a < b < n
        ensures (a, b) in PairsBelow(i, n)
      {
        if a < i - 1 {
          assert (a, b) in prev;
        } else {
          assert row[b - i] == (a, b);
        }
      }
    }
  }

  /** The nested `i < j` loop visits exactly the pairs i < j < n, each once, and
      never pairs a body with itself. */
  lemma EachPairOnce(n: nat)
    ensures forall a: nat, b: nat :: (a, b) in Pairs(n) <==> a < b < n
    ensures forall s, t :: 0 <= s < t < |Pairs(n)| ==> Pairs(n)[s] != Pairs(n)[t]
    ensures forall s :: 0 <= s < |Pairs(n)| ==> Pairs(n)[s].0 != Pairs(n)[s].1
  {
    PairsBelowExact(n, n);
  }

  /** The nested loop visits n (n - 1) / 2 pairs. */
  lemma {:induction false} PairsBelowCount(i: nat, n: nat)
    requires i <= n
    ensures 2 * |PairsBelow(i, n)| == i * (2 * n - i - 1)
  {
    if i > 0 {
      PairsBelowCount(i - 1, n);
    }
  }

  lemma PairsCount(n: nat)
    ensures 2 * |Pairs(n)| == n * (n - 1)
  {
    PairsBelowCount(n, n);
  }

  /** The accelerations after visiting `pairs` in order, starting from acc0. A
      pair that does not name two distinct bodies i < j contributes nothing (the
      nested loop never produces one). */
  function Accumulate(acc0: seq<Vec3>, ms: seq<real>, ps: seq<Vec3>, norm: Vec3 -> real, pairs: seq<Pair>): (r: seq<Vec3>)
    requires |acc0| == |ms| == |ps| && Positive(ms) && Separated(ps, norm)
    ensures |r| == |acc0|
    decreases |pairs|
  {
    if pairs == [] then acc0
    else
      var prev := Accumulate(acc0, ms, ps, norm, pairs[..|pairs| - 1]);
      var p := pairs[|pairs| - 1];
      if p.0 < p.1 < |ps| then ApplyPair(prev, ms, ps, norm, p) else prev
  }

  lemma AccumulateSnoc(acc0: seq<Vec3>, ms: seq<real>, ps: seq<Vec3>, norm: Vec3 -> real, pairs: seq<Pair>, p: Pair)
    requires |acc0| == |ms| == |ps| && Positive(ms) && Separated(ps, norm)
    requires p.0 < p.1 < |ps|
    ensures Accumulate(acc0, ms, ps, norm, pairs + [p])
         == ApplyPair(Accumulate(acc0, ms, ps, norm, pairs), ms, ps, norm, p)
  {
    assert (pairs + [p])[..|pairs|] == pairs;
  }

  /** One pass of the inner loop for (i, j) applies that pair on top of the
      accelerations the visited pairs gave. */
  lemma AccumulateRowStep(acc0: seq<Vec3>, ms: seq<real>, ps: seq<Vec3>, norm: Vec3 -> real, done: seq<Pair>, i: nat, j: nat)
    requires |acc0| == |ms| == |ps| && Positive(ms) && Separated(ps, norm)
    requires i < j < |ps|
    ensures Accumulate(acc0, ms, ps, norm, done + Row(i, i + 1, j + 1))
         == ApplyPair(Accumulate(acc0, ms, ps, norm, done + Row(i, i + 1, j)), ms, ps, norm, (i, j))
  {
    RowExtend(done, i, j);
    AccumulateSnoc(acc0, ms, ps, norm, done + Row(i, i + 1, j), (i, j));
  }

  function Zeros(n: nat): seq<Vec3> {
    seq(n, _ => Zero)
  }

  /** The mass-weighted sum m0 v0 + ... + m(n-1) v(n-1). */
  function WeightedSum(ms: seq<real>, vs: seq<Vec3>): Vec3
    requires |ms| == |vs|
    decreases |vs|
  {
    if vs == [] then Zero
    else Add(WeightedSum(ms[..|ms| - 1], vs[..|vs| - 1]), Scale(vs[|vs| - 1], ms[|ms| - 1]))
  }

  lemma {:induction false} WeightedSumUpdate(ms: seq<real>, vs: seq<Vec3>, a: nat, w: Vec3)
    requires |ms| == |vs| && a < |vs|
    ensures WeightedSum(ms, vs[a := w]) == Add(WeightedSum(ms, vs), Scale(Sub(w, vs[a]), ms[a]))
  {
    var n := |vs|;
    if a == n - 1 {
      assert vs[a := w][..n - 1] == vs[..n - 1];
    } else {
      assert vs[a := w][..n - 1] == vs[..n - 1][a := w];
      WeightedSumUpdate(ms[..n - 1], vs[..n - 1], a, w);
    }
  }

  lemma {:induction false} WeightedSumZeros(ms: seq<real>)
    ensures WeightedSum(ms, Zeros(|ms|)) == Zero
  {
    if ms != [] {
      assert Zeros(|ms|)[..|ms| - 1] == Zeros(|ms| - 1);
      WeightedSumZeros(ms[..|ms| - 1]);
    }
  }

  /** Visiting one pair leaves the mass-weighted sum of accelerations unchanged:
      mA dA + mB dB = F - F = 0. */
  lemma ApplyPairBalanced(acc: seq<Vec3>, ms: seq<real>, ps: seq<Vec3>, norm: Vec3 -> real, p: Pair)
    requires |acc| == |ms| == |ps| && Positive(ms) && Separated(ps, norm)
    requires p.0 < p.1 < |ps|
    ensures WeightedSum(ms, ApplyPair(acc, ms, ps, norm, p)) == WeightedSum(ms, acc)
  {
    var a, b := p.0, p.1;
    var r := ApplyPair(acc, ms, ps, norm, p);
    ApplyPairNewton(acc, ms, ps, norm, p);
    var mid := acc[a := r[a]];
    assert r == mid[b := r[b]];
    WeightedSumUpdate(ms, acc, a, r[a]);
    WeightedSumUpdate(ms, mid, b, r[b]);
  }

  lemma {:induction false} AccumulateBalanced(acc0: seq<Vec3>, ms: seq<real>, ps: seq<Vec3>, norm: Vec3 -> real, pairs: seq<Pair>)
    requires |acc0| == |ms| == |ps| && Positive(ms) && Separated(ps, norm)
    ensures WeightedSum(ms, Accumulate(acc0, ms, ps, norm, pairs)) == WeightedSum(ms, acc0)
    decreases |pairs|
  {
    if pairs != [] {
      var init := pairs[..|pairs| - 1];
      AccumulateBalanced(acc0, ms, ps, norm, init);
      var p := pairs[|pairs| - 1];
      if p.0 < p.1 < |ps| {
        ApplyPairBalanced(Accumulate(acc0, ms, ps, norm, init), ms, ps, norm, p);
      }
    }
  }

  /** Each body's acceleration once the nested loop has run to completion:
      every pair of `Pairs(n)` applied in turn to the zeroed accelerations. */
  function NetAccelerations(ms: seq<real>, ps: seq<Vec3>, norm: Vec3 -> real): (r: seq<Vec3>)
    requires |ms| == |ps| && Positive(ms) && Separated(ps, norm)
    ensures |r| == |ps|
  {
    Accumulate(Zeros(|ps|), ms, ps, norm, Pairs(|ps|))
  }

  /** Newton's third law over the whole system: the accumulated accelerations,
      weighted by mass, sum to zero. */
  lemma NetForceZero(ms: seq<real>, ps: seq<Vec3>, norm: Vec3 -> real)
    requires |ms| == |ps| && Positive(ms) && Separated(ps, norm)
    ensures WeightedSum(ms, NetAccelerations(ms, ps, norm)) == Zero
  {
    AccumulateBalanced(Zeros(|ps|), ms, ps, norm, Pairs(|ps|));
    WeightedSumZeros(ms);
  }

  /** Two bodies: the only pair is (0, 1); each body's mass times its
      acceleration is the force on it, equal and opposite. */
  lemma TwoBodies(ms: seq<real>, ps: seq<Vec3>, norm: Vec3 -> real)
    requires |ms| == |ps| == 2 && Positive(ms) && Separated(ps, norm)
    ensures Scale(NetAccelerations(ms, ps, norm)[0], ms[0]) == ForceBetween(ms, ps, norm, (0, 1))
    ensures Scale(NetAccelerations(ms, ps, norm)[1], ms[1]) == Neg(ForceBetween(ms, ps, norm, (0, 1)))
  {
    var z := Zeros(2);
    var r := ApplyPair(z, ms, ps, norm, (0, 1));
    assert Pairs(2) == [(0, 1)] by {
      assert PairsBelow(1, 2) == [(0, 1)];
    }
    assert Accumulate(z, ms, ps, norm, [(0, 1)]) == r by {
      assert [(0, 1)][..0] == [];
    }
    ApplyPairNewton(z, ms, ps, norm, (0, 1));
    assert Sub(r[0], z[0]) == r[0] && Sub(r[1], z[1]) == r[1];
  }

  /** A lone body has no pair and so no acceleration. */
  lemma LoneBodyUnaccelerated(ms: seq<real>, ps: seq<Vec3>, norm: Vec3 -> real)
    requires |ms| == |ps| == 1 && Positive(ms) && Separated(ps, norm)
    ensures NetAccelerations(ms, ps, norm) == [Zero]
  {
    assert Pairs(1) == [];
  }
}
