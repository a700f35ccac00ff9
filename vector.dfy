/** Three-component vectors over exact reals: the part of THREE.Vector3 that the
    physics tick uses (add, sub, multiplyScalar, divideScalar, negate). Every
    operation is a value transform; the in-place `.add` of the source becomes a
    field assignment of the result. */
module Vector {

  datatype Vec3 = Vec3(x: real, y: real, z: real)

  const Zero: Vec3 := Vec3(0.0, 0.0, 0.0)

  function Add(u: Vec3, v: Vec3): Vec3 {
    Vec3(u.x + v.x, u.y + v.y, u.z + v.z)
  }

  function Sub(u: Vec3, v: Vec3): Vec3 {
    Vec3(u.x - v.x, u.y - v.y, u.z - v.z)
  }

  function Neg(v: Vec3): Vec3 {
    Vec3(-v.x, -v.y, -v.z)
  }

  /** multiplyScalar; divideScalar(s) is Scale(v, 1.0 / s), as three.js defines it. */
  function Scale(v: Vec3, s: real): Vec3 {
    Vec3(v.x * s, v.y * s, v.z * s)
  }

  /** The difference of two points is the zero vector exactly when they coincide. */
  lemma SubZero(u: Vec3, v: Vec3)
    ensures Sub(u, v) == Zero <==> u == v
  {
  }

  /** Moving by the kicked velocity v + a h for time h lands a h^2 beyond the
      point reached with the old velocity. */
  lemma KickDrift(p: Vec3, v: Vec3, a: Vec3, h: real)
    ensures Add(p, Scale(Add(v, Scale(a, h)), h)) == Add(Add(p, Scale(v, h)), Scale(a, h * h))
  {
    assert (v.x + a.x * h) * h == v.x * h + a.x * (h * h);
    assert (v.y + a.y * h) * h == v.y * h + a.y * (h * h);
    assert (v.z + a.z * h) * h == v.z * h + a.z * (h * h);
  }

  /** One more term of a weighted sum of kicked velocities, regrouped. */
  lemma KickSumStep(vsum: Vec3, asum: Vec3, v: Vec3, a: Vec3, m: real, h: real)
    ensures Add(Add(vsum, Scale(asum, h)), Scale(Add(v, Scale(a, h)), m))
         == Add(Add(vsum, Scale(v, m)), Scale(Add(asum, Scale(a, m)), h))
  {
    assert (v.x + a.x * h) * m == v.x * m + (a.x * m) * h;
    assert (v.y + a.y * h) * m == v.y * m + (a.y * m) * h;
    assert (v.z + a.z * h) * m == v.z * m + (a.z * m) * h;
    assert (asum.x + a.x * m) * h == asum.x * h + (a.x * m) * h;
    assert (asum.y + a.y * m) * h == asum.y * h + (a.y * m) * h;
    assert (asum.z + a.z * m) * h == asum.z * h + (a.z * m) * h;
  }

  function Cube(d: real): real {
    d * d * d
  }

  /** normalize() then multiplyScalar(c / d^2) is scaling by c / d^3, when d is
      the vector's (positive) length. */
  lemma NormalizeThenScale(v: Vec3, d: real, c: real)
    requires d > 0.0
    ensures Scale(Scale(v, 1.0 / d), c / (d * d)) == Scale(v, c / Cube(d))
  {
    assert (1.0 / d) * (c / (d * d)) == c / Cube(d);
  }

  /** Scaling by s and then by 1 / s gives the vector back. */
  lemma UnscaleBack(v: Vec3, s: real)
    ensures s != 0.0 ==> Scale(Scale(v, s), 1.0 / s) == v
  {
    if s != 0.0 {
      var inv := 1.0 / s;
      assert s * inv == 1.0;
      assert v.x * s * inv == v.x * (s * inv);
      assert v.y * s * inv == v.y * (s * inv);
      assert v.z * s * inv == v.z * (s * inv);
    }
  }

  /** Adding f / m and multiplying the change by m gives back f. */
  lemma AddScaledBack(a: Vec3, f: Vec3, m: real)
    requires m != 0.0
    ensures Scale(Sub(Add(a, Scale(f, 1.0 / m)), a), m) == f
  {
    var inv := 1.0 / m;
    assert m * inv == 1.0;
    assert (a.x + f.x * inv - a.x) * m == f.x * (m * inv);
    assert (a.y + f.y * inv - a.y) * m == f.y * (m * inv);
    assert (a.z + f.z * inv - a.z) * m == f.z * (m * inv);
  }
}
