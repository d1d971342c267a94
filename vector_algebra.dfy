/**
 * Three- and four-component vectors of Sources/Math.swift, together with the
 * scalar helper `Float.clamp`.  Components are exact reals: the single
 * precision rounding of the original is not modelled, so every algebraic law
 * below holds exactly.
 */
module VectorAlgebra {

  function Min(a: real, b: real): real { if a <= b then a else b }
  function Max(a: real, b: real): real { if a >= b then a else b }

  /** `Float.clamp(lower:upper:)`, written as `max(min(self, upper), lower)`. */
  function Clamp(x: real, lower: real, upper: real): (r: real)
    ensures lower <= upper ==> lower <= r <= upper
    ensures lower <= x <= upper ==> r == x
    ensures x < lower ==> r == lower
    ensures lower <= upper < x ==> r == upper
    // an empty interval is resolved in favour of the lower bound
    ensures upper < lower ==> r == lower
  {
    Max(Min(x, upper), lower)
  }

  /** 3x1 vector. */
  datatype Vec3f = Vec3f(x: real, y: real, z: real) {

    static function Zero(): Vec3f { Vec3f(0.0, 0.0, 0.0) }

    function Dot(rhs: Vec3f): real {
      x * rhs.x + y * rhs.y + z * rhs.z
    }

    /** Dot product floored at zero, as used for lighting terms. */
    function Dot0(rhs: Vec3f): (r: real)
      ensures r >= 0.0
      ensures Dot(rhs) >= 0.0 ==> r == Dot(rhs)
      ensures Dot(rhs) < 0.0 ==> r == 0.0
    {
      Max(Dot(rhs), 0.0)
    }

    /** Right-handed cross product: orthogonal to both operands. */
    function Cross(rhs: Vec3f): (r: Vec3f)
      ensures r.Dot(this) == 0.0 && r.Dot(rhs) == 0.0
    {
      Vec3f(y * rhs.z - z * rhs.y,
            z * rhs.x - x * rhs.z,
            x * rhs.y - y * rhs.x)
    }

    /** Component-wise (Hadamard) product. */
    function PointMul(rhs: Vec3f): Vec3f {
      Vec3f(x * rhs.x, y * rhs.y, z * rhs.z)
    }

    function Scale(s: real): Vec3f {
      Vec3f(x * s, y * s, z * s)
    }

    /** Squared length: never negative, and zero for the zero vector. */
    function MagnitudeSquared(): (r: real)
      ensures r >= 0.0
      ensures this == Zero() ==> r == 0.0
    {
      assert x * x >= 0.0 && y * y >= 0.0 && z * z >= 0.0;
      Dot(this)
    }

    /**
     * With `this` and `b` the first two columns of a 3x3 matrix, the vector
     * whose dot product with the third column is the determinant.
     */
    function PartialDeterminant(b: Vec3f): (r: Vec3f)
      ensures r == Cross(b)
    {
      var a := this;
      Vec3f(a.y * b.z - a.z * b.y,
            a.z * b.x - a.x * b.z,
            a.x * b.y - a.y * b.x)
    }

    function Add(rhs: Vec3f): Vec3f {
      Vec3f(x + rhs.x, y + rhs.y, z + rhs.z)
    }

    function Sub(rhs: Vec3f): Vec3f {
      Vec3f(x - rhs.x, y - rhs.y, z - rhs.z)
    }

    /** The `==` operator: exact component comparison, no tolerance. */
    predicate Equal(rhs: Vec3f)
      ensures Equal(rhs) <==> this == rhs
    {
      x == rhs.x && y == rhs.y && z == rhs.z
    }
  }

  /** 4x1 vector, used for homogeneous coordinates. */
  datatype Vec4f = Vec4f(x: real, y: real, z: real, w: real) {

    /** `Vec4f(v:)`: a point, so the fourth coordinate is 1. */
    static function FromPoint(v: Vec3f): (r: Vec4f)
      ensures r.w == 1.0
      ensures Vec3f(r.x, r.y, r.z) == v
    {
      Vec4f(v.x, v.y, v.z, 1.0)
    }

    static function Zero(): Vec4f { Vec4f(0.0, 0.0, 0.0, 0.0) }

    function Dot(rhs: Vec4f): real {
      x * rhs.x + y * rhs.y + z * rhs.z + w * rhs.w
    }

    /** Dot product against a 3-vector: the fourth coordinate takes no part. */
    function Dot3(rhs: Vec3f): real {
      x * rhs.x + y * rhs.y + z * rhs.z
    }

    function PointMul(rhs: Vec4f): Vec4f {
      Vec4f(x * rhs.x, y * rhs.y, z * rhs.z, w * rhs.w)
    }

    function Scale(s: real): Vec4f {
      Vec4f(x * s, y * s, z * s, w * s)
    }

    function MagnitudeSquared(): (r: real)
      ensures r >= 0.0
      ensures this == Zero() ==> r == 0.0
    {
      assert x * x >= 0.0 && y * y >= 0.0 && z * z >= 0.0 && w * w >= 0.0;
      Dot(this)
    }

    function Add(rhs: Vec4f): Vec4f {
      Vec4f(x + rhs.x, y + rhs.y, z + rhs.z, w + rhs.w)
    }

    function Sub(rhs: Vec4f): Vec4f {
      Vec4f(x - rhs.x, y - rhs.y, z - rhs.z, w - rhs.w)
    }

    predicate Equal(rhs: Vec4f)
      ensures Equal(rhs) <==> this == rhs
    {
      x == rhs.x && y == rhs.y && z == rhs.z && w == rhs.w
    }
  }

  /** Determinant of the 3x3 matrix with columns a, b, c, expanded along its first row. */
  function Det3(a: Vec3f, b: Vec3f, c: Vec3f): real {
    a.x * (b.y * c.z - c.y * b.z)
    - b.x * (a.y * c.z - c.y * a.z)
    + c.x * (a.y * b.z - b.y * a.z)
  }

  /** `dot3` is the full dot product with the direction (rhs, 0), and ignores w. */
  lemma Dot3IgnoresW(a: Vec4f, rhs: Vec3f)
    ensures a.Dot3(rhs) == a.Dot(Vec4f(rhs.x, rhs.y, rhs.z, 0.0))
    ensures a.Dot3(rhs) == Vec3f(a.x, a.y, a.z).Dot(rhs)
  {
  }

  /** Dotting the partial determinant with the third column gives the determinant. */
  lemma PartialDeterminantIsDeterminant(a: Vec3f, b: Vec3f, c: Vec3f)
    ensures a.PartialDeterminant(b).Dot(c) == Det3(a, b, c)
  {
  }

  /** A matrix with two equal columns has determinant zero. */
  lemma DeterminantRepeatedColumn(a: Vec3f, c: Vec3f)
    ensures Det3(a, a, c) == 0.0 && Det3(a, c, a) == 0.0 && Det3(c, a, a) == 0.0
  {
  }

  lemma CrossAntiCommutative(a: Vec3f, b: Vec3f)
    ensures a.Cross(b) == b.Cross(a).Scale(-1.0)
  {
  }

  lemma DotSymmetric(a: Vec3f, b: Vec3f)
    ensures a.Dot(b) == b.Dot(a)
  {
  }

  lemma Dot4Symmetric(a: Vec4f, b: Vec4f)
    ensures a.Dot(b) == b.Dot(a)
  {
  }

  /** Subtraction undoes addition, and the zero vector is neutral. */
  lemma SubUndoesAdd(a: Vec3f, b: Vec3f)
    ensures a.Add(b).Sub(b) == a
    ensures a.Add(Vec3f.Zero()) == a
  {
  }

  lemma Sub4UndoesAdd(a: Vec4f, b: Vec4f)
    ensures a.Add(b).Sub(b) == a
    ensures a.Add(Vec4f.Zero()) == a
  {
  }

  /** Scaling by s and then by 1/s is the identity. */
  lemma ScaleRoundTrip(v: Vec3f, s: real)
    requires s != 0.0
    ensures v.Scale(s).Scale(1.0 / s) == v
  {
    assert s * (1.0 / s) == 1.0;
    assert v.x * s * (1.0 / s) == v.x * (s * (1.0 / s));
    assert v.y * s * (1.0 / s) == v.y * (s * (1.0 / s));
    assert v.z * s * (1.0 / s) == v.z * (s * (1.0 / s));
  }

  lemma Scale4RoundTrip(v: Vec4f, s: real)
    requires s != 0.0
    ensures v.Scale(s).Scale(1.0 / s) == v
  {
    assert s * (1.0 / s) == 1.0;
    assert v.x * s * (1.0 / s) == v.x * (s * (1.0 / s));
    assert v.y * s * (1.0 / s) == v.y * (s * (1.0 / s));
    assert v.z * s * (1.0 / s) == v.z * (s * (1.0 / s));
    assert v.w * s * (1.0 / s) == v.w * (s * (1.0 / s));
  }

  /** Hadamard product is commutative and scaling is a Hadamard product with (s, s, s). */
  lemma PointMulProperties(a: Vec3f, b: Vec3f, s: real)
    ensures a.PointMul(b) == b.PointMul(a)
    ensures a.Scale(s) == a.PointMul(Vec3f(s, s, s))
  {
  }

  /** The same laws for four components. */
  lemma Point4MulProperties(a: Vec4f, b: Vec4f, s: real)
    ensures a.PointMul(b) == b.PointMul(a)
    ensures a.Scale(s) == a.PointMul(Vec4f(s, s, s, s))
  {
  }

  /** The vector values checked by the repository's tests. */
  lemma Vec3fTestValues()
    ensures Vec3f(1.0, 2.0, 3.0).Add(Vec3f(4.0, 5.0, 6.0)) == Vec3f(5.0, 7.0, 9.0)
    ensures Vec3f(1.0, 2.0, 3.0).Sub(Vec3f(4.0, 5.0, 6.0)) == Vec3f(-3.0, -3.0, -3.0)
    ensures Vec3f(1.0, 2.0, 3.0).PointMul(Vec3f(4.0, 5.0, 6.0)) == Vec3f(4.0, 10.0, 18.0)
    ensures Vec3f(1.0, 2.0, 3.0).Scale(3.0) == Vec3f(3.0, 6.0, 9.0)
  {
  }

  lemma Vec3fTestProducts()
    ensures Vec3f(1.0, 2.0, 3.0).Cross(Vec3f(4.0, 5.0, 6.0)) == Vec3f(-3.0, 6.0, -3.0)
    ensures Vec3f(1.0, 2.0, 3.0).Dot(Vec3f(4.0, 5.0, 6.0)) == 32.0
    ensures Vec3f(1.0, 2.0, 3.0).MagnitudeSquared() == 14.0
  {
    var u, v := Vec3f(1.0, 2.0, 3.0), Vec3f(4.0, 5.0, 6.0);
    assert u.Cross(v) == Vec3f(2.0 * 6.0 - 3.0 * 5.0, 3.0 * 4.0 - 1.0 * 6.0, 1.0 * 5.0 - 2.0 * 4.0);
    assert u.Dot(v) == 1.0 * 4.0 + 2.0 * 5.0 + 3.0 * 6.0;
    assert u.MagnitudeSquared() == u.Dot(u) == 1.0 * 1.0 + 2.0 * 2.0 + 3.0 * 3.0;
  }

  lemma Vec4fTestValues()
    ensures Vec4f(1.0, 2.0, 3.0, 4.0).Add(Vec4f(5.0, 6.0, 7.0, 8.0)) == Vec4f(6.0, 8.0, 10.0, 12.0)
    ensures Vec4f(1.0, 2.0, 3.0, 4.0).Sub(Vec4f(5.0, 6.0, 7.0, 8.0)) == Vec4f(-4.0, -4.0, -4.0, -4.0)
    ensures Vec4f(1.0, 2.0, 3.0, 4.0).PointMul(Vec4f(5.0, 6.0, 7.0, 8.0)) == Vec4f(5.0, 12.0, 21.0, 32.0)
    ensures Vec4f(1.0, 2.0, 3.0, 4.0).Dot(Vec4f(5.0, 6.0, 7.0, 8.0)) == 70.0
    ensures Vec4f(1.0, 2.0, 3.0, 4.0).Scale(3.0) == Vec4f(3.0, 6.0, 9.0, 12.0)
    ensures Vec4f(1.0, 2.0, 3.0, 4.0).MagnitudeSquared() == 30.0
  {
    var u, v := Vec4f(1.0, 2.0, 3.0, 4.0), Vec4f(5.0, 6.0, 7.0, 8.0);
    assert u.Dot(v) == 1.0 * 5.0 + 2.0 * 6.0 + 3.0 * 7.0 + 4.0 * 8.0;
    assert u.MagnitudeSquared() == u.Dot(u) == 1.0 * 1.0 + 2.0 * 2.0 + 3.0 * 3.0 + 4.0 * 4.0;
  }
}
