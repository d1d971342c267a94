/**
 * The row-major 4x4 matrix of Sources/Math.swift and the affine transforms
 * built from it.  Entries are exact reals.
 */
module MatrixTransform {
  import opened Results
  import opened VectorAlgebra

  /** Component j (0..3) of a 4-vector. */
  function Comp(v: Vec4f, j: nat): real
    requires j < 4
  {
    if j == 0 then v.x else if j == 1 then v.y else if j == 2 then v.z else v.w
  }

  /** 4x4 matrix given by its four rows. */
  datatype Mat4f = Mat4f(r1: Vec4f, r2: Vec4f, r3: Vec4f, r4: Vec4f) {

    /** Row i (0..3). */
    function Row(i: nat): Vec4f
      requires i < 4
    {
      if i == 0 then r1 else if i == 1 then r2 else if i == 2 then r3 else r4
    }

    /** Entry in row i, column j. */
    function At(i: nat, j: nat): real
      requires i < 4 && j < 4
    {
      Comp(Row(i), j)
    }

    static function Identity(): (m: Mat4f)
      ensures forall i, j | 0 <= i < 4 && 0 <= j < 4 :: m.At(i, j) == if i == j then 1.0 else 0.0
    {
      Mat4f(Vec4f(1.0, 0.0, 0.0, 0.0),
            Vec4f(0.0, 1.0, 0.0, 0.0),
            Vec4f(0.0, 0.0, 1.0, 0.0),
            Vec4f(0.0, 0.0, 0.0, 1.0))
    }

    /** Translation by v: the offset sits in the fourth column. */
    static function Translate(v: Vec3f): (m: Mat4f)
      ensures m.IsAffine() && m.Offset() == v
      ensures forall i, j | 0 <= i < 3 && 0 <= j < 3 :: m.At(i, j) == if i == j then 1.0 else 0.0
    {
      Mat4f(Vec4f(1.0, 0.0, 0.0, v.x),
            Vec4f(0.0, 1.0, 0.0, v.y),
            Vec4f(0.0, 0.0, 1.0, v.z),
            Vec4f(0.0, 0.0, 0.0, 1.0))
    }

    /** Scaling by v along the axes. */
    static function Scale(v: Vec3f): (m: Mat4f)
      ensures m.IsAffine() && m.Offset() == Vec3f(0.0, 0.0, 0.0)
      ensures m.At(0, 0) == v.x && m.At(1, 1) == v.y && m.At(2, 2) == v.z
      ensures forall i, j | 0 <= i < 3 && 0 <= j < 3 && i != j :: m.At(i, j) == 0.0
    {
      Mat4f(Vec4f(v.x, 0.0, 0.0, 0.0),
            Vec4f(0.0, v.y, 0.0, 0.0),
            Vec4f(0.0, 0.0, v.z, 0.0),
            Vec4f(0.0, 0.0, 0.0, 1.0))
    }

    /**
     * The axis-angle matrix of `rotate(v:angle:)` for the cosine c and sine s
     * of the angle, with the three diagonal products x2, y2, z2 supplied.
     */
    static function AxisAngle(v: Vec3f, c: real, s: real, x2: real, y2: real, z2: real): (m: Mat4f)
      ensures m.IsAffine() && m.Offset() == Vec3f(0.0, 0.0, 0.0)
      // the antisymmetric part is the sine times the cross-product matrix of the axis
      ensures m.At(2, 1) - m.At(1, 2) == 2.0 * v.x * s
      ensures m.At(0, 2) - m.At(2, 0) == 2.0 * v.y * s
      ensures m.At(1, 0) - m.At(0, 1) == 2.0 * v.z * s
    {
      Mat4f(Vec4f(x2 + (1.0 - x2) * c, v.x * v.y * (1.0 - c) - v.z * s, v.x * v.z * (1.0 - c) + v.y * s, 0.0),
            Vec4f(v.x * v.y * (1.0 - c) + v.z * s, y2 + (1.0 - y2) * c, v.y * v.z * (1.0 - c) - v.x * s, 0.0),
            Vec4f(v.x * v.z * (1.0 - c) - v.y * s, v.y * v.z * (1.0 - c) + v.x * s, z2 + (1.0 - z2) * c, 0.0),
            Vec4f(0.0, 0.0, 0.0, 1.0))
    }

    /** `rotate(v:angle:)` as written: its diagonal products are x*x, y*x and z*z. */
    static function RotateAsWritten(v: Vec3f, c: real, s: real): Mat4f {
      AxisAngle(v, c, s, v.x * v.x, v.y * v.x, v.z * v.z)
    }

    /** The rotation the source evidently intends, with y2 = y*y. */
    static function Rotate(v: Vec3f, c: real, s: real): Mat4f {
      AxisAngle(v, c, s, v.x * v.x, v.y * v.y, v.z * v.z)
    }

    /** Rows become columns. */
    function Transpose(): (t: Mat4f)
      ensures forall i, j | 0 <= i < 4 && 0 <= j < 4 :: t.At(i, j) == At(j, i)
    {
      Mat4f(Vec4f(r1.x, r2.x, r3.x, r4.x),
            Vec4f(r1.y, r2.y, r3.y, r4.y),
            Vec4f(r1.z, r2.z, r3.z, r4.z),
            Vec4f(r1.w, r2.w, r3.w, r4.w))
    }

    /** `M * x`: each output component is a row dotted with x. */
    function MulVec(v: Vec4f): (r: Vec4f)
      ensures forall i | 0 <= i < 4 :: Comp(r, i) == Row(i).Dot(v)
    {
      Vec4f(r1.Dot(v), r2.Dot(v), r3.Dot(v), r4.Dot(v))
    }

    /**
     * `A * B`, computed as in the source: multiply A by each column of B
     * (the rows of B's transpose) and transpose the result back.
     */
    function Mul(b: Mat4f): (r: Mat4f)
      ensures forall i, j | 0 <= i < 4 && 0 <= j < 4 :: r.At(i, j) == RowTimesColumn(this, b, i, j)
    {
      var t := b.Transpose();
      var p := Mat4f(MulVec(t.r1), MulVec(t.r2), MulVec(t.r3), MulVec(t.r4));
      assert forall i, j | 0 <= i < 4 && 0 <= j < 4 :: p.At(j, i) == RowTimesColumn(this, b, i, j) by {
        forall i, j | 0 <= i < 4 && 0 <= j < 4 ensures p.At(j, i) == RowTimesColumn(this, b, i, j) {
          ColumnProduct(this, b, i, j);
          assert p.Row(j) == MulVec(t.Row(j));
        }
      }
      p.Transpose()
    }

    /**
     * `transformPoint`: the point is lifted with w = 1, transformed, and
     * divided by the resulting w.  A zero w has no real quotient (the
     * source yields IEEE infinities or NaN) and gives None.
     */
    function TransformPoint(p: Vec3f): (r: Option<Vec3f>)
      ensures r.None? <==> MulVec(Vec4f.FromPoint(p)).w == 0.0
    {
      var q := MulVec(Vec4f.FromPoint(p));
      if q.w == 0.0 then None else Some(Vec3f(q.x / q.w, q.y / q.w, q.z / q.w))
    }

    /** `transformDirection`: only the upper-left 3x3 block acts. */
    function TransformDirection(v: Vec3f): (r: Vec3f)
      ensures r.x == MulVec(Vec4f(v.x, v.y, v.z, 0.0)).x
      ensures r.y == MulVec(Vec4f(v.x, v.y, v.z, 0.0)).y
      ensures r.z == MulVec(Vec4f(v.x, v.y, v.z, 0.0)).z
    {
      Vec3f(r1.Dot3(v), r2.Dot3(v), r3.Dot3(v))
    }

    /** The `==` operator: exact comparison of all sixteen entries. */
    predicate Equal(b: Mat4f)
      ensures Equal(b) <==> this == b
    {
      r1.Equal(b.r1) && r2.Equal(b.r2) && r3.Equal(b.r3) && r4.Equal(b.r4)
    }

    /** The bottom row is (0, 0, 0, 1): the matrix is an affine map. */
    predicate IsAffine() {
      r4 == Vec4f(0.0, 0.0, 0.0, 1.0)
    }

    /** Fourth column, the translation part of an affine matrix. */
    function Offset(): Vec3f {
      Vec3f(r1.w, r2.w, r3.w)
    }
  }

  /** Row i of a dotted with column j of b: the textbook matrix product entry. */
  function RowTimesColumn(a: Mat4f, b: Mat4f, i: nat, j: nat): real
    requires i < 4 && j < 4
  {
    a.At(i, 0) * b.At(0, j) + a.At(i, 1) * b.At(1, j) + a.At(i, 2) * b.At(2, j) + a.At(i, 3) * b.At(3, j)
  }

  /** Entry i of A times column j of B is the row-times-column sum. */
  lemma ColumnProduct(a: Mat4f, b: Mat4f, i: nat, j: nat)
    requires i < 4 && j < 4
    ensures Comp(a.MulVec(b.Transpose().Row(j)), i) == RowTimesColumn(a, b, i, j)
  {
    var c := b.Transpose().Row(j);
    assert c == Vec4f(b.At(0, j), b.At(1, j), b.At(2, j), b.At(3, j));
    assert a.Row(i) == Vec4f(a.At(i, 0), a.At(i, 1), a.At(i, 2), a.At(i, 3));
  }

  /** Matrices are equal when all their entries are. */
  lemma EntriesDetermineMatrix(a: Mat4f, b: Mat4f)
    requires forall i, j | 0 <= i < 4 && 0 <= j < 4 :: a.At(i, j) == b.At(i, j)
    ensures a == b
  {
    assert a.At(0, 0) == b.At(0, 0) && a.At(0, 1) == b.At(0, 1) && a.At(0, 2) == b.At(0, 2) && a.At(0, 3) == b.At(0, 3);
    assert a.At(1, 0) == b.At(1, 0) && a.At(1, 1) == b.At(1, 1) && a.At(1, 2) == b.At(1, 2) && a.At(1, 3) == b.At(1, 3);
    assert a.At(2, 0) == b.At(2, 0) && a.At(2, 1) == b.At(2, 1) && a.At(2, 2) == b.At(2, 2) && a.At(2, 3) == b.At(2, 3);
    assert a.At(3, 0) == b.At(3, 0) && a.At(3, 1) == b.At(3, 1) && a.At(3, 2) == b.At(3, 2) && a.At(3, 3) == b.At(3, 3);
  }

  lemma TransposeInvolution(m: Mat4f)
    ensures m.Transpose().Transpose() == m
  {
  }

  /** The identity is a unit on both sides of the product. */
  lemma IdentityIsUnit(m: Mat4f)
    ensures m.Mul(Mat4f.Identity()) == m
    ensures Mat4f.Identity().Mul(m) == m
  {
    var id := Mat4f.Identity();
    forall i, j | 0 <= i < 4 && 0 <= j < 4 ensures m.Mul(id).At(i, j) == m.At(i, j) {
      assert RowTimesColumn(m, id, i, j) == m.At(i, j);
    }
    EntriesDetermineMatrix(m.Mul(id), m);
    forall i, j | 0 <= i < 4 && 0 <= j < 4 ensures id.Mul(m).At(i, j) == m.At(i, j) {
      assert RowTimesColumn(id, m, i, j) == m.At(i, j);
    }
    EntriesDetermineMatrix(id.Mul(m), m);
  }

  /** The product of the matrices in the repository's matrix test. */
  lemma TestProduct()
    ensures
      var a := Mat4f(Vec4f(1.0, 2.0, 3.0, 4.0), Vec4f(5.0, 6.0, 7.0, 8.0),
                     Vec4f(9.0, 10.0, 11.0, 12.0), Vec4f(13.0, 14.0, 15.0, 16.0));
      var b := Mat4f(Vec4f(17.0, 18.0, 19.0, 20.0), Vec4f(21.0, 22.0, 23.0, 24.0),
                     Vec4f(25.0, 26.0, 27.0, 28.0), Vec4f(29.0, 30.0, 31.0, 23.0));
      a.Mul(b) == Mat4f(Vec4f(250.0, 260.0, 270.0, 244.0), Vec4f(618.0, 644.0, 670.0, 624.0),
                        Vec4f(986.0, 1028.0, 1070.0, 1004.0), Vec4f(1354.0, 1412.0, 1470.0, 1384.0))
  {
    var a := Mat4f(Vec4f(1.0, 2.0, 3.0, 4.0), Vec4f(5.0, 6.0, 7.0, 8.0),
                   Vec4f(9.0, 10.0, 11.0, 12.0), Vec4f(13.0, 14.0, 15.0, 16.0));
    var b := Mat4f(Vec4f(17.0, 18.0, 19.0, 20.0), Vec4f(21.0, 22.0, 23.0, 24.0),
                   Vec4f(25.0, 26.0, 27.0, 28.0), Vec4f(29.0, 30.0, 31.0, 23.0));
    var t := b.Transpose();
    assert t == Mat4f(Vec4f(17.0, 21.0, 25.0, 29.0), Vec4f(18.0, 22.0, 26.0, 30.0),
                      Vec4f(19.0, 23.0, 27.0, 31.0), Vec4f(20.0, 24.0, 28.0, 23.0));
    assert a.MulVec(t.r1) == Vec4f(250.0, 618.0, 986.0, 1354.0);
    assert a.MulVec(t.r2) == Vec4f(260.0, 644.0, 1028.0, 1412.0);
    assert a.MulVec(t.r3) == Vec4f(270.0, 670.0, 1070.0, 1470.0);
    assert a.MulVec(t.r4) == Vec4f(244.0, 624.0, 1004.0, 1384.0);
  }

  /**
   * An affine matrix maps a point to its linear image plus the offset; the
   * perspective divide is by 1 and never fails.
   */
  lemma AffineTransformPoint(m: Mat4f, p: Vec3f)
    requires m.IsAffine()
    ensures m.TransformPoint(p) == Some(m.TransformDirection(p).Add(m.Offset()))
  {
    var q := m.MulVec(Vec4f.FromPoint(p));
    assert q == Vec4f(m.r1.Dot(Vec4f.FromPoint(p)), m.r2.Dot(Vec4f.FromPoint(p)),
                      m.r3.Dot(Vec4f.FromPoint(p)), m.r4.Dot(Vec4f.FromPoint(p)));
    assert q.w == 1.0;
    assert q.x == m.r1.Dot3(p) + m.r1.w;
    assert q.y == m.r2.Dot3(p) + m.r2.w;
    assert q.z == m.r3.Dot3(p) + m.r3.w;
    assert q.x / q.w == q.x && q.y / q.w == q.y && q.z / q.w == q.z;
    assert m.TransformPoint(p) == Some(Vec3f(q.x, q.y, q.z));
  }

  /** Translating a point adds the offset. */
  lemma TranslatePoint(t: Vec3f, p: Vec3f)
    ensures Mat4f.Translate(t).TransformPoint(p) == Some(p.Add(t))
  {
    AffineTransformPoint(Mat4f.Translate(t), p);
  }

  /** Translation leaves directions unchanged. */
  lemma TranslateDirection(t: Vec3f, v: Vec3f)
    ensures Mat4f.Translate(t).TransformDirection(v) == v
  {
  }

  /** Scaling a point is the component-wise product with the scale vector. */
  lemma ScalePoint(s: Vec3f, p: Vec3f)
    ensures Mat4f.Scale(s).TransformPoint(p) == Some(p.PointMul(s))
  {
    var m := Mat4f.Scale(s);
    AffineTransformPoint(m, p);
    assert m.Offset() == Vec3f(0.0, 0.0, 0.0);
    assert m.TransformDirection(p) == Vec3f(s.x * p.x, s.y * p.y, s.z * p.z);
    assert s.x * p.x == p.x * s.x && s.y * p.y == p.y * s.y && s.z * p.z == p.z * s.z;
    assert m.TransformDirection(p).Add(m.Offset()) == p.PointMul(s);
  }

  /** The identity moves neither points nor directions. */
  lemma IdentityTransforms(p: Vec3f)
    ensures Mat4f.Identity().TransformPoint(p) == Some(p)
    ensures Mat4f.Identity().TransformDirection(p) == p
  {
    AffineTransformPoint(Mat4f.Identity(), p);
  }

  /**
   * The corrected rotation about a coordinate axis, by any angle (cosine c,
   * sine s), leaves that axis where it is.
   */
  lemma RotateFixesX(c: real, s: real)
    ensures Mat4f.Rotate(Vec3f(1.0, 0.0, 0.0), c, s).TransformDirection(Vec3f(1.0, 0.0, 0.0)) == Vec3f(1.0, 0.0, 0.0)
  {
    var m := Mat4f.Rotate(Vec3f(1.0, 0.0, 0.0), c, s);
    assert m.r1 == Vec4f(1.0, 0.0, 0.0, 0.0);
    assert m.r2.x == 0.0 && m.r3.x == 0.0;
  }

  lemma RotateFixesY(c: real, s: real)
    ensures Mat4f.Rotate(Vec3f(0.0, 1.0, 0.0), c, s).TransformDirection(Vec3f(0.0, 1.0, 0.0)) == Vec3f(0.0, 1.0, 0.0)
  {
    var m := Mat4f.Rotate(Vec3f(0.0, 1.0, 0.0), c, s);
    assert m.r2 == Vec4f(0.0, 1.0, 0.0, 0.0);
    assert m.r1.y == 0.0 && m.r3.y == 0.0;
  }

  lemma RotateFixesZ(c: real, s: real)
    ensures Mat4f.Rotate(Vec3f(0.0, 0.0, 1.0), c, s).TransformDirection(Vec3f(0.0, 0.0, 1.0)) == Vec3f(0.0, 0.0, 1.0)
  {
    var m := Mat4f.Rotate(Vec3f(0.0, 0.0, 1.0), c, s);
    assert m.r3 == Vec4f(0.0, 0.0, 1.0, 0.0);
    assert m.r1.z == 0.0 && m.r2.z == 0.0;
  }

  /**
   * The formula as written sends the unit y axis to (0, c, 0): it moves its
   * own axis for every angle whose cosine is not 1.
   */
  lemma RotateAsWrittenShrinksY(c: real, s: real)
    ensures Mat4f.RotateAsWritten(Vec3f(0.0, 1.0, 0.0), c, s).TransformDirection(Vec3f(0.0, 1.0, 0.0)) == Vec3f(0.0, c, 0.0)
    ensures c != 1.0 ==> Mat4f.RotateAsWritten(Vec3f(0.0, 1.0, 0.0), c, s).TransformDirection(Vec3f(0.0, 1.0, 0.0)) != Vec3f(0.0, 1.0, 0.0)
  {
    var m := Mat4f.RotateAsWritten(Vec3f(0.0, 1.0, 0.0), c, s);
    assert m.r2 == Vec4f(0.0, c, 0.0, 0.0);
    assert m.r1.y == 0.0 && m.r3.y == 0.0;
  }

  /** The two formulas differ only in the middle diagonal entry, by (y*y - y*x)*(1 - c). */
  lemma RotateAsWrittenDiffersOnlyAtY(v: Vec3f, c: real, s: real)
    ensures var (w, r) := (Mat4f.RotateAsWritten(v, c, s), Mat4f.Rotate(v, c, s));
      && w.r1 == r.r1 && w.r3 == r.r3 && w.r4 == r.r4
      && w.r2.x == r.r2.x && w.r2.z == r.r2.z && w.r2.w == r.r2.w
      && r.r2.y - w.r2.y == (v.y * v.y - v.y * v.x) * (1.0 - c)
  {
  }
}
