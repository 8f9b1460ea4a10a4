/**
 * Coordinates, rigid transformations and their homogeneous (4-component)
 * forms, with the 4×4 matrix products used to compose them.
 *
 * A rigid transformation is stored as a 3×4 matrix of reals: three rows,
 * each holding a row of the 3×3 rotation block followed by one translation
 * entry. Its homogeneous form is the 4×4 matrix with the row [0, 0, 0, 1]
 * appended. Matrices are over `real`: the script's float32 inputs and its
 * float64 products are modelled exactly, without rounding.
 */
module Homogeneous {

  /** A row or column of four reals (also a point in homogeneous form). */
  datatype Vec4 = Vec4(x0: real, x1: real, x2: real, x3: real)

  /** A 4×4 matrix, by rows. */
  datatype Mat44 = Mat44(r0: Vec4, r1: Vec4, r2: Vec4, r3: Vec4)

  /** A point in 3-space. */
  datatype Coordinate = Coordinate(x: real, y: real, z: real)

  /**
   * A rigid transformation as its 3×4 matrix, by rows. The rotation block is
   * meant to be orthonormal, but nothing here checks or relies on that.
   */
  datatype RigidTransformation = RigidTransformation(r0: Vec4, r1: Vec4, r2: Vec4)

  /** The row appended to a 3×4 matrix to make it homogeneous. */
  const BottomRow: Vec4 := Vec4(0.0, 0.0, 0.0, 1.0)

  /** The 4×4 identity matrix. */
  const Identity44: Mat44 :=
    Mat44(Vec4(1.0, 0.0, 0.0, 0.0), Vec4(0.0, 1.0, 0.0, 0.0),
          Vec4(0.0, 0.0, 1.0, 0.0), BottomRow)

  /** Identity rotation and zero translation. */
  const IdentityTransform: RigidTransformation :=
    RigidTransformation(Identity44.r0, Identity44.r1, Identity44.r2)

  function Dot(a: Vec4, b: Vec4): real {
    a.x0 * b.x0 + a.x1 * b.x1 + a.x2 * b.x2 + a.x3 * b.x3
  }

  // The four columns of a matrix.
  function Col0(m: Mat44): Vec4 { Vec4(m.r0.x0, m.r1.x0, m.r2.x0, m.r3.x0) }
  function Col1(m: Mat44): Vec4 { Vec4(m.r0.x1, m.r1.x1, m.r2.x1, m.r3.x1) }
  function Col2(m: Mat44): Vec4 { Vec4(m.r0.x2, m.r1.x2, m.r2.x2, m.r3.x2) }
  function Col3(m: Mat44): Vec4 { Vec4(m.r0.x3, m.r1.x3, m.r2.x3, m.r3.x3) }

  /** The matrix-vector product m·v. */
  function MatVec(m: Mat44, v: Vec4): Vec4 {
    Vec4(Dot(m.r0, v), Dot(m.r1, v), Dot(m.r2, v), Dot(m.r3, v))
  }

  /** The row-vector-matrix product a·m. */
  function VecMat(a: Vec4, m: Mat44): Vec4 {
    Vec4(Dot(a, Col0(m)), Dot(a, Col1(m)), Dot(a, Col2(m)), Dot(a, Col3(m)))
  }

  /** The matrix product a·b, row by row. */
  function MatMul(a: Mat44, b: Mat44): Mat44 {
    Mat44(VecMat(a.r0, b), VecMat(a.r1, b), VecMat(a.r2, b), VecMat(a.r3, b))
  }

  /** Appends the row [0, 0, 0, 1] to the 3×4 matrix of `t`. */
  function TransformToMat44(t: RigidTransformation): (m: Mat44)
    ensures m.r3 == BottomRow
    ensures Mat44ToTransform(m) == t
  {
    Mat44(t.r0, t.r1, t.r2, BottomRow)
  }

  /** Keeps rows 0 to 2 of `m`, whatever its last row holds. */
  function Mat44ToTransform(m: Mat44): RigidTransformation {
    RigidTransformation(m.r0, m.r1, m.r2)
  }

  /** Appends the component 1 to a point. */
  function CoordinateToHomogeneous(c: Coordinate): (h: Vec4)
    ensures h.x3 == 1.0
    ensures HomogeneousToCoordinate(h) == c
  {
    Vec4(c.x, c.y, c.z, 1.0)
  }

  /** Keeps the first three components; the fourth is dropped, never divided by. */
  function HomogeneousToCoordinate(h: Vec4): Coordinate {
    Coordinate(h.x0, h.x1, h.x2)
  }

  /** Dropping the last row loses nothing exactly when that row is [0, 0, 0, 1]. */
  lemma Mat44RoundTrip(m: Mat44)
    ensures TransformToMat44(Mat44ToTransform(m)) == m <==> m.r3 == BottomRow
  {
  }

  /** Dropping the last component loses nothing exactly when it is 1. */
  lemma HomogeneousRoundTrip(h: Vec4)
    ensures CoordinateToHomogeneous(HomogeneousToCoordinate(h)) == h <==> h.x3 == 1.0
  {
  }

  function Add(u: Vec4, v: Vec4): Vec4 {
    Vec4(u.x0 + v.x0, u.x1 + v.x1, u.x2 + v.x2, u.x3 + v.x3)
  }

  function Scale(k: real, v: Vec4): Vec4 {
    Vec4(k * v.x0, k * v.x1, k * v.x2, k * v.x3)
  }

  /** a·B is the combination of the rows of B weighted by the entries of a. */
  lemma VecMatRows(a: Vec4, b: Mat44)
    ensures VecMat(a, b) == Add(Add(Add(Scale(a.x0, b.r0), Scale(a.x1, b.r1)), Scale(a.x2, b.r2)), Scale(a.x3, b.r3))
  {
    var s0, s1, s2, s3 := Scale(a.x0, b.r0), Scale(a.x1, b.r1), Scale(a.x2, b.r2), Scale(a.x3, b.r3);
    var r := Add(Add(Add(s0, s1), s2), s3);
    assert r.x0 == Dot(a, Col0(b));
    assert r.x1 == Dot(a, Col1(b));
    assert r.x2 == Dot(a, Col2(b));
    assert r.x3 == Dot(a, Col3(b));
  }

  lemma DotAdd(u: Vec4, v: Vec4, c: Vec4)
    ensures Dot(Add(u, v), c) == Dot(u, c) + Dot(v, c)
  {
    assert (u.x0 + v.x0) * c.x0 == u.x0 * c.x0 + v.x0 * c.x0;
    assert (u.x1 + v.x1) * c.x1 == u.x1 * c.x1 + v.x1 * c.x1;
    assert (u.x2 + v.x2) * c.x2 == u.x2 * c.x2 + v.x2 * c.x2;
    assert (u.x3 + v.x3) * c.x3 == u.x3 * c.x3 + v.x3 * c.x3;
  }

  lemma DotScale(k: real, v: Vec4, c: Vec4)
    ensures Dot(Scale(k, v), c) == k * Dot(v, c)
  {
    assert (k * v.x0) * c.x0 == k * (v.x0 * c.x0);
    assert (k * v.x1) * c.x1 == k * (v.x1 * c.x1);
    assert (k * v.x2) * c.x2 == k * (v.x2 * c.x2);
    assert (k * v.x3) * c.x3 == k * (v.x3 * c.x3);
  }

  /** (a·B)·c == a·(B·c): the single step behind both associativity laws. */
  lemma DotAssoc(a: Vec4, b: Mat44, c: Vec4)
    ensures Dot(VecMat(a, b), c) == Dot(a, MatVec(b, c))
  {
    var s0, s1, s2, s3 := Scale(a.x0, b.r0), Scale(a.x1, b.r1), Scale(a.x2, b.r2), Scale(a.x3, b.r3);
    VecMatRows(a, b);
    DotAdd(Add(Add(s0, s1), s2), s3, c);
    DotAdd(Add(s0, s1), s2, c);
    DotAdd(s0, s1, c);
    DotScale(a.x0, b.r0, c);
    DotScale(a.x1, b.r1, c);
    DotScale(a.x2, b.r2, c);
    DotScale(a.x3, b.r3, c);
  }

  lemma VecMatAssoc(a: Vec4, b: Mat44, c: Mat44)
    ensures VecMat(VecMat(a, b), c) == VecMat(a, MatMul(b, c))
  {
    var bc := MatMul(b, c);
    DotAssoc(a, b, Col0(c));
    assert Col0(bc) == MatVec(b, Col0(c));
    DotAssoc(a, b, Col1(c));
    assert Col1(bc) == MatVec(b, Col1(c));
    DotAssoc(a, b, Col2(c));
    assert Col2(bc) == MatVec(b, Col2(c));
    DotAssoc(a, b, Col3(c));
    assert Col3(bc) == MatVec(b, Col3(c));
  }

  /** Matrix multiplication is associative. */
  lemma MatMulAssoc(a: Mat44, b: Mat44, c: Mat44)
    ensures MatMul(MatMul(a, b), c) == MatMul(a, MatMul(b, c))
  {
    VecMatAssoc(a.r0, b, c);
    VecMatAssoc(a.r1, b, c);
    VecMatAssoc(a.r2, b, c);
    VecMatAssoc(a.r3, b, c);
  }

  /** (A·B)·v == A·(B·v). */
  lemma MatVecAssoc(a: Mat44, b: Mat44, v: Vec4)
    ensures MatVec(MatMul(a, b), v) == MatVec(a, MatVec(b, v))
  {
    DotAssoc(a.r0, b, v);
    DotAssoc(a.r1, b, v);
    DotAssoc(a.r2, b, v);
    DotAssoc(a.r3, b, v);
  }

  /** The identity matrix is a unit on the right ... */
  lemma MatMulIdentityRight(m: Mat44)
    ensures MatMul(m, Identity44) == m
  {
  }

  /** ... and on the left. */
  lemma MatMulIdentityLeft(m: Mat44)
    ensures MatMul(Identity44, m) == m
  {
  }
}
