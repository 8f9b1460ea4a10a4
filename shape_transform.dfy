/**
 * Box shapes and the application of a rigid transformation to every corner
 * of one.
 */
module ShapeTransform {
  import opened Homogeneous
  import opened TransformAlgebra

  /**
   * A shape as its ordered list of corners. A box nominally has eight, in an
   * order the drawing side relies on; nothing here checks the count.
   */
  datatype BoxShape = BoxShape(corners: seq<Coordinate>)

  /** Each corner sent through the one-element chain [t], in order. */
  function TransformCorners(t: RigidTransformation, cs: seq<Coordinate>): (r: seq<Coordinate>)
    ensures |r| == |cs|
    ensures forall i :: 0 <= i < |cs| ==> r[i] == MultTransformsCoord([t], cs[i])
  {
    if cs == [] then [] else [MultTransformsCoord([t], cs[0])] + TransformCorners(t, cs[1..])
  }

  /**
   * The shape with every corner transformed by `t`: as many corners as the
   * original, corner `i` coming from corner `i`.
   */
  function TransformBoxShape(t: RigidTransformation, s: BoxShape): (r: BoxShape)
    ensures |r.corners| == |s.corners|
    ensures forall i :: 0 <= i < |s.corners| ==> r.corners[i] == MultTransformsCoord([t], s.corners[i])
  {
    BoxShape(TransformCorners(t, s.corners))
  }

  /** Each corner is rotated by the 3×3 block of `t` and then translated. */
  lemma TransformBoxShapeAffine(t: RigidTransformation, s: BoxShape, i: nat)
    requires i < |s.corners|
    ensures TransformBoxShape(t, s).corners[i] == RotateTranslate(t, s.corners[i])
  {
    ProductSingleton(t);
  }

  /** The identity transformation leaves a shape as it was. */
  lemma TransformBoxShapeIdentity(s: BoxShape)
    ensures TransformBoxShape(IdentityTransform, s) == s
  {
    var r := TransformBoxShape(IdentityTransform, s);
    forall i | 0 <= i < |s.corners|
      ensures r.corners[i] == s.corners[i]
    {
      TransformBoxShapeAffine(IdentityTransform, s, i);
      RotateTranslateIdentity(s.corners[i]);
    }
    assert r.corners == s.corners;
  }

  lemma RotateTranslateIdentity(c: Coordinate)
    ensures RotateTranslate(IdentityTransform, c) == c
  {
  }

  /**
   * Transforming by `inner` and then by `outer` is transforming once by the
   * composite of the chain [outer, inner].
   */
  lemma TransformBoxShapeCompose(outer: RigidTransformation, inner: RigidTransformation, s: BoxShape)
    ensures TransformBoxShape(outer, TransformBoxShape(inner, s)) == TransformBoxShape(Product([outer, inner]), s)
  {
    var once := TransformBoxShape(Product([outer, inner]), s);
    var twice := TransformBoxShape(outer, TransformBoxShape(inner, s));
    forall i | 0 <= i < |s.corners|
      ensures twice.corners[i] == once.corners[i]
    {
      var c := s.corners[i];
      TransformBoxShapeAffine(inner, s, i);
      TransformBoxShapeAffine(outer, TransformBoxShape(inner, s), i);
      TransformBoxShapeAffine(Product([outer, inner]), s, i);
      MultTransformsCoordPair(outer, inner, c);
    }
  }
}
