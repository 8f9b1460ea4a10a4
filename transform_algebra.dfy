/**
 * Composition of ordered chains of rigid transformations and their
 * application to points.
 *
 * A chain [T0, T1, ..., Tn] is ordered outer to inner: it stands for the
 * homogeneous matrix product M(T0)·M(T1)·…·M(Tn), so the last transformation
 * of the chain is the first one a point goes through.
 */
module TransformAlgebra {
  import opened Homogeneous

  /**
   * The product M(T0)·M(T1)·…·M(Tn) of the homogeneous matrices of a chain,
   * in chain order; the identity for the empty chain. Every such product
   * keeps the bottom row [0, 0, 0, 1].
   */
  function ChainMatrix(ts: seq<RigidTransformation>): (m: Mat44)
    ensures m.r3 == BottomRow
  {
    if ts == [] then Identity44 else MatMul(TransformToMat44(ts[0]), ChainMatrix(ts[1..]))
  }

  /** The single transformation equivalent to a chain. */
  function Product(ts: seq<RigidTransformation>): (t: RigidTransformation)
    ensures TransformToMat44(t) == ChainMatrix(ts)
  {
    Mat44ToTransform(ChainMatrix(ts))
  }

  /**
   * Multiplies a chain of transformations: starting from the identity, it
   * walks the chain from its last element to its first and multiplies each
   * homogeneous matrix onto the left of the accumulator.
   */
  method MultTransforms(ts: seq<RigidTransformation>) returns (r: RigidTransformation)
    ensures r == Product(ts)
  {
    var mat := Identity44;
    for i := |ts| downto 0
      invariant mat == ChainMatrix(ts[i..])
    {
      ChainMatrixSuffix(ts, i);
      mat := MatMul(TransformToMat44(ts[i]), mat);
    }
    assert ts[0..] == ts;
    r := Mat44ToTransform(mat);
  }

  /** One step of the product, taken at position `i` of the chain. */
  lemma ChainMatrixSuffix(ts: seq<RigidTransformation>, i: nat)
    requires i < |ts|
    ensures ChainMatrix(ts[i..]) == MatMul(TransformToMat44(ts[i]), ChainMatrix(ts[i + 1..]))
  {
    assert ts[i..][1..] == ts[i + 1..];
  }

  /** Rotates `c` by the 3×3 block of `t`, then adds its translation column. */
  function RotateTranslate(t: RigidTransformation, c: Coordinate): Coordinate {
    Coordinate(
      t.r0.x0 * c.x + t.r0.x1 * c.y + t.r0.x2 * c.z + t.r0.x3,
      t.r1.x0 * c.x + t.r1.x1 * c.y + t.r1.x2 * c.z + t.r1.x3,
      t.r2.x0 * c.x + t.r2.x1 * c.y + t.r2.x2 * c.z + t.r2.x3)
  }

  /**
   * Applies a chain to a point: the homogeneous matrix of the chain's product
   * times the point in homogeneous form, with the last component dropped.
   * This is plain affine application of the product.
   */
  function MultTransformsCoord(ts: seq<RigidTransformation>, c: Coordinate): (r: Coordinate)
    ensures r == RotateTranslate(Product(ts), c)
  {
    HomogeneousToCoordinate(MatVec(TransformToMat44(Product(ts)), CoordinateToHomogeneous(c)))
  }

  /**
   * Reference semantics of a chain: the point goes through each
   * transformation in turn, the last one of the chain first.
   */
  function ApplyInSequence(ts: seq<RigidTransformation>, c: Coordinate): Coordinate {
    if ts == [] then c else RotateTranslate(ts[0], ApplyInSequence(ts[1..], c))
  }

  /** A homogeneous matrix maps a point in homogeneous form to a point in homogeneous form. */
  lemma MatVecHomogeneous(m: Mat44, c: Coordinate)
    requires m.r3 == BottomRow
    ensures MatVec(m, CoordinateToHomogeneous(c))
         == CoordinateToHomogeneous(RotateTranslate(Mat44ToTransform(m), c))
  {
  }

  /** The empty chain is the identity transformation and moves no point. */
  lemma ProductEmpty(p: Coordinate)
    ensures Product([]) == IdentityTransform
    ensures MultTransformsCoord([], p) == p
  {
  }

  /** A chain of one transformation composes to that transformation. */
  lemma ProductSingleton(t: RigidTransformation)
    ensures Product([t]) == t
  {
    ChainMatrixSingleton(t);
  }

  /** The matrix of a one-element chain is that element's homogeneous matrix. */
  lemma ChainMatrixSingleton(t: RigidTransformation)
    ensures ChainMatrix([t]) == TransformToMat44(t)
  {
    assert [t][1..] == [];
    MatMulIdentityRight(TransformToMat44(t));
  }

  /** The matrix of a concatenated chain is the product of the two chains' matrices. */
  lemma {:induction false} ChainMatrixAppend(a: seq<RigidTransformation>, b: seq<RigidTransformation>)
    ensures ChainMatrix(a + b) == MatMul(ChainMatrix(a), ChainMatrix(b))
  {
    if a == [] {
      assert a + b == b;
      MatMulIdentityLeft(ChainMatrix(b));
    } else {
      assert (a + b)[1..] == a[1..] + b;
      ChainMatrixAppend(a[1..], b);
      MatMulAssoc(TransformToMat44(a[0]), ChainMatrix(a[1..]), ChainMatrix(b));
    }
  }

  /** Composing a concatenation is composing the two composites, in order. */
  lemma ProductAppend(a: seq<RigidTransformation>, b: seq<RigidTransformation>)
    ensures Product(a + b) == Product([Product(a), Product(b)])
  {
    var pa, pb := Product(a), Product(b);
    ChainMatrixAppend(a, b);
    assert [pa, pb][1..] == [pb];
    ChainMatrixSingleton(pb);
    assert ChainMatrix([pa, pb]) == MatMul(ChainMatrix(a), ChainMatrix(b));
  }

  /** Composition is associative. */
  lemma ProductAssoc(a: RigidTransformation, b: RigidTransformation, c: RigidTransformation)
    ensures Product([a, Product([b, c])]) == Product([a, b, c])
    ensures Product([Product([a, b]), c]) == Product([a, b, c])
  {
    ProductSingleton(a);
    ProductSingleton(c);
    ProductAppend([a], [b, c]);
    assert [a] + [b, c] == [a, b, c];
    ProductAppend([a, b], [c]);
    assert [a, b] + [c] == [a, b, c];
  }

  /** Applying a chain is applying its transformations one by one, innermost first. */
  lemma {:induction false} MultTransformsCoordSequential(ts: seq<RigidTransformation>, c: Coordinate)
    ensures MultTransformsCoord(ts, c) == ApplyInSequence(ts, c)
  {
    if ts != [] {
      var rest := ChainMatrix(ts[1..]);
      var h := CoordinateToHomogeneous(c);
      MultTransformsCoordSequential(ts[1..], c);
      MatVecAssoc(TransformToMat44(ts[0]), rest, h);
      MatVecHomogeneous(rest, c);
      MatVecHomogeneous(TransformToMat44(ts[0]), RotateTranslate(Mat44ToTransform(rest), c));
    }
  }

  /** The last transformation of a chain is applied to the point first. */
  lemma MultTransformsCoordSnoc(ts: seq<RigidTransformation>, u: RigidTransformation, c: Coordinate)
    ensures MultTransformsCoord(ts + [u], c) == MultTransformsCoord(ts, MultTransformsCoord([u], c))
  {
    ChainMatrixAppend(ts, [u]);
    var h := CoordinateToHomogeneous(c);
    MatVecAssoc(ChainMatrix(ts), ChainMatrix([u]), h);
    MatVecHomogeneous(ChainMatrix([u]), c);
  }

  /** Translation by (1, 0, 0). */
  const TranslateX: RigidTransformation :=
    RigidTransformation(Vec4(1.0, 0.0, 0.0, 1.0), Vec4(0.0, 1.0, 0.0, 0.0), Vec4(0.0, 0.0, 1.0, 0.0))

  /** Rotation by 90 degrees about the z axis. */
  const RotateZ90: RigidTransformation :=
    RigidTransformation(Vec4(0.0, -1.0, 0.0, 0.0), Vec4(1.0, 0.0, 0.0, 0.0), Vec4(0.0, 0.0, 1.0, 0.0))

  /** A chain of two applies its second transformation first, then its first. */
  lemma MultTransformsCoordPair(outer: RigidTransformation, inner: RigidTransformation, c: Coordinate)
    ensures MultTransformsCoord([outer, inner], c) == RotateTranslate(outer, RotateTranslate(inner, c))
  {
    MultTransformsCoordSequential([outer, inner], c);
    assert [outer, inner][1..] == [inner];
    assert [inner][1..] == [];
    assert ApplyInSequence([inner], c) == RotateTranslate(inner, c);
  }

  /** The two orders of a translation and a quarter turn about the z axis, on any point. */
  lemma TranslateRotateOrders(p: Coordinate)
    ensures MultTransformsCoord([TranslateX, RotateZ90], p) == Coordinate(1.0 - p.y, p.x, p.z)
    ensures MultTransformsCoord([RotateZ90, TranslateX], p) == Coordinate(-p.y, p.x + 1.0, p.z)
  {
    MultTransformsCoordPair(TranslateX, RotateZ90, p);
    MultTransformsCoordPair(RotateZ90, TranslateX, p);
  }

  /** Composition depends on the order of the chain. */
  lemma OrderMatters()
    ensures MultTransformsCoord([TranslateX, RotateZ90], Coordinate(0.0, 0.0, 0.0)) == Coordinate(1.0, 0.0, 0.0)
    ensures MultTransformsCoord([RotateZ90, TranslateX], Coordinate(0.0, 0.0, 0.0)) == Coordinate(0.0, 1.0, 0.0)
  {
    TranslateRotateOrders(Coordinate(0.0, 0.0, 0.0));
  }
}
