/**
 * Resolution of the scanner hierarchy into world-space shapes.
 *
 * A scanner holds replicated modules; each replicated module holds one
 * module (a list of replicated detecting elements) and the transformations
 * placing its copies; each replicated detecting element holds one element
 * (its shape in local coordinates) and the transformations placing its
 * copies inside the module. Every pair (module transformation, element
 * transformation) gives one shape in world coordinates.
 */
module GeometryTraversal {
  import opened Homogeneous
  import opened TransformAlgebra
  import opened ShapeTransform

  datatype DetectingElement = DetectingElement(shape: BoxShape)

  datatype ReplicatedDetectingElement =
    ReplicatedDetectingElement(obj: DetectingElement, transforms: seq<RigidTransformation>)

  datatype DetectorModule = DetectorModule(detectingElements: seq<ReplicatedDetectingElement>)

  datatype ReplicatedDetectorModule =
    ReplicatedDetectorModule(obj: DetectorModule, transforms: seq<RigidTransformation>)

  datatype ScannerGeometry = ScannerGeometry(replicatedModules: seq<ReplicatedDetectorModule>)

  /**
   * The world-space shape of one element copy: the chain is the module
   * transformation (outer) followed by the element transformation (inner).
   */
  function LeafShape(mt: RigidTransformation, et: RigidTransformation, el: DetectingElement): BoxShape {
    TransformBoxShape(Product([mt, et]), el.shape)
  }

  // The functions below give the traversal's output level by level. Each is
  // written on the last element of its list, so that a loop that has done
  // a prefix of the list has produced the function of that prefix.

  /** Shapes for one module transformation and the given copies of one element. */
  function ElementShapes(mt: RigidTransformation, el: DetectingElement, ets: seq<RigidTransformation>): (r: seq<BoxShape>)
    ensures |r| == |ets|
  {
    if ets == [] then []
    else ElementShapes(mt, el, ets[..|ets| - 1]) + [LeafShape(mt, ets[|ets| - 1], el)]
  }

  /** Shapes for one module transformation and the given replicated elements. */
  function ModuleTransformShapes(mt: RigidTransformation, res: seq<ReplicatedDetectingElement>): (r: seq<BoxShape>)
    ensures |r| == ReplicaCount(res)
  {
    if res == [] then []
    else
      var re := res[|res| - 1];
      ModuleTransformShapes(mt, res[..|res| - 1]) + ElementShapes(mt, re.obj, re.transforms)
  }

  /** Shapes for the given module transformations over the same replicated elements. */
  function ModuleShapes(mts: seq<RigidTransformation>, res: seq<ReplicatedDetectingElement>): seq<BoxShape> {
    if mts == [] then []
    else ModuleShapes(mts[..|mts| - 1], res) + ModuleTransformShapes(mts[|mts| - 1], res)
  }

  /** Shapes for the given replicated modules. */
  function ScannerShapes(rms: seq<ReplicatedDetectorModule>): seq<BoxShape> {
    if rms == [] then []
    else
      var rm := rms[|rms| - 1];
      ScannerShapes(rms[..|rms| - 1]) + ModuleShapes(rm.transforms, rm.obj.detectingElements)
  }

  /** The number of element copies in one module: the sum of the elements' transformation counts. */
  function ReplicaCount(res: seq<ReplicatedDetectingElement>): nat {
    if res == [] then 0 else ReplicaCount(res[..|res| - 1]) + |res[|res| - 1].transforms|
  }

  /**
   * The number of leaves: over the modules, the module's transformation count
   * times its number of element copies.
   */
  function LeafCount(rms: seq<ReplicatedDetectorModule>): nat {
    if rms == [] then 0
    else
      var rm := rms[|rms| - 1];
      LeafCount(rms[..|rms| - 1]) + |rm.transforms| * ReplicaCount(rm.obj.detectingElements)
  }

  /** Each module transformation contributes one shape per element copy. */
  lemma {:induction false} ModuleShapesLength(mts: seq<RigidTransformation>, res: seq<ReplicatedDetectingElement>)
    ensures |ModuleShapes(mts, res)| == |mts| * ReplicaCount(res)
  {
    if mts != [] {
      var n, k := |mts|, ReplicaCount(res);
      ModuleShapesLength(mts[..n - 1], res);
      MulPred(n, k);
    }
  }

  // Kept as a lemma of its own: stated inline, the nonlinear step puts the
  // induction above the solver's resource limit.
  lemma MulPred(n: nat, k: nat)
    requires n > 0
    ensures n * k == (n - 1) * k + k
  {
  }

  /** The traversal yields exactly one shape per leaf. */
  lemma {:induction false} ScannerShapesLength(rms: seq<ReplicatedDetectorModule>)
    ensures |ScannerShapes(rms)| == LeafCount(rms)
  {
    if rms != [] {
      var rm := rms[|rms| - 1];
      ScannerShapesLength(rms[..|rms| - 1]);
      ModuleShapesLength(rm.transforms, rm.obj.detectingElements);
    }
  }

  /** The shapes for one module transformation and one element are its leaves over the element's copies. */
  lemma {:induction false} ElementShapesMembers(mt: RigidTransformation, el: DetectingElement, ets: seq<RigidTransformation>, s: BoxShape)
    ensures s in ElementShapes(mt, el, ets) <==> exists et :: et in ets && s == LeafShape(mt, et, el)
  {
    if ets != [] {
      var init, last := ets[..|ets| - 1], ets[|ets| - 1];
      assert ets == init + [last];
      ElementShapesMembers(mt, el, init, s);
      if s == LeafShape(mt, last, el) {
        assert last in ets;
      }
    }
  }

  lemma {:induction false} ModuleTransformShapesMembers(mt: RigidTransformation, res: seq<ReplicatedDetectingElement>, s: BoxShape)
    ensures s in ModuleTransformShapes(mt, res) <==> exists re :: re in res && s in ElementShapes(mt, re.obj, re.transforms)
  {
    if res != [] {
      var init, last := res[..|res| - 1], res[|res| - 1];
      assert res == init + [last];
      ModuleTransformShapesMembers(mt, init, s);
      if s in ElementShapes(mt, last.obj, last.transforms) {
        assert last in res;
      }
    }
  }

  lemma {:induction false} ModuleShapesMembers(mts: seq<RigidTransformation>, res: seq<ReplicatedDetectingElement>, s: BoxShape)
    ensures s in ModuleShapes(mts, res) <==> exists mt :: mt in mts && s in ModuleTransformShapes(mt, res)
  {
    if mts != [] {
      var init, last := mts[..|mts| - 1], mts[|mts| - 1];
      assert mts == init + [last];
      ModuleShapesMembers(init, res, s);
      if s in ModuleTransformShapes(last, res) {
        assert last in mts;
      }
    }
  }

  lemma {:induction false} ScannerShapesMembers(rms: seq<ReplicatedDetectorModule>, s: BoxShape)
    ensures s in ScannerShapes(rms) <==> exists rm :: rm in rms && s in ModuleShapes(rm.transforms, rm.obj.detectingElements)
  {
    if rms != [] {
      var init, last := rms[..|rms| - 1], rms[|rms| - 1];
      assert rms == init + [last];
      ScannerShapesMembers(init, s);
      if s in ModuleShapes(last.transforms, last.obj.detectingElements) {
        assert last in rms;
      }
    }
  }

  /**
   * `s` is the world-space shape of some leaf: some module transformation of
   * some replicated module, composed with some transformation of one of that
   * module's replicated elements, applied to that element's shape.
   */
  ghost predicate IsLeaf(rms: seq<ReplicatedDetectorModule>, s: BoxShape) {
    exists rm, mt, re, et ::
      rm in rms && mt in rm.transforms && re in rm.obj.detectingElements && et in re.transforms &&
      s == LeafShape(mt, et, re.obj)
  }

  /** The traversal yields every leaf and nothing else. */
  lemma ScannerShapesAreLeaves(rms: seq<ReplicatedDetectorModule>, s: BoxShape)
    ensures s in ScannerShapes(rms) <==> IsLeaf(rms, s)
  {
    ScannerShapesMembers(rms, s);
    if s in ScannerShapes(rms) {
      var rm :| rm in rms && s in ModuleShapes(rm.transforms, rm.obj.detectingElements);
      var res := rm.obj.detectingElements;
      ModuleShapesMembers(rm.transforms, res, s);
      var mt :| mt in rm.transforms && s in ModuleTransformShapes(mt, res);
      ModuleTransformShapesMembers(mt, res, s);
      var re :| re in res && s in ElementShapes(mt, re.obj, re.transforms);
      ElementShapesMembers(mt, re.obj, re.transforms, s);
      var et :| et in re.transforms && s == LeafShape(mt, et, re.obj);
      assert IsLeaf(rms, s);
    }
    if IsLeaf(rms, s) {
      var rm, mt, re, et :|
        rm in rms && mt in rm.transforms && re in rm.obj.detectingElements && et in re.transforms &&
        s == LeafShape(mt, et, re.obj);
      var res := rm.obj.detectingElements;
      ElementShapesMembers(mt, re.obj, re.transforms, s);
      ModuleTransformShapesMembers(mt, res, s);
      ModuleShapesMembers(rm.transforms, res, s);
    }
  }

  /**
   * A leaf's shape is the element's local shape moved by the element
   * transformation first and by the module transformation second.
   */
  lemma LeafShapeNesting(mt: RigidTransformation, et: RigidTransformation, el: DetectingElement)
    ensures LeafShape(mt, et, el) == TransformBoxShape(mt, TransformBoxShape(et, el.shape))
    ensures forall i :: 0 <= i < |el.shape.corners| ==>
              LeafShape(mt, et, el).corners[i] == RotateTranslate(mt, RotateTranslate(et, el.shape.corners[i]))
  {
    TransformBoxShapeCompose(mt, et, el.shape);
    forall i | 0 <= i < |el.shape.corners|
      ensures LeafShape(mt, et, el).corners[i] == RotateTranslate(mt, RotateTranslate(et, el.shape.corners[i]))
    {
      TransformBoxShapeAffine(et, el.shape, i);
      TransformBoxShapeAffine(mt, TransformBoxShape(et, el.shape), i);
    }
  }

  /**
   * One module with the identity as its only transformation, holding one
   * element with the identity as its only transformation: the traversal
   * yields the element's shape unchanged.
   */
  lemma IdentityGeometry(box: BoxShape)
    ensures ScannerShapes([ReplicatedDetectorModule(
              DetectorModule([ReplicatedDetectingElement(DetectingElement(box), [IdentityTransform])]),
              [IdentityTransform])]) == [box]
  {
    var el := DetectingElement(box);
    var re := ReplicatedDetectingElement(el, [IdentityTransform]);
    var rm := ReplicatedDetectorModule(DetectorModule([re]), [IdentityTransform]);
    TransformBoxShapeCompose(IdentityTransform, IdentityTransform, box);
    TransformBoxShapeIdentity(box);
    TransformBoxShapeIdentity(TransformBoxShape(IdentityTransform, box));
    assert LeafShape(IdentityTransform, IdentityTransform, el) == box;
    assert ElementShapes(IdentityTransform, el, [IdentityTransform]) == [box];
    assert ModuleTransformShapes(IdentityTransform, [re]) == [box];
    assert ModuleShapes([IdentityTransform], [re]) == [box];
    assert ScannerShapes([rm]) == [box];
  }

  /** The unit box centred on the origin: corners (±0.5, ±0.5, ±0.5). */
  const UnitBox: BoxShape := BoxShape([
    Coordinate(-0.5, -0.5, -0.5), Coordinate(0.5, -0.5, -0.5),
    Coordinate(0.5, 0.5, -0.5), Coordinate(-0.5, 0.5, -0.5),
    Coordinate(-0.5, -0.5, 0.5), Coordinate(0.5, -0.5, 0.5),
    Coordinate(0.5, 0.5, 0.5), Coordinate(-0.5, 0.5, 0.5)])

  /** The unit box, placed by identities at both levels, comes out unchanged in world space. */
  lemma IdentityGeometryUnitBox()
    ensures ScannerShapes([ReplicatedDetectorModule(
              DetectorModule([ReplicatedDetectingElement(DetectingElement(UnitBox), [IdentityTransform])]),
              [IdentityTransform])]) == [UnitBox]
  {
    IdentityGeometry(UnitBox);
  }

  // Kept as a lemma of its own: the same fact as an inline assert leaves the
  // traversal's loop invariants above the solver's resource limit.
  lemma AppendAssoc<T>(a: seq<T>, b: seq<T>, c: seq<T>)
    ensures (a + b) + c == a + (b + c)
  {
  }

  lemma ElementShapesStep(mt: RigidTransformation, el: DetectingElement, ets: seq<RigidTransformation>, l: nat)
    requires l < |ets|
    ensures ElementShapes(mt, el, ets[..l + 1]) == ElementShapes(mt, el, ets[..l]) + [LeafShape(mt, ets[l], el)]
  {
    assert ets[..l + 1][..l] == ets[..l];
  }

  lemma ModuleTransformShapesStep(mt: RigidTransformation, res: seq<ReplicatedDetectingElement>, k: nat)
    requires k < |res|
    ensures ModuleTransformShapes(mt, res[..k + 1])
         == ModuleTransformShapes(mt, res[..k]) + ElementShapes(mt, res[k].obj, res[k].transforms)
  {
    assert res[..k + 1][..k] == res[..k];
  }

  lemma ModuleShapesStep(mts: seq<RigidTransformation>, res: seq<ReplicatedDetectingElement>, j: nat)
    requires j < |mts|
    ensures ModuleShapes(mts[..j + 1], res) == ModuleShapes(mts[..j], res) + ModuleTransformShapes(mts[j], res)
  {
    assert mts[..j + 1][..j] == mts[..j];
  }

  lemma ScannerShapesStep(rms: seq<ReplicatedDetectorModule>, i: nat)
    requires i < |rms|
    ensures ScannerShapes(rms[..i + 1])
         == ScannerShapes(rms[..i]) + ModuleShapes(rms[i].transforms, rms[i].obj.detectingElements)
  {
    assert rms[..i + 1][..i] == rms[..i];
  }

  /**
   * Walks the hierarchy: replicated modules, then module transformations,
   * then replicated detecting elements, then element transformations, and
   * appends one world-space shape per leaf.
   */
  method ResolveGeometry(g: ScannerGeometry) returns (shapes: seq<BoxShape>)
    ensures shapes == ScannerShapes(g.replicatedModules)
    ensures |shapes| == LeafCount(g.replicatedModules)
  {
    var rms := g.replicatedModules;
    shapes := [];
    for i := 0 to |rms|
      invariant shapes == ScannerShapes(rms[..i])
    {
      var rm := rms[i];
      var detEl := rm.obj.detectingElements;
      ghost var before := shapes;
      for j := 0 to |rm.transforms|
        invariant shapes == before + ModuleShapes(rm.transforms[..j], detEl)
      {
        var modTransform := rm.transforms[j];
        ghost var beforeModule := shapes;
        for k := 0 to |detEl|
          invariant shapes == beforeModule + ModuleTransformShapes(modTransform, detEl[..k])
        {
          var repVolume := detEl[k];
          ghost var beforeElement := shapes;
          for l := 0 to |repVolume.transforms|
            invariant shapes == beforeElement + ElementShapes(modTransform, repVolume.obj, repVolume.transforms[..l])
          {
            var world := MultTransforms([modTransform, repVolume.transforms[l]]);
            var shape := TransformBoxShape(world, repVolume.obj.shape);
            ElementShapesStep(modTransform, repVolume.obj, repVolume.transforms, l);
            AppendAssoc(beforeElement, ElementShapes(modTransform, repVolume.obj, repVolume.transforms[..l]), [shape]);
            shapes := shapes + [shape];
          }
          assert repVolume.transforms[..|repVolume.transforms|] == repVolume.transforms;
          ModuleTransformShapesStep(modTransform, detEl, k);
          AppendAssoc(beforeModule, ModuleTransformShapes(modTransform, detEl[..k]),
                      ElementShapes(modTransform, repVolume.obj, repVolume.transforms));
        }
        assert detEl[..|detEl|] == detEl;
        ModuleShapesStep(rm.transforms, detEl, j);
        AppendAssoc(before, ModuleShapes(rm.transforms[..j], detEl), ModuleTransformShapes(modTransform, detEl));
      }
      assert rm.transforms[..|rm.transforms|] == rm.transforms;
      ScannerShapesStep(rms, i);
    }
    assert rms[..|rms|] == rms;
    ScannerShapesLength(rms);
  }
}
