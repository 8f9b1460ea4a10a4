# Scanner geometry resolution, modelled in Dafny

This project models the geometry part of the PRD scanner plotting script
(`python/prd_plot_scanner.py`). The script reads a scanner description and
works out where every detecting element (crystal) sits in world space. It has
two parts:

- **Rigid-transform algebra over homogeneous coordinates.** A
  `RigidTransformation` is a 3×4 matrix: a 3×3 rotation block and a
  translation column. Appending the row `[0, 0, 0, 1]` gives its 4×4
  homogeneous matrix. A `Coordinate` gets a trailing `1` to become a
  homogeneous point. `mult_transforms` folds a list of transformations into
  one. It starts from the 4×4 identity, walks the list from last to first and
  multiplies each matrix onto the left, so the result is `M(T0)·M(T1)·…·M(Tn)`
  in list order. `mult_transforms_coord` applies such a chain to a point.
  `transform_BoxShape` applies one transformation to every corner of a shape.
- **Hierarchy traversal.** The script nests four loops: replicated modules,
  then module transformations, then replicated detecting elements, then
  element transformations. For each leaf it transforms the element's shape by
  the chain `[module transformation, element transformation]`. The model
  collects these shapes into a sequence, in loop order, instead of drawing
  them.

Files and modules:

- `homogeneous.dfy` (`Homogeneous`): the value types, 4×4 matrix products,
  and the conversions to and from homogeneous form.
- `transform_algebra.dfy` (`TransformAlgebra`): chain composition
  (`ChainMatrix`, `Product`, and the method `MultTransforms`) and point
  application (`MultTransformsCoord`).
- `shape_transform.dfy` (`ShapeTransform`): `BoxShape` and
  `TransformBoxShape`.
- `geometry_traversal.dfy` (`GeometryTraversal`): the hierarchy datatypes, the
  method `ResolveGeometry` with the four nested loops, and the functions that
  specify its output level by level.

The `prd` record types do not appear in the script. The model defines them
directly:

- a `Coordinate` is three reals;
- a `RigidTransformation` is three rows of four reals;
- a `BoxShape` is a sequence of coordinates;
- the hierarchy levels are datatypes holding sequences.

The Python attribute `object` is called `obj`, because `object` is a Dafny
keyword.

`mult_transforms` updates an accumulator in a loop, so it is a method.
`MultTransforms` is proved equal to the function `Product`, which is defined
by the recursive list-order product `ChainMatrix`. The pure code, and every
lemma, uses `Product`. The traversal is also a method. Its result is proved
equal to `ScannerShapes`, which is defined level by level on list prefixes.

The traversal's loop order follows the code: the module-transformation loop
(line 91) is outside the detecting-element loop (line 92). Swapping these two
loops would give the same shapes in a different order; the model keeps the
order of lines 91-92.

## Model

| member | source | states |
|---|---|---|
| `Homogeneous.TransformToMat44` | python/prd_plot_scanner.py:19-22 | The 4×4 matrix has bottom row `[0,0,0,1]`, and taking its rows 0..2 gives back the original transformation exactly. |
| `Homogeneous.Mat44RoundTrip` | python/prd_plot_scanner.py:19-26 | Keeping rows 0..2 and then re-appending `[0,0,0,1]` gives back a 4×4 matrix if and only if its bottom row was `[0,0,0,1]`. |
| `Homogeneous.Mat44ToTransform` | python/prd_plot_scanner.py:25-26 | Keeps rows 0..2 of a 4×4 matrix, whatever its last row holds. Its round trip with `TransformToMat44` is exact in both directions when the last row is `[0,0,0,1]` (`Mat44RoundTrip`). |
| `Homogeneous.CoordinateToHomogeneous` | python/prd_plot_scanner.py:29-30 | The homogeneous point ends in `1`, and dropping that component gives back the coordinate. |
| `Homogeneous.HomogeneousRoundTrip` | python/prd_plot_scanner.py:29-34 | Dropping the fourth component (no division) and re-appending `1` gives back a 4-vector if and only if its fourth component was `1`. |
| `Homogeneous.HomogeneousToCoordinate` | python/prd_plot_scanner.py:33-34 | Keeps components 0..2 of a 4-vector and drops the fourth without dividing by it. Its round trip with `CoordinateToHomogeneous` is exact when the fourth component is `1` (`HomogeneousRoundTrip`). |
| `Homogeneous.MatMul` | python/prd_plot_scanner.py:47 | The 4×4 product `numpy.matmul` of two matrices, each entry a row of the first times a column of the second; associative (`MatMulAssoc`) with the identity as unit on both sides. |
| `Homogeneous.MatVec` | python/prd_plot_scanner.py:56-59 | The 4×4 matrix times a 4-vector, as `numpy.matmul` does at lines 56-59; `MatVecAssoc` ties it to `MatMul`. |
| `Homogeneous.MatMulAssoc` | python/prd_plot_scanner.py:47 | The 4×4 matrix product used to accumulate chains is associative. |
| `Homogeneous.MatVecAssoc` | python/prd_plot_scanner.py:56-59 | Multiplying a point by a product of matrices equals multiplying by each matrix in turn, rightmost first. |
| `Homogeneous.MatMulIdentityRight` | python/prd_plot_scanner.py:41-47 | The initial identity accumulator is a right unit of the product. |
| `Homogeneous.MatMulIdentityLeft` | python/prd_plot_scanner.py:41-47 | The identity is also a left unit of the product. |
| `TransformAlgebra.ChainMatrix` | python/prd_plot_scanner.py:41-47 | The list-order product `M(T0)·…·M(Tn)` always keeps the bottom row `[0,0,0,1]`, so dropping it at line 48 loses nothing. |
| `TransformAlgebra.Product` | python/prd_plot_scanner.py:37-48 | Re-adding the bottom row to the composed transformation gives back exactly the chain's 4×4 product. |
| `TransformAlgebra.MultTransforms` | python/prd_plot_scanner.py:37-48 | The reversed loop, which left-multiplies each matrix onto the accumulator, returns the list-order product `Product(ts)`. The loop invariant is that after the suffix `ts[i..]` the accumulator is `ChainMatrix(ts[i..])`. |
| `TransformAlgebra.MultTransformsCoord` | python/prd_plot_scanner.py:51-60 | Applying a chain to a point is plain affine application of the composed transformation: rotate by its 3×3 block, then add its translation column. |
| `TransformAlgebra.MatVecHomogeneous` | python/prd_plot_scanner.py:56-60 | A matrix with bottom row `[0,0,0,1]` maps a homogeneous point to a homogeneous point. The result is the affine image of the point. |
| `TransformAlgebra.ProductEmpty` | python/prd_plot_scanner.py:41-48 | The empty chain composes to the identity transformation (identity rotation, zero translation), and applying it moves no point. |
| `TransformAlgebra.ProductSingleton` | python/prd_plot_scanner.py:41-48 | A chain of one transformation composes to that transformation. |
| `TransformAlgebra.ChainMatrixSingleton` | python/prd_plot_scanner.py:46-47 | The matrix of a one-element chain is that element's homogeneous matrix. |
| `TransformAlgebra.ChainMatrixSuffix` | python/prd_plot_scanner.py:46-47 | One loop step: the product of the suffix from `i` is `M(ts[i])` times the product of the suffix from `i+1`. |
| `TransformAlgebra.ChainMatrixAppend` | python/prd_plot_scanner.py:46-47 | The product matrix of a concatenated chain is the product of the two chains' matrices, in order. |
| `TransformAlgebra.ProductAppend` | python/prd_plot_scanner.py:37-48 | `Product(A ++ B) == Product([Product(A), Product(B)])`. |
| `TransformAlgebra.ProductAssoc` | python/prd_plot_scanner.py:37-48 | `Product([a, Product([b, c])])`, `Product([Product([a, b]), c])` and `Product([a, b, c])` are equal. |
| `TransformAlgebra.MultTransformsCoordSequential` | python/prd_plot_scanner.py:51-60 | Applying the composed chain equals sending the point through each transformation in turn, the last one first. |
| `TransformAlgebra.MultTransformsCoordSnoc` | python/prd_plot_scanner.py:51-60 | `MultTransformsCoord(ts ++ [u], c) == MultTransformsCoord(ts, MultTransformsCoord([u], c))`. |
| `TransformAlgebra.MultTransformsCoordPair` | python/prd_plot_scanner.py:51-60 | For a chain `[outer, inner]`, `inner` is applied to the point first and `outer` second. |
| `TransformAlgebra.TranslateRotateOrders` | python/prd_plot_scanner.py:46-47 | For any point (x, y, z), with translation by (1,0,0) and a quarter turn about z: `[translate, rotate]` gives (1 − y, x, z) and `[rotate, translate]` gives (−y, x + 1, z). |
| `TransformAlgebra.OrderMatters` | python/prd_plot_scanner.py:46-47 | At the origin: `[translate, rotate]` gives (1,0,0) and `[rotate, translate]` gives (0,1,0). |
| `ShapeTransform.TransformCorners` | python/prd_plot_scanner.py:67 | The comprehension over the corners gives one result per corner, in order. Result `i` is the one-element chain `[t]` applied to corner `i`. |
| `ShapeTransform.TransformBoxShape` | python/prd_plot_scanner.py:63-68 | The new shape has exactly as many corners as the old one (no check that there are 8). Corner `i` equals `MultTransformsCoord([t], s.corners[i])`. |
| `ShapeTransform.TransformBoxShapeAffine` | python/prd_plot_scanner.py:63-68 | Each transformed corner is the original corner rotated by `t`'s block and then translated. |
| `ShapeTransform.TransformBoxShapeIdentity` | python/prd_plot_scanner.py:63-68 | The identity transformation returns the shape unchanged. |
| `ShapeTransform.TransformBoxShapeCompose` | python/prd_plot_scanner.py:63-68 | Transforming by `inner` and then by `outer` equals transforming once by `Product([outer, inner])`. |
| `GeometryTraversal.LeafShape` | python/prd_plot_scanner.py:96-99 | The world-space shape of one leaf: the element's shape transformed by `Product([module transform, element transform])`, which `LeafShapeNesting` shows is the element transformation applied first. |
| `GeometryTraversal.ElementShapes` | python/prd_plot_scanner.py:93-100 | Within one module transformation and one element, there is one output per element transformation. |
| `GeometryTraversal.ModuleTransformShapes` | python/prd_plot_scanner.py:92-100 | Within one module transformation, the output count is the sum of the element transformation counts. |
| `GeometryTraversal.ModuleShapes` | python/prd_plot_scanner.py:91-100 | The output of one replicated module: for each module transformation in order, the shapes of all its element copies. Its length is `ModuleShapesLength`, its members `ModuleShapesMembers`. |
| `GeometryTraversal.ScannerShapes` | python/prd_plot_scanner.py:89-100 | The output of the whole traversal, module by module in loop order. `ResolveGeometry` returns exactly this sequence; its length is `ScannerShapesLength` and its members are the leaves (`ScannerShapesAreLeaves`). |
| `GeometryTraversal.ModuleShapesLength` | python/prd_plot_scanner.py:91-100 | A replicated module yields its module-transformation count times the sum of its element transformation counts. |
| `GeometryTraversal.ScannerShapesLength` | python/prd_plot_scanner.py:89-100 | The output length is the sum over modules of `|module.transforms| × Σ over elements |element.transforms|`. |
| `GeometryTraversal.ResolveGeometry` | python/prd_plot_scanner.py:89-100 | The four nested loops (modules, module transformations, elements, element transformations) produce exactly `ScannerShapes`, in loop order, with one shape per leaf, and the leaf count as above. |
| `GeometryTraversal.ElementShapesMembers` | python/prd_plot_scanner.py:93-99 | A shape is among one element's outputs if and only if it is the leaf shape of one of that element's transformations. |
| `GeometryTraversal.ModuleTransformShapesMembers` | python/prd_plot_scanner.py:92-99 | A shape is among one module transformation's outputs if and only if some element produced it. |
| `GeometryTraversal.ModuleShapesMembers` | python/prd_plot_scanner.py:91-99 | A shape is among a replicated module's outputs if and only if some module transformation produced it. |
| `GeometryTraversal.ScannerShapesMembers` | python/prd_plot_scanner.py:89-99 | A shape is among the scanner's outputs if and only if some replicated module produced it. |
| `GeometryTraversal.ScannerShapesAreLeaves` | python/prd_plot_scanner.py:89-100 | The output holds every leaf shape `TransformBoxShape(Product([module transform, element transform]), element shape)` and nothing else. |
| `GeometryTraversal.LeafShapeNesting` | python/prd_plot_scanner.py:96-99 | A leaf shape is the element's shape moved by the element transformation first and then by the module transformation. This holds corner by corner. |
| `GeometryTraversal.IdentityGeometry` | python/prd_plot_scanner.py:89-100 | One module and one element, each placed by the identity alone, yield exactly the element's shape, unchanged. |
| `GeometryTraversal.IdentityGeometryUnitBox` | python/prd_plot_scanner.py:89-100 | In that case the unit box with corners (±0.5, ±0.5, ±0.5) comes out unchanged. |

## Left out

- Drawing (`draw_BoxShape`, lines 71-74) and the matplotlib figure, axes and `plt.show()` (lines 13, 83-86, 101) are a rendering sink. `ResolveGeometry` returns the shapes in drawing order instead of drawing them.
- Reading the header (`prd.BinaryPrdExperimentReader`, `read_header`, lines 78-79) is binary decoding by a library that is not part of this model. `ResolveGeometry` takes the decoded `ScannerGeometry` as its input.
- Floating point: the decoded matrices and points are float32, and so is the identity accumulator (line 43). `numpy.vstack` at line 22 and `numpy.hstack` at line 30 combine them with integer operands, which NumPy promotes to float64, so the products at lines 47 and 56 are computed in float64 on float32 inputs; only `mult_transforms([])` returns the float32 identity itself. All of this is modelled as exact `real` arithmetic, and rounding is not modelled. The row and component copies of the round trips are exact either way.
- Rotation orthonormality is neither checked by the code nor assumed by any lemma here. Every result holds for arbitrary 3×4 matrices.
- Absent fields in the decoded structure, which the script would hit as an attribute error, cannot occur: every datatype field is present by construction.
- The script draws each shape as soon as it is computed. The model builds the whole sequence, in the same order.
- `cpp/prd_analysis.cpp` is not part of this model. It handles command-line arguments, HDF5 reading, console output and float averaging of energies.
