# Boussinesq solver core: compliance-row assembly and math helpers

This project models the core of a Boussinesq solver for elastic half-space contact. The
model has two parts.

- **Compliance-row assembly** (`row_compliance_matrix.dfy`). One row of the compliance
  matrix is computed for one evaluation point (node A). The row starts at zero, with
  one slot per mesh node. Each triangle of the mesh is visited once, in order. Its three
  per-vertex compliances are added, by read-add-write, into the slots of its three node
  indices. If one triangle yields a result that is not finite, no row is produced.
  The method works on a local `array<real>`, and its loop invariant says that the
  array holds the per-node sums over the triangles seen so far.
- **Math helpers** (`triangle_geometry.dfy`, `analytic_integrals.dfy`,
  `clipped_volumes.dfy`). These cover the planar signed triangle area and the spatial
  area vector, and the orientation test with its tolerance band. They also cover the
  angular integrals and their α ≈ 0 dispatch, and the volume helpers used when a field
  changes sign across a triangle: the pyramid on a trapezium, the tetrahedron, the edge
  cut ratio and cut point, and the two clipped volumes.

Scalars are exact reals. Machine epsilon is the constant `Eps` = 2^-52, and the
tolerance is `Tol = 10 * Eps` (`numerics.dfy`). Some functions have no counterpart over
the reals here. These are passed in as function-typed parameters, so nothing about them
is assumed beyond their type:

- the Euclidean norm, of type `Norm`, whose values are never negative;
- the transcendental antiderivatives, in the record `Antiderivatives`;
- the per-triangle compliance evaluation, of type `Evaluator`. It includes the change
  into the triangle frame that precedes it.

Two points where the model follows the code closely:

- The volume helpers pass the signed field values `value_1`, `value_2` and `value_3` on
  as heights and as trapezium sides (math_helper.cc:170, 177 and 194). So the modelled
  volumes are signed, and their sign is that of the field.
- The check at `row_compliance_matrix.cc:49` compares the element norm against infinity,
  so a NaN result does not produce the diagnostic dump. The assertion at line 63 rejects
  both NaN and infinity. The model has a single "not finite" outcome, and it means no row.

## Model

| member | source | states |
|---|---|---|
| `RowComplianceMatrix.CalcRowComplianceMatrix` | multibody/boussinesq_solver/row_compliance_matrix.cc:24-81 | The row has one entry per mesh node, and entry j is the sum, over all triangles and all vertex positions holding j, of that vertex's element compliance. With no triangles the row is all zeros. No row is returned exactly when some triangle's element compliance is not finite. Triangle indices must address existing nodes. |
| `RowComplianceMatrix.AddElementCompliance` | multibody/boussinesq_solver/row_compliance_matrix.cc:73-78 | Scattering one element adds its i-th component to the entry of its i-th node, so every entry grows by exactly the share of the components whose index names it (two components add up when an index repeats) and every entry no index names is unchanged. |
| `RowComplianceMatrix.ElementCompliances` | multibody/boussinesq_solver/row_compliance_matrix.cc:28-63 | The element results, collected in mesh order, succeed exactly when every triangle's result is finite. When they succeed, there is one result per triangle, and it is that triangle's evaluation on its own three vertices. |
| `RowComplianceMatrix.NodeTotalAppend` | multibody/boussinesq_solver/row_compliance_matrix.cc:28-79 | A node's total over a mesh made of two parts is the sum of its totals over the parts, so triangles contribute independently. |
| `RowComplianceMatrix.NodeTotalOrderIndependent` | multibody/boussinesq_solver/row_compliance_matrix.cc:28-79 | Exchanging two blocks of triangles leaves every node's total unchanged, whatever the two blocks are. |
| `RowComplianceMatrix.NodeTotalSwapAdjacent` | multibody/boussinesq_solver/row_compliance_matrix.cc:28-79 | Exchanging two neighbouring triangles, together with their element results, anywhere in the mesh leaves every node's total unchanged. Such exchanges reach every order, so the order in which the triangles are visited does not matter. |
| `RowComplianceMatrix.UnreferencedNodeIsZero` | multibody/boussinesq_solver/row_compliance_matrix.cc:26-78 | A node that no triangle names keeps its initial value of zero. |
| `RowComplianceMatrix.NodeTotalOnlyFromMentioningTriangles` | multibody/boussinesq_solver/row_compliance_matrix.cc:73-78 | Removing a triangle that does not name node j leaves j's total unchanged, so only the three addressed slots change. |
| `RowComplianceMatrix.RepeatedIndexAccumulates` | multibody/boussinesq_solver/row_compliance_matrix.cc:73-78 | A triangle that names a node twice, in any of the three position pairs, or three times, adds every matching contribution to that slot, and none is overwritten. |
| `RowComplianceMatrix.SharedEdgeRow` | multibody/boussinesq_solver/row_compliance_matrix.cc:73-78 | Take two triangles (0,1,2) and (0,2,3) that share the edge 0–2. Nodes 0 and 2 get the sum of both triangles' contributions, and nodes 1 and 3 get one triangle's contribution each. |
| `TriangleGeometry.Orientation` | multibody/boussinesq_solver/math_helper.cc:27-39 | The result is -1, 0 or 1. It is 1 iff the planar signed area exceeds Tol, -1 iff the area is below -Tol, and 0 iff the area is within Tol of zero. |
| `TriangleGeometry.SignedAreaSwapNegates` | multibody/boussinesq_solver/math_helper.cc:11-17 | Exchanging the last two vertices negates the signed area. |
| `TriangleGeometry.SignedAreaCyclic` | multibody/boussinesq_solver/math_helper.cc:11-17 | Rotating the vertex order cyclically leaves the signed area unchanged. |
| `TriangleGeometry.SignedAreaTranslationInvariant` | multibody/boussinesq_solver/math_helper.cc:11-17 | Translating all three vertices by the same vector leaves the signed area unchanged. |
| `TriangleGeometry.UnitRightTriangle` | multibody/boussinesq_solver/math_helper.cc:11-39 | The triangle (0,0),(1,0),(0,1) has signed area 1/2 and orientation 1. In the reverse order its orientation is -1. |
| `TriangleGeometry.CollinearIsDegenerate` | multibody/boussinesq_solver/math_helper.cc:27-39 | Three collinear points are classified as degenerate (0). |
| `TriangleGeometry.OrientationSwapNegates` | multibody/boussinesq_solver/math_helper.cc:27-39 | Exchanging the last two vertices negates the orientation. |
| `TriangleGeometry.OrientationCyclic` | multibody/boussinesq_solver/math_helper.cc:27-39 | Rotating the vertex order cyclically leaves the orientation unchanged. |
| `TriangleGeometry.AreaVectorIsHalfCross` | multibody/boussinesq_solver/math_helper.cc:19-25 | Twice the area vector is the cross product of the edges p1→p2 and p1→p3. |
| `TriangleGeometry.AreaVectorSwapNegates` | multibody/boussinesq_solver/math_helper.cc:19-25 | Exchanging the last two vertices negates the area vector. |
| `TriangleGeometry.AreaVectorCyclic` | multibody/boussinesq_solver/math_helper.cc:19-25 | Rotating the vertex order cyclically leaves the area vector unchanged. |
| `TriangleGeometry.AreaVectorIsNormal` | multibody/boussinesq_solver/math_helper.cc:19-25 | The area vector is orthogonal to both edges leaving p1, so it is normal to the triangle's plane. |
| `TriangleGeometry.AreaVectorOfPlanarTriangle` | multibody/boussinesq_solver/math_helper.cc:11-25 | For a triangle in the plane z = 0, the area vector points along z, and its z component is the planar signed area. So the two overloads agree. |
| `AnalyticIntegrals.NearZeroShapeBand` | multibody/boussinesq_solver/math_helper.cc:56-57 | The α guard holds exactly on the open band (-Tol, Tol). The band is symmetric and contains 0. |
| `AnalyticIntegrals.AngularIntegralsProperties` | multibody/boussinesq_solver/math_helper.cc:41-50 | J(-1,0) and J(1,-2) are zero on an empty angular interval, change sign when the interval is reversed, and add up over adjacent intervals. |
| `AnalyticIntegrals.IntegralJ00Properties` | multibody/boussinesq_solver/math_helper.cc:52-54 | J(0,0) vanishes on an empty interval. It is negated when the interval is reversed, and it is additive over adjacent intervals. |
| `AnalyticIntegrals.ShapedIntegralsNearZero` | multibody/boussinesq_solver/math_helper.cc:56-76 | When abs(α) < Tol, I(0,-1;P1) returns exactly J(-1,0), and I(1,-2;P1) returns exactly J(1,-2). |
| `AnalyticIntegrals.ShapedIntegralsAwayFromZero` | multibody/boussinesq_solver/math_helper.cc:56-88 | When abs(α) >= Tol, both shaped integrals return their own antiderivative difference. |
| `AnalyticIntegrals.ShapedIntegralsIgnoreDegenerateAwayFromZero` | multibody/boussinesq_solver/math_helper.cc:56-88 | When abs(α) >= Tol, the degenerate formulas play no part: two sets of antiderivatives that agree on the shaped ones give the same value for both integrals. |
| `AnalyticIntegrals.ShapedIntegralsConstantInBand` | multibody/boussinesq_solver/math_helper.cc:56-76 | Inside the guard band, both shaped integrals do not depend on α. |
| `AnalyticIntegrals.ShapedIntegralsAdditive` | multibody/boussinesq_solver/math_helper.cc:56-88 | In either branch, reversing the interval negates both shaped integrals, and they are additive over adjacent intervals. |
| `ClippedVolumes.PyramidVolumeProperties` | multibody/boussinesq_solver/math_helper.cc:141-147 | The pyramid volume is (l1+l2)·h·H/6. It is symmetric in the two trapezium sides, and it is non-negative when all four lengths are. |
| `ClippedVolumes.TetrahedronVolume` | multibody/boussinesq_solver/math_helper.cc:149-155 | The volume has the sign of the height. A positive height gives volume 0 only when the base area is 0. |
| `ClippedVolumes.CutRatio` | multibody/boussinesq_solver/math_helper.cc:161-162 | The cut ratio lies in [0,1]. It is 0 iff the near value is 0, and 1 iff the far value is 0. |
| `ClippedVolumes.CutRatioIsZeroCrossing` | multibody/boussinesq_solver/math_helper.cc:161-162 | When the two end values have opposite signs, the linear interpolant of the field vanishes at the cut ratio. |
| `ClippedVolumes.CutPoint` | multibody/boussinesq_solver/math_helper.cc:164-167 | The cut point is collinear with the edge (the cross product of c − p_i with p_o − p_i is zero), and each of its coordinates lies between those of the endpoints. Together these put it on the segment. It is the near endpoint when the near value is 0, and the far endpoint when the far value is 0. |
| `ClippedVolumes.CutPointFromFarEnd` | multibody/boussinesq_solver/math_helper.cc:164-167 | Seen from the far endpoint, the cut point lies at the complementary fraction 1 − ratio of the way back along the edge. |
| `ClippedVolumes.VolumeExcludingTwoNode` | multibody/boussinesq_solver/math_helper.cc:182-195 | The clipped corner volume has the sign of the value at p3. |
| `ClippedVolumes.CutCornerAreaVector` | multibody/boussinesq_solver/math_helper.cc:186-194 | The triangle formed by p3 and the two cut points has the area vector of the whole triangle scaled by the product of the fractions (one minus the cut ratio) of the edges p1–p3 and p2–p3 that lie on p3's side. |
| `ClippedVolumes.VolumeExcludingTwoNodeOnWholeTriangle` | multibody/boussinesq_solver/math_helper.cc:182-195 | The clipped corner volume is the tetrahedron volume of height value_3 with apex p3. Its base area vector is the whole triangle's area vector, scaled by the product of the two edge fractions on p3's side of the cut. |
| `ClippedVolumes.VolumeExcludingOneNode` | multibody/boussinesq_solver/math_helper.cc:157-180 | The volume is non-negative when v1 and v2 are both non-negative, and non-positive when both are non-positive. |
| `ClippedVolumes.VolumeExcludingOneNodeParts` | multibody/boussinesq_solver/math_helper.cc:157-180 | The volume is a tetrahedron on p1, cut(p2p3) and cut(p1p3) with height v1, plus (v1+v2)/3 times the area of triangle p1, p2, cut(p2p3). The edge length abs(p2 − p1) cancels out. |
| `ClippedVolumes.CutTriangleDecomposition` | multibody/boussinesq_solver/math_helper.cc:157-195 | The area vectors of the triangles p1, cut(p2p3), cut(p1p3) and p1, p2, cut(p2p3) (the bases of the one-node volume) and of the corner p3, cut(p1p3), cut(p2p3) (the base of the two-node volume) add up to the whole triangle's area vector. |

## Left out

- The closed forms of `CalcIntegralJ0minus1` and `CalcIntegralJ1minus2`, and of the general branches of `CalcIntegralI0minus1P1` and `CalcIntegralI1minus2P1`, are not modelled. They are built from log, sec, tan, asin, atanh, asinh, sqrt and pow, which do not exist over the reals here. Their antiderivatives are parameters, and only how each integral is assembled from them is modelled.
- `CalcIntegralI2minus1Pminus1` and `CalcIntegralI10Pminus1` (math_helper.cc:90-113) are not modelled. They consist only of transcendental closed forms, with no guard or dispatch, so without those functions there is nothing to state about them.
- `CalcTransformationFromTriangleFrame` (math_helper.cc:115-139) and the frame inverse and point transforms (row_compliance_matrix.cc:35-42) are not modelled. They need normalisation by a square root, and orthonormality that holds only up to rounding. They are folded into the `Evaluator` parameter, so nothing is stated about the frame's axes or the local height.
- `CalcGeneralTriangleCompliance` (row_compliance_matrix.cc:46-47) is not part of this model. It is the `Evaluator` parameter.
- The stiffness constant k and node A are passed through to the evaluator unchanged. The model does not look at them.
- The evaluator also reports a degenerate triangle frame (math_helper.cc:122) and a non-finite local height (row_compliance_matrix.cc:44) as a missing result. This models the armed `DRAKE_ASSERT`s: the row computation stops. With assertions compiled out, the C++ would go on and accumulate the non-finite value into the row.
- The diagnostic dump to `nan_error.txt` and the `PRINT_VAR` macro (row_compliance_matrix.cc:13, 51-61) are output only, and are not modelled.
- IEEE rounding, infinities and NaN are not modelled. Arithmetic is exact, and "not finite" is only the evaluator's missing result.
- `CutRatio`, `CutPoint` and both clipped volumes require abs(v_i) + abs(v3) > 0. When both values are 0, the C++ computes 0/0, and that NaN is not modelled.
- `VolumeExcludingOneNode` requires the abstract norm of p2 − p1 to be non-zero. The C++ divides by it unguarded.
- The Euclidean norm is abstract. The only fact used about it is that it is non-negative.
- That the two clipped volumes add up to the volume under the interpolated field is not stated. `CutTriangleDecomposition` states the algebraic part: the bases of the two clipped volumes split the triangle's area vector. Going from area vectors to volumes needs the norm's homogeneity and an integral of the field, and neither is available with an abstract norm. With signed heights, the code also adds volumes of opposite sign.
