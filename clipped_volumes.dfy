/** Volumes under a field interpolated linearly over a triangle, as math_helper.cc
    computes them when the field changes sign between the vertices. The field
    values are used with their signs, exactly as the code passes them on, so the
    volumes are signed: positive where the field is positive. */
module ClippedVolumes {
  import opened Numerics
  import opened TriangleGeometry

  /** CalcVolumeOfPyramidWithTrapesiumBase: a pyramid of height pyramidHeight on a
      trapezium with parallel sides l1, l2 at distance trapeziumHeight. */
  function PyramidWithTrapeziumBaseVolume(l1: real, l2: real, trapeziumHeight: real,
                                          pyramidHeight: real): real
  {
    var areaBase := (l1 + l2) * trapeziumHeight / 2.0;
    areaBase * pyramidHeight / 3.0
  }

  /** CalcVolumeOfTetrahedral: a third of base area times height, the base area
      being the length of the area vector; its sign is that of the height. */
  function TetrahedronVolume(norm: Norm, p1: Vec3, p2: Vec3, p3: Vec3, height: real): (v: real)
    ensures 0.0 <= height ==> 0.0 <= v
    ensures height <= 0.0 ==> v <= 0.0
    ensures 0.0 < height && v == 0.0 ==> norm(AreaVector(p1, p2, p3)) == 0.0
  {
    var area := norm(AreaVector(p1, p2, p3));
    area * height / 3.0
  }

  /** The fraction of the edge from p_i (field value vi) to p_o (field value vo)
      at which the linear interpolant of the field is zero. */
  function CutRatio(vi: real, vo: real): (r: real)
    requires Abs(vi) + Abs(vo) > 0.0
    ensures 0.0 <= r <= 1.0
    ensures r == 0.0 <==> vi == 0.0
    ensures r == 1.0 <==> vo == 0.0
  {
    Abs(vi) / (Abs(vi) + Abs(vo))
  }

  predicate Between(a: real, b: real, c: real)
  {
    (a <= c <= b) || (b <= c <= a)
  }

  /** The cut point on the edge p_i–p_o. */
  function CutPoint(pi: Vec3, vi: real, po: Vec3, vo: real): (c: Vec3)
    requires Abs(vi) + Abs(vo) > 0.0
    ensures Between(pi.x, po.x, c.x) && Between(pi.y, po.y, c.y) && Between(pi.z, po.z, c.z)
    ensures vi == 0.0 ==> c == pi
    ensures vo == 0.0 ==> c == po
    ensures Cross(Sub(c, pi), Sub(po, pi)) == Vec3(0.0, 0.0, 0.0)
  {
    var r := CutRatio(vi, vo);
    var d := Sub(po, pi);
    BetweenOnSegment(pi.x, po.x, r);
    BetweenOnSegment(pi.y, po.y, r);
    BetweenOnSegment(pi.z, po.z, r);
    assert Sub(Add(pi, Scale(r, d)), pi) == Scale(r, d);
    assert Scale(1.0, d) == d;
    CrossScales(d, d, r, 1.0);
    Add(pi, Scale(r, d))
  }

  lemma BetweenOnSegment(a: real, b: real, r: real)
    requires 0.0 <= r <= 1.0
    ensures Between(a, b, a + r * (b - a))
  {
    if a <= b {
      var d := b - a;
      MulNonNegative(r, d);
      MulNonNegative(1.0 - r, d);
      assert a <= a + r * d <= a + d;
    } else {
      var d := a - b;
      MulNonNegative(r, d);
      MulNonNegative(1.0 - r, d);
      assert a - d <= a - r * d <= a;
      assert a + r * (b - a) == a - r * d;
    }
  }

  /** When the two end values have opposite signs the field, interpolated
      linearly along the edge, vanishes at the cut ratio: the cut is the zero
      crossing of the field. */
  lemma CutRatioIsZeroCrossing(vi: real, vo: real)
    requires Abs(vi) + Abs(vo) > 0.0
    requires (vi >= 0.0 && vo <= 0.0) || (vi <= 0.0 && vo >= 0.0)
    ensures vi + CutRatio(vi, vo) * (vo - vi) == 0.0
  {
  }

  /** CalcInterpolatedVolumeExcludingTwoNode: p1 and p2 lie on the far side of
      the sign change, and the solid kept is the tetrahedron over the corner at
      p3 cut off by the two edge crossings, with height the value at p3. */
  function VolumeExcludingTwoNode(norm: Norm, p1: Vec3, v1: real, p2: Vec3, v2: real,
                                  p3: Vec3, v3: real): (v: real)
    requires Abs(v1) + Abs(v3) > 0.0 && Abs(v2) + Abs(v3) > 0.0
    ensures 0.0 <= v3 ==> 0.0 <= v
    ensures v3 <= 0.0 ==> v <= 0.0
  {
    var cutP1p3 := CutPoint(p1, v1, p3, v3);
    var cutP2p3 := CutPoint(p2, v2, p3, v3);
    TetrahedronVolume(norm, p3, cutP1p3, cutP2p3, v3)
  }

  /** Moving the two far vertices towards p3, to fractions s1 and s2 of their
      distance, scales the area vector by s1·s2. */
  lemma ShrunkCornerAreaVector(p1: Vec3, p2: Vec3, p3: Vec3, s1: real, s2: real)
    ensures AreaVector(p3, Add(p3, Scale(s1, Sub(p1, p3))), Add(p3, Scale(s2, Sub(p2, p3))))
         == Scale(s1 * s2, AreaVector(p1, p2, p3))
  {
    var a := Sub(p1, p3);
    var b := Sub(p2, p3);
    assert Sub(Add(p3, Scale(s1, a)), p3) == Scale(s1, a);
    assert Sub(Add(p3, Scale(s2, b)), p3) == Scale(s2, b);
    assert Cross(Scale(s1, a), Scale(s2, b)) == Scale(s1 * s2, Cross(a, b)) by {
      CrossScales(a, b, s1, s2);
    }
    AreaVectorCyclic(p1, p2, p3);
    AreaVectorCyclic(p2, p3, p1);
  }

  lemma MulNonNegative(x: real, y: real)
    requires 0.0 <= x && 0.0 <= y
    ensures 0.0 <= x * y
  {
    if x == 0.0 || y == 0.0 {
      assert x * y == 0.0;
    } else {
      assert 0.0 < x * y;
    }
  }

  /** One component of the cross product of two scaled vectors, with every
      product named, so that callers only have to match terms. */
  lemma ScaledCrossComponent(s: real, t: real, p: real, q: real, u: real, w: real,
                             sp: real, tq: real, su: real, tw: real, c: real)
    requires sp == s * p && tq == t * q && su == s * u && tw == t * w
    requires c == p * q - u * w
    ensures sp * tq - su * tw == (s * t) * c
  {
  }

  lemma CrossScales(a: Vec3, b: Vec3, s: real, t: real)
    ensures Cross(Scale(s, a), Scale(t, b)) == Scale(s * t, Cross(a, b))
  {
    var c, sa, tb := Cross(a, b), Scale(s, a), Scale(t, b);
    ScaledCrossComponent(s, t, a.y, b.z, a.z, b.y, sa.y, tb.z, sa.z, tb.y, c.x);
    ScaledCrossComponent(s, t, a.z, b.x, a.x, b.z, sa.z, tb.x, sa.x, tb.z, c.y);
    ScaledCrossComponent(s, t, a.x, b.y, a.y, b.x, sa.x, tb.y, sa.y, tb.x, c.z);
  }

  /** The cut point seen from p3: it lies at the fraction |vo|/(|vi|+|vo|), the
      complement of the cut ratio, of the way from p3 to p_i. */
  lemma CutPointFromFarEnd(pi: Vec3, vi: real, po: Vec3, vo: real)
    requires Abs(vi) + Abs(vo) > 0.0
    ensures CutPoint(pi, vi, po, vo) == Add(po, Scale(1.0 - CutRatio(vi, vo), Sub(pi, po)))
  {
    var r := CutRatio(vi, vo);
    assert pi.x + r * (po.x - pi.x) == po.x + (1.0 - r) * (pi.x - po.x);
    assert pi.y + r * (po.y - pi.y) == po.y + (1.0 - r) * (pi.y - po.y);
    assert pi.z + r * (po.z - pi.z) == po.z + (1.0 - r) * (pi.z - po.z);
  }

  lemma ThirdOfProduct(x: real, y: real, h: real)
    requires x == y
    ensures x * h / 3.0 == y * h / 3.0
  {
  }

  /** The triangle p3, c1, c2 cut off at p3's corner has the whole triangle's
      area vector scaled by the fractions of the two edges on p3's side. */
  lemma CutCornerAreaVector(p1: Vec3, v1: real, p2: Vec3, v2: real, p3: Vec3, v3: real)
    requires Abs(v1) + Abs(v3) > 0.0 && Abs(v2) + Abs(v3) > 0.0
    ensures AreaVector(p3, CutPoint(p1, v1, p3, v3), CutPoint(p2, v2, p3, v3))
         == Scale((1.0 - CutRatio(v1, v3)) * (1.0 - CutRatio(v2, v3)), AreaVector(p1, p2, p3))
  {
    CutPointFromFarEnd(p1, v1, p3, v3);
    CutPointFromFarEnd(p2, v2, p3, v3);
    ShrunkCornerAt(p1, p2, p3, CutPoint(p1, v1, p3, v3), CutPoint(p2, v2, p3, v3),
                   1.0 - CutRatio(v1, v3), 1.0 - CutRatio(v2, v3),
                   (1.0 - CutRatio(v1, v3)) * (1.0 - CutRatio(v2, v3)));
  }

  /** ShrunkCornerAreaVector with the shrunk points and the product named. */
  lemma ShrunkCornerAt(p1: Vec3, p2: Vec3, p3: Vec3, c1: Vec3, c2: Vec3, s1: real, s2: real, s: real)
    requires c1 == Add(p3, Scale(s1, Sub(p1, p3)))
    requires c2 == Add(p3, Scale(s2, Sub(p2, p3)))
    requires s == s1 * s2
    ensures AreaVector(p3, c1, c2) == Scale(s, AreaVector(p1, p2, p3))
  {
    ShrunkCornerAreaVector(p1, p2, p3, s1, s2);
  }

  /** The volume kept by VolumeExcludingTwoNode stands on the whole triangle's
      area vector scaled by the two fractions of the edges that lie on p3's side
      of the sign change. */
  lemma VolumeExcludingTwoNodeOnWholeTriangle(norm: Norm, p1: Vec3, v1: real, p2: Vec3,
                                              v2: real, p3: Vec3, v3: real)
    requires Abs(v1) + Abs(v3) > 0.0 && Abs(v2) + Abs(v3) > 0.0
    ensures VolumeExcludingTwoNode(norm, p1, v1, p2, v2, p3, v3)
         == norm(Scale((1.0 - CutRatio(v1, v3)) * (1.0 - CutRatio(v2, v3)),
                       AreaVector(p1, p2, p3))) * v3 / 3.0
  {
    var corner := AreaVector(p3, CutPoint(p1, v1, p3, v3), CutPoint(p2, v2, p3, v3));
    var scaled := Scale((1.0 - CutRatio(v1, v3)) * (1.0 - CutRatio(v2, v3)), AreaVector(p1, p2, p3));
    CutCornerAreaVector(p1, v1, p2, v2, p3, v3);
    ThirdOfProduct(norm(corner), norm(scaled), v3);
  }

  /** CalcInterpolatedVolumeExcludingOneNode: p1 and p2 share the field's sign and
      p3 is on the far side. The solid kept is a tetrahedron on p1 and the two
      cut points, of height v1, plus a pyramid on the trapezium with sides v1 and
      v2 standing on the edge p1–p2. The trapezium's height is the distance of
      the cut point on p2–p3 from the line p1–p2, which divides by |p2 − p1|. */
  function VolumeExcludingOneNode(norm: Norm, p1: Vec3, v1: real, p2: Vec3, v2: real,
                                  p3: Vec3, v3: real): (v: real)
    requires Abs(v1) + Abs(v3) > 0.0 && Abs(v2) + Abs(v3) > 0.0
    requires norm(Sub(p2, p1)) != 0.0
    ensures 0.0 <= v1 && 0.0 <= v2 ==> 0.0 <= v
    ensures v1 <= 0.0 && v2 <= 0.0 ==> v <= 0.0
  {
    var cutP1p3 := CutPoint(p1, v1, p3, v3);
    var cutP2p3 := CutPoint(p2, v2, p3, v3);
    var volumeTetrahedral := TetrahedronVolume(norm, p1, cutP2p3, cutP1p3, v1);
    var l12 := Sub(p2, p1);
    var heightFromP2p3 := norm(AreaVector(p1, p2, cutP2p3)) * 2.0 / norm(l12);
    var volumePyramid := PyramidWithTrapeziumBaseVolume(v1, v2, heightFromP2p3, norm(l12));
    PyramidSign(v1, v2, heightFromP2p3, norm(l12));
    volumeTetrahedral + volumePyramid
  }

  lemma PyramidSign(l1: real, l2: real, h: real, H: real)
    requires 0.0 <= h && 0.0 <= H
    ensures 0.0 <= l1 && 0.0 <= l2 ==> 0.0 <= PyramidWithTrapeziumBaseVolume(l1, l2, h, H)
    ensures l1 <= 0.0 && l2 <= 0.0 ==> PyramidWithTrapeziumBaseVolume(l1, l2, h, H) <= 0.0
  {
  }

  /** The pyramid volume is (l1 + l2)·h·H/6, symmetric in the two parallel sides,
      and non-negative when all four lengths are. */
  lemma PyramidVolumeProperties(l1: real, l2: real, h: real, H: real)
    ensures PyramidWithTrapeziumBaseVolume(l1, l2, h, H) == (l1 + l2) * h * H / 6.0
    ensures PyramidWithTrapeziumBaseVolume(l1, l2, h, H) == PyramidWithTrapeziumBaseVolume(l2, l1, h, H)
    ensures 0.0 <= l1 && 0.0 <= l2 && 0.0 <= h && 0.0 <= H ==> 0.0 <= PyramidWithTrapeziumBaseVolume(l1, l2, h, H)
  {
  }

  /** A pyramid on a trapezium whose height is twice an area a divided by the
      length l of the edge it stands on, of height l, has volume (l1 + l2)·a/3. */
  lemma PyramidOverEdge(l1: real, l2: real, a: real, l: real)
    requires l != 0.0
    ensures PyramidWithTrapeziumBaseVolume(l1, l2, a * 2.0 / l, l) == (l1 + l2) * a / 3.0
  {
    var h := a * 2.0 / l;
    assert h * l == a * 2.0;
    assert PyramidWithTrapeziumBaseVolume(l1, l2, h, l) == (l1 + l2) * (h * l) / 6.0;
  }

  /** The length of the edge p1–p2 cancels out of the pyramid part: it is a third
      of (v1 + v2) times the area of the triangle p1, p2, cut(p2p3). */
  lemma VolumeExcludingOneNodeParts(norm: Norm, p1: Vec3, v1: real, p2: Vec3, v2: real,
                                    p3: Vec3, v3: real)
    requires Abs(v1) + Abs(v3) > 0.0 && Abs(v2) + Abs(v3) > 0.0
    requires norm(Sub(p2, p1)) != 0.0
    ensures VolumeExcludingOneNode(norm, p1, v1, p2, v2, p3, v3)
         == norm(AreaVector(p1, CutPoint(p2, v2, p3, v3), CutPoint(p1, v1, p3, v3))) * v1 / 3.0
            + (v1 + v2) * norm(AreaVector(p1, p2, CutPoint(p2, v2, p3, v3))) / 3.0
  {
    PyramidOverEdge(v1, v2, norm(AreaVector(p1, p2, CutPoint(p2, v2, p3, v3))), norm(Sub(p2, p1)));
  }

  /** The triangle p1, p2, p3 with the cut points c13 on p1–p3 and c23 on p2–p3
      splits into the corner triangle at p3 and the quadrilateral p1, p2, c23, c13,
      itself the triangles p1, p2, c23 and p1, c23, c13: their area vectors add up
      to that of the whole triangle. These are the bases of the two clipped volumes. */
  lemma CutTriangleDecomposition(p1: Vec3, v1: real, p2: Vec3, v2: real, p3: Vec3, v3: real)
    requires Abs(v1) + Abs(v3) > 0.0 && Abs(v2) + Abs(v3) > 0.0
    ensures Add(Add(AreaVector(p1, CutPoint(p2, v2, p3, v3), CutPoint(p1, v1, p3, v3)),
                    AreaVector(p1, p2, CutPoint(p2, v2, p3, v3))),
                AreaVector(p3, CutPoint(p1, v1, p3, v3), CutPoint(p2, v2, p3, v3)))
         == AreaVector(p1, p2, p3)
  {
    var c13, c23 := CutPoint(p1, v1, p3, v3), CutPoint(p2, v2, p3, v3);
    FanIdentity(p1, p2, p3, c13, c23);
    PointOnEdgeAddsNoArea(p2, c23, p3);
    PointOnEdgeAddsNoArea(p1, c13, p3);
  }

  /** Splitting along any two points, the area vectors of the three pieces differ
      from the whole triangle's by those of the two slivers p2, c23, p3 and
      p1, p3, c13. */
  lemma FanIdentity(p1: Vec3, p2: Vec3, p3: Vec3, c13: Vec3, c23: Vec3)
    ensures Add(Add(AreaVector(p1, c23, c13), AreaVector(p1, p2, c23)), AreaVector(p3, c13, c23))
         == Add(Add(AreaVector(p1, p2, p3), AreaVector(p2, c23, p3)), AreaVector(p1, p3, c13))
  {
  }

  /** A point collinear with the edge pi–po spans no area with it. */
  lemma PointOnEdgeAddsNoArea(pi: Vec3, c: Vec3, po: Vec3)
    requires Cross(Sub(c, pi), Sub(po, pi)) == Vec3(0.0, 0.0, 0.0)
    ensures AreaVector(pi, c, po) == Vec3(0.0, 0.0, 0.0)
    ensures AreaVector(pi, po, c) == Vec3(0.0, 0.0, 0.0)
  {
    AreaVectorSwapNegates(pi, c, po);
  }
}
