/** Triangle areas and the tolerance-banded orientation test of math_helper.cc. */
module TriangleGeometry {
  import opened Numerics

  /** CalcTriangleArea on planar points: half the cross product of the edges
      p1->p2 and p1->p3; positive when p1, p2, p3 run counter-clockwise. */
  function SignedArea(p1: Vec2, p2: Vec2, p3: Vec2): real
  {
    var u1 := Sub2(p2, p1);
    var u2 := Sub2(p3, p1);
    (u1.x * u2.y - u1.y * u2.x) / 2.0
  }

  /** CalcTriangleArea on spatial points: the area vector, normal to the
      triangle by the right-hand rule, with the triangle's area as length. */
  function AreaVector(p1: Vec3, p2: Vec3, p3: Vec3): Vec3
  {
    var u1 := Sub(p2, p1);
    var u2 := Sub(p3, p1);
    var c := Cross(u1, u2);
    Vec3(c.x / 2.0, c.y / 2.0, c.z / 2.0)
  }

  /** CalcTriangleOrientation: 1 for counter-clockwise, -1 for clockwise and 0
      for a triangle whose signed area lies within Tol of zero. The area is
      recomputed here from its own formula, and the contract ties it to
      SignedArea. */
  function Orientation(p1: Vec2, p2: Vec2, p3: Vec2): (r: int)
    ensures r == -1 || r == 0 || r == 1
    ensures r == 1 <==> SignedArea(p1, p2, p3) > Tol
    ensures r == -1 <==> SignedArea(p1, p2, p3) < -Tol
    ensures r == 0 <==> Abs(SignedArea(p1, p2, p3)) <= Tol
  {
    var u1 := Sub2(p2, p1);
    var u2 := Sub2(p3, p1);
    var signedArea := (u1.x * u2.y - u1.y * u2.x) / 2.0;
    assert signedArea == SignedArea(p1, p2, p3);
    assert 0.0 < Tol;
    var afterFirstTest := if signedArea > Tol then 1 else 0;
    if signedArea < -Tol then -1 else afterFirstTest
  }

  lemma SignedAreaSwapNegates(p1: Vec2, p2: Vec2, p3: Vec2)
    ensures SignedArea(p1, p3, p2) == -SignedArea(p1, p2, p3)
  {
  }

  lemma SignedAreaCyclic(p1: Vec2, p2: Vec2, p3: Vec2)
    ensures SignedArea(p2, p3, p1) == SignedArea(p1, p2, p3)
    ensures SignedArea(p3, p1, p2) == SignedArea(p1, p2, p3)
  {
  }

  /** Translating all three points leaves the signed area unchanged. */
  lemma SignedAreaTranslationInvariant(p1: Vec2, p2: Vec2, p3: Vec2, d: Vec2)
    ensures SignedArea(Vec2(p1.x + d.x, p1.y + d.y), Vec2(p2.x + d.x, p2.y + d.y),
                       Vec2(p3.x + d.x, p3.y + d.y))
         == SignedArea(p1, p2, p3)
  {
  }

  lemma UnitRightTriangle()
    ensures SignedArea(Vec2(0.0, 0.0), Vec2(1.0, 0.0), Vec2(0.0, 1.0)) == 0.5
    ensures Orientation(Vec2(0.0, 0.0), Vec2(1.0, 0.0), Vec2(0.0, 1.0)) == 1
    ensures Orientation(Vec2(0.0, 0.0), Vec2(0.0, 1.0), Vec2(1.0, 0.0)) == -1
  {
    var a, b, c := Vec2(0.0, 0.0), Vec2(1.0, 0.0), Vec2(0.0, 1.0);
    assert SignedArea(a, b, c) == 0.5;
    assert SignedArea(a, c, b) == -0.5;
    assert Tol < 0.5;
  }

  /** Three points on one line are classified as degenerate. */
  lemma CollinearIsDegenerate(p1: Vec2, d: Vec2, s: real, t: real)
    ensures Orientation(p1, Vec2(p1.x + s * d.x, p1.y + s * d.y),
                        Vec2(p1.x + t * d.x, p1.y + t * d.y)) == 0
  {
  }

  lemma OrientationSwapNegates(p1: Vec2, p2: Vec2, p3: Vec2)
    ensures Orientation(p1, p3, p2) == -Orientation(p1, p2, p3)
  {
    SignedAreaSwapNegates(p1, p2, p3);
  }

  lemma OrientationCyclic(p1: Vec2, p2: Vec2, p3: Vec2)
    ensures Orientation(p2, p3, p1) == Orientation(p1, p2, p3)
  {
    SignedAreaCyclic(p1, p2, p3);
  }

  /** The spatial area vector is the cross product of the two edges from p1, halved. */
  lemma AreaVectorIsHalfCross(p1: Vec3, p2: Vec3, p3: Vec3)
    ensures Scale(2.0, AreaVector(p1, p2, p3)) == Cross(Sub(p2, p1), Sub(p3, p1))
  {
  }

  lemma AreaVectorSwapNegates(p1: Vec3, p2: Vec3, p3: Vec3)
    ensures AreaVector(p1, p3, p2) == Neg(AreaVector(p1, p2, p3))
  {
  }

  lemma AreaVectorCyclic(p1: Vec3, p2: Vec3, p3: Vec3)
    ensures AreaVector(p2, p3, p1) == AreaVector(p1, p2, p3)
  {
  }

  /** The area vector is normal to both edges leaving p1, hence to the triangle's plane. */
  lemma AreaVectorIsNormal(p1: Vec3, p2: Vec3, p3: Vec3)
    ensures Dot(AreaVector(p1, p2, p3), Sub(p2, p1)) == 0.0
    ensures Dot(AreaVector(p1, p2, p3), Sub(p3, p1)) == 0.0
  {
  }

  /** For a triangle lying in the plane z = 0 the area vector points along z and
      its z component is the planar signed area: the two overloads agree. */
  lemma AreaVectorOfPlanarTriangle(p1: Vec2, p2: Vec2, p3: Vec2)
    ensures AreaVector(Lift(p1), Lift(p2), Lift(p3)) == Vec3(0.0, 0.0, SignedArea(p1, p2, p3))
  {
  }
}
