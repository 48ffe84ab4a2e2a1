/** Exact-real stand-ins for the double-precision scalars and the Eigen vectors
    the solver works with. Rounding is not modelled: every operation is exact. */
module Numerics {

  /** Machine epsilon of an IEEE-754 double, 2^-52. */
  const Eps: real := 1.0 / 4503599627370496.0

  /** The degeneracy tolerance used throughout the solver: ten machine epsilons. */
  const Tol: real := 10.0 * Eps

  function Abs(r: real): (a: real)
    ensures 0.0 <= a && (a == r || a == -r)
  {
    if r < 0.0 then -r else r
  }

  datatype Vec2 = Vec2(x: real, y: real)

  datatype Vec3 = Vec3(x: real, y: real, z: real)

  function Sub2(a: Vec2, b: Vec2): Vec2 { Vec2(a.x - b.x, a.y - b.y) }

  function Add(a: Vec3, b: Vec3): Vec3 { Vec3(a.x + b.x, a.y + b.y, a.z + b.z) }

  function Sub(a: Vec3, b: Vec3): Vec3 { Vec3(a.x - b.x, a.y - b.y, a.z - b.z) }

  function Neg(a: Vec3): Vec3 { Vec3(-a.x, -a.y, -a.z) }

  function Scale(c: real, a: Vec3): Vec3 { Vec3(c * a.x, c * a.y, c * a.z) }

  function Dot(a: Vec3, b: Vec3): real { a.x * b.x + a.y * b.y + a.z * b.z }

  function Cross(a: Vec3, b: Vec3): Vec3
  {
    Vec3(a.y * b.z - a.z * b.y, a.z * b.x - a.x * b.z, a.x * b.y - a.y * b.x)
  }

  /** The point of the plane z = 0 whose first two coordinates are those of p. */
  function Lift(p: Vec2): Vec3 { Vec3(p.x, p.y, 0.0) }

  type NonNegReal = r: real | 0.0 <= r

  /** Eigen's Euclidean norm needs a square root, which has no counterpart over the
      reals here; it is kept abstract, and all the model relies on is that it is
      never negative. */
  type Norm = Vec3 -> NonNegReal
}
