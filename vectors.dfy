/** World-space vectors over the reals: the part of three.js's Vector3 that the
    viewer's geometry code relies on (sub, add, multiplyScalar, dot,
    distanceToSquared). Floating point rounding is not modelled. */
module Vectors {

  datatype Vec3 = Vec3(x: real, y: real, z: real)

  /** The three coordinate axes, so that bounds can be stated once per axis. */
  datatype Axis = X | Y | Z

  const Zero := Vec3(0.0, 0.0, 0.0)

  function Coord(v: Vec3, a: Axis): real
  {
    match a
    case X => v.x
    case Y => v.y
    case Z => v.z
  }

  function Add(u: Vec3, v: Vec3): Vec3
  {
    Vec3(u.x + v.x, u.y + v.y, u.z + v.z)
  }

  function Sub(u: Vec3, v: Vec3): Vec3
  {
    Vec3(u.x - v.x, u.y - v.y, u.z - v.z)
  }

  function Scale(v: Vec3, k: real): Vec3
  {
    Vec3(v.x * k, v.y * k, v.z * k)
  }

  function Dot(u: Vec3, v: Vec3): real
  {
    u.x * v.x + u.y * v.y + u.z * v.z
  }

  /** The square of a real, kept as a named term so that sums of squares
      can be reasoned about linearly. */
  function Sq(a: real): real
  {
    a * a
  }

  /** Squared length (Vector3.lengthSq). */
  function LengthSq(v: Vec3): real
  {
    Sq(v.x) + Sq(v.y) + Sq(v.z)
  }

  /** Vector3.distanceToSquared. */
  function DistSq(u: Vec3, v: Vec3): real
  {
    LengthSq(Sub(u, v))
  }

  lemma SquareNonNegative(a: real)
    ensures Sq(a) >= 0.0
  {
  }

  /** A squared length is never negative. */
  lemma LengthSqNonNegative(v: Vec3)
    ensures LengthSq(v) >= 0.0
  {
    SquareNonNegative(v.x);
    SquareNonNegative(v.y);
    SquareNonNegative(v.z);
  }

  /** The product of two non-negative reals is non-negative. */
  lemma MulNonNegative(a: real, b: real)
    requires a >= 0.0 && b >= 0.0
    ensures a * b >= 0.0
  {
  }
}
