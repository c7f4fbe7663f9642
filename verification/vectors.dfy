/**
 Stand-in for the parts of `mathutils` the stroke builder uses: 3-vectors over
 the reals, quaternions as opaque values, and the floating-point library calls
 (sin, cos, `Vector.rotation_difference`, quaternion-to-matrix application)
 kept uninterpreted as fields of a `Numerics` value.
 */
module Vectors {

  datatype Vec3 = Vec3(x: real, y: real, z: real)

  /** A quaternion is only ever produced by `rotationDifference` and consumed by `rotate`. */
  datatype Quat = Quat(w: real, x: real, y: real, z: real)

  /** The library numerics the source calls and the model does not interpret. */
  datatype Numerics = Numerics(
    sin: real -> real,
    cos: real -> real,
    /** `a.rotation_difference(b)`: the shortest-arc rotation taking direction a onto b */
    rotationDifference: (Vec3, Vec3) -> Quat,
    /** `q.to_matrix() @ v` */
    rotate: (Quat, Vec3) -> Vec3)

  /** Pi as the decimal `math.pi` prints as. */
  const Pi: real := 3.141592653589793

  const Origin: Vec3 := Vec3(0.0, 0.0, 0.0)

  function Add(a: Vec3, b: Vec3): Vec3 {
    Vec3(a.x + b.x, a.y + b.y, a.z + b.z)
  }

  function Sub(a: Vec3, b: Vec3): Vec3 {
    Vec3(a.x - b.x, a.y - b.y, a.z - b.z)
  }

  function Scale(k: real, v: Vec3): Vec3 {
    Vec3(k * v.x, k * v.y, k * v.z)
  }

  /** Squared Euclidean length; `v.length` is its non-negative square root. */
  function LengthSq(v: Vec3): (r: real)
    ensures r >= 0.0
  {
    v.x * v.x + v.y * v.y + v.z * v.z
  }

  /** `sin(t)^2 + cos(t)^2 == 1` holds of the library at angle t. */
  ghost predicate PythagoreanAt(n: Numerics, t: real) {
    n.sin(t) * n.sin(t) + n.cos(t) * n.cos(t) == 1.0
  }

  /** Rotation matrices built from the library's quaternions keep lengths. */
  ghost predicate RotationsKeepLength(n: Numerics) {
    forall q: Quat, v: Vec3 :: LengthSq(n.rotate(q, v)) == LengthSq(v)
  }

  /** Scaling a vector by k scales its squared length by k*k. */
  lemma {:induction false} ScaleLengthSq(k: real, v: Vec3)
    ensures LengthSq(Scale(k, v)) == k * k * LengthSq(v)
  {
    calc {
      LengthSq(Scale(k, v));
      (k * v.x) * (k * v.x) + (k * v.y) * (k * v.y) + (k * v.z) * (k * v.z);
      k * k * (v.x * v.x) + k * k * (v.y * v.y) + k * k * (v.z * v.z);
      k * k * LengthSq(v);
    }
  }
}
