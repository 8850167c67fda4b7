/**
  Three-component vectors over the reals (the program's single-precision
  vectors, without rounding), the angle conversion the program uses, and the
  library maths it calls but that this model does not define.
 */
module Vectors {

  datatype Vec3 = Vec3(x: real, y: real, z: real)

  const Zero := Vec3(0.0, 0.0, 0.0)
  const One := Vec3(1.0, 1.0, 1.0)
  /** The world's up direction. */
  const Up := Vec3(0.0, 1.0, 0.0)

  function Add(a: Vec3, b: Vec3): Vec3 {
    Vec3(a.x + b.x, a.y + b.y, a.z + b.z)
  }

  function Sub(a: Vec3, b: Vec3): Vec3 {
    Vec3(a.x - b.x, a.y - b.y, a.z - b.z)
  }

  function Neg(a: Vec3): Vec3 {
    Vec3(-a.x, -a.y, -a.z)
  }

  function Scale(a: Vec3, k: real): Vec3 {
    Vec3(a.x * k, a.y * k, a.z * k)
  }

  /** Component-wise product, as a vector scale factor is applied. */
  function Mul(a: Vec3, b: Vec3): Vec3 {
    Vec3(a.x * b.x, a.y * b.y, a.z * b.z)
  }

  function Cross(a: Vec3, b: Vec3): Vec3 {
    Vec3(a.y * b.z - a.z * b.y, a.z * b.x - a.x * b.z, a.x * b.y - a.y * b.x)
  }

  /** Linear blend from a (t = 0) to b (t = 1), the library's mix. */
  function Mix(a: Vec3, b: Vec3, t: real): Vec3 {
    Vec3(Lerp(a.x, b.x, t), Lerp(a.y, b.y, t), Lerp(a.z, b.z, t))
  }

  /** The blend on one component. */
  function Lerp(a: real, b: real, t: real): real {
    a * (1.0 - t) + b * t
  }

  /** The vector with its vertical component zeroed. */
  function Flatten(a: Vec3): Vec3 {
    a.(y := 0.0)
  }

  function SqLength(a: Vec3): real {
    a.x * a.x + a.y * a.y + a.z * a.z
  }

  /** The degrees-to-radians factor of the maths library's radians(). */
  const DegToRad: real := 0.01745329251994329576923690768489

  function Radians(degrees: real): real {
    degrees * DegToRad
  }

  /** The value of the C library's M_PI. */
  const Pi: real := 3.14159265358979323846

  /**
    The transcendental functions the program calls (normalisation, the
    two-argument arc tangent, cosine and sine), passed in rather than defined.
   */
  datatype Math = Math(
    normalize: Vec3 -> Vec3,
    atan2: (real, real) -> real,
    cos: real -> real,
    sin: real -> real)

  /** The one fact about normalisation the model relies on: a horizontal vector stays horizontal. */
  ghost predicate KeepsFlat(m: Math) {
    forall v: Vec3 :: v.y == 0.0 ==> m.normalize(v).y == 0.0
  }
}
