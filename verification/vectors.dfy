/** Unity's `Vector3`, with exact real components instead of single-precision floats. */
module Vectors {

  datatype Vector3 = Vector3(x: real, y: real, z: real)

  /** Unity's `Vector2`, used for normalized and grid coordinates. */
  datatype Vector2 = Vector2(x: real, y: real)

  /** The largest finite single-precision value (`float.MaxValue`); its
      negation is `float.MinValue`.  The source uses both as scan sentinels. */
  const FloatMax: real := 340282346638528859811704183484516925440.0

  /** A real that a finite single-precision float can hold, ignoring rounding. */
  predicate Finite(v: real) {
    -FloatMax <= v <= FloatMax
  }

  const Zero := Vector3(0.0, 0.0, 0.0)

  function Add(a: Vector3, b: Vector3): Vector3 {
    Vector3(a.x + b.x, a.y + b.y, a.z + b.z)
  }

  function Sub(a: Vector3, b: Vector3): Vector3 {
    Vector3(a.x - b.x, a.y - b.y, a.z - b.z)
  }

  function Scale(a: Vector3, k: real): Vector3 {
    Vector3(a.x * k, a.y * k, a.z * k)
  }

  /** The same vector with its height component pinned to zero, as the editor
      handles do with `newPosition.y = 0`. */
  function Flatten(a: Vector3): Vector3 {
    a.(y := 0.0)
  }

  /** `Vector3.up`. */
  const Up := Vector3(0.0, 1.0, 0.0)

  function Dot(a: Vector3, b: Vector3): real {
    a.x * b.x + a.y * b.y + a.z * b.z
  }

  /** Adding back a difference recovers the minuend. */
  lemma AddSub(a: Vector3, b: Vector3)
    ensures Add(b, Sub(a, b)) == a
  {
  }
}
