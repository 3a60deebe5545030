/** Three-component vectors over the reals, standing for glam's `Vec3A`. */
module Vectors {

  datatype V3 = V3(x: real, y: real, z: real)

  const Zero: V3 := V3(0.0, 0.0, 0.0)

  function Add(a: V3, b: V3): V3 { V3(a.x + b.x, a.y + b.y, a.z + b.z) }

  function Sub(a: V3, b: V3): V3 { V3(a.x - b.x, a.y - b.y, a.z - b.z) }

  function Scale(k: real, a: V3): V3 { V3(k * a.x, k * a.y, k * a.z) }

  /** Component-wise product (glam's `Vec3A * Vec3A`). */
  function Mul(a: V3, b: V3): V3 { V3(a.x * b.x, a.y * b.y, a.z * b.z) }

  function Dot(a: V3, b: V3): real { a.x * b.x + a.y * b.y + a.z * b.z }

  function Cross(a: V3, b: V3): V3
  {
    V3(a.y * b.z - a.z * b.y, a.z * b.x - a.x * b.z, a.x * b.y - a.y * b.x)
  }

  /** The i-th component, as `v[i]` in glam. */
  function At(v: V3, i: nat): real
    requires i < 3
  {
    if i == 0 then v.x else if i == 1 then v.y else v.z
  }

  /** The i-th unit vector of the standard basis (`BASE[i]` in src/path.rs). */
  function Axis(i: nat): V3
    requires i < 3
  {
    if i == 0 then V3(1.0, 0.0, 0.0) else if i == 1 then V3(0.0, 1.0, 0.0) else V3(0.0, 0.0, 1.0)
  }
}
