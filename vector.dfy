/** Three-component vectors (nalgebra_glm's Vec3). Components are reals: the
    model never relies on f32 rounding, only on storing and adding vectors. */
module Vectors {

  datatype Vec3 = Vec3(x: real, y: real, z: real)

  /** Vec3::zeros() */
  const Zero: Vec3 := Vec3(0.0, 0.0, 0.0)

  function Add(a: Vec3, b: Vec3): Vec3 {
    Vec3(a.x + b.x, a.y + b.y, a.z + b.z)
  }

  function Sub(a: Vec3, b: Vec3): Vec3 {
    Vec3(a.x - b.x, a.y - b.y, a.z - b.z)
  }

  function Scale(a: Vec3, k: real): Vec3 {
    Vec3(a.x * k, a.y * k, a.z * k)
  }
}
