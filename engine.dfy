/**
 * The engine's value types that the game logic computes with: Bevy's `Vec2`,
 * `Vec3` and `Transform`. An `f32` is read as a `real`; rounding, NaN and
 * infinities are not modelled. A `Transform`'s rotation is not modelled: no
 * part of the game logic reads or writes it.
 */
module Engine {

  datatype Vec2 = Vec2(x: real, y: real)

  datatype Vec3 = Vec3(x: real, y: real, z: real)

  const VEC2_ZERO: Vec2 := Vec2(0.0, 0.0)
  const VEC3_ZERO: Vec3 := Vec3(0.0, 0.0, 0.0)
  const VEC3_ONE: Vec3 := Vec3(1.0, 1.0, 1.0)

  /** `v * k` for a `Vec2` and an `f32`. */
  function Scale2(v: Vec2, k: real): Vec2 {
    Vec2(v.x * k, v.y * k)
  }

  /** `a + b` for two `Vec3`s. */
  function Add3(a: Vec3, b: Vec3): Vec3 {
    Vec3(a.x + b.x, a.y + b.y, a.z + b.z)
  }

  /** `Vec2::extend(z)`. */
  function Extend(v: Vec2, z: real): Vec3 {
    Vec3(v.x, v.y, z)
  }

  /** `Vec3::truncate()`: drops the z component. */
  function Truncate(v: Vec3): Vec2 {
    Vec2(v.x, v.y)
  }

  /** `f32::min` on ordinary (non-NaN) values. */
  function Min(a: real, b: real): real {
    if a <= b then a else b
  }

  /** `f32::max` on ordinary (non-NaN) values. */
  function Max(a: real, b: real): real {
    if a >= b then a else b
  }

  /** A transform's position and its scale; a sprite's scale is also its size. */
  datatype Transform = Transform(translation: Vec3, scale: Vec3)

  /** `Transform::default()`: at the origin, at scale one. */
  const DEFAULT_TRANSFORM: Transform := Transform(VEC3_ZERO, VEC3_ONE)

  /** Edges of the axis-aligned box of size `size` centred on `center`. */
  function MinX(center: Vec3, size: Vec2): real { center.x - size.x / 2.0 }
  function MaxX(center: Vec3, size: Vec2): real { center.x + size.x / 2.0 }
  function MinY(center: Vec3, size: Vec2): real { center.y - size.y / 2.0 }
  function MaxY(center: Vec3, size: Vec2): real { center.y + size.y / 2.0 }
}
