/** The physics component of a moving entity (src/physics_object.rs). */
module PhysicsObjects {
  import opened Engine

  /**
   * A body's velocity (two-dimensional) and the translation it had before the
   * last physics step. There is no gravity field: gravity is a separate marker
   * component on the entity.
   */
  datatype PhysicsObject = PhysicsObject(velocity: Vec2, oldPosition: Vec3)

  /** The derived `Default`: every field at its own default, so a body at rest at the origin. */
  function Default(): (p: PhysicsObject)
    ensures p.velocity == Vec2(0.0, 0.0)
    ensures p.oldPosition == Vec3(0.0, 0.0, 0.0)
  {
    PhysicsObject(VEC2_ZERO, VEC3_ZERO)
  }
}
