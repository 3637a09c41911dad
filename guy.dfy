/**
 * The player character (src/guy.rs): its component, its two sizes, the bundle
 * it is spawned from, and the jump state the other systems share.
 */
module Guys {
  import opened Wrappers
  import opened Engine
  import opened PhysicsObjects

  /** The `Guy` component: horizontal speed in world units per second. */
  datatype Guy = Guy(hSpeed: real)

  /** Standing size; as the sprite's scale it is also the collision box. */
  const GUY_SIZE: Vec3 := Vec3(20.0, 50.0, 0.0)

  /** Size while jumping: narrower and taller. */
  const GUY_JUMPING_SIZE: Vec3 := Vec3(17.0, 55.0, 0.0)

  /** A sprite's colour, as `Color::rgb`. */
  datatype Color = Rgb(r: real, g: real, b: real)

  /** The spawn bundle: the `Guy`, the sprite's transform and colour, and the physics component. */
  datatype GuyBundle = GuyBundle(guy: Guy, transform: Transform, color: Color, physics: PhysicsObject)

  /** `GuyBundle::default()`: speed 300, standing size at the origin, at rest. */
  function DefaultBundle(): (b: GuyBundle)
    ensures b.guy.hSpeed == 300.0
    ensures b.transform.scale == GUY_SIZE && Truncate(b.transform.scale) == Vec2(20.0, 50.0)
    ensures b.transform.translation == Vec3(0.0, 0.0, 0.0)
    ensures b.color == Rgb(0.5, 0.5, 1.0)
    ensures b.physics == PhysicsObjects.Default()
    ensures b.physics.velocity == Vec2(0.0, 0.0) && b.physics.oldPosition == Vec3(0.0, 0.0, 0.0)
  {
    GuyBundle(Guy(300.0), DEFAULT_TRANSFORM.(scale := GUY_SIZE), Rgb(0.5, 0.5, 1.0), PhysicsObjects.Default())
  }

  /** `GuyBundle::with_translation`: the default bundle with only its translation overwritten. */
  method WithTranslation(translation: Vec3) returns (guy: GuyBundle)
    ensures guy.transform.translation == translation
    ensures guy.guy == DefaultBundle().guy && guy.color == DefaultBundle().color
    ensures guy.physics == DefaultBundle().physics
    ensures guy.transform.scale == DefaultBundle().transform.scale
    ensures Truncate(guy.transform.scale) == Vec2(20.0, 50.0)
  {
    guy := DefaultBundle();
    guy := guy.(transform := guy.transform.(translation := translation));
  }

  /**
   * The guy's jump state. Its definition is not part of this model's source
   * files; it is modelled as a record of the ground contact found by the last
   * collision pass (the y of the surface snapped to, or `None`), a coyote
   * timer of abstract type `C` and a pre-jump timer of abstract type `P`.
   */
  datatype JumpState<C, P> = JumpState(onGround: Option<real>, coyoteTimer: C, preJumpTimer: P)

  /** The guy's components that the physics, collision, jump and input systems mutate. */
  datatype GuyState<C, P> = GuyState(physics: PhysicsObject, transform: Transform, jump: JumpState<C, P>)

  /**
   * The operations on the jump state whose bodies are not part of this model,
   * taken as given functions: ticking and resetting the coyote timer, ticking
   * and querying the pre-jump timer, and `perform_jump` / `try_jump`, which act
   * on the physics component, the transform and the jump state together.
   */
  datatype JumpOps<!C, !P> = JumpOps(
    coyoteTick: (C, real) -> C,
    coyoteSetOnGround: C -> C,
    preJumpTick: (P, real) -> P,
    preJumpFinished: P -> bool,
    performJump: GuyState<C, P> -> GuyState<C, P>,
    tryJump: GuyState<C, P> -> GuyState<C, P>)
}
