/**
 * The fixed-step simulation of src/platformer.rs: the physics step of every
 * moving body, the collision response of the guy against every wall, and the
 * per-tick update of the jump state; plus the wall table of level 1.
 *
 * Detection (`collide_aabb::collide`) is the engine's and is taken as a given
 * function `collide`; only the response to what it reports is modelled.
 */
module Platformer {
  import opened Wrappers
  import opened Engine
  import opened PhysicsObjects
  import opened Guys

  /** Length of a physics tick, in seconds. */
  const PHYSICS_TIME_STEP: real := 1.0 / 120.0

  /** What gravity takes off `velocity.y` per physics tick: a flat amount, not scaled by the tick length. */
  const GRAVITY_PER_TICK: real := 23.0

  /** The application's states, with the loading state the input logic switches to. */
  datatype AppState = MainMenu | InGame | Paused | Loading

  /* ----------------------------------------------------------------------
   * Level 1's walls
   * ---------------------------------------------------------------------- */

  /** A wall's transform: `Transform` with the given translation and scale and a default rotation. */
  function WallAt(translation: Vec3, scale: Vec3): Transform {
    DEFAULT_TRANSFORM.(translation := translation, scale := scale)
  }

  function BoxMinX(t: Transform): real { MinX(t.translation, Truncate(t.scale)) }
  function BoxMaxX(t: Transform): real { MaxX(t.translation, Truncate(t.scale)) }
  function BoxMinY(t: Transform): real { MinY(t.translation, Truncate(t.scale)) }
  function BoxMaxY(t: Transform): real { MaxY(t.translation, Truncate(t.scale)) }

  /** `inner` lies strictly between the four boundary walls. */
  predicate Enclosed(inner: Transform, left: Transform, right: Transform, bottom: Transform, top: Transform) {
    && BoxMaxX(left) < BoxMinX(inner) && BoxMaxX(inner) < BoxMinX(right)
    && BoxMaxY(bottom) < BoxMinY(inner) && BoxMaxY(inner) < BoxMinY(top)
  }

  /** `make_level_1`: the four boundary walls of a 900 x 600 arena, then five platforms. */
  function MakeLevel1(): (level: seq<Transform>)
    ensures |level| == 9
    ensures forall i :: 0 <= i < |level| ==> level[i].scale.x > 0.0 && level[i].scale.y > 0.0
    ensures forall i :: 4 <= i < |level| ==> Enclosed(level[i], level[0], level[1], level[2], level[3])
  {
    var wallThickness := 10.0;
    var bounds := Vec2(900.0, 600.0);
    [
      WallAt(Vec3(-bounds.x / 2.0, 0.0, 0.0), Vec3(wallThickness, bounds.y + wallThickness, 1.0)),  // left
      WallAt(Vec3(bounds.x / 2.0, 0.0, 0.0), Vec3(wallThickness, bounds.y + wallThickness, 1.0)),   // right
      WallAt(Vec3(0.0, -bounds.y / 2.0, 0.0), Vec3(bounds.x + wallThickness, wallThickness, 1.0)),  // bottom
      WallAt(Vec3(0.0, bounds.y / 2.0, 0.0), Vec3(bounds.x + wallThickness, wallThickness, 1.0)),   // top
      WallAt(Vec3(-280.0, -220.0, 0.0), Vec3(50.0, wallThickness, 1.0)),
      WallAt(Vec3(-160.0, -200.0, 0.0), Vec3(50.0, wallThickness, 1.0)),
      WallAt(Vec3(-100.0, -180.0, 0.0), Vec3(90.0, wallThickness, 1.0)),
      WallAt(Vec3(60.0, -200.0, 0.0), Vec3(50.0, wallThickness, 1.0)),
      WallAt(Vec3(160.0, -220.0, 0.0), Vec3(50.0, wallThickness, 1.0))
    ]
  }

  /* ----------------------------------------------------------------------
   * Physics step
   * ---------------------------------------------------------------------- */

  /** An entity with a `PhysicsObject`: its physics component, its transform, and whether it carries the `Gravity` marker. */
  datatype Body = Body(physics: PhysicsObject, transform: Transform, gravity: bool)

  /**
   * One physics step of one body with tick length `dt`. The change of velocity
   * does not depend on `dt`; the translation moves by the new velocity times
   * `dt`, in x and y only.
   */
  function Integrate(b: Body, dt: real): (r: Body)
    ensures r.physics.velocity.x == b.physics.velocity.x
    ensures b.gravity ==> r.physics.velocity.y == b.physics.velocity.y - 23.0
    ensures !b.gravity ==> r.physics.velocity == b.physics.velocity
    ensures r.physics.oldPosition == b.transform.translation
    ensures r.transform.translation.x == b.transform.translation.x + r.physics.velocity.x * dt
    ensures r.transform.translation.y == b.transform.translation.y + r.physics.velocity.y * dt
    ensures r.transform.translation.z == b.transform.translation.z
    ensures r.transform.scale == b.transform.scale && r.gravity == b.gravity
  {
    var v := b.physics.velocity;
    var velocity := if b.gravity then v.(y := v.y - GRAVITY_PER_TICK) else v;
    var delta := Scale2(velocity, dt);
    Body(PhysicsObject(velocity, b.transform.translation),
         b.transform.(translation := Add3(b.transform.translation, Extend(delta, 0.0))),
         b.gravity)
  }

  /** `physics_system`: steps every body in place, each by one physics tick. */
  method PhysicsSystem(bodies: array<Body>)
    modifies bodies
    ensures forall i :: 0 <= i < bodies.Length ==> bodies[i] == Integrate(old(bodies[i]), PHYSICS_TIME_STEP)
  {
    for i := 0 to bodies.Length
      invariant forall k :: 0 <= k < i ==> bodies[k] == Integrate(old(bodies[k]), PHYSICS_TIME_STEP)
      invariant forall k :: i <= k < bodies.Length ==> bodies[k] == old(bodies[k])
    {
      var physics, transform := bodies[i].physics, bodies[i].transform;
      if bodies[i].gravity {
        physics := physics.(velocity := physics.velocity.(y := physics.velocity.y - GRAVITY_PER_TICK));
      }
      var delta := Scale2(physics.velocity, PHYSICS_TIME_STEP);
      physics := physics.(oldPosition := transform.translation);
      transform := transform.(translation := Add3(transform.translation, Extend(delta, 0.0)));
      bodies[i] := bodies[i].(physics := physics, transform := transform);
    }
  }

  /* ----------------------------------------------------------------------
   * Collision response
   * ---------------------------------------------------------------------- */

  /** The side of an overlap that the engine's AABB test reports. */
  datatype Collision = Left | Right | Top | Bottom | Inside

  /**
   * The engine's AABB test, `collide(wall position, wall size, guy position,
   * guy size)`; `None` when the boxes do not overlap.
   */
  type Collide = (Vec3, Vec2, Vec3, Vec2) -> Option<Collision>

  /** Between `g` and `r` only `velocity.x` and `translation.x` may differ. */
  ghost predicate OnlyXChanged<C, P>(g: GuyState<C, P>, r: GuyState<C, P>) {
    && r.physics.velocity.y == g.physics.velocity.y
    && r.physics.oldPosition == g.physics.oldPosition
    && r.transform.translation.y == g.transform.translation.y
    && r.transform.translation.z == g.transform.translation.z
    && r.transform.scale == g.transform.scale
    && r.jump == g.jump
  }

  /** Between `g` and `r` only `velocity.y` and `translation.y` may differ. */
  ghost predicate OnlyYChanged<C, P>(g: GuyState<C, P>, r: GuyState<C, P>) {
    && r.physics.velocity.x == g.physics.velocity.x
    && r.physics.oldPosition == g.physics.oldPosition
    && r.transform.translation.x == g.transform.translation.x
    && r.transform.translation.z == g.transform.translation.z
    && r.transform.scale == g.transform.scale
    && r.jump == g.jump
  }

  /**
   * The response of the guy to what the test reported for one wall. `guySize`
   * is the size captured before the wall loop. Each side clamps the velocity
   * component pointing into the wall and puts the guy's box flush against the
   * wall's near edge; only a bottom contact grounds the guy, resets the coyote
   * timer and restores the standing size; `Inside` and no contact change nothing.
   */
  function Respond<C, P>(g: GuyState<C, P>, guySize: Vec2, wall: Transform, collision: Option<Collision>,
                         setOnGround: C -> C): (r: GuyState<C, P>)
    ensures collision == Some(Left) ==>
      && OnlyXChanged(g, r)
      && r.physics.velocity.x == Min(g.physics.velocity.x, 0.0)
      && MinX(r.transform.translation, guySize) == BoxMaxX(wall)
    ensures collision == Some(Right) ==>
      && OnlyXChanged(g, r)
      && r.physics.velocity.x == Max(g.physics.velocity.x, 0.0)
      && MaxX(r.transform.translation, guySize) == BoxMinX(wall)
    ensures collision == Some(Top) ==>
      && OnlyYChanged(g, r)
      && r.physics.velocity.y == Min(g.physics.velocity.y, 0.0)
      && MaxY(r.transform.translation, guySize) == BoxMinY(wall)
    ensures collision == Some(Bottom) ==>
      && r.physics.velocity == Vec2(g.physics.velocity.x, Max(g.physics.velocity.y, 0.0))
      && r.physics.oldPosition == g.physics.oldPosition
      && r.transform.translation.x == g.transform.translation.x
      && r.transform.translation.z == g.transform.translation.z
      && MinY(r.transform.translation, guySize) == BoxMaxY(wall)
      && r.transform.scale == GUY_SIZE
      && r.jump == JumpState(Some(r.transform.translation.y), setOnGround(g.jump.coyoteTimer), g.jump.preJumpTimer)
    ensures collision == Some(Inside) || collision == None ==> r == g
  {
    var wallSize := Truncate(wall.scale);
    var v := g.physics.velocity;
    var t := g.transform.translation;
    match collision
    case Some(Left) =>
      g.(physics := g.physics.(velocity := v.(x := Min(v.x, 0.0))),
         transform := g.transform.(translation := t.(x := wall.translation.x + wallSize.x / 2.0 + guySize.x / 2.0)))
    case Some(Right) =>
      g.(physics := g.physics.(velocity := v.(x := Max(v.x, 0.0))),
         transform := g.transform.(translation := t.(x := wall.translation.x - wallSize.x / 2.0 - guySize.x / 2.0)))
    case Some(Top) =>
      g.(physics := g.physics.(velocity := v.(y := Min(v.y, 0.0))),
         transform := g.transform.(translation := t.(y := wall.translation.y - wallSize.y / 2.0 - guySize.y / 2.0)))
    case Some(Bottom) =>
      var y := wall.translation.y + wallSize.y / 2.0 + guySize.y / 2.0;
      GuyState(g.physics.(velocity := v.(y := Max(v.y, 0.0))),
               Transform(t.(y := y), GUY_SIZE),
               g.jump.(onGround := Some(y), coyoteTimer := setOnGround(g.jump.coyoteTimer)))
    case Some(Inside) => g
    case None => g
  }

  /**
   * The wall loop: the walls are visited in order, each tested against the
   * guy's translation as the walls before it left it, always with `guySize`.
   * The loop never touches the old position, the depth coordinate or the
   * pre-jump timer, and the scale it leaves is the one it started with or the
   * standing size.
   */
  function CollideWalls<C, P>(g: GuyState<C, P>, guySize: Vec2, walls: seq<Transform>, collide: Collide,
                              setOnGround: C -> C): (r: GuyState<C, P>)
    ensures r.physics.oldPosition == g.physics.oldPosition
    ensures r.transform.translation.z == g.transform.translation.z
    ensures r.jump.preJumpTimer == g.jump.preJumpTimer
    ensures r.transform.scale == g.transform.scale || r.transform.scale == GUY_SIZE
    decreases |walls|
  {
    if walls == [] then g
    else
      var before := CollideWalls(g, guySize, walls[..|walls| - 1], collide, setOnGround);
      var wall := walls[|walls| - 1];
      Respond(before, guySize, wall,
              collide(wall.translation, Truncate(wall.scale), before.transform.translation, guySize),
              setOnGround)
  }

  /** What the test reports for wall `i` inside the wall loop. */
  function Reported<C, P>(g: GuyState<C, P>, guySize: Vec2, walls: seq<Transform>, collide: Collide,
                          setOnGround: C -> C, i: nat): Option<Collision>
    requires i < |walls|
  {
    var before := CollideWalls(g, guySize, walls[..i], collide, setOnGround);
    collide(walls[i].translation, Truncate(walls[i].scale), before.transform.translation, guySize)
  }

  /** The state the wall loop starts from: no ground contact, the coyote timer ticked. */
  function CollisionStart<C, P>(g: GuyState<C, P>, delta: real, ops: JumpOps<C, P>): GuyState<C, P> {
    g.(jump := g.jump.(onGround := None, coyoteTimer := ops.coyoteTick(g.jump.coyoteTimer, delta)))
  }

  /** One run of the collision system, `delta` being the elapsed time it ticks the coyote timer by. */
  function CollisionTick<C, P>(g: GuyState<C, P>, walls: seq<Transform>, delta: real, collide: Collide,
                               ops: JumpOps<C, P>): GuyState<C, P>
  {
    CollideWalls(CollisionStart(g, delta, ops), Truncate(g.transform.scale), walls, collide, ops.coyoteSetOnGround)
  }

  /** What the test reports for wall `i` during one run of the collision system. */
  function TickReported<C, P>(g: GuyState<C, P>, walls: seq<Transform>, delta: real, collide: Collide,
                              ops: JumpOps<C, P>, i: nat): Option<Collision>
    requires i < |walls|
  {
    Reported(CollisionStart(g, delta, ops), Truncate(g.transform.scale), walls, collide, ops.coyoteSetOnGround, i)
  }

  /** `guy_collision_system`: resolves the guy against every wall, in order, updating its components as it goes. */
  method GuyCollisionSystem<C, P>(g: GuyState<C, P>, walls: seq<Transform>, delta: real, collide: Collide,
                                  ops: JumpOps<C, P>) returns (r: GuyState<C, P>)
    ensures r == CollisionTick(g, walls, delta, collide, ops)
  {
    var physics, transform, jumpState := g.physics, g.transform, g.jump;
    var guySize := Truncate(transform.scale);
    jumpState := jumpState.(onGround := None);
    jumpState := jumpState.(coyoteTimer := ops.coyoteTick(jumpState.coyoteTimer, delta));
    ghost var start := GuyState(physics, transform, jumpState);
    var i := 0;
    while i < |walls|
      invariant 0 <= i <= |walls|
      invariant GuyState(physics, transform, jumpState) == CollideWalls(start, guySize, walls[..i], collide, ops.coyoteSetOnGround)
    {
      var wall := walls[i];
      var wallSize := Truncate(wall.scale);
      var collision := collide(wall.translation, wallSize, transform.translation, guySize);
      match collision {
        case Some(Left) =>
          physics := physics.(velocity := physics.velocity.(x := Min(physics.velocity.x, 0.0)));
          transform := transform.(translation := transform.translation.(x := wall.translation.x + wallSize.x / 2.0 + guySize.x / 2.0));
        case Some(Right) =>
          physics := physics.(velocity := physics.velocity.(x := Max(physics.velocity.x, 0.0)));
          transform := transform.(translation := transform.translation.(x := wall.translation.x - wallSize.x / 2.0 - guySize.x / 2.0));
        case Some(Top) =>
          physics := physics.(velocity := physics.velocity.(y := Min(physics.velocity.y, 0.0)));
          transform := transform.(translation := transform.translation.(y := wall.translation.y - wallSize.y / 2.0 - guySize.y / 2.0));
        case Some(Bottom) =>
          physics := physics.(velocity := physics.velocity.(y := Max(physics.velocity.y, 0.0)));
          transform := transform.(translation := transform.translation.(y := wall.translation.y + wallSize.y / 2.0 + guySize.y / 2.0));
          jumpState := jumpState.(onGround := Some(transform.translation.y));
          jumpState := jumpState.(coyoteTimer := ops.coyoteSetOnGround(jumpState.coyoteTimer));
          transform := transform.(scale := GUY_SIZE);
        case Some(Inside) =>
        case None =>
      }
      assert walls[..i + 1][..i] == walls[..i];
      i := i + 1;
    }
    assert walls[..i] == walls;
    r := GuyState(physics, transform, jumpState);
  }

  /* ----------------------------------------------------------------------
   * Jump state update
   * ---------------------------------------------------------------------- */

  /** The guy with both jump timers ticked by `delta` and nothing else changed. */
  function TickJumpTimers<C, P>(g: GuyState<C, P>, delta: real, ops: JumpOps<C, P>): GuyState<C, P> {
    g.(jump := g.jump.(coyoteTimer := ops.coyoteTick(g.jump.coyoteTimer, delta),
                       preJumpTimer := ops.preJumpTick(g.jump.preJumpTimer, delta)))
  }

  /**
   * `update_jump_state`: ticks both timers, then fires the buffered jump
   * exactly when the guy is on the ground and the pre-jump timer has not
   * finished; otherwise `perform_jump` is not called at all.
   */
  method UpdateJumpState<C, P>(g: GuyState<C, P>, delta: real, ops: JumpOps<C, P>) returns (r: GuyState<C, P>)
    ensures var ticked := TickJumpTimers(g, delta, ops);
      g.jump.onGround.Some? && !ops.preJumpFinished(ticked.jump.preJumpTimer) ==> r == ops.performJump(ticked)
    ensures var ticked := TickJumpTimers(g, delta, ops);
      !(g.jump.onGround.Some? && !ops.preJumpFinished(ticked.jump.preJumpTimer)) ==> r == ticked
  {
    var jumpState := g.jump;
    jumpState := jumpState.(coyoteTimer := ops.coyoteTick(jumpState.coyoteTimer, delta));
    var onGround := jumpState.onGround.Some?;
    jumpState := jumpState.(preJumpTimer := ops.preJumpTick(jumpState.preJumpTimer, delta));
    r := g.(jump := jumpState);
    if onGround && !ops.preJumpFinished(jumpState.preJumpTimer) {
      r := ops.performJump(r);
    }
  }

  /* ----------------------------------------------------------------------
   * One physics tick of the guy: integration, then collision
   * ---------------------------------------------------------------------- */

  /**
   * Integration followed by the collision system, the order the physics stage
   * runs them in: the old position the tick leaves is where the guy was before
   * it, and the depth coordinate and the pre-jump timer are untouched.
   */
  function PhysicsTick<C, P>(g: GuyState<C, P>, gravity: bool, walls: seq<Transform>, delta: real,
                             collide: Collide, ops: JumpOps<C, P>): (r: GuyState<C, P>)
    ensures r.physics.oldPosition == g.transform.translation
    ensures r.transform.translation.z == g.transform.translation.z
    ensures r.jump.preJumpTimer == g.jump.preJumpTimer
  {
    var moved := Integrate(Body(g.physics, g.transform, gravity), PHYSICS_TIME_STEP);
    CollisionTick(g.(physics := moved.physics, transform := moved.transform), walls, delta, collide, ops)
  }

  /** `n` physics ticks in a row. */
  function PhysicsTicks<C, P>(g: GuyState<C, P>, gravity: bool, walls: seq<Transform>, delta: real,
                              collide: Collide, ops: JumpOps<C, P>, n: nat): GuyState<C, P>
  {
    if n == 0 then g else PhysicsTick(PhysicsTicks(g, gravity, walls, delta, collide, ops, n - 1), gravity, walls, delta, collide, ops)
  }
}
