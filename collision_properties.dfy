/**
 * Properties of the physics tick and the collision response of
 * src/platformer.rs: which wall decides the ground contact, that a grounded
 * guy is never left falling, that the size used for snapping is the one
 * captured before the wall loop, and that a guy resting on a wall stays put.
 */
module CollisionProperties {
  import opened Wrappers
  import opened Engine
  import opened PhysicsObjects
  import opened Guys
  import opened Platformer

  /** Wall `i` reported a bottom contact. */
  ghost predicate BottomAt<C, P>(g: GuyState<C, P>, guySize: Vec2, walls: seq<Transform>, collide: Collide,
                                 setOnGround: C -> C, i: nat)
    requires i < |walls|
  {
    Reported(g, guySize, walls, collide, setOnGround, i) == Some(Bottom)
  }

  /** Wall `j` is the last wall to report a bottom contact. */
  ghost predicate LastBottom<C, P>(g: GuyState<C, P>, guySize: Vec2, walls: seq<Transform>, collide: Collide,
                                   setOnGround: C -> C, j: nat)
  {
    && j < |walls|
    && BottomAt(g, guySize, walls, collide, setOnGround, j)
    && forall k :: j < k < |walls| ==> !BottomAt(g, guySize, walls, collide, setOnGround, k)
  }

  /** The walls after the first `n` do not change what the first `n` report. */
  lemma ReportedPrefix<C, P>(g: GuyState<C, P>, guySize: Vec2, walls: seq<Transform>, collide: Collide,
                             setOnGround: C -> C, i: nat, n: nat)
    requires i < n <= |walls|
    ensures Reported(g, guySize, walls[..n], collide, setOnGround, i) == Reported(g, guySize, walls, collide, setOnGround, i)
  {
    assert walls[..n][..i] == walls[..i];
  }

  /** One wall's effect on the ground contact and the scale. */
  lemma RespondContact<C, P>(g: GuyState<C, P>, guySize: Vec2, wall: Transform, collision: Option<Collision>,
                             setOnGround: C -> C)
    ensures collision != Some(Bottom) ==>
      && Respond(g, guySize, wall, collision, setOnGround).jump.onGround == g.jump.onGround
      && Respond(g, guySize, wall, collision, setOnGround).transform.scale == g.transform.scale
    ensures collision == Some(Bottom) ==>
      && Respond(g, guySize, wall, collision, setOnGround).jump.onGround == Some(BoxMaxY(wall) + guySize.y / 2.0)
      && Respond(g, guySize, wall, collision, setOnGround).transform.scale == GUY_SIZE
  {
  }

  /** The wall loop over a non-empty list is the loop over all walls but the last, then the last wall's response. */
  lemma CollideWallsLast<C, P>(g: GuyState<C, P>, guySize: Vec2, walls: seq<Transform>, collide: Collide,
                               setOnGround: C -> C)
    requires walls != []
    ensures CollideWalls(g, guySize, walls, collide, setOnGround)
         == Respond(CollideWalls(g, guySize, walls[..|walls| - 1], collide, setOnGround), guySize, walls[|walls| - 1],
                    Reported(g, guySize, walls, collide, setOnGround, |walls| - 1), setOnGround)
  {
  }

  /** The ground contact is set after the wall loop exactly when it was set before or some wall reported `Bottom`. */
  lemma {:induction false} GroundedIffBottom<C, P>(g: GuyState<C, P>, guySize: Vec2, walls: seq<Transform>,
                                                   collide: Collide, setOnGround: C -> C)
    ensures CollideWalls(g, guySize, walls, collide, setOnGround).jump.onGround.Some? <==>
      (g.jump.onGround.Some? || exists i :: 0 <= i < |walls| && BottomAt(g, guySize, walls, collide, setOnGround, i))
  {
    if walls != [] {
      var n := |walls|;
      var prefix := walls[..n - 1];
      GroundedIffBottom(g, guySize, prefix, collide, setOnGround);
      forall i | 0 <= i < n - 1
        ensures BottomAt(g, guySize, prefix, collide, setOnGround, i) == BottomAt(g, guySize, walls, collide, setOnGround, i)
      {
        ReportedPrefix(g, guySize, walls, collide, setOnGround, i, n - 1);
      }
      CollideWallsLast(g, guySize, walls, collide, setOnGround);
      RespondContact(CollideWalls(g, guySize, prefix, collide, setOnGround), guySize, walls[n - 1],
                     Reported(g, guySize, walls, collide, setOnGround, n - 1), setOnGround);
      if BottomAt(g, guySize, walls, collide, setOnGround, n - 1) {
        assert CollideWalls(g, guySize, walls, collide, setOnGround).jump.onGround.Some?;
      } else {
        assert (exists i :: 0 <= i < |walls| && BottomAt(g, guySize, walls, collide, setOnGround, i)) <==>
               (exists i :: 0 <= i < n - 1 && BottomAt(g, guySize, prefix, collide, setOnGround, i));
      }
    }
  }

  /** With no bottom contact the wall loop keeps the ground contact and the scale it started with. */
  lemma {:induction false} NoBottomKeepsContact<C, P>(g: GuyState<C, P>, guySize: Vec2, walls: seq<Transform>,
                                                      collide: Collide, setOnGround: C -> C)
    requires forall i :: 0 <= i < |walls| ==> !BottomAt(g, guySize, walls, collide, setOnGround, i)
    ensures CollideWalls(g, guySize, walls, collide, setOnGround).jump.onGround == g.jump.onGround
    ensures CollideWalls(g, guySize, walls, collide, setOnGround).transform.scale == g.transform.scale
  {
    if walls != [] {
      var n := |walls|;
      var prefix := walls[..n - 1];
      forall i | 0 <= i < n - 1
        ensures !BottomAt(g, guySize, prefix, collide, setOnGround, i)
      {
        assert !BottomAt(g, guySize, walls, collide, setOnGround, i);
        ReportedPrefix(g, guySize, walls, collide, setOnGround, i, n - 1);
      }
      NoBottomKeepsContact(g, guySize, prefix, collide, setOnGround);
      CollideWallsLast(g, guySize, walls, collide, setOnGround);
      assert !BottomAt(g, guySize, walls, collide, setOnGround, n - 1);
      RespondContact(CollideWalls(g, guySize, prefix, collide, setOnGround), guySize, walls[n - 1],
                     Reported(g, guySize, walls, collide, setOnGround, n - 1), setOnGround);
    }
  }

  /**
   * When wall `j` is the last to report `Bottom`, the ground contact after the
   * wall loop is the y the guy was snapped to there (that wall's top edge plus
   * half the captured height), and the scale is the standing size.
   */
  lemma {:induction false} LastBottomDecides<C, P>(g: GuyState<C, P>, guySize: Vec2, walls: seq<Transform>,
                                                   collide: Collide, setOnGround: C -> C, j: nat)
    requires LastBottom(g, guySize, walls, collide, setOnGround, j)
    ensures CollideWalls(g, guySize, walls, collide, setOnGround).jump.onGround == Some(BoxMaxY(walls[j]) + guySize.y / 2.0)
    ensures CollideWalls(g, guySize, walls, collide, setOnGround).transform.scale == GUY_SIZE
  {
    var n := |walls|;
    var prefix := walls[..n - 1];
    CollideWallsLast(g, guySize, walls, collide, setOnGround);
    var last := Reported(g, guySize, walls, collide, setOnGround, n - 1);
    RespondContact(CollideWalls(g, guySize, prefix, collide, setOnGround), guySize, walls[n - 1], last, setOnGround);
    if j < n - 1 {
      forall k | j < k < n - 1
        ensures !BottomAt(g, guySize, prefix, collide, setOnGround, k)
      {
        assert !BottomAt(g, guySize, walls, collide, setOnGround, k);
        ReportedPrefix(g, guySize, walls, collide, setOnGround, k, n - 1);
      }
      ReportedPrefix(g, guySize, walls, collide, setOnGround, j, n - 1);
      LastBottomDecides(g, guySize, prefix, collide, setOnGround, j);
      assert !BottomAt(g, guySize, walls, collide, setOnGround, n - 1);
    }
  }

  /** A grounded guy is not moving down. */
  ghost predicate NotFallingWhenGrounded<C, P>(g: GuyState<C, P>) {
    g.jump.onGround.Some? ==> g.physics.velocity.y >= 0.0
  }

  /** The wall loop keeps a grounded guy from moving down: a later `Top` clamps `velocity.y` to at most 0, never below. */
  lemma {:induction false} CollideWallsNotFalling<C, P>(g: GuyState<C, P>, guySize: Vec2, walls: seq<Transform>,
                                                        collide: Collide, setOnGround: C -> C)
    requires NotFallingWhenGrounded(g)
    ensures NotFallingWhenGrounded(CollideWalls(g, guySize, walls, collide, setOnGround))
  {
    if walls != [] {
      CollideWallsNotFalling(g, guySize, walls[..|walls| - 1], collide, setOnGround);
    }
  }

  /** The guy with its scale replaced. */
  function WithScale<C, P>(g: GuyState<C, P>, s: Vec3): GuyState<C, P> {
    g.(transform := g.transform.(scale := s))
  }

  /**
   * The scale the guy has when the wall loop starts influences nothing but the
   * scale itself: every snap uses the size captured before the loop, so the
   * scale reset of a bottom contact does not affect later walls.
   */
  lemma {:induction false} CapturedSizeOnly<C, P>(g: GuyState<C, P>, s: Vec3, guySize: Vec2, walls: seq<Transform>,
                                                  collide: Collide, setOnGround: C -> C)
    ensures WithScale(CollideWalls(WithScale(g, s), guySize, walls, collide, setOnGround), GUY_SIZE)
         == WithScale(CollideWalls(g, guySize, walls, collide, setOnGround), GUY_SIZE)
  {
    if walls != [] {
      var prefix := walls[..|walls| - 1];
      CapturedSizeOnly(g, s, guySize, prefix, collide, setOnGround);
      var b1 := CollideWalls(WithScale(g, s), guySize, prefix, collide, setOnGround);
      assert b1.transform.translation == WithScale(b1, GUY_SIZE).transform.translation;
    }
  }

  /** In one run of the collision system, the guy ends on the ground exactly when some wall reported `Bottom`. */
  lemma CollisionTickGrounded<C, P>(g: GuyState<C, P>, walls: seq<Transform>, delta: real, collide: Collide,
                                    ops: JumpOps<C, P>)
    ensures CollisionTick(g, walls, delta, collide, ops).jump.onGround.Some? <==>
      exists i :: 0 <= i < |walls| && TickReported(g, walls, delta, collide, ops, i) == Some(Bottom)
  {
    var start := CollisionStart(g, delta, ops);
    var size := Truncate(g.transform.scale);
    TickBottomAt(g, walls, delta, collide, ops);
    GroundedIffBottom(start, size, walls, collide, ops.coyoteSetOnGround);
  }

  /**
   * In one run of the collision system, the ground contact is the y of the top
   * edge of the last wall that reported `Bottom`, plus half the guy's height.
   */
  lemma CollisionTickLastBottom<C, P>(g: GuyState<C, P>, walls: seq<Transform>, delta: real, collide: Collide,
                                      ops: JumpOps<C, P>, j: nat)
    requires j < |walls| && TickReported(g, walls, delta, collide, ops, j) == Some(Bottom)
    requires forall k :: j < k < |walls| ==> TickReported(g, walls, delta, collide, ops, k) != Some(Bottom)
    ensures CollisionTick(g, walls, delta, collide, ops).jump.onGround == Some(BoxMaxY(walls[j]) + g.transform.scale.y / 2.0)
  {
    var start := CollisionStart(g, delta, ops);
    var size := Truncate(g.transform.scale);
    TickBottomAt(g, walls, delta, collide, ops);
    assert LastBottom(start, size, walls, collide, ops.coyoteSetOnGround, j);
    LastBottomDecides(start, size, walls, collide, ops.coyoteSetOnGround, j);
  }

  /**
   * One run of the collision system leaves a grounded guy not moving down, and
   * leaves the old position and the pre-jump timer untouched.
   */
  lemma CollisionTickFrame<C, P>(g: GuyState<C, P>, walls: seq<Transform>, delta: real, collide: Collide,
                                 ops: JumpOps<C, P>)
    ensures var r := CollisionTick(g, walls, delta, collide, ops);
      && (r.jump.onGround.Some? ==> r.physics.velocity.y >= 0.0)
      && r.physics.oldPosition == g.physics.oldPosition
      && r.jump.preJumpTimer == g.jump.preJumpTimer
  {
    var start := CollisionStart(g, delta, ops);
    var size := Truncate(g.transform.scale);
    CollideWallsNotFalling(start, size, walls, collide, ops.coyoteSetOnGround);
  }

  /** A wall reports `Bottom` to the collision run exactly when it does to the wall loop it starts. */
  lemma TickBottomAt<C, P>(g: GuyState<C, P>, walls: seq<Transform>, delta: real, collide: Collide, ops: JumpOps<C, P>)
    ensures forall i :: 0 <= i < |walls| ==>
      (BottomAt(CollisionStart(g, delta, ops), Truncate(g.transform.scale), walls, collide, ops.coyoteSetOnGround, i)
       <==> TickReported(g, walls, delta, collide, ops, i) == Some(Bottom))
  {
  }

  /** Where a guy's integration step takes its translation. */
  function Moved<C, P>(g: GuyState<C, P>, gravity: bool): Vec3 {
    Integrate(Body(g.physics, g.transform, gravity), PHYSICS_TIME_STEP).transform.translation
  }

  /** The response to this report leaves the guy as it is. */
  predicate NoResponse(c: Option<Collision>) {
    c.None? || c == Some(Inside)
  }

  /** What the test reports for `wall` and a standing guy at `at`. */
  function StandingTest(collide: Collide, wall: Transform, at: Vec3): Option<Collision> {
    collide(wall.translation, Truncate(wall.scale), at, Truncate(GUY_SIZE))
  }

  /**
   * Walls from index `k` on that report nothing the loop responds to, tested
   * where the walls before `k` left the guy, leave the guy there.
   */
  lemma {:induction false} UnansweredWallsKeep<C, P>(g: GuyState<C, P>, guySize: Vec2, walls: seq<Transform>, k: nat,
                                                    collide: Collide, setOnGround: C -> C)
    requires k <= |walls|
    requires forall i :: k <= i < |walls| ==>
      NoResponse(collide(walls[i].translation, Truncate(walls[i].scale),
                         CollideWalls(g, guySize, walls[..k], collide, setOnGround).transform.translation, guySize))
    ensures CollideWalls(g, guySize, walls, collide, setOnGround) == CollideWalls(g, guySize, walls[..k], collide, setOnGround)
  {
    if |walls| == k {
      assert walls[..k] == walls;
    } else {
      var prefix := walls[..|walls| - 1];
      assert prefix[..k] == walls[..k];
      forall i | k <= i < |prefix|
        ensures prefix[i] == walls[i]
      {
      }
      UnansweredWallsKeep(g, guySize, prefix, k, collide, setOnGround);
    }
  }

  /**
   * A guy at rest, standing flush on top of wall `j` of a level, is back at the
   * same translation and scale after a physics tick, at rest, and grounded at
   * its y, when the test reports a bottom contact with wall `j` once gravity
   * has pulled the guy in, and no contact the loop responds to with any other
   * wall: the walls before `j` tested at the pulled-in position, the walls
   * after it at the position the snap restores.
   */
  lemma RestIsStable<C, P>(g: GuyState<C, P>, gravity: bool, walls: seq<Transform>, j: nat, delta: real,
                           collide: Collide, ops: JumpOps<C, P>)
    requires j < |walls|
    requires g.physics.velocity == Vec2(0.0, 0.0)
    requires g.transform.scale == GUY_SIZE
    requires MinY(g.transform.translation, Truncate(GUY_SIZE)) == BoxMaxY(walls[j])
    requires forall i :: 0 <= i < j ==> NoResponse(StandingTest(collide, walls[i], Moved(g, gravity)))
    requires StandingTest(collide, walls[j], Moved(g, gravity)) == Some(Bottom)
    requires forall i :: j < i < |walls| ==> NoResponse(StandingTest(collide, walls[i], g.transform.translation))
    ensures var r := PhysicsTick(g, gravity, walls, delta, collide, ops);
      && r.transform == g.transform
      && r.physics.velocity == Vec2(0.0, 0.0)
      && r.jump.onGround == Some(g.transform.translation.y)
  {
    var moved := Integrate(Body(g.physics, g.transform, gravity), PHYSICS_TIME_STEP);
    var m := g.(physics := moved.physics, transform := moved.transform);
    var start := CollisionStart(m, delta, ops);
    var size := Truncate(GUY_SIZE);
    var before := walls[..j];
    assert before[..0] == [];
    UnansweredWallsKeep(start, size, before, 0, collide, ops.coyoteSetOnGround);
    assert walls[..j + 1][..j] == before;
    var landed := CollideWalls(start, size, walls[..j + 1], collide, ops.coyoteSetOnGround);
    assert landed.transform == g.transform;
    UnansweredWallsKeep(start, size, walls, j + 1, collide, ops.coyoteSetOnGround);
  }

  /** Resting on a wall is kept indefinitely: after any number of ticks the guy is where it started, at rest, and grounded. */
  lemma {:induction false} RestStaysPut<C, P>(g: GuyState<C, P>, gravity: bool, walls: seq<Transform>, j: nat,
                                              delta: real, collide: Collide, ops: JumpOps<C, P>, n: nat)
    requires j < |walls|
    requires g.physics.velocity == Vec2(0.0, 0.0)
    requires g.transform.scale == GUY_SIZE
    requires MinY(g.transform.translation, Truncate(GUY_SIZE)) == BoxMaxY(walls[j])
    requires forall i :: 0 <= i < j ==> NoResponse(StandingTest(collide, walls[i], Moved(g, gravity)))
    requires StandingTest(collide, walls[j], Moved(g, gravity)) == Some(Bottom)
    requires forall i :: j < i < |walls| ==> NoResponse(StandingTest(collide, walls[i], g.transform.translation))
    ensures var r := PhysicsTicks(g, gravity, walls, delta, collide, ops, n);
      && r.transform == g.transform
      && r.physics.velocity == Vec2(0.0, 0.0)
      && (n > 0 ==> r.jump.onGround == Some(g.transform.translation.y))
  {
    if n > 0 {
      RestStaysPut(g, gravity, walls, j, delta, collide, ops, n - 1);
      var prev := PhysicsTicks(g, gravity, walls, delta, collide, ops, n - 1);
      assert Moved(prev, gravity) == Moved(g, gravity);
      RestIsStable(prev, gravity, walls, j, delta, collide, ops);
    }
  }

  /**
   * On level 1: a guy at rest, flush on top of one of its walls, under the
   * same reports from the test, stays where it is for any number of ticks.
   */
  lemma RestsOnLevel1<C, P>(g: GuyState<C, P>, gravity: bool, j: nat, delta: real, collide: Collide,
                            ops: JumpOps<C, P>, n: nat)
    requires j < 9
    requires g.physics.velocity == Vec2(0.0, 0.0)
    requires g.transform.scale == GUY_SIZE
    requires MinY(g.transform.translation, Truncate(GUY_SIZE)) == BoxMaxY(MakeLevel1()[j])
    requires forall i :: 0 <= i < j ==> NoResponse(StandingTest(collide, MakeLevel1()[i], Moved(g, gravity)))
    requires StandingTest(collide, MakeLevel1()[j], Moved(g, gravity)) == Some(Bottom)
    requires forall i :: j < i < 9 ==> NoResponse(StandingTest(collide, MakeLevel1()[i], g.transform.translation))
    ensures var r := PhysicsTicks(g, gravity, MakeLevel1(), delta, collide, ops, n);
      && r.transform == g.transform
      && r.physics.velocity == Vec2(0.0, 0.0)
      && (n > 0 ==> r.jump.onGround == Some(g.transform.translation.y))
  {
    RestStaysPut(g, gravity, MakeLevel1(), j, delta, collide, ops, n);
  }
}
