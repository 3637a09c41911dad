# Jump-Rectangle simulation core, in Dafny

A model of the game logic of Jump-Rectangle, a small platformer built on the
Bevy engine, and proofs about it. Modelled:

- **Physics step** (`Platformer.Integrate`, `Platformer.PhysicsSystem`): a
  body with the `Gravity` marker loses a flat 23 from `velocity.y` per physics
  tick; every body records its old translation and moves by velocity times
  `PHYSICS_TIME_STEP` (1/120 s) in x and y.
- **Collision response** of the single guy against every wall
  (`Platformer.Respond`, `Platformer.CollideWalls`,
  `Platformer.GuyCollisionSystem`): the ground contact is cleared and the
  coyote timer ticked; walls are visited in order; a reported side clamps
  one velocity component and snaps one coordinate flush to the wall; a
  bottom contact also grounds the guy, resets the coyote timer and restores
  the standing size. The engine's AABB test (`collide`) is a function passed
  in: only the response to what it reports is modelled.
- **Jump state update** (`Platformer.UpdateJumpState`): both timers are ticked
  and the buffered jump fires when the guy is on the ground and the pre-jump
  timer has not finished.
- **Level image parser** (`Levels.ParseLevelImage`): black opaque pixels
  become tiles and red opaque pixels the player; the parse fails unless there
  is exactly one player.
- **Input decisions** (`Input.GlobalInputSystem`, `Input.GameInputSystem`):
  Start+Select quits; Start moves through the state table; movement writes the
  velocity; Debug toggles flying; Jump calls `try_jump`. Deferred engine
  commands are returned as lists of effects (`Input.Command`,
  `Input.EntityCommand`) with functions that apply them.
- **Supporting data**: the guy's sizes (`GUY_SIZE` = (20, 50, 0),
  `GUY_JUMPING_SIZE` = (17, 55, 0)), its spawn bundle, and the `PhysicsObject`
  record.

`f32` is `real` and `Vec2`/`Vec3` are records of reals (module `Engine`).
The jump state (`Guys.JumpState`) keeps the ground contact and two timers of
abstract types. Ticking and resetting those timers, and `perform_jump` and
`try_jump`, are functions passed in through `Guys.JumpOps`. Nothing is
assumed about them. Time comes in as a `delta` parameter.

Points where the code's behaviour is easy to mistake, modelled as the code has it:
- An `Inside` report is left unresolved and changes nothing (the code's own
  comment says it is not sure what to do there). The guy's velocity is not
  zeroed and its old position is not restored.
- `update_jump_state` is scheduled on the input timestep and is not ordered
  after the collision system (src/main.rs:84-91). So the ground contact it
  reads was not necessarily computed in the same tick.
- Gravity is a marker component on the entity, not a field of the physics
  record.
- `AppState` has four states, `Loading` included. These are the states the
  input logic switches over. The copy of the enum in src/platformer.rs
  lacks `Loading`.

Files: `wrappers.dfy` (Option, Result), `engine.dfy` (vectors, transform,
box edges), `physics_object.dfy`, `guy.dfy`, `platformer.dfy`,
`collision_properties.dfy`, `level.dfy`, `level_properties.dfy`, `input.dfy`.

## Model

| member | source | states |
|---|---|---|
| `PhysicsObjects.Default` | src/physics_object.rs:3-7 | the derived default has velocity (0, 0) and old position (0, 0, 0) |
| `Guys.DefaultBundle` | src/guy.rs:20-38 | the default guy has speed 300, colour (0.5, 0.5, 1), scale `GUY_SIZE` (so a 20 x 50 collision box), sits at the origin and has the default physics record, at rest |
| `Guys.WithTranslation` | src/guy.rs:40-45 | the bundle's translation is the given one; every other field equals the default bundle's, so the spawn box is the standing size |
| `Platformer.MakeLevel1` | src/platformer.rs:21-77 | level 1 has nine walls of positive size; each of the five platforms lies strictly inside the four boundary walls |
| `Platformer.Integrate` | src/platformer.rs:210-219 | with `Gravity`, `velocity.y` drops by exactly 23, whatever the tick length; without it the velocity is unchanged; the old position is the pre-move translation; x and y move by the new velocity times the tick length; z and scale are unchanged |
| `Platformer.PhysicsSystem` | src/platformer.rs:207-221 | every body in the array is stepped once, by the physics tick length |
| `Platformer.Respond` | src/platformer.rs:257-290 | `Left`/`Right` clamp `velocity.x` to at most / at least 0 and put the guy's left / right edge on the wall's right / left edge, leaving y, `velocity.y`, scale and jump state alone; `Top`/`Bottom` do the same on the y axis; only `Bottom` sets the ground contact to the snapped y, resets the coyote timer and sets the scale to `GUY_SIZE`; `Inside` and no contact change nothing |
| `Platformer.CollideWalls` | src/platformer.rs:246-291 | the wall loop never changes the old position, the z coordinate or the pre-jump timer, and leaves the scale it started with or the standing size |
| `Platformer.GuyCollisionSystem` | src/platformer.rs:230-292 | the in-place wall loop computes exactly the collision pass: contact cleared, coyote timer ticked, then each wall in order, tested against the current translation and the size captured before the loop |
| `Platformer.UpdateJumpState` | src/platformer.rs:312-332 | after both timers are ticked, `perform_jump` is applied exactly when the guy is on the ground and the ticked pre-jump timer has not finished; otherwise the result is the ticked state and `perform_jump` is not called |
| `Platformer.PhysicsTick` | src/main.rs:69-83 | one physics tick, integration then collision, leaves as old position the translation the guy had before the tick, and keeps the z coordinate and the pre-jump timer |
| `CollisionProperties.GroundedIffBottom` | src/platformer.rs:242-281 | after the wall loop the ground contact is set if and only if it was set before or some wall reported `Bottom` |
| `CollisionProperties.NoBottomKeepsContact` | src/platformer.rs:246-291 | when no wall reports `Bottom`, the ground contact and the scale are kept |
| `CollisionProperties.LastBottomDecides` | src/platformer.rs:276-284 | the ground contact is the y snapped to on the last wall that reported `Bottom` (its top edge plus half the captured height), and the scale is the standing size |
| `CollisionProperties.CollideWallsNotFalling` | src/platformer.rs:270-281 | a grounded guy is never left with negative `velocity.y` by the wall loop |
| `CollisionProperties.CapturedSizeOnly` | src/platformer.rs:241-284 | the guy's scale at the start of the loop influences nothing but the final scale: all snaps use the size captured before the loop, so the reset at a bottom contact does not affect later walls |
| `CollisionProperties.CollisionTickGrounded` | src/platformer.rs:241-291 | one collision pass, started from a cleared contact, ends grounded if and only if some wall reported `Bottom` |
| `CollisionProperties.CollisionTickLastBottom` | src/platformer.rs:241-284 | after one collision pass the ground contact is the top of the last wall that reported `Bottom` plus half the guy's height at the start of the pass |
| `CollisionProperties.CollisionTickFrame` | src/platformer.rs:241-291 | one collision pass leaves a grounded guy not moving down and leaves the old position and the pre-jump timer untouched |
| `CollisionProperties.UnansweredWallsKeep` | src/platformer.rs:257-289 | walls whose test reports `Inside` or nothing leave the guy exactly where the walls before them left it |
| `CollisionProperties.RestIsStable` | src/platformer.rs:207-292 | a guy at rest, flush on top of wall `j` of a level, with the test reporting a bottom contact for wall `j` and nothing responded to for every other wall, is after one physics tick (integration, then collision) at the same translation and scale, at rest, and grounded at its own y |
| `CollisionProperties.RestStaysPut` | src/platformer.rs:207-292 | the same holds after any number of physics ticks |
| `CollisionProperties.RestsOnLevel1` | src/platformer.rs:21-77 | the same holds for a guy resting on any wall of level 1 |
| `Levels.EnumeratePixels` | src/level.rs:31-33 | every enumerated pixel lies inside the image and carries the colour stored at its coordinates |
| `Levels.AsI32` | src/level.rs:37 | `x as i32` of a `u32` is in the `i32` range, agrees with `x` modulo 2^32, and is `x` itself below 2^31 |
| `Levels.Classify` | src/level.rs:34-46 | black opaque is a tile, red opaque is the player, every other colour is nothing; never a portal |
| `Levels.ParseLevelImage` | src/level.rs:24-56 | the pass fails exactly when the number of red pixels `n` is not 1, with `WrongNumberPlayers(n)`; on success the map is the level the image describes |
| `LevelProperties.EnumerateShape` | src/level.rs:31-33 | the pixel enumeration is in strictly increasing row-major order |
| `LevelProperties.EnumerateCovers` | src/level.rs:31-33 | every pixel of the image is enumerated |
| `LevelProperties.EnumerateDistinctKeys` | src/level.rs:33-43 | no two pixels of an image get the same key, `x as i32` and `y as i32` included |
| `LevelProperties.CollectKeys` | src/level.rs:31-48 | every key of the collected map comes from a pixel that classifies as that key's entry |
| `LevelProperties.CollectHas` | src/level.rs:31-48 | with distinct keys, a pixel gives an entry at its key exactly when it is black or red, and the entry is its class |
| `LevelProperties.CountRedIsPlayerKeys` | src/level.rs:28-48 | with distinct keys, the counted red pixels are exactly the player entries |
| `LevelProperties.LevelOfAt` | src/level.rs:36-45 | a black pixel at (x, y) gives `Tile` at its key, a red one `Player`, any other colour (non-opaque black or red too) no entry |
| `LevelProperties.LevelOfKeysInImage` | src/level.rs:33-43 | for images up to 2^31 pixels a side, every key is a non-negative in-image coordinate and its entry is that pixel's class |
| `LevelProperties.NoPortal` | src/level.rs:34-46 | the parser never produces a portal |
| `LevelProperties.PlayerCountIsPlayerEntries` | src/level.rs:51-55 | the player count equals the number of player entries, so on success the level holds exactly one player |
| `Input.GlobalInputSystem` | src/input.rs:58-87 | Start and Select held sends the exit event in every state; a Start press requests the table's next state (main menu to loading, naming the overworld first; in game to paused; paused to in game; nothing while loading); without a Start press nothing is requested |
| `Input.StartTransition` | src/input.rs:74-85 | a Start press changes nothing while loading; from every other state it moves to a different state, never back to the main menu |
| `Input.PauseToggles` | src/input.rs:83-84 | from in game, after n Start presses the game is paused exactly when n is odd; pause then unpause returns to in game |
| `Input.MainMenuGoesToLoading` | src/input.rs:75-82 | in the Start table, one or more presses from the main menu end in `Loading`, which Start does not change; leaving `Loading` is the loading systems' work |
| `Input.MovementVelocity` | src/input.rs:114-125 | flying, both velocity components are the axis times the speed; walking, only x is, and y is kept; missing axis data counts as zero |
| `Input.GameInputSystem` | src/input.rs:89-142 | the movement velocity is written first; a Debug press queues commands after which `CanFly` is flipped and `Gravity` is present exactly when `CanFly` is absent; a Jump press applies `try_jump` once to the moved guy, and without one it is not called |

## Left out

- IEEE `f32` arithmetic: rounding, NaN and infinities. Reals are exact, so "flush" means exact equality.
- The engine's AABB test `collide_aabb::collide` (src/platformer.rs:5, 248-253) is a foreign library call and is taken as a given function. So the no-residual-overlap and axis tie-break properties of detection are not stated. The resting lemmas take the test's reports as premises for the same reason.
- Bevy `Timer`, the coyote timer, `JumpState::try_jump`, `perform_jump` and `set_on_ground`: their definitions are not part of the source files modelled, so they are abstract functions. The coyote-window, buffer-window and no-double-jump boundaries depend on their behaviour and are not stated.
- `Platformer.UpdateJumpState` is modelled for the one guy. The source loops over a query of all guys, and the game spawns exactly one.
- `guy_collision_system` and `game_input_system` use `single_mut`, which aborts unless exactly one guy exists. The model is given the one guy.
- Schedule and plugin wiring (src/main.rs): the three timesteps, `run_in_state`, and system ordering are not modelled. One physics tick is modelled as integration followed by collision (`Platformer.PhysicsTick`).
- Query iteration order: the walls are a sequence visited in that order. The engine's actual order is not modelled.
- `parse_level_image`'s `player_count` is an `i32`; its overflow at 2^31 red pixels is not modelled. `x as i32` is modelled by `Levels.AsI32`.
- The `image` crate stores pixels in one flat buffer. The model uses rows of pixels with the same row-major enumeration.
- `LoadingLevel` has only the `Overworld` variant here, the only one the input logic inserts; its definition is not part of the source files modelled.
- `Input.GlobalInputSystem` runs in every state; `Input.GameInputSystem` runs only in game. That gating is schedule wiring and is not modelled.
- `setup`, `spawn_level`, `add_level_walls`, `update_aabb_line_system` and `move_camera` (src/platformer.rs:82-205, 294-310) are rendering, setup and camera presentation.
- src/state_transitions.rs (asset loading, despawning, pause-message visibility; entering `Loading` for the overworld moves straight on to `InGame`) and src/portal.rs (a sprite bundle whose `Aabb` type is not defined in the source files) are I/O and presentation.
- `make_global_input_map`/`make_game_input_map` (src/input.rs:26-56) are key-binding tables handed to a library.
- `debug!` logging, `Transform` rotation, and sprite fields other than colour are not modelled.
