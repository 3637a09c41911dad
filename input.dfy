/**
 * The input decisions of src/input.rs: Start/Select handling for the whole
 * application, and the guy's movement, fly toggle and jump trigger while in
 * game. The action states come in as plain values; the engine's deferred
 * commands go out as lists of effects, with functions that apply them.
 */
module Input {
  import opened Wrappers
  import opened Engine
  import opened PhysicsObjects
  import opened Guys
  import opened Platformer

  /* ----------------------------------------------------------------------
   * Global actions: quitting and state transitions
   * ---------------------------------------------------------------------- */

  /** This frame's state of the global actions: held now, and pressed this frame. */
  datatype GlobalActionState = GlobalActionState(startPressed: bool, selectPressed: bool, startJustPressed: bool)

  /** Which level the loading state is to load; the overworld is the only one requested here. */
  datatype LoadingLevel = Overworld

  /** A deferred command inserting a resource. */
  datatype Command = InsertLoadingLevel(level: LoadingLevel) | InsertNextState(next: AppState)

  /**
   * The state a Start press moves to from `s`: nothing while loading; from
   * every other state a different state, never the main menu.
   */
  function StartTransition(s: AppState): (r: Option<AppState>)
    ensures r.None? <==> s == Loading
    ensures r.Some? ==> r.value != s && r.value != MainMenu
  {
    match s
    case Loading => None
    case MainMenu => Some(Loading)
    case InGame => Some(Paused)
    case Paused => Some(InGame)
  }

  /** The state a list of commands asks for: the last `NextState` inserted, if any. */
  function RequestedState(cmds: seq<Command>): Option<AppState>
    decreases |cmds|
  {
    if cmds == [] then None
    else match cmds[|cmds| - 1]
      case InsertNextState(s) => Some(s)
      case InsertLoadingLevel(_) => RequestedState(cmds[..|cmds| - 1])
  }

  /**
   * `global_input_system`: Start and Select held together send the exit
   * event, whatever the state; a Start press requests the next state of the
   * transition table, and leaving the main menu also names the level to load
   * (before the state is requested); without a Start press nothing is requested.
   */
  method GlobalInputSystem(action: GlobalActionState, state: AppState) returns (exit: bool, commands: seq<Command>)
    ensures exit <==> action.selectPressed && action.startPressed
    ensures RequestedState(commands) == (if action.startJustPressed then StartTransition(state) else None)
    ensures InsertLoadingLevel(Overworld) in commands <==> action.startJustPressed && state == MainMenu
    ensures action.startJustPressed && state == MainMenu ==>
      commands == [InsertLoadingLevel(Overworld), InsertNextState(Loading)]
    ensures !action.startJustPressed || state == Loading ==> commands == []
    ensures action.startJustPressed && (state == InGame || state == Paused) ==> |commands| == 1
  {
    exit := false;
    commands := [];
    if action.selectPressed && action.startPressed {
      exit := true;
    }
    if action.startJustPressed {
      match state {
        case Loading =>
        case MainMenu =>
          commands := commands + [InsertLoadingLevel(Overworld)];
          commands := commands + [InsertNextState(Loading)];
        case InGame =>
          commands := commands + [InsertNextState(Paused)];
        case Paused =>
          commands := commands + [InsertNextState(InGame)];
      }
    }
  }

  /** The state after a frame with a Start press, once the requested state is entered. */
  function AfterStart(s: AppState): AppState {
    StartTransition(s).GetOr(s)
  }

  /** The state after `n` frames, each with a Start press. */
  function AfterStarts(s: AppState, n: nat): AppState {
    if n == 0 then s else AfterStart(AfterStarts(s, n - 1))
  }

  /** In game, Start toggles pause: after `n` presses the game is paused exactly when `n` is odd. */
  lemma {:induction false} PauseToggles(n: nat)
    ensures AfterStarts(InGame, n) == (if n % 2 == 0 then InGame else Paused)
  {
    if n > 0 {
      PauseToggles(n - 1);
    }
  }

  /** From the main menu, any number of Start presses leaves the application loading. */
  lemma {:induction false} MainMenuGoesToLoading(n: nat)
    requires n > 0
    ensures AfterStarts(MainMenu, n) == Loading
  {
    if n > 1 {
      MainMenuGoesToLoading(n - 1);
    }
  }

  /* ----------------------------------------------------------------------
   * Game actions: movement, fly toggle, jump
   * ---------------------------------------------------------------------- */

  /** This frame's game actions: the clamped movement axis pair if there is one, and the two button presses. */
  datatype GameActionState = GameActionState(moveAxis: Option<Vec2>, debugJustPressed: bool, jumpJustPressed: bool)

  /** Which of the two marker components the guy entity carries. */
  datatype Markers = Markers(canFly: bool, gravity: bool)

  /** A deferred command inserting or removing a marker component on the guy entity. */
  datatype EntityCommand = InsertCanFly | RemoveCanFly | InsertGravity | RemoveGravity

  /** The markers once the commands have been applied, in order. */
  function ApplyEntityCommands(m: Markers, cmds: seq<EntityCommand>): Markers
    decreases |cmds|
  {
    if cmds == [] then m
    else
      var before := ApplyEntityCommands(m, cmds[..|cmds| - 1]);
      match cmds[|cmds| - 1]
      case InsertCanFly => before.(canFly := true)
      case RemoveCanFly => before.(canFly := false)
      case InsertGravity => before.(gravity := true)
      case RemoveGravity => before.(gravity := false)
  }

  /**
   * The velocity movement input sets: flying, both components follow the axis
   * at `hSpeed`; walking, only the x component does and the y component is
   * kept; missing axis data counts as a zero axis.
   */
  function MovementVelocity(canFly: bool, axis: Option<Vec2>, hSpeed: real, v: Vec2): (r: Vec2)
    ensures canFly && axis.Some? ==> r.x == axis.value.x * hSpeed && r.y == axis.value.y * hSpeed
    ensures canFly && axis.None? ==> r == Vec2(0.0, 0.0)
    ensures !canFly ==> r.y == v.y
    ensures !canFly && axis.Some? ==> r.x == axis.value.x * hSpeed
    ensures !canFly && axis.None? ==> r.x == 0.0
  {
    if canFly then Scale2(axis.GetOr(VEC2_ZERO), hSpeed)
    else v.(x := (if axis.Some? then axis.value.x else 0.0) * hSpeed)
  }

  /**
   * `game_input_system`: writes the movement velocity; a Debug press queues
   * commands that flip `CanFly` and leave `Gravity` present exactly when
   * `CanFly` is absent; a Jump press calls `try_jump` once, on the guy with
   * the movement velocity already written; otherwise `try_jump` is not called.
   */
  method GameInputSystem<C, P>(action: GameActionState, guy: Guy, g: GuyState<C, P>, markers: Markers,
                               ops: JumpOps<C, P>) returns (r: GuyState<C, P>, commands: seq<EntityCommand>)
    ensures var moved := g.(physics := g.physics.(velocity := MovementVelocity(markers.canFly, action.moveAxis, guy.hSpeed, g.physics.velocity)));
      r == (if action.jumpJustPressed then ops.tryJump(moved) else moved)
    ensures action.debugJustPressed ==>
      && ApplyEntityCommands(markers, commands).canFly == !markers.canFly
      && ApplyEntityCommands(markers, commands).gravity == !ApplyEntityCommands(markers, commands).canFly
    ensures !action.debugJustPressed ==> commands == []
  {
    var physics := g.physics;
    if markers.canFly {
      var direction := action.moveAxis.GetOr(VEC2_ZERO);
      physics := physics.(velocity := Scale2(direction, guy.hSpeed));
    } else {
      var directionX := if action.moveAxis.Some? then action.moveAxis.value.x else 0.0;
      physics := physics.(velocity := physics.velocity.(x := directionX * guy.hSpeed));
    }
    assert physics.velocity == MovementVelocity(markers.canFly, action.moveAxis, guy.hSpeed, g.physics.velocity);
    r := g.(physics := physics);
    var moved := r;

    commands := [];
    if action.debugJustPressed {
      if markers.canFly {
        commands := commands + [RemoveCanFly];
        commands := commands + [InsertGravity];
      } else {
        commands := commands + [InsertCanFly];
        commands := commands + [RemoveGravity];
      }
    }

    if action.jumpJustPressed {
      r := ops.tryJump(moved);
    }
  }
}
