/** The player's systems as Bevy schedules them: each frame runs them in an
    order the app does not fix. The counters stay within their caps, and a
    requested or running dash has a direction, whatever the order and however
    many times each system runs, as long as the side-wall branch of
    `can_dash_system` also ends a running dash. */
module Schedule {
  import opened Outcome
  import opened Components
  import opened Constants
  import opened Controls
  import opened Game
  import opened Fruits
  import opened Player
  import Timer

  /** The player's share of the world: its body and the two input resources. */
  datatype PlayerState = PlayerState(body: PlayerBody, movement: Movement, dash: Dash)

  /** One run of one system, with what it reads from outside the player:
      the keys, the frame time, the dash velocity, the fruits and the
      settings. `player_bottom_system` only reads the player and sends a
      restart event, so it changes no player state and has no step here. */
  datatype Step =
    | KeyboardStep(keys: Keys)
    | CornersStep(window: Window)
    | ArrowsStep(arrows: Arrows)
    | CanDashStep
    | AirStep(dt: real)
    | WallStep
    | DashStep(delta: nat, dashVelocity: Vec2)
    | CollisionStep(fruits: seq<Fruit>, settings: GameSettings)

  /** At most the allowed air jumps and dashes are used, and a dash that is
      asked for or running has a direction to go in. */
  predicate Sane(s: PlayerState) {
    && s.movement.jumped <= MAX_PLAYER_JUMPS_MIDAIR
    && s.dash.dashed <= MAX_PLAYER_DASHES_MIDAIR
    && DirectionSet(s.dash)
  }

  /** A dash step carries the velocity `dash_system` computes from the state
      it runs on. */
  predicate Fits(s: PlayerState, step: Step) {
    step.DashStep? ==> DashVelocityFits(s.dash, s.movement, step.dashVelocity)
  }

  /** One system applied to the player, `can_dash_system` in its checked form. */
  function Apply(s: PlayerState, step: Step): PlayerState
    requires Fits(s, step)
  {
    match step
    case KeyboardStep(keys) => s.(movement := KeyboardControls(s.movement, keys))
    case CornersStep(window) => s.(body := PlayerCorners(s.body, window))
    case ArrowsStep(arrows) => s.(dash := DashDirectionArrows(s.dash, arrows))
    case CanDashStep =>
      var (d, m) := CanDashChecked(s.dash, s.movement, s.body.wall);
      s.(dash := d, movement := m)
    case AirStep(dt) =>
      var (p, m) := PlayerMovementAir(s.body, s.movement, s.dash, dt);
      s.(body := p, movement := m)
    case WallStep =>
      var (p, m) := PlayerMovementWall(s.body, s.movement, s.dash);
      s.(body := p, movement := m)
    case DashStep(delta, v) =>
      var (p, d) := DashSystem(s.body, s.dash, s.movement, delta, v);
      s.(body := p, dash := d)
    case CollisionStep(fruits, settings) =>
      var c := FruitCollision(CollisionState(s.body, s.dash, s.movement, fruits), settings);
      s.(body := c.player, dash := c.dash, movement := c.movement)
  }

  /** Every dash step of the schedule fits the state it runs on. */
  predicate Feasible(s: PlayerState, steps: seq<Step>)
    decreases |steps|
  {
    |steps| == 0 || (Fits(s, steps[0]) && Feasible(Apply(s, steps[0]), steps[1..]))
  }

  /** The systems run one after the other, in the given order. */
  function Run(s: PlayerState, steps: seq<Step>): PlayerState
    requires Feasible(s, steps)
    decreases |steps|
  {
    if |steps| == 0 then s else Run(Apply(s, steps[0]), steps[1..])
  }

  /** Every system keeps the player sane. */
  lemma StepKeepsSane(s: PlayerState, step: Step)
    requires Sane(s) && Fits(s, step)
    ensures Sane(Apply(s, step))
  {
    match step
    case ArrowsStep(arrows) => ArrowsKeepDirectionSet(s.dash, arrows);
    case _ =>
  }

  /** Any schedule of the systems, of any length, keeps the player sane. */
  lemma {:induction false} RunKeepsSane(s: PlayerState, steps: seq<Step>)
    requires Sane(s) && Feasible(s, steps)
    ensures Sane(Run(s, steps))
    decreases |steps|
  {
    if |steps| > 0 {
      StepKeepsSane(s, steps[0]);
      RunKeepsSane(Apply(s, steps[0]), steps[1..]);
    }
  }

  /** In a sane state a running dash always has a direction, so the dash
      step moves the player at exactly `DASH_SPEED` along it, never at the
      undefined velocity of a zero direction. */
  lemma SaneDashMovesAtDashSpeed(s: PlayerState, delta: nat, v: Vec2)
    requires Sane(s) && Fits(s, DashStep(delta, v))
    ensures var s' := Apply(s, DashStep(delta, v));
      s'.dash.isDashing ==>
        && s'.dash.direction == s.dash.direction != Zero
        && IsDashVelocity(s.dash.direction, s'.body.velocity)
        && s'.body.velocity.x * s'.body.velocity.x + s'.body.velocity.y * s'.body.velocity.y
           == DASH_SPEED * DASH_SPEED
  {
  }

  /** The player starts sane: `setup_system` inserts the default resources. */
  lemma SetupIsSane(body: PlayerBody)
    ensures Sane(PlayerState(body, Setup(0, 0).movement, Setup(0, 0).dash))
  {
    DefaultsAtRest();
  }

  /** With `can_dash_system` as written, one run on a side wall during a dash
      already breaks the invariant. */
  lemma UncheckedCanDashBreaksSanity()
    ensures var d := Dash(true, true, 1, Vec2(1.0, 0.0), Timer.New(DASH_DURATION_MS));
      var s := PlayerState(PlayerBody(Zero, Zero, Some(Right), ResetJows()), DefaultMovement(), d);
      && Sane(s)
      && !Sane(s.(dash := CanDash(s.dash, s.movement, s.body.wall).0))
  {
    CanDashLeavesDashWithoutDirection();
  }
}
