/** The player's systems (src/game/player_plugin.rs): contact with the window
    edges, the air and wall movement steps, the dash state machine, cutting
    fruit and falling to the floor. Each Bevy system is a pure step over the
    player body and the `Movement`/`Dash` resources; the game has one player. */
module Player {
  import opened Outcome
  import opened Components
  import opened Constants
  import Timer
  import opened Controls
  import opened Game
  import opened Fruits

  //region Jump-off-wall speed

  /** `JumpOffWallSpeed`: extra speed from a wall jump, added on top of the
      controls and worn away by friction. */
  datatype Jows = Jows(x: real, y: real)

  /** The friction of one component: its magnitude drops by the attrition,
      never below zero, and its sign is kept. */
  function Friction(x: real): (r: real)
    ensures Abs(r) <= Abs(x)
    ensures r * x >= 0.0
    ensures (x >= 0.0 ==> r >= 0.0) && (x <= 0.0 ==> r <= 0.0)
    ensures Abs(x) <= JUMP_OFF_WALL_SPEED_ATTRITION ==> r == 0.0
    ensures Abs(x) > JUMP_OFF_WALL_SPEED_ATTRITION ==> Abs(r) == Abs(x) - JUMP_OFF_WALL_SPEED_ATTRITION
  {
    Max(Abs(x) - JUMP_OFF_WALL_SPEED_ATTRITION, 0.0) * Signum(x)
  }

  /** `JumpOffWallSpeed::apply_friction`. */
  function ApplyFriction(j: Jows): (r: Jows)
    ensures r.x == Friction(j.x) && r.y == Friction(j.y)
  {
    Jows(Friction(j.x), Friction(j.y))
  }

  /** `JumpOffWallSpeed::reset` (also its `Default`). */
  function ResetJows(): (r: Jows)
    ensures r.x == 0.0 && r.y == 0.0
  {
    Jows(0.0, 0.0)
  }

  /** Friction applied `n` times. */
  function FrictionTimes(x: real, n: nat): real {
    if n == 0 then x else Friction(FrictionTimes(x, n - 1))
  }

  /** After `n` applications the magnitude has dropped by `n` attritions
      (stopping at zero) and the sign never flipped. */
  lemma {:induction false} FrictionTimesDecays(x: real, n: nat)
    ensures Abs(FrictionTimes(x, n)) == Max(Abs(x) - n as real * JUMP_OFF_WALL_SPEED_ATTRITION, 0.0)
    ensures x >= 0.0 ==> FrictionTimes(x, n) >= 0.0
    ensures x <= 0.0 ==> FrictionTimes(x, n) <= 0.0
  {
    if n > 0 {
      FrictionTimesDecays(x, n - 1);
      var prev := FrictionTimes(x, n - 1);
      assert (n - 1) as real * JUMP_OFF_WALL_SPEED_ATTRITION + JUMP_OFF_WALL_SPEED_ATTRITION
          == n as real * JUMP_OFF_WALL_SPEED_ATTRITION;
    }
  }

  /** The speed from any wall jump is gone once enough ticks of friction
      have passed. */
  lemma FrictionReachesRest(x: real, n: nat)
    requires n as real * JUMP_OFF_WALL_SPEED_ATTRITION >= Abs(x)
    ensures FrictionTimes(x, n) == 0.0
  {
    FrictionTimesDecays(x, n);
  }

  //endregion

  //region Body and window edges

  /** The player entity: position, velocity, contact and jump-off-wall speed. */
  datatype PlayerBody = PlayerBody(translation: Vec2, velocity: Vec2, wall: IsOnWall, jows: Jows)

  /** Furthest the player's centre may go left or right of the middle. */
  function MaxW(window: Window): real {
    window.width / 2.0 - PLAYER_SIZE.x / 2.0
  }

  /** Height at or below which the player has fallen off the bottom. */
  function MinH(window: Window): real {
    -(window.height / 2.0 + PLAYER_SIZE.y)
  }

  /** Highest the player's centre may go. */
  function MaxH(window: Window): real {
    window.height / 2.0 - PLAYER_SIZE.y / 2.0
  }

  /** `player_corners_system`. Just after a wall jump nothing changes.
      Otherwise the sides are checked first (clamping x), and the floor and
      the roof are checked after and override the side contact: below the
      bottom is `Floor` (no clamp), above the top is `Roof` with y clamped and
      the vertical speed stopped. */
  function PlayerCorners(p: PlayerBody, window: Window): (r: PlayerBody)
    ensures p.wall == Some(JustLeft) ==> r == p
    ensures p.wall != Some(JustLeft) ==>
      var x := p.translation.x;
      var y := p.translation.y;
      var inBand := MinH(window) < y <= MaxH(window);
      && r.jows == p.jows && r.velocity.x == p.velocity.x
      && (r.wall == Some(Floor) <==> y <= MinH(window))
      && (r.wall == Some(Roof) <==> MinH(window) < y && y > MaxH(window))
      && (r.wall == Some(Right) <==> inBand && x >= MaxW(window))
      && (r.wall == Some(Left) <==> inBand && x < MaxW(window) && x <= -MaxW(window))
      && (r.wall == None <==> inBand && -MaxW(window) < x < MaxW(window))
      && r.wall != Some(JustLeft)
      && (r.translation.x == if x >= MaxW(window) then MaxW(window) else if x <= -MaxW(window) then -MaxW(window) else x)
      && (r.wall == Some(Roof) ==> r.translation.y == MaxH(window) && r.velocity.y == 0.0)
      && (r.wall != Some(Roof) ==> r.translation.y == y && r.velocity.y == p.velocity.y)
  {
    if p.wall == Some(JustLeft) then p
    else
      var maxW := MaxW(window);
      var x := p.translation.x;
      var (x1, side) :=
        if x >= maxW then (maxW, Some(Right))
        else if x <= -maxW then (-maxW, Some(Left))
        else (x, None);
      var y := p.translation.y;
      if y <= MinH(window) then
        p.(translation := Vec2(x1, y), wall := Some(Floor))
      else if y > MaxH(window) then
        p.(translation := Vec2(x1, MaxH(window)), wall := Some(Roof), velocity := p.velocity.(y := 0.0))
      else
        p.(translation := Vec2(x1, y), wall := side)
  }

  /** In a window at least as wide as the player, the contact check leaves the
      centre inside the side walls and under the roof, and a second check
      right after does not move it again. */
  lemma CornersKeepPlayerInside(p: PlayerBody, window: Window)
    requires window.width >= PLAYER_SIZE.x && window.height >= 0.0
    requires p.wall != Some(JustLeft)
    ensures var r := PlayerCorners(p, window);
      && -MaxW(window) <= r.translation.x <= MaxW(window)
      && (r.translation.y <= MaxH(window) || r.wall == Some(Floor))
    ensures PlayerCorners(PlayerCorners(p, window), window).translation == PlayerCorners(p, window).translation
  {
  }

  /** A roof contact lasts one check: the clamped body, checked again, is
      against a side wall or free, never on the roof or the floor. */
  lemma RoofContactIsTransient(p: PlayerBody, window: Window)
    requires window.height >= 0.0
    requires PlayerCorners(p, window).wall == Some(Roof)
    ensures PlayerCorners(PlayerCorners(p, window), window).wall in {None, Some(Left), Some(Right)}
  {
  }

  //endregion

  //region Air and wall movement

  /** The air step runs when the player is free, on the roof or has just
      left a wall, and is not dashing. */
  predicate AirStepRuns(p: PlayerBody, d: Dash) {
    (p.wall == None || p.wall == Some(Roof) || p.wall == Some(JustLeft)) && !d.isDashing
  }

  /** Whether the air step takes a pending jump: only while jumps remain. */
  predicate TakesAirJump(m: Movement) {
    m.jump && m.jumped < MAX_PLAYER_JUMPS_MIDAIR
  }

  /** `player_movement_air_system`, with `dt` the frame time in seconds.
      Horizontal speed comes from the controls, a pending jump is always
      consumed but only counted and applied while jumps remain, fast-fall
      overrides the vertical speed and otherwise gravity pulls; the
      jump-off-wall speed is added on top and then worn down. */
  function PlayerMovementAir(p: PlayerBody, m: Movement, d: Dash, dt: real): (r: (PlayerBody, Movement))
    ensures !AirStepRuns(p, d) ==> r == (p, m)
    ensures AirStepRuns(p, d) ==>
      var (p', m') := r;
      && p'.wall == (if p.wall == Some(JustLeft) then None else p.wall)
      && p'.translation == p.translation
      && !m'.jump
      && m'.jumped == (if TakesAirJump(m) then m.jumped + 1 else m.jumped)
      && (m'.isFastFalling <==> m.isFastFalling && !TakesAirJump(m))
      && m'.x == m.x && m'.lockX == m.lockX
      && p'.velocity.x == m.x * PLAYER_SPEED + p.jows.x
      && (m'.isFastFalling ==> p'.velocity.y == PLAYER_FAST_FALLING_SPEED + p.jows.y)
      && (!m'.isFastFalling && TakesAirJump(m) ==>
            p'.velocity.y == PLAYER_JUMP - PLAYER_GRAVITY * FrameScale(dt) + p.jows.y)
      && (!m'.isFastFalling && !TakesAirJump(m) ==>
            p'.velocity.y == p.velocity.y - PLAYER_GRAVITY * FrameScale(dt) + p.jows.y)
      && p'.jows == ApplyFriction(p.jows)
    ensures m.jumped <= MAX_PLAYER_JUMPS_MIDAIR ==> r.1.jumped <= MAX_PLAYER_JUMPS_MIDAIR
  {
    if !AirStepRuns(p, d) then (p, m)
    else
      var wall := if p.wall == Some(JustLeft) then None else p.wall;
      var vx := m.x * PLAYER_SPEED;
      var jumping := TakesAirJump(m);
      var m1 := if jumping then m.(jump := false, jumped := m.jumped + 1, isFastFalling := false)
                else m.(jump := false);
      var vy0 := if jumping then PLAYER_JUMP else p.velocity.y;
      var vy := if m1.isFastFalling then PLAYER_FAST_FALLING_SPEED else vy0 - PLAYER_GRAVITY * FrameScale(dt);
      (p.(wall := wall, velocity := Vec2(vx + p.jows.x, vy + p.jows.y), jows := ApplyFriction(p.jows)), m1)
  }

  /** The wall step runs on a side wall, the floor or just after leaving a
      wall, and not while dashing. */
  predicate WallStepRuns(p: PlayerBody, d: Dash) {
    p.wall.Some? && p.wall != Some(Roof) && !d.isDashing
  }

  /** Direction of the horizontal push of a wall jump: away from the wall. */
  function WallJumpSign(wall: IsOnWall): (s: real)
    ensures wall == Some(Left) ==> s == 1.0
    ensures wall == Some(Right) ==> s == -1.0
    ensures wall != Some(Left) && wall != Some(Right) ==> s == 0.0
  {
    match wall
    case Some(Left) => 1.0
    case Some(Right) => -1.0
    case _ => 0.0
  }

  /** `player_movement_wall_system`. On a wall the player slides down slowly
      and loses any leftover jump-off-wall speed; a pending jump instead
      pushes it away from the wall and up, refills the air jumps, and marks
      it as having just left. Just after leaving, the push is worn down and
      is the whole velocity. */
  function PlayerMovementWall(p: PlayerBody, m: Movement, d: Dash): (r: (PlayerBody, Movement))
    ensures !WallStepRuns(p, d) ==> r == (p, m)
    ensures WallStepRuns(p, d) && p.wall == Some(JustLeft) ==>
      && r.1 == m
      && r.0 == p.(jows := ApplyFriction(p.jows), velocity := Vec2(Friction(p.jows.x), Friction(p.jows.y)))
    ensures WallStepRuns(p, d) && p.wall != Some(JustLeft) && !m.jump ==>
      && r.1 == m
      && r.0 == p.(velocity := Vec2(0.0, -PLAYER_GRAVITY_ON_WALL), jows := ResetJows())
    ensures WallStepRuns(p, d) && p.wall != Some(JustLeft) && m.jump ==>
      var push := Jows(PLAYER_HORIZONTAL_JUMP_WALL * WallJumpSign(p.wall), PLAYER_VERTICAL_JUMP_WALL);
      && r.1 == m.(jump := false, jumped := 0, isFastFalling := false)
      && r.0 == p.(jows := push, wall := Some(JustLeft), velocity := Vec2(push.x, push.y))
  {
    if !WallStepRuns(p, d) then (p, m)
    else if p.wall == Some(JustLeft) then
      var j := ApplyFriction(p.jows);
      (p.(jows := j, velocity := Vec2(j.x, j.y)), m)
    else if !m.jump then
      (p.(velocity := Vec2(0.0, -PLAYER_GRAVITY_ON_WALL), jows := ResetJows()), m)
    else
      var j := Jows(PLAYER_HORIZONTAL_JUMP_WALL * WallJumpSign(p.wall), PLAYER_VERTICAL_JUMP_WALL);
      (p.(jows := j, wall := Some(JustLeft), velocity := Vec2(j.x, j.y)),
       m.(jump := false, jumped := 0, isFastFalling := false))
  }

  /** The air and wall steps never both run on the same state, except just
      after a wall jump, where the wall step wears the push down and the air
      step then takes over. */
  lemma AirAndWallStepsSplitContacts(p: PlayerBody, d: Dash)
    ensures AirStepRuns(p, d) && WallStepRuns(p, d) <==> p.wall == Some(JustLeft) && !d.isDashing
    ensures !d.isDashing ==> AirStepRuns(p, d) || WallStepRuns(p, d)
  {
  }

  //endregion

  //region Dash

  /** `can_dash_system` as written. Touching a side wall clears the request,
      zeroes the direction and refills the dashes, but leaves a running dash
      running. Otherwise a pending request is refused once the dashes are
      used up, or starts a dash of `DASH_DURATION_MS` and stops fast-fall.
      `wall` is the player's contact, `None` when there is no player. */
  function CanDash(d: Dash, m: Movement, wall: IsOnWall): (r: (Dash, Movement))
    ensures wall == Some(Left) || wall == Some(Right) ==>
      r == (d.(tryingToDash := false, direction := Zero, dashed := 0), m)
    ensures wall != Some(Left) && wall != Some(Right) && (!d.tryingToDash || d.isDashing) ==> r == (d, m)
    ensures wall != Some(Left) && wall != Some(Right) && d.tryingToDash && !d.isDashing ==>
      if d.dashed >= MAX_PLAYER_DASHES_MIDAIR then r == (d.(tryingToDash := false), m)
      else r == (d.(isDashing := true, duration := Timer.New(DASH_DURATION_MS), dashed := d.dashed + 1),
                 m.(isFastFalling := false))
    ensures d.dashed <= MAX_PLAYER_DASHES_MIDAIR ==> r.0.dashed <= MAX_PLAYER_DASHES_MIDAIR
  {
    if wall == Some(Left) || wall == Some(Right) then
      (d.(tryingToDash := false, direction := Zero, dashed := 0), m)
    else if !d.tryingToDash || d.isDashing then (d, m)
    else if d.dashed >= MAX_PLAYER_DASHES_MIDAIR then (d.(tryingToDash := false), m)
    else
      (d.(isDashing := true, duration := Timer.New(DASH_DURATION_MS), dashed := d.dashed + 1),
       m.(isFastFalling := false))
  }

  /** The side-wall branch of `can_dash_system` does not stop a dash in
      progress, so a dash that runs into a wall keeps going with a zero
      direction, which `dash_system` then normalizes. */
  lemma CanDashLeavesDashWithoutDirection()
    ensures var d := Dash(true, true, 1, Vec2(1.0, 0.0), Timer.New(DASH_DURATION_MS));
      && DirectionSet(d)
      && var r := CanDash(d, DefaultMovement(), Some(Right)).0;
      && r.isDashing && r.direction == Zero
      && !DirectionSet(r)
  {
  }

  /** `can_dash_system` with the side-wall branch also ending any running
      dash, so a dash never runs without a direction. */
  function CanDashChecked(d: Dash, m: Movement, wall: IsOnWall): (r: (Dash, Movement))
    ensures wall == Some(Left) || wall == Some(Right) ==>
      r == (d.(tryingToDash := false, isDashing := false, direction := Zero, dashed := 0), m)
    ensures wall != Some(Left) && wall != Some(Right) ==> r == CanDash(d, m, wall)
    ensures DirectionSet(d) ==> DirectionSet(r.0)
    ensures d.dashed <= MAX_PLAYER_DASHES_MIDAIR ==> r.0.dashed <= MAX_PLAYER_DASHES_MIDAIR
  {
    if wall == Some(Left) || wall == Some(Right) then
      (d.(tryingToDash := false, isDashing := false, direction := Zero, dashed := 0), m)
    else CanDash(d, m, wall)
  }

  /** `end_dash`: the direction is cleared, the dash and the request end, and
      the player is given a small upward speed. */
  function EndDash(d: Dash, p: PlayerBody): (r: (Dash, PlayerBody))
    ensures !r.0.isDashing && !r.0.tryingToDash && r.0.direction == Zero
    ensures r.0.dashed == d.dashed && r.0.duration == d.duration
    ensures r.1 == p.(velocity := Vec2(0.0, END_DASH_VERTICAL_SPEED))
    ensures DirectionSet(r.0)
  {
    (d.(direction := Zero, isDashing := false, tryingToDash := false),
     p.(velocity := Vec2(0.0, END_DASH_VERTICAL_SPEED)))
  }

  /** `v` is `direction.normalize() * DASH_SPEED`: of length `DASH_SPEED`,
      pointing the same way as a non-zero direction. No vector qualifies for
      the zero direction, whose normalization is undefined. */
  predicate IsDashVelocity(direction: Vec2, v: Vec2) {
    && v.x * v.x + v.y * v.y == DASH_SPEED * DASH_SPEED
    && v.x * direction.y == v.y * direction.x
    && v.x * direction.x + v.y * direction.y > 0.0
  }

  /** `v` is what `dash_system` computes for a dash that moves: when the
      dash is running, not cancelled by a jump, not finished and has a
      direction, `v` is that direction's dash velocity. For a zero direction
      the normalization is not a number and `v` is left free. */
  predicate DashVelocityFits(d: Dash, m: Movement, v: Vec2) {
    (d.isDashing && !TakesAirJump(m) && !d.duration.finished && d.direction != Zero)
      ==> IsDashVelocity(d.direction, v)
  }

  /** `dash_system`, with `delta` the frame time in milliseconds and
      `dashVelocity` the normalized direction scaled to `DASH_SPEED`. A jump
      that still has an air jump cancels the dash, leaving the `end_dash`
      speed; a finished dash timer ends it and stops the player dead;
      otherwise the player moves at dash speed, loses its jump-off-wall
      speed, and the dash timer runs. */
  function DashSystem(p: PlayerBody, d: Dash, m: Movement, delta: nat, dashVelocity: Vec2): (r: (PlayerBody, Dash))
    requires DashVelocityFits(d, m, dashVelocity)
    ensures !d.isDashing ==> r == (p, d)
    ensures d.isDashing && TakesAirJump(m) ==>
      && r.0 == p.(velocity := Vec2(0.0, END_DASH_VERTICAL_SPEED))
      && r.1 == d.(direction := Zero, isDashing := false, tryingToDash := false)
    ensures d.isDashing && !TakesAirJump(m) && d.duration.finished ==>
      && r.0 == p.(velocity := Zero)
      && r.1 == d.(direction := Zero, isDashing := false, tryingToDash := false)
    ensures d.isDashing && !TakesAirJump(m) && !d.duration.finished ==>
      && r.0 == p.(velocity := dashVelocity, jows := ResetJows())
      && r.1 == d.(duration := Timer.Tick(d.duration, delta))
    ensures r.1.isDashing && d.direction != Zero ==>
      && r.1.direction == d.direction
      && IsDashVelocity(d.direction, r.0.velocity)
    ensures r.1.dashed == d.dashed
    ensures DirectionSet(d) ==> DirectionSet(r.1)
  {
    if !d.isDashing then (p, d)
    else if TakesAirJump(m) then
      var (d', p') := EndDash(d, p);
      (p', d')
    else if d.duration.finished then
      var (d', p') := EndDash(d, p);
      (p'.(velocity := Zero), d')
    else
      (p.(velocity := dashVelocity, jows := ResetJows()), d.(duration := Timer.Tick(d.duration, delta)))
  }

  /** A dash started by `can_dash_system` runs for its full duration: with
      no jump pending it lasts as long as the timer has not reached
      `DASH_DURATION_MS`, and the first step after that ends it at rest. */
  lemma DashEndsAtRestAfterDuration(p: PlayerBody, d: Dash, m: Movement, delta: nat, v: Vec2)
    requires d.isDashing && !TakesAirJump(m)
    requires Timer.Valid(d.duration) && !d.duration.paused && d.duration.duration == DASH_DURATION_MS
    requires DashVelocityFits(d, m, v)
    ensures !d.duration.finished ==> DashSystem(p, d, m, delta, v).1.isDashing
    ensures !d.duration.finished && d.duration.elapsed + delta >= DASH_DURATION_MS ==>
      var (p1, d1) := DashSystem(p, d, m, delta, v);
      && d1.duration.finished
      && var (p2, d2) := DashSystem(p1, d1, m, delta, v);
      && !d2.isDashing && p2.velocity == Zero
  {
  }

  //endregion

  //region Cutting fruit and falling

  /** Bevy's `collide`: the two boxes, centred at the given points, overlap
      with positive area. */
  predicate Overlaps(a: Vec2, aSize: Vec2, b: Vec2, bSize: Vec2) {
    && a.x - aSize.x / 2.0 < b.x + bSize.x / 2.0
    && a.x + aSize.x / 2.0 > b.x - bSize.x / 2.0
    && a.y - aSize.y / 2.0 < b.y + bSize.y / 2.0
    && a.y + aSize.y / 2.0 > b.y - bSize.y / 2.0
  }

  /** The player at `at` can cut fruit `f`: the fruit is cuttable and their
      boxes overlap. */
  predicate CanCut(at: Vec2, f: Fruit) {
    f.cut.canBeCut && Overlaps(at, PLAYER_SIZE, f.translation, FRUITS_SIZE)
  }

  /** The first fruit, in query order from `from`, the player can cut. */
  function FirstCut(at: Vec2, fruits: seq<Fruit>, from: nat): (r: Option<nat>)
    requires from <= |fruits|
    ensures r.Some? ==> from <= r.value < |fruits| && CanCut(at, fruits[r.value])
    ensures r.Some? ==> forall j :: from <= j < r.value ==> !CanCut(at, fruits[j])
    ensures r.None? <==> forall j :: from <= j < |fruits| ==> !CanCut(at, fruits[j])
    decreases |fruits| - from
  {
    if from == |fruits| then None
    else if CanCut(at, fruits[from]) then Some(from)
    else FirstCut(at, fruits, from + 1)
  }

  /** Decrement that stops at zero. */
  function SaturatingDecrement(n: nat): (r: nat)
    ensures r == if n == 0 then 0 else n - 1
  {
    if n == 0 then 0 else n - 1
  }

  /** The state `fruit_collision_system` reads and writes. */
  datatype CollisionState = CollisionState(player: PlayerBody, dash: Dash, movement: Movement, fruits: seq<Fruit>)

  /** `fruit_collision_system`. Only while dashing: the first cuttable fruit
      the player overlaps is marked as cut, one dash and one air jump are
      given back, the player optionally snaps onto it and optionally ends the
      dash, and the search stops. */
  function FruitCollision(s: CollisionState, settings: GameSettings): (r: CollisionState)
    ensures !s.dash.isDashing ==> r == s
    ensures |r.fruits| == |s.fruits|
    ensures s.dash.isDashing && FirstCut(s.player.translation, s.fruits, 0).None? ==> r == s
    ensures s.dash.isDashing && FirstCut(s.player.translation, s.fruits, 0).Some? ==>
      var i := FirstCut(s.player.translation, s.fruits, 0).value;
      && r.fruits == s.fruits[i := s.fruits[i].(cut := s.fruits[i].cut.(isCut := true))]
      && r.dash.dashed == SaturatingDecrement(s.dash.dashed)
      && r.movement == s.movement.(jumped := SaturatingDecrement(s.movement.jumped))
      && r.player.translation == (if settings.snapOnCut then s.fruits[i].translation else s.player.translation)
      && (settings.dashStop ==>
            && r.dash == s.dash.(dashed := r.dash.dashed, direction := Zero, isDashing := false, tryingToDash := false)
            && r.player.velocity == Vec2(0.0, END_DASH_VERTICAL_SPEED))
      && (!settings.dashStop ==> r.dash == s.dash.(dashed := r.dash.dashed) && r.player.velocity == s.player.velocity)
    ensures r.player == s.player.(translation := r.player.translation, velocity := r.player.velocity)
    ensures r.dash.dashed <= s.dash.dashed && r.movement.jumped <= s.movement.jumped
    ensures DirectionSet(s.dash) ==> DirectionSet(r.dash)
  {
    if !s.dash.isDashing then s
    else
      match FirstCut(s.player.translation, s.fruits, 0)
      case None => s
      case Some(i) =>
        var f := s.fruits[i];
        var fruits := s.fruits[i := f.(cut := f.cut.(isCut := true))];
        var dash := s.dash.(dashed := SaturatingDecrement(s.dash.dashed));
        var movement := s.movement.(jumped := SaturatingDecrement(s.movement.jumped));
        var player := if settings.snapOnCut then s.player.(translation := f.translation) else s.player;
        if settings.dashStop then
          var (dash', player') := EndDash(dash, player);
          CollisionState(player', dash', movement, fruits)
        else
          CollisionState(player, dash, movement, fruits)
  }

  /** At most one fruit is cut per tick: every other fruit is unchanged. */
  lemma AtMostOneCutPerTick(s: CollisionState, settings: GameSettings)
    ensures var r := FruitCollision(s, settings);
      forall i, j :: 0 <= i < j < |s.fruits| && r.fruits[i] != s.fruits[i] ==> r.fruits[j] == s.fruits[j]
  {
  }

  /** `player_bottom_system`: a player on the floor asks for a restart, of the
      player alone when deaths carry no penalty and of everything otherwise. */
  function PlayerBottom(p: PlayerBody, settings: GameSettings): (r: Option<RestartKind>)
    ensures r.Some? <==> p.wall == Some(Floor)
    ensures r.Some? ==> (r.value == OnlyPlayer <==> settings.noDeathPenalty)
  {
    if p.wall == Some(Floor) then
      Some(if settings.noDeathPenalty then OnlyPlayer else All)
    else None
  }

  //endregion
}
