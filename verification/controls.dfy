/** The player's input resources (src/game/controls.rs): `Movement`, filled
    by the keyboard, and `Dash`, filled by the arrow keys. The input device is
    read by the caller; these functions receive what it reported. */
module Controls {
  import opened Components
  import Timer

  /** The `Movement` resource. `jump` is a latch: set by a key press and
      cleared by whichever system consumes it. */
  datatype Movement = Movement(x: real, jump: bool, jumped: nat, isFastFalling: bool, lockX: bool)

  /** The `Dash` resource: the request, whether a dash is running, dashes used
      since the last wall, the direction and the dash timer. */
  datatype Dash = Dash(tryingToDash: bool, isDashing: bool, dashed: nat, direction: Vec2, duration: Timer.Timer)

  /** `Movement::default`. */
  function DefaultMovement(): Movement {
    Movement(0.0, false, 0, false, false)
  }

  /** `Dash::default`. */
  function DefaultDash(): Dash {
    Dash(false, false, 0, Zero, Timer.Default())
  }

  /** Both defaults are at rest: every flag false, every counter zero. */
  lemma DefaultsAtRest()
    ensures var m := DefaultMovement();
      m.x == 0.0 && !m.jump && m.jumped == 0 && !m.isFastFalling && !m.lockX
    ensures var d := DefaultDash();
      !d.tryingToDash && !d.isDashing && d.dashed == 0 && d.direction == Vec2(0.0, 0.0)
      && d.duration.duration == 0 && d.duration.elapsed == 0
  {
  }

  /** The keys `keyboard_controls_system` reads: W was just pressed, S, D
      and A are held. */
  datatype Keys = Keys(upJustPressed: bool, downHeld: bool, rightHeld: bool, leftHeld: bool)

  function Indicator(b: bool): real {
    if b then 1.0 else 0.0
  }

  /** `keyboard_controls_system`: a fresh jump press sets the latch, holding
      down sets fast-fall, and the horizontal axis is right minus left.
      Neither the latch nor fast-fall is ever cleared here. */
  function KeyboardControls(m: Movement, k: Keys): (r: Movement)
    ensures r.jump <==> m.jump || k.upJustPressed
    ensures r.isFastFalling <==> m.isFastFalling || k.downHeld
    ensures r.x == -1.0 || r.x == 0.0 || r.x == 1.0
    ensures r.x == 1.0 <==> k.rightHeld && !k.leftHeld
    ensures r.x == -1.0 <==> k.leftHeld && !k.rightHeld
    ensures r.jumped == m.jumped && r.lockX == m.lockX
  {
    m.(jump := m.jump || k.upJustPressed,
       isFastFalling := m.isFastFalling || k.downHeld,
       x := Indicator(k.rightHeld) - Indicator(k.leftHeld))
  }

  /** The arrow keys `dash_direction_arrows` reads, each "just pressed". */
  datatype Arrows = Arrows(right: bool, left: bool, up: bool, down: bool)

  /** The direction change the arrows ask for, one step per axis. */
  function ArrowDelta(a: Arrows): (v: Vec2)
    ensures v.x == 1.0 <==> a.right && !a.left
    ensures v.x == -1.0 <==> a.left && !a.right
    ensures v.y == 1.0 <==> a.up && !a.down
    ensures v.y == -1.0 <==> a.down && !a.up
    ensures v.x in {-1.0, 0.0, 1.0} && v.y in {-1.0, 0.0, 1.0}
  {
    Vec2(Indicator(a.right) - Indicator(a.left), Indicator(a.up) - Indicator(a.down))
  }

  /** `dash_direction_arrows`: the candidate is the old direction plus the
      arrows' delta. A non-zero candidate becomes the direction and raises
      the request; a zero candidate leaves the whole record alone. */
  function DashDirectionArrows(d: Dash, a: Arrows): (r: Dash)
    ensures var c := Vec2(d.direction.x + ArrowDelta(a).x, d.direction.y + ArrowDelta(a).y);
      if c != Zero then r == d.(tryingToDash := true, direction := c) else r == d
    ensures r.isDashing == d.isDashing && r.dashed == d.dashed && r.duration == d.duration
    ensures d.tryingToDash ==> r.tryingToDash
  {
    var delta := ArrowDelta(a);
    var candidate := Vec2(d.direction.x + delta.x, d.direction.y + delta.y);
    if candidate != Zero then d.(tryingToDash := true, direction := candidate) else d
  }

  /** A dash that is requested or running has somewhere to go. */
  predicate DirectionSet(d: Dash) {
    (d.tryingToDash || d.isDashing) ==> d.direction != Zero
  }

  /** The arrows never raise a request without a direction, and never zero
      the direction of a request or a running dash. */
  lemma ArrowsKeepDirectionSet(d: Dash, a: Arrows)
    requires DirectionSet(d)
    ensures DirectionSet(DashDirectionArrows(d, a))
  {
  }
}
