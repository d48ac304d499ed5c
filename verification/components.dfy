/** The components shared by every simulated body: vectors, wall contact,
    velocity and per-entity animations. */
module Components {
  import opened Outcome

  /** A 2D vector of reals: translations, velocities and the dash direction. */
  datatype Vec2 = Vec2(x: real, y: real)

  const Zero: Vec2 := Vec2(0.0, 0.0)

  /** The size of the primary window, in the units of body positions. */
  datatype Window = Window(width: real, height: real)

  function Abs(x: real): real {
    if x < 0.0 then -x else x
  }

  /** `f32::signum` on non-NaN input: a zero counts as positive. */
  function Signum(x: real): real {
    if x < 0.0 then -1.0 else 1.0
  }

  function Max(a: real, b: real): real {
    if a >= b then a else b
  }

  /** The boundary a body touches. `JustLeft` is only ever given to the
      player: it marks the tick right after a wall jump. */
  datatype Walls = Left | Right | Floor | Roof | JustLeft

  /** The contact of one body: a single optional value, so a body never has
      two contacts at once. */
  type IsOnWall = Option<Walls>

  const AllWalls: set<Walls> := {Left, Right, Floor, Roof, JustLeft}

  /** `Walls` has exactly five variants. */
  lemma WallsHasFiveVariants()
    ensures forall w: Walls :: w in AllWalls
    ensures |AllWalls| == 5
  {
    forall w: Walls ensures w in AllWalls {
      match w
      case Left => {}
      case Right => {}
      case Floor => {}
      case Roof => {}
      case JustLeft => {}
    }
  }

  /** `Velocity::default`. */
  function DefaultVelocity(): (v: Vec2)
    ensures v.x == 0.0 && v.y == 0.0
  {
    Zero
  }

  /** The animation callbacks of the source, as a tagged variant. */
  datatype AnimationKind =
    | AuraPulse       // dash aura: rotates and pulses
    | FruitSpinGrow   // fruit: rotates and grows to full size
    | PartSpinShrink  // fruit piece: rotates by data[0] and shrinks

  datatype TimeAnimation = TimeAnimation(kind: AnimationKind, data: seq<real>, time: real)

  /** `TimeAnimation::from_callback`: no parameters and a clock at zero. */
  function FromCallback(kind: AnimationKind): (a: TimeAnimation)
    ensures a.kind == kind && a.data == [] && a.time == 0.0
  {
    TimeAnimation(kind, [], 0.0)
  }
}
