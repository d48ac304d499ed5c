/** The tuning constants of the game (src/game/mod.rs). Times are whole
    milliseconds; sizes are sprite sizes after scaling. */
module Constants {
  import opened Components

  // Fruits in the air
  const FRUIT_SPEED: real := 20.0
  const FRUITS_GRAVITY_UP: real := 0.6
  const FRUITS_GRAVITY_HOLD: real := 0.168
  const FRUITS_GRAVITY_FALL: real := 1.2
  /** A fruit becomes cuttable once its vertical speed is at most this. */
  const CUTTABLE_SPEED: real := 2.0

  // Beatmap
  const BEATMAP_INITIAL_WAIT_MS: nat := 500
  const BEATMAP_MUSIC_OFFSET_MS: nat := 700
  /** Share of the window width fruits may spawn in. */
  const EFFECTIVE_SCREEN_WIDTH_PERCENT: real := 0.9
  /** Width of the playfield the beatmap's x coordinates are authored for. */
  const OSU_PLAYFIELD_WIDTH: real := 640.0

  // Fruit pieces
  /** Must be a perfect square: the pieces come from a square texture grid. */
  const NUMBER_OF_FRUIT_PIECES: nat := 4
  const MAX_FRUIT_PIECE_SPEED: real := 8.0
  /** Number of entries of `FRUIT_ASSETS_PATH`. */
  const FRUIT_TEXTURE_COUNT: nat := 2

  // Player in the air
  const PLAYER_SPEED: real := 10.0
  const PLAYER_GRAVITY: real := 0.6
  const PLAYER_FAST_FALLING_SPEED: real := -20.0
  const MAX_PLAYER_JUMPS_MIDAIR: nat := 1
  const PLAYER_JUMP: real := 15.0

  // Player on a wall
  const PLAYER_GRAVITY_ON_WALL: real := 0.8
  const PLAYER_HORIZONTAL_JUMP_WALL: real := 60.0
  const PLAYER_VERTICAL_JUMP_WALL: real := 7.0
  const JUMP_OFF_WALL_SPEED_ATTRITION: real := 5.0

  // Dash
  const DASH_DURATION_MS: nat := 66
  const MAX_PLAYER_DASHES_MIDAIR: nat := 1
  const DASH_SPEED: real := 60.0
  /** Vertical velocity `end_dash` leaves behind. */
  const END_DASH_VERTICAL_SPEED: real := 5.0

  // Sprite sizes: 1000 and 600 texture pixels scaled by 0.1
  const FRUITS_SIZE: Vec2 := Vec2(100.0, 100.0)
  const PLAYER_SIZE: Vec2 := Vec2(60.0, 60.0)

  /** Side of the square texture each fruit-piece atlas is cut from. */
  const FRUIT_ATLAS_SIDE: real := 1024.0

  /** `60 × delta_seconds`: per-frame constants are tuned for 60 Hz. */
  function FrameScale(dt: real): real {
    60.0 * dt
  }
}
