/** The systems every body shares and the restart (src/game/common_systems.rs):
    gravity, movement by velocity, and `restart_game_system`. */
module CommonSystems {
  import opened Components
  import opened Constants
  import Timer
  import opened Controls
  import opened Beatmap
  import opened Player
  import opened Fruits

  /** `gravity_system` for one body: the vertical speed drops by the body's
      gravity strength, once per frame. */
  function Gravity(v: Vec2, strength: real): (r: Vec2)
    ensures r.x == v.x
    ensures r.y + strength == v.y
  {
    Vec2(v.x, v.y - strength)
  }

  /** Gravity applied over `n` frames. */
  function GravityFrames(v: Vec2, strength: real, n: nat): Vec2 {
    if n == 0 then v else Gravity(GravityFrames(v, strength, n - 1), strength)
  }

  /** Over `n` frames the vertical speed drops by `n` times the strength and
      the horizontal speed is untouched. */
  lemma {:induction false} GravityFramesIsLinear(v: Vec2, strength: real, n: nat)
    ensures GravityFrames(v, strength, n) == Vec2(v.x, v.y - n as real * strength)
  {
    if n > 0 {
      GravityFramesIsLinear(v, strength, n - 1);
    }
  }

  /** `move_with_velocity_system` for one body over a frame of `dt` seconds:
      the velocity is in units per 60th of a second. */
  function MoveWithVelocity(at: Vec2, v: Vec2, dt: real): (r: Vec2)
    ensures r.x - at.x == v.x * FrameScale(dt)
    ensures r.y - at.y == v.y * FrameScale(dt)
  {
    Vec2(at.x + v.x * 60.0 * dt, at.y + v.y * 60.0 * dt)
  }

  /** Movement does not depend on how time is cut into frames: two frames
      of `a` and `b` seconds at the same velocity move as far as one frame of
      `a + b` seconds, and at rest the body stays put. */
  lemma MovementIsFrameRateIndependent(at: Vec2, v: Vec2, a: real, b: real)
    ensures MoveWithVelocity(MoveWithVelocity(at, v, a), v, b) == MoveWithVelocity(at, v, a + b)
    ensures MoveWithVelocity(at, Zero, a) == at
  {
    assert v.x * 60.0 * a + v.x * 60.0 * b == v.x * 60.0 * (a + b);
    assert v.y * 60.0 * a + v.y * 60.0 * b == v.y * 60.0 * (a + b);
  }

  /** Everything `restart_game_system` reads or writes. Players are in query
      order; `pendingRestarts` counts the unread restart events. */
  datatype World = World(
    score: nat,
    players: seq<PlayerBody>,
    movement: Movement,
    dash: Dash,
    playback: BeatmapPlayback,
    fruits: seq<Fruit>,
    parts: seq<FruitPart>,
    pendingRestarts: nat)

  /** The player's restart position: against the left wall, at mid height. */
  function RestartPosition(window: Window): Vec2 {
    Vec2(-MaxW(window), 0.0)
  }

  /** `restart_game_system`. Without a pending event nothing happens.
      Otherwise the events are consumed and, if there is a player, the first
      one is put back at the restart position at rest, the score is zeroed,
      the jump and dash state is cleared (the horizontal input and its lock
      are kept), the beatmap is rewound with its play and music timers paused
      and not started, and every fruit and piece is despawned. */
  function RestartGame(w: World, window: Window): (r: World)
    ensures w.pendingRestarts == 0 ==> r == w
    ensures w.pendingRestarts > 0 && |w.players| == 0 ==> r == w.(pendingRestarts := 0)
    ensures w.pendingRestarts > 0 && |w.players| > 0 ==>
      && r.pendingRestarts == 0
      && r.score == 0
      && |r.players| == |w.players|
      && r.players[0] == w.players[0].(velocity := Zero, translation := RestartPosition(window))
      && r.players[1..] == w.players[1..]
      && r.movement == w.movement.(jump := false, jumped := 0, isFastFalling := false)
      && r.dash == w.dash.(dashed := 0, isDashing := false, tryingToDash := false, direction := Zero)
      && r.playback.currentHitObjectId == 0 && !r.playback.beatmapStarted
      && r.playback.playTimer == Timer.Pause(Timer.Reset(w.playback.playTimer))
      && r.playback.musicOffsetTimer == Timer.Pause(Timer.Reset(w.playback.musicOffsetTimer))
      && r.playback.startTimer == Timer.Reset(w.playback.startTimer)
      && r.fruits == [] && r.parts == []
  {
    if w.pendingRestarts == 0 then w
    else
      var w1 := w.(pendingRestarts := 0);
      if |w.players| == 0 then w1
      else
        var p := w.players[0].(velocity := Zero, translation := RestartPosition(window));
        var pb := w.playback;
        w1.(score := 0,
            players := [p] + w.players[1..],
            movement := w.movement.(jump := false, jumped := 0, isFastFalling := false),
            dash := w.dash.(dashed := 0, isDashing := false, tryingToDash := false, direction := Zero),
            playback := pb.(currentHitObjectId := 0,
                            playTimer := Timer.Pause(Timer.Reset(pb.playTimer)),
                            musicOffsetTimer := Timer.Pause(Timer.Reset(pb.musicOffsetTimer)),
                            startTimer := Timer.Reset(pb.startTimer),
                            beatmapStarted := false),
            fruits := [],
            parts := [])
  }

  /** Several restart events in one frame do what one does, and a second
      restart right after the first changes nothing more. */
  lemma RestartIsIdempotent(w: World, window: Window, events: nat)
    requires events > 0 && w.pendingRestarts > 0
    ensures RestartGame(w.(pendingRestarts := events), window) == RestartGame(w, window)
    ensures var r := RestartGame(w, window);
      RestartGame(r.(pendingRestarts := events), window) == r
  {
    var r := RestartGame(w, window);
    if |w.players| > 0 {
      assert r.players == [r.players[0]] + r.players[1..];
    }
  }

  /** After a restart the beatmap waits for its start timer: no fruit spawns
      and the play timer stands still until `beatmap_start_system` starts it
      again. */
  lemma RestartStopsSpawning(w: World, window: Window, beatmap: BeatmapData,
                             delta: nat, textureId: nat, vx: real)
    requires w.pendingRestarts > 0 && |w.players| > 0
    requires ValidSpawnDraw(textureId, vx)
    ensures var pb := RestartGame(w, window).playback;
      SpawnFruit(pb, beatmap, window, delta, textureId, vx) == Outcome.Ok((pb, Outcome.None))
  {
  }
}
