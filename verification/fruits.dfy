/** The fruit lifecycle (src/game/fruit_plugin.rs): spawning on the beatmap's
    beat, the cuttable window, cutting into pieces, and the floor. Entities are
    kept in sequences in query order; despawning removes them. */
module Fruits {
  import opened Outcome
  import opened Components
  import opened Constants
  import Timer
  import opened Beatmap

  datatype CutAffects = CutAffects(isCut: bool, canBeCut: bool)

  /** A fruit entity: its body, the strength of its gravity, its texture and
      its cut state. */
  datatype Fruit = Fruit(
    translation: Vec2,
    velocity: Vec2,
    gravity: real,
    wall: IsOnWall,
    textureId: nat,
    cut: CutAffects,
    animation: TimeAnimation)

  /** A fruit piece: like a fruit body, plus the cell of the texture atlas it
      shows. */
  datatype FruitPart = FruitPart(
    translation: Vec2,
    velocity: Vec2,
    gravity: real,
    wall: IsOnWall,
    textureId: nat,
    atlasIndex: nat,
    animation: TimeAnimation)

  //region Spawning

  /** Width of the band fruits spawn in. */
  function EffectiveWidth(windowWidth: real): real {
    windowWidth * EFFECTIVE_SCREEN_WIDTH_PERCENT
  }

  /** Maps a beatmap x coordinate (0 to 640) onto the spawn band, centred on 0. */
  function SpawnX(hitX: real, windowWidth: real): real {
    hitX / OSU_PLAYFIELD_WIDTH * EffectiveWidth(windowWidth) - EffectiveWidth(windowWidth) / 2.0
  }

  /** The mapping keeps the order of positions, sends the playfield's left edge
      to the band's left edge and its right edge to the band's right edge. */
  lemma SpawnXMapsPlayfieldOntoBand(a: real, b: real, windowWidth: real)
    requires windowWidth >= 0.0
    ensures a <= b ==> SpawnX(a, windowWidth) <= SpawnX(b, windowWidth)
    ensures SpawnX(0.0, windowWidth) == -EffectiveWidth(windowWidth) / 2.0
    ensures SpawnX(OSU_PLAYFIELD_WIDTH, windowWidth) == EffectiveWidth(windowWidth) / 2.0
  {
    var ew := EffectiveWidth(windowWidth);
    assert SpawnX(b, windowWidth) - SpawnX(a, windowWidth) == (b - a) / OSU_PLAYFIELD_WIDTH * ew;
    if a <= b {
      assert (b - a) / OSU_PLAYFIELD_WIDTH >= 0.0;
      assert ew >= 0.0;
    }
  }

  /** Height fruits spawn at: just below the window. */
  function SpawnY(windowHeight: real): real {
    -windowHeight / 2.0 - 50.0
  }

  /** A freshly spawned fruit: launched upward, weak gravity, no contact, not
      cut and not yet cuttable. */
  function NewFruit(x: real, y: real, vx: real, textureId: nat): (f: Fruit)
    ensures f.translation == Vec2(x, y)
    ensures f.velocity == Vec2(vx, FRUIT_SPEED)
    ensures f.gravity == FRUITS_GRAVITY_UP
    ensures f.wall == None
    ensures !f.cut.isCut && !f.cut.canBeCut
    ensures f.textureId == textureId
    ensures f.animation == FromCallback(FruitSpinGrow)
  {
    Fruit(Vec2(x, y), Vec2(vx, FRUIT_SPEED), FRUITS_GRAVITY_UP, None, textureId,
          CutAffects(false, false), FromCallback(FruitSpinGrow))
  }

  /** The random choices of one spawn are in range: a texture of the fruit
      list and a horizontal drift in [-0.4, 0.4). */
  predicate ValidSpawnDraw(textureId: nat, vx: real) {
    textureId < FRUIT_TEXTURE_COUNT && -0.4 <= vx < 0.4
  }

  /** The hit objects of a beatmap, if it has a hit-object section. */
  function HitObjectList(beatmap: BeatmapData): Option<seq<HitObject>> {
    if HitObjectsHeader in beatmap && beatmap[HitObjectsHeader].HitObjects? then
      Some(beatmap[HitObjectsHeader].objects)
    else
      None
  }

  /** `spawn_fruit_system` as written: nothing before the beatmap has started;
      afterwards the play timer is ticked and the hit object under the cursor
      is read WITHOUT a bounds check, so a cursor past the end panics. When
      the elapsed milliseconds reach its time, one fruit is spawned and the
      cursor moves on by one. */
  function SpawnFruit(pb: BeatmapPlayback, beatmap: BeatmapData, window: Window, delta: nat,
                      textureId: nat, vx: real): (r: Result<(BeatmapPlayback, Option<Fruit>)>)
    requires ValidSpawnDraw(textureId, vx)
    ensures !pb.beatmapStarted ==> r == Ok((pb, None))
    ensures pb.beatmapStarted && HitObjectList(beatmap).None? ==>
      r == Ok((pb.(playTimer := Timer.Tick(pb.playTimer, delta)), None))
    ensures pb.beatmapStarted && HitObjectList(beatmap).Some? ==>
      var objects := HitObjectList(beatmap).value;
      var timer := Timer.Tick(pb.playTimer, delta);
      && (r.Panic? <==> pb.currentHitObjectId >= |objects|)
      && (r.Ok? ==>
            var (pb', fruit) := r.value;
            var target := objects[pb.currentHitObjectId];
            && pb' == pb.(playTimer := timer, currentHitObjectId := pb'.currentHitObjectId)
            && (fruit.Some? <==> timer.elapsed >= target.time)
            && (pb'.currentHitObjectId == if fruit.Some? then pb.currentHitObjectId + 1 else pb.currentHitObjectId)
            && (fruit.Some? ==>
                  fruit.value == NewFruit(SpawnX(target.position.x, window.width), SpawnY(window.height), vx, textureId)))
  {
    if !pb.beatmapStarted then Ok((pb, None))
    else
      var timer := Timer.Tick(pb.playTimer, delta);
      var pb1 := pb.(playTimer := timer);
      match HitObjectList(beatmap)
      case None => Ok((pb1, None))
      case Some(objects) =>
        if pb.currentHitObjectId >= |objects| then Panic
        else
          var target := objects[pb.currentHitObjectId];
          if timer.elapsed < target.time then Ok((pb1, None))
          else
            Ok((pb1.(currentHitObjectId := pb.currentHitObjectId + 1),
                Some(NewFruit(SpawnX(target.position.x, window.width), SpawnY(window.height), vx, textureId))))
  }

  /** `spawn_fruit_system` with the end-of-track check it needs: a cursor past
      the last hit object means no more fruit, never a panic. */
  function SpawnFruitGuarded(pb: BeatmapPlayback, beatmap: BeatmapData, window: Window, delta: nat,
                             textureId: nat, vx: real): (r: (BeatmapPlayback, Option<Fruit>))
    requires ValidSpawnDraw(textureId, vx)
    ensures SpawnFruit(pb, beatmap, window, delta, textureId, vx).Ok? ==>
      r == SpawnFruit(pb, beatmap, window, delta, textureId, vx).value
    ensures SpawnFruit(pb, beatmap, window, delta, textureId, vx).Panic? ==>
      r == (pb.(playTimer := Timer.Tick(pb.playTimer, delta)), None)
    ensures HitObjectList(beatmap).Some? && pb.currentHitObjectId <= |HitObjectList(beatmap).value| ==>
      r.0.currentHitObjectId <= |HitObjectList(beatmap).value|
    ensures r.0.currentHitObjectId == pb.currentHitObjectId || r.0.currentHitObjectId == pb.currentHitObjectId + 1
  {
    match SpawnFruit(pb, beatmap, window, delta, textureId, vx)
    case Ok(v) => v
    case Panic => (pb.(playTimer := Timer.Tick(pb.playTimer, delta)), None)
  }

  /** The unguarded read is reached in ordinary play: once the last hit object
      has spawned, the very next tick of a started beatmap panics. */
  lemma SpawnPanicsAfterLastFruit(pb: BeatmapPlayback, beatmap: BeatmapData, window: Window,
                                  delta: nat, nextDelta: nat, textureId: nat, vx: real)
    requires ValidSpawnDraw(textureId, vx)
    requires pb.beatmapStarted && HitObjectList(beatmap).Some?
    requires pb.currentHitObjectId + 1 == |HitObjectList(beatmap).value|
    requires Timer.Tick(pb.playTimer, delta).elapsed >= HitObjectList(beatmap).value[pb.currentHitObjectId].time
    ensures var first := SpawnFruit(pb, beatmap, window, delta, textureId, vx);
      && first.Ok? && first.value.1.Some?
      && SpawnFruit(first.value.0, beatmap, window, nextDelta, textureId, vx).Panic?
  {
  }

  //endregion

  //region Contact, cuttable window, gravity tiers

  /** The height below which a fruit or piece counts as on the floor: its
      whole sprite has left the window. */
  function FloorLine(window: Window): real {
    -(window.height / 2.0 + FRUITS_SIZE.y / 2.0)
  }

  /** Contact of a fruit or a piece: `Floor` at or below the floor line, else
      none. Fruit bodies never see a side wall, the roof or `JustLeft`. */
  function FruitContact(y: real, window: Window): (c: IsOnWall)
    ensures c == Some(Floor) <==> y <= FloorLine(window)
    ensures c == None <==> y > FloorLine(window)
  {
    if y <= FloorLine(window) then Some(Floor) else None
  }

  /** `fruit_corners_system` over every fruit and every piece: only the contact
      changes. */
  function FruitCorners(fruits: seq<Fruit>, parts: seq<FruitPart>, window: Window): (r: (seq<Fruit>, seq<FruitPart>))
    ensures |r.0| == |fruits| && |r.1| == |parts|
    ensures forall i :: 0 <= i < |fruits| ==>
      r.0[i] == fruits[i].(wall := FruitContact(fruits[i].translation.y, window))
    ensures forall i :: 0 <= i < |parts| ==>
      r.1[i] == parts[i].(wall := FruitContact(parts[i].translation.y, window))
  {
    (seq(|fruits|, i requires 0 <= i < |fruits| => fruits[i].(wall := FruitContact(fruits[i].translation.y, window))),
     seq(|parts|, i requires 0 <= i < |parts| => parts[i].(wall := FruitContact(parts[i].translation.y, window))))
  }

  /** The fruit spawns exactly on the floor line: only the movement applied
      before the next contact check keeps the new fruit from counting as
      fallen. */
  lemma SpawnHeightIsFloorLine(window: Window)
    ensures SpawnY(window.height) == FloorLine(window)
    ensures FruitContact(SpawnY(window.height), window) == Some(Floor)
  {
  }

  /** `fruits_cuttable_system` for one fruit: cuttable while rising at most at
      the threshold speed, and one of three gravity tiers: falling, hanging
      near the apex, or still rising fast. */
  function Cuttable(f: Fruit): (r: Fruit)
    ensures r.cut.canBeCut <==> f.velocity.y <= CUTTABLE_SPEED
    ensures r.gravity == FRUITS_GRAVITY_FALL <==> f.velocity.y < 0.0
    ensures r.gravity == FRUITS_GRAVITY_HOLD <==> 0.0 <= f.velocity.y <= CUTTABLE_SPEED
    ensures r.gravity == FRUITS_GRAVITY_UP <==> f.velocity.y > CUTTABLE_SPEED
    ensures r == f.(cut := r.cut, gravity := r.gravity) && r.cut.isCut == f.cut.isCut
  {
    var canBeCut := f.velocity.y <= CUTTABLE_SPEED;
    var gravity :=
      if f.velocity.y < 0.0 then FRUITS_GRAVITY_FALL
      else if canBeCut then FRUITS_GRAVITY_HOLD
      else FRUITS_GRAVITY_UP;
    f.(cut := f.cut.(canBeCut := canBeCut), gravity := gravity)
  }

  function FruitsCuttable(fruits: seq<Fruit>): (r: seq<Fruit>)
    ensures |r| == |fruits| && forall i :: 0 <= i < |fruits| ==> r[i] == Cuttable(fruits[i])
  {
    seq(|fruits|, i requires 0 <= i < |fruits| => Cuttable(fruits[i]))
  }

  //endregion

  //region Cutting

  /** The random choices for one piece: its velocity and its spin. */
  datatype PartDraw = PartDraw(vx: real, vy: real, spin: real, clockwise: bool)

  /** A piece flies at most at the maximum piece speed, upward, spinning 2 to 4
      radians per second either way. */
  predicate ValidPartDraw(d: PartDraw) {
    && -MAX_FRUIT_PIECE_SPEED <= d.vx < MAX_FRUIT_PIECE_SPEED
    && 0.0 <= d.vy < MAX_FRUIT_PIECE_SPEED
    && 2.0 <= d.spin < 4.0
  }

  /** Piece `k` of a cut fruit. */
  function MakePart(f: Fruit, k: nat, d: PartDraw): FruitPart {
    FruitPart(f.translation, Vec2(d.vx, d.vy), FRUITS_GRAVITY_FALL * 2.0, None, f.textureId, k,
              TimeAnimation(PartSpinShrink, [if d.clockwise then d.spin else -d.spin], 0.0))
  }

  /** The fruits marked as cut, in query order: every cut fruit, as often as
      it occurs, and nothing else. */
  function CutFruits(fruits: seq<Fruit>): (r: seq<Fruit>)
    ensures |r| <= |fruits|
    ensures forall i :: 0 <= i < |r| ==> r[i].cut.isCut && r[i] in fruits
    ensures forall f :: f in fruits && f.cut.isCut ==> f in r
    ensures forall f :: multiset(r)[f] == if f.cut.isCut then multiset(fruits)[f] else 0
    decreases |fruits|
  {
    if |fruits| == 0 then []
    else
      var rest := CutFruits(fruits[1..]);
      SelectFirst(fruits, rest, true);
      (if fruits[0].cut.isCut == true then [fruits[0]] else []) + rest
  }

  /** The fruits not marked as cut, in query order: every uncut fruit, as
      often as it occurs, and nothing else. */
  function UncutFruits(fruits: seq<Fruit>): (r: seq<Fruit>)
    ensures forall i :: 0 <= i < |r| ==> !r[i].cut.isCut && r[i] in fruits
    ensures forall f :: f in fruits && !f.cut.isCut ==> f in r
    ensures forall f :: multiset(r)[f] == if f.cut.isCut then 0 else multiset(fruits)[f]
    decreases |fruits|
  {
    if |fruits| == 0 then []
    else
      var rest := UncutFruits(fruits[1..]);
      SelectFirst(fruits, rest, false);
      (if fruits[0].cut.isCut == false then [fruits[0]] else []) + rest
  }

  /** One step of selecting the fruits whose cut mark is `cut`: when `rest`
      holds the selected fruits of the tail, each as often as it occurs,
      prefixing the head when it is selected gives those of the whole
      sequence. */
  lemma {:induction false} SelectFirst(fruits: seq<Fruit>, rest: seq<Fruit>, cut: bool)
    requires |fruits| > 0
    requires forall f :: multiset(rest)[f] == if f.cut.isCut == cut then multiset(fruits[1..])[f] else 0
    ensures var r := (if fruits[0].cut.isCut == cut then [fruits[0]] else []) + rest;
            forall f :: multiset(r)[f] == if f.cut.isCut == cut then multiset(fruits)[f] else 0
  {
    assert fruits == [fruits[0]] + fruits[1..];
    var head := if fruits[0].cut.isCut == cut then [fruits[0]] else [];
    assert multiset(head + rest) == multiset(head) + multiset(rest);
    assert multiset(fruits) == multiset([fruits[0]]) + multiset(fruits[1..]);
  }

  /** Cut and uncut fruits split the fruits: together they are exactly the
      fruits, each as often as it occurs. */
  lemma {:induction false} CutAndUncutPartition(fruits: seq<Fruit>)
    ensures multiset(CutFruits(fruits)) + multiset(UncutFruits(fruits)) == multiset(fruits)
    ensures |CutFruits(fruits)| + |UncutFruits(fruits)| == |fruits|
  {
    var cut, uncut := CutFruits(fruits), UncutFruits(fruits);
    assert multiset(cut) + multiset(uncut) == multiset(fruits) by {
      var both := multiset(cut) + multiset(uncut);
      forall f ensures both[f] == multiset(fruits)[f] {
      }
    }
    calc {
      |cut| + |uncut|;
      |multiset(cut)| + |multiset(uncut)|;
      |multiset(cut) + multiset(uncut)|;
      |multiset(fruits)|;
    }
  }

  /** `p` is piece `k` of fruit `f`: same place and texture, atlas cell `k`,
      no contact, doubled falling gravity. */
  predicate PieceOf(p: FruitPart, f: Fruit, k: nat) {
    && p.translation == f.translation
    && p.textureId == f.textureId
    && p.atlasIndex == k
    && p.wall == None
    && p.gravity == FRUITS_GRAVITY_FALL * 2.0
  }

  /** The piece flies upward no faster than the maximum piece speed. */
  predicate PieceSpeedInRange(p: FruitPart) {
    && -MAX_FRUIT_PIECE_SPEED <= p.velocity.x < MAX_FRUIT_PIECE_SPEED
    && 0.0 <= p.velocity.y < MAX_FRUIT_PIECE_SPEED
  }

  /** The pieces of one cut fruit at query position `i`. */
  function PiecesOf(f: Fruit, i: nat, draw: (nat, nat) -> PartDraw): (r: seq<FruitPart>)
    ensures |r| == NUMBER_OF_FRUIT_PIECES
    ensures forall k :: 0 <= k < |r| ==> r[k] == MakePart(f, k, draw(i, k))
  {
    seq(NUMBER_OF_FRUIT_PIECES, k requires 0 <= k < NUMBER_OF_FRUIT_PIECES => MakePart(f, k, draw(i, k)))
  }

  /** The pieces of every cut fruit; `draw(i, k)` is the random choice for
      piece `k` of the fruit at query position `base + i`. */
  function NewParts(fruits: seq<Fruit>, base: nat, draw: (nat, nat) -> PartDraw): (r: seq<FruitPart>)
    ensures |r| == NUMBER_OF_FRUIT_PIECES * |CutFruits(fruits)|
    ensures forall j :: 0 <= j < |r| ==>
      PieceOf(r[j], CutFruits(fruits)[j / NUMBER_OF_FRUIT_PIECES], j % NUMBER_OF_FRUIT_PIECES)
    ensures (forall i, k :: ValidPartDraw(draw(i, k))) ==>
      forall j :: 0 <= j < |r| ==> PieceSpeedInRange(r[j])
    decreases |fruits|
  {
    if |fruits| == 0 then []
    else
      var f := fruits[0];
      var rest := NewParts(fruits[1..], base + 1, draw);
      if f.cut.isCut then
        var own := PiecesOf(f, base, draw);
        PiecesPrepended(f, own, rest, CutFruits(fruits[1..]));
        assert CutFruits(fruits) == [f] + CutFruits(fruits[1..]);
        own + rest
      else
        assert CutFruits(fruits) == CutFruits(fruits[1..]);
        rest
  }

  /** Prepending the pieces of `f` to the pieces of `cut` gives the pieces of
      `[f] + cut`, block by block. */
  lemma PiecesPrepended(f: Fruit, own: seq<FruitPart>, rest: seq<FruitPart>, cut: seq<Fruit>)
    requires |own| == NUMBER_OF_FRUIT_PIECES && forall k :: 0 <= k < |own| ==> PieceOf(own[k], f, k)
    requires |rest| == NUMBER_OF_FRUIT_PIECES * |cut|
    requires forall j :: 0 <= j < |rest| ==>
      PieceOf(rest[j], cut[j / NUMBER_OF_FRUIT_PIECES], j % NUMBER_OF_FRUIT_PIECES)
    ensures forall j :: 0 <= j < |own + rest| ==>
      PieceOf((own + rest)[j], ([f] + cut)[j / NUMBER_OF_FRUIT_PIECES], j % NUMBER_OF_FRUIT_PIECES)
  {
    var all := own + rest;
    forall j | 0 <= j < |all|
      ensures PieceOf(all[j], ([f] + cut)[j / NUMBER_OF_FRUIT_PIECES], j % NUMBER_OF_FRUIT_PIECES)
    {
      if j < NUMBER_OF_FRUIT_PIECES {
        assert j / NUMBER_OF_FRUIT_PIECES == 0 && j % NUMBER_OF_FRUIT_PIECES == j;
        assert all[j] == own[j];
      } else {
        var j' := j - NUMBER_OF_FRUIT_PIECES;
        assert j' / NUMBER_OF_FRUIT_PIECES == j / NUMBER_OF_FRUIT_PIECES - 1;
        assert j' % NUMBER_OF_FRUIT_PIECES == j % NUMBER_OF_FRUIT_PIECES;
        assert all[j] == rest[j'];
        assert ([f] + cut)[j / NUMBER_OF_FRUIT_PIECES] == cut[j' / NUMBER_OF_FRUIT_PIECES];
      }
    }
  }

  /** `fruits_get_cut_system`: every cut fruit scores one point, is replaced by
      `NUMBER_OF_FRUIT_PIECES` pieces at its position (atlas cells 0 to N-1)
      and is despawned; fruits not cut are left alone. */
  function FruitsGetCut(fruits: seq<Fruit>, parts: seq<FruitPart>, score: nat,
                        draw: (nat, nat) -> PartDraw): (r: (seq<Fruit>, seq<FruitPart>, nat))
    ensures r.0 == UncutFruits(fruits)
    ensures r.2 == score + |CutFruits(fruits)|
    ensures |r.1| == |parts| + NUMBER_OF_FRUIT_PIECES * |CutFruits(fruits)|
    ensures r.1[..|parts|] == parts
    ensures r.1[|parts|..] == NewParts(fruits, 0, draw)
  {
    var added := NewParts(fruits, 0, draw);
    var all := parts + added;
    assert all[|parts|..] == added;
    (UncutFruits(fruits), all, score + |CutFruits(fruits)|)
  }

  /** Every fruit is accounted for: a fruit stays exactly when it is not
      cut, each cut fruit adds one point and `NUMBER_OF_FRUIT_PIECES` pieces,
      and the kept fruits with the scored ones make up the fruits. */
  lemma {:induction false} FruitsGetCutAccounts(fruits: seq<Fruit>, parts: seq<FruitPart>, score: nat,
                                                draw: (nat, nat) -> PartDraw)
    ensures var r := FruitsGetCut(fruits, parts, score, draw);
      && (forall f :: f in fruits ==> (f in r.0 <==> !f.cut.isCut))
      && r.2 - score + |r.0| == |fruits|
      && |r.1| - |parts| == NUMBER_OF_FRUIT_PIECES * (|fruits| - |r.0|)
      && multiset(r.0) + multiset(CutFruits(fruits)) == multiset(fruits)
  {
    CutAndUncutPartition(fruits);
  }

  /** With no fruit marked as cut, cutting changes nothing: no score, no
      pieces, no despawn. */
  lemma NothingCutNothingChanges(fruits: seq<Fruit>, parts: seq<FruitPart>, score: nat,
                                 draw: (nat, nat) -> PartDraw)
    requires forall i :: 0 <= i < |fruits| ==> !fruits[i].cut.isCut
    ensures FruitsGetCut(fruits, parts, score, draw) == (fruits, parts, score)
  {
    var r := FruitsGetCut(fruits, parts, score, draw);
    NothingCutFilters(fruits);
    assert |r.1| == |parts|;
    assert r.1 == r.1[..|parts|];
  }

  lemma {:induction false} NothingCutFilters(fruits: seq<Fruit>)
    requires forall i :: 0 <= i < |fruits| ==> !fruits[i].cut.isCut
    ensures CutFruits(fruits) == [] && UncutFruits(fruits) == fruits
    decreases |fruits|
  {
    if |fruits| > 0 {
      NothingCutFilters(fruits[1..]);
      assert fruits == [fruits[0]] + fruits[1..];
    }
  }

  //endregion

  //region Floor

  /** True when some fruit has a contact. */
  predicate AnyContact(fruits: seq<Fruit>) {
    exists i :: 0 <= i < |fruits| && fruits[i].wall.Some?
  }

  /** `fruits_reach_bottom_system`: the number of restart events sent, which is
      one when any fruit has a contact (the loop breaks after it) and zero
      otherwise. */
  function FruitsReachBottom(fruits: seq<Fruit>): (events: nat)
    ensures events <= 1
    ensures events == 1 <==> AnyContact(fruits)
    decreases |fruits|
  {
    if |fruits| == 0 then 0
    else if fruits[0].wall.Some? then 1
    else
      var rest := FruitsReachBottom(fruits[1..]);
      assert AnyContact(fruits) <==> AnyContact(fruits[1..]) by {
        if AnyContact(fruits) {
          var i :| 0 <= i < |fruits| && fruits[i].wall.Some?;
          assert fruits[1..][i - 1] == fruits[i];
        }
        if AnyContact(fruits[1..]) {
          var i :| 0 <= i < |fruits| - 1 && fruits[1..][i].wall.Some?;
          assert fruits[i + 1] == fruits[1..][i];
        }
      }
      rest
  }

  /** A fruit below the floor line, after the contact check, restarts the game
      with exactly one event. */
  lemma FallenFruitRestartsOnce(fruits: seq<Fruit>, parts: seq<FruitPart>, window: Window, i: nat)
    requires i < |fruits| && fruits[i].translation.y <= FloorLine(window)
    ensures FruitsReachBottom(FruitCorners(fruits, parts, window).0) == 1
  {
    assert FruitCorners(fruits, parts, window).0[i].wall.Some?;
  }

  /** `fruit_part_eliminate_system`: every piece with a contact is despawned,
      and every other piece is kept, as often as it occurs. */
  function FruitPartEliminate(parts: seq<FruitPart>): (r: seq<FruitPart>)
    ensures |r| <= |parts|
    ensures forall j :: 0 <= j < |r| ==> r[j].wall == None
    ensures forall p :: p in r <==> p in parts && p.wall == None
    ensures forall p :: multiset(r)[p] == if p.wall == None then multiset(parts)[p] else 0
    decreases |parts|
  {
    if |parts| == 0 then []
    else
      var rest := FruitPartEliminate(parts[1..]);
      assert parts == [parts[0]] + parts[1..];
      assert forall p :: p in parts <==> p == parts[0] || p in parts[1..];
      if parts[0].wall.Some? then rest else [parts[0]] + rest
  }

  //endregion
}
