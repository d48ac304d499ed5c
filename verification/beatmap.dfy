/** Beatmap playback (src/game/beatmap_plugin.rs): the parsed beatmap, the
    playback cursor and the three timers that gate fruit spawning and music. */
module Beatmap {
  import opened Outcome
  import opened Components
  import opened Constants
  import Text
  import Timer

  /** One timed spawn event: its time in milliseconds and its position in the
      beatmap's 640-wide playfield. */
  datatype HitObject = HitObject(time: nat, position: Vec2)

  /** A parsed section: key/value text or the list of hit objects. */
  datatype OsuFileSection = KeyValueMap(entries: map<string, string>) | HitObjects(objects: seq<HitObject>)

  /** The `Beatmap` resource: sections by header line. */
  type BeatmapData = map<string, OsuFileSection>

  const GeneralHeader: string := "[General]"
  const HitObjectsHeader: string := "[HitObjects]"
  const AudioFilenameKey: string := "AudioFilename"
  const BeatmapsDirectory: string := "beatmaps/"

  /** The `BeatmapPlayback` resource. */
  datatype BeatmapPlayback = BeatmapPlayback(
    startTimer: Timer.Timer,
    playTimer: Timer.Timer,
    musicOffsetTimer: Timer.Timer,
    beatmapStarted: bool,
    currentHitObjectId: nat)

  function DefaultPlayback(): BeatmapPlayback {
    BeatmapPlayback(Timer.Default(), Timer.Default(), Timer.Default(), false, 0)
  }

  /** The asset path of the music: `.mp3` becomes `.ogg`, under `beatmaps/`. */
  function AudioPath(audioFilename: string): (path: string)
    ensures |path| == |BeatmapsDirectory| + |audioFilename|
    ensures path[..|BeatmapsDirectory|] == BeatmapsDirectory
    ensures !Text.Occurs(path[|BeatmapsDirectory|..], Text.Mp3)
    ensures !Text.Occurs(audioFilename, Text.Mp3) ==> path == BeatmapsDirectory + audioFilename
  {
    var rewritten := Text.ReplaceAll(audioFilename, Text.Mp3, Text.Ogg);
    Text.ReplaceMp3Facts(audioFilename);
    var path := BeatmapsDirectory + rewritten;
    assert path[|BeatmapsDirectory|..] == rewritten;
    path
  }

  /** The audio filename of a `[General]` section, or a panic when the section
      or the key is missing. A `[General]` section that is not a key/value map
      leaves the filename empty. */
  function AudioFilename(beatmap: BeatmapData): (r: Result<string>)
    ensures r.Panic? <==> GeneralHeader !in beatmap
                          || (beatmap[GeneralHeader].KeyValueMap? && AudioFilenameKey !in beatmap[GeneralHeader].entries)
    ensures r.Ok? && beatmap[GeneralHeader].KeyValueMap? ==> r.value == beatmap[GeneralHeader].entries[AudioFilenameKey]
    ensures r.Ok? && beatmap[GeneralHeader].HitObjects? ==> r.value == ""
  {
    if GeneralHeader !in beatmap then Panic
    else match beatmap[GeneralHeader]
      case KeyValueMap(entries) =>
        if AudioFilenameKey in entries then Ok(entries[AudioFilenameKey]) else Panic
      case HitObjects(_) => Ok("")
  }

  /** `beatmap_start_system`, one tick of `delta` milliseconds. The start timer
      finishing starts the beatmap and unpauses the play and music-offset
      timers; the music-offset timer finishing asks for the music at the
      returned path. */
  function BeatmapStart(pb: BeatmapPlayback, delta: nat, beatmap: BeatmapData): (r: Result<(BeatmapPlayback, Option<string>)>)
    ensures var start := Timer.Tick(pb.startTimer, delta);
      r.Ok? ==>
        var (pb', music) := r.value;
        && pb'.startTimer == start
        && pb'.beatmapStarted == (pb.beatmapStarted || start.justFinished)
        && pb'.playTimer == (if start.justFinished then Timer.Unpause(pb.playTimer) else pb.playTimer)
        && pb'.currentHitObjectId == pb.currentHitObjectId
        && (music.Some? <==> pb'.musicOffsetTimer.justFinished)
    ensures var start := Timer.Tick(pb.startTimer, delta);
      var offset := if start.justFinished then Timer.Unpause(pb.musicOffsetTimer) else pb.musicOffsetTimer;
      var offset' := Timer.Tick(offset, delta);
      && (r.Panic? <==> offset'.justFinished && AudioFilename(beatmap).Panic?)
      && (r.Ok? ==> r.value.0.musicOffsetTimer == offset'
                    && (offset'.justFinished ==> r.value.1 == Some(AudioPath(AudioFilename(beatmap).value))))
  {
    var start := Timer.Tick(pb.startTimer, delta);
    var pb1 := if start.justFinished then
        pb.(startTimer := start, beatmapStarted := true,
            playTimer := Timer.Unpause(pb.playTimer),
            musicOffsetTimer := Timer.Unpause(pb.musicOffsetTimer))
      else pb.(startTimer := start);
    var offset := Timer.Tick(pb1.musicOffsetTimer, delta);
    var pb2 := pb1.(musicOffsetTimer := offset);
    if offset.justFinished then
      match AudioFilename(beatmap)
      case Ok(name) => Ok((pb2, Some(AudioPath(name))))
      case Panic => Panic
    else
      Ok((pb2, None))
  }

  /** The beatmap starts exactly once: a started beatmap stays started, and
      the start tick is the one on which the start timer just finished. */
  lemma StartIsLatched(pb: BeatmapPlayback, delta: nat, beatmap: BeatmapData)
    requires BeatmapStart(pb, delta, beatmap).Ok?
    ensures pb.beatmapStarted ==> BeatmapStart(pb, delta, beatmap).value.0.beatmapStarted
    ensures !pb.beatmapStarted && BeatmapStart(pb, delta, beatmap).value.0.beatmapStarted
            ==> Timer.Tick(pb.startTimer, delta).justFinished
  {
  }

  /** Milliseconds of the play timer: the time of the last hit object, or 0. */
  function PlayDuration(objects: seq<HitObject>): (ms: nat)
    ensures |objects| == 0 ==> ms == 0
    ensures |objects| > 0 ==> ms == objects[|objects| - 1].time
  {
    if |objects| == 0 then 0 else objects[|objects| - 1].time
  }

  /** `init_system` after the file has been read: the play timer lasts until the
      last hit object, the start and music-offset timers get their fixed
      waits. A beatmap without `[HitObjects]` panics. */
  function InitSystem(pb: BeatmapPlayback, beatmap: BeatmapData): (r: Result<BeatmapPlayback>)
    ensures r.Panic? <==> HitObjectsHeader !in beatmap
    ensures r.Ok? && beatmap[HitObjectsHeader].HitObjects? ==>
      var objects := beatmap[HitObjectsHeader].objects;
      && r.value.playTimer == Timer.New(PlayDuration(objects))
      && r.value.startTimer == Timer.New(BEATMAP_INITIAL_WAIT_MS)
      && r.value.musicOffsetTimer == Timer.New(BEATMAP_MUSIC_OFFSET_MS)
      && r.value.beatmapStarted == pb.beatmapStarted
      && r.value.currentHitObjectId == pb.currentHitObjectId
    ensures r.Ok? && beatmap[HitObjectsHeader].KeyValueMap? ==> r.value == pb
  {
    if HitObjectsHeader !in beatmap then Panic
    else match beatmap[HitObjectsHeader]
      case HitObjects(objects) =>
        Ok(pb.(playTimer := Timer.New(PlayDuration(objects)),
               startTimer := Timer.New(BEATMAP_INITIAL_WAIT_MS),
               musicOffsetTimer := Timer.New(BEATMAP_MUSIC_OFFSET_MS)))
      case KeyValueMap(_) => Ok(pb)
  }

  /** The first `.mp3` of the name, wherever it stands and whatever the name
      holds before it, becomes `.ogg`; the rest of the name is rewritten the
      same way. With `AudioPath`'s own clause for a name without `.mp3`, this
      fixes the path of every name. */
  lemma {:induction false} AudioPathOfFirstMp3(before: string, after: string)
    requires !Text.Occurs(before + ".mp", Text.Mp3)
    ensures AudioPath(before + ".mp3" + after)
            == BeatmapsDirectory + before + ".ogg" + Text.ReplaceAll(after, Text.Mp3, Text.Ogg)
  {
    assert Text.Mp3[..|Text.Mp3| - 1] == ".mp";
    Text.ReplaceFirstOccurrence(before, Text.Mp3, Text.Ogg, after);
  }

  /** A music file named `<stem>.mp3`, with no other dot, is played from
      `beatmaps/<stem>.ogg`. */
  lemma AudioPathOfMp3(stem: string)
    requires '.' !in stem
    ensures AudioPath(stem + ".mp3") == BeatmapsDirectory + stem + ".ogg"
  {
    Text.ReplaceMp3Suffix(stem);
  }

  /** The typical audio entry: `song.mp3` is played as `beatmaps/song.ogg`. */
  lemma AudioPathExample()
    ensures AudioPath("song.mp3") == "beatmaps/song.ogg"
  {
    var stem := "song";
    assert stem + ".mp3" == "song.mp3";
    AudioPathOfMp3(stem);
    assert BeatmapsDirectory + stem + ".ogg" == "beatmaps/song.ogg";
  }
}
