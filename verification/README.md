# need_4_fruits gameplay rules in Dafny

This project models the game rules of `src/game/` in a 2D rhythm/platform game.

- **Player.** The player runs, wall-jumps and dashes through fruit launched on the beat of an osu! beatmap.
- **Fruit.** Cutting a fruit scores a point and splits it into pieces. A fruit reaching the floor restarts the game.

Each Bevy system is written as a pure step function over immutable records:
- the player body (translation, velocity, wall contact, jump-off-wall speed);
- the `Movement` and `Dash` resources;
- the fruit and fruit-piece entities, in query order;
- the `BeatmapPlayback` resource with its three timers;
- the restart world.

Values are modelled this way:
- Velocities and positions are `real`.
- Timers are whole milliseconds.
- A Rust `panic!`, a failed `unwrap()` or an out-of-range index becomes the `Panic` case of `Outcome.Result`.

The `.osu` reader (`osu_reader.rs`) is modelled from the text of the file onward:
- carriage-return removal and line splitting;
- header detection;
- section line ranges;
- `key:value` lines;
- hit-object lines with their comma-separated fields.

Each gets a reference definition (`Text.Split`/`Text.Join`, `HeaderIndexes`, `SectionBody`) and lemmas that tie the operations to it.

Modules, one per source file:

| Module | Source file |
|---|---|
| `Outcome` | the `Option`/`Result` wrappers |
| `Components` | `src/common_components.rs` |
| `Constants`, `Game` | `src/game/mod.rs` |
| `Timer` | Bevy's non-repeating timer |
| `Controls` | `controls.rs` |
| `Text` | Rust string and number parsing as the reader uses them |
| `OsuReader` | `osu_reader.rs` |
| `Beatmap` | `beatmap_plugin.rs` |
| `Fruits` | `fruit_plugin.rs` |
| `Player` | `player_plugin.rs` |
| `CommonSystems` | `common_systems.rs` |
| `Schedule` | the unordered system set of the player plugin |

## Model

| member | source | states |
|---|---|---|
| `Components.WallsHasFiveVariants` | src/common_components.rs:44-53 | every `Walls` value is one of the five variants, and there are exactly five |
| `Components.DefaultVelocity` | src/common_components.rs:10-14 | the default velocity is (0, 0) |
| `Components.FromCallback` | src/common_components.rs:37-41 | a new animation keeps its callback, has no data and its clock is at 0 |
| `Timer.New` | src/game/beatmap_plugin.rs:89-96 | a new non-repeating timer has the given duration, is at 0, runs and has not finished |
| `Timer.Tick` | src/game/beatmap_plugin.rs:48-64 | ticking keeps a timer valid; `just_finished` holds exactly on the tick where a running, unfinished timer reaches its duration; a paused or finished timer does not move |
| `Timer.Reset` | src/game/common_systems.rs:108-112 | a reset timer is at 0, not finished, and keeps its duration and its paused flag |
| `Timer.FinishesAtMostOnce` | src/game/beatmap_plugin.rs:48-64 | once finished, a timer stays finished and never reports `just_finished` again, whatever the ticks |
| `Timer.FinishesWhenTotalReached` | src/game/fruit_plugin.rs:75-79 | a running timer finishes exactly when the sum of its ticks reaches its duration, however the time is cut into ticks |
| `Controls.DefaultsAtRest` | src/game/controls.rs:44-72 | `Movement::default` and `Dash::default` have every flag false and every counter and the direction zero |
| `Controls.KeyboardControls` | src/game/controls.rs:103-130 | the jump latch becomes set on a fresh press and is never cleared; fast-fall likewise while down is held; x is 1, -1 or 0 exactly as right, left or neither (or both) is held; the jump count and lock are kept |
| `Controls.ArrowDelta` | src/game/controls.rs:216-224 | each axis of the arrow delta is in {-1, 0, 1}, and is +1 or -1 exactly when one of its two arrows alone was just pressed |
| `Controls.DashDirectionArrows` | src/game/controls.rs:207-230 | a non-zero candidate (old direction plus delta) raises the request and becomes the direction; a zero candidate leaves the whole record unchanged; the dash flag, count and timer are never touched |
| `Controls.ArrowsKeepDirectionSet` | src/game/controls.rs:226-229 | the arrows never leave a requested or running dash without a direction |
| `Game.DefaultGameSettings` | src/game/mod.rs:99-103 | `dash_stop`, `snap_on_cut` and `no_death_penalty` are all false by default |
| `Game.UpdateLoadingScreen` | src/game/mod.rs:230-234 | the game state switches to playing exactly when two sections are loaded |
| `Game.Setup` | src/game/mod.rs:212-227 | setup inserts score 0, the default settings, `Movement` and `Dash`, sends one restart event and counts one loaded section |
| `Game.SetupIsOneOfTwoSections` | src/game/mod.rs:226-233 | from a fresh start, setup alone does not start the game; one more loaded section does |
| `Game.CeilSqrtFrom` | src/game/mod.rs:183 | the upward search returns the least k not below its start with k*k >= n |
| `Game.CeilSqrt` | src/game/mod.rs:183 | the result r is the ceiling square root: r*r >= n and (r-1)*(r-1) < n |
| `Game.SquareStrictlyMonotone` | src/game/mod.rs:183 | a < b exactly when a*a < b*b, for naturals |
| `Game.CeilSqrtOfSquare` | src/game/mod.rs:49 | the ceiling square root of a perfect square k*k is k |
| `Game.AtlasHasOneCellPerPiece` | src/game/mod.rs:183-190 | with 4 pieces the atlas grid is 2 by 2, has exactly one cell per piece, and each cell is 512 pixels wide |
| `Text.CountZeroIff` | src/game/osu_reader.rs:54 | a character occurs zero times exactly when it is absent |
| `Text.Split` | src/game/osu_reader.rs:21-32 | splitting gives one more piece than there are separators, and no piece holds the separator |
| `Text.JoinSplit` | src/game/osu_reader.rs:72 | joining the pieces of a split with the separator gives back the original text |
| `Text.SplitJoin` | src/game/osu_reader.rs:58 | splitting a join of separator-free pieces gives back those pieces |
| `Text.SplitPiecesFromText` | src/game/osu_reader.rs:58 | every character of a piece occurs in the split text |
| `Text.SplitWithoutSeparator` | src/game/osu_reader.rs:21-32 | a text without the separator splits into itself alone |
| `Text.SplitConcat` | src/game/osu_reader.rs:21-32 | splitting `a + sep + b` gives the pieces of `a` followed by the pieces of `b` |
| `Text.JoinFront` | src/game/osu_reader.rs:58 | a join of two or more pieces is the first piece, the separator, and the join of the rest |
| `Text.RemoveChar` | src/game/osu_reader.rs:70 | `retain` drops every occurrence of the character, shortens the text by its count and keeps every other character |
| `Text.RemoveAbsentChar` | src/game/osu_reader.rs:52 | removing an absent character leaves the text unchanged |
| `Text.ReplaceAll` | src/game/beatmap_plugin.rs:73 | replacing a pattern by one of equal length keeps the length |
| `Text.ReplaceAtFront` | src/game/beatmap_plugin.rs:73 | a text starting with the pattern becomes the replacement followed by the rewritten rest |
| `Text.ReplaceFirstOccurrence` | src/game/beatmap_plugin.rs:73 | with no earlier occurrence, the text before the first pattern is kept character for character, the pattern becomes the replacement and the rest is rewritten the same way |
| `Text.ReplaceAbsent` | src/game/beatmap_plugin.rs:73 | replacing a pattern that does not occur leaves the text unchanged |
| `Text.ReplaceMp3Complete` | src/game/beatmap_plugin.rs:73 | after the rewrite no `.mp3` occurs anywhere in the text |
| `Text.ReplaceMp3Facts` | src/game/beatmap_plugin.rs:73 | no `.mp3` is left, and a text without `.mp3` is unchanged |
| `Text.ReplaceMp3Suffix` | src/game/beatmap_plugin.rs:73 | a dot-free stem followed by `.mp3` becomes the stem followed by `.ogg` |
| `Text.RewritePrefixWithoutDot` | src/game/beatmap_plugin.rs:73 | a prefix of the rewritten text that holds no `.` is the original text's own prefix |
| `Text.DigitChar` | src/game/osu_reader.rs:81 | the digit character of d < 10 is a digit whose value is d |
| `Text.NatToString` | src/game/osu_reader.rs:81-82 | `to_string` of a natural is a non-empty string of digits |
| `Text.NatToStringValue` | src/game/osu_reader.rs:81-82 | the digits of `to_string(n)` have the value n |
| `Text.NatToStringInjective` | src/game/osu_reader.rs:95 | two naturals with the same spelling are equal, so spelled indexes compare like numbers |
| `Text.ParseUsize` | src/game/osu_reader.rs:104 | parsing a `usize` succeeds only below 2^64 and fails on the empty text |
| `Text.ParseUsizeRoundTrip` | src/game/osu_reader.rs:100-104 | a spelled index below 2^64 parses back to itself |
| `Text.ParseI32` | src/game/osu_reader.rs:37 | parsing an `i32` succeeds only within the 32-bit range and fails on the empty text |
| `Text.IntToString` | src/game/osu_reader.rs:37 | the spelling of an integer is non-empty |
| `Text.ParseI32RoundTrip` | src/game/osu_reader.rs:37 | a 32-bit integer's spelling parses back to it |
| `Text.IndexOfAny` | src/game/osu_reader.rs:38 | the result is the first position holding one of the characters, or the length when there is none |
| `Text.Shift10` | src/game/osu_reader.rs:38 | scaling by a power of ten keeps the sign and is the identity at exponent 0 |
| `Text.ParseExponent` | src/game/osu_reader.rs:38 | an empty exponent does not parse; an accepted one is digits after its first character, non-positive after `-` and non-negative otherwise |
| `Text.ParseExponentOfInteger` | src/game/osu_reader.rs:38 | the spelling of any integer reads back as that exponent |
| `Text.DecimalOfParts` | src/game/osu_reader.rs:38 | integer and fraction parts are accepted exactly when both are digits and not both empty, and the value is at least the integer part's |
| `Text.ParseDecimal` | src/game/osu_reader.rs:38 | an accepted mantissa is non-empty, holds only digits and at most one `.`, and is never negative |
| `Text.ParseDecimalOfFraction` | src/game/osu_reader.rs:38 | `i.f` with digit strings i and f reads as i plus f scaled down by ten to the length of f |
| `Text.ParseUnsigned` | src/game/osu_reader.rs:38 | an unsigned float is never negative |
| `Text.UnsignedWithExponent` | src/game/osu_reader.rs:38 | a mantissa of value v followed by `e` or `E` and an exponent k reads as v times ten to the k |
| `Text.ParseF32` | src/game/osu_reader.rs:38 | parsing an `f32` fails on the empty text; a value after `-` is never positive and one without it never negative |
| `Text.ParseF32OfFraction` | src/game/osu_reader.rs:38 | `i.f` with digit strings i and f, not both empty, parses as an `f32` equal to i plus f scaled down by ten to the length of f |
| `Text.ParseF32WithExponent` | src/game/osu_reader.rs:38 | an unsigned mantissa of value v followed by `e` and the spelling of k parses as v times ten to the k |
| `Text.DigitsHaveNoMarks` | src/game/osu_reader.rs:38 | a digit string holds neither an exponent mark nor a decimal point |
| `Text.ParseDecimalOfDigits` | src/game/osu_reader.rs:38 | a digit string reads as a decimal equal to its digits' value |
| `Text.WholeDecimal` | src/game/osu_reader.rs:38 | a digit string with an empty fraction has its digits' value |
| `Text.ParseUnsignedOfDigits` | src/game/osu_reader.rs:38 | a digit string reads as an unsigned float equal to its digits' value |
| `Text.ParseF32Unsigned` | src/game/osu_reader.rs:38 | an unsigned text with no sign reads as that unsigned value |
| `Text.ParseF32Negative` | src/game/osu_reader.rs:38 | a leading `-` negates the unsigned value that follows |
| `Text.ParseF32OfDigits` | src/game/osu_reader.rs:38 | a digit string parses as an `f32` equal to its digits' value |
| `Text.ParseF32OfNegatedDigits` | src/game/osu_reader.rs:38 | `-` followed by digits parses as the negated value |
| `Text.ParseF32OfInteger` | src/game/osu_reader.rs:38 | the spelling of any integer parses as an `f32` equal to it |
| `OsuReader.CollectFields` | src/game/osu_reader.rs:19-32 | the character loop of `hitobject_processing` yields exactly the comma split of the line: one field more than there are commas, none holding a comma, and joined back they give the line |
| `OsuReader.HitObjectIgnoresTail` | src/game/osu_reader.rs:35-40 | only fields 0 to 2 are read: a line with at least three fields reads the same whatever follows a further comma |
| `OsuReader.HitObjectFromFields` | src/game/osu_reader.rs:35-40 | a line whose fields 0, 1 and 2 spell x, y and an `i32` time reads as the hit object of time t at position (x, y) |
| `OsuReader.HitObjectRoundTrip` | src/game/osu_reader.rs:17-42 | the line `x,y,t` (optionally followed by `,tail`) reads back as time t at (x, y) |
| `OsuReader.IntToStringHasNoComma` | src/game/osu_reader.rs:23 | the spelling of an integer holds no comma, so it is one field |
| `OsuReader.ThreeFields` | src/game/osu_reader.rs:21-32 | three comma-free texts joined by commas split back into those three fields |
| `OsuReader.FieldsBeforeTail` | src/game/osu_reader.rs:21-32 | appending `,tail` only adds fields after the existing ones |
| `OsuReader.JsonLikeKeyValueGet` | src/game/osu_reader.rs:51-60 | the result is None exactly when the line without spaces has no `:`; otherwise key and value hold neither `:` nor a space |
| `OsuReader.KeyValueShape` | src/game/osu_reader.rs:52-59 | the line without spaces is key, `:`, value and a rest that is empty or starts at a second `:` |
| `OsuReader.KeyValueRoundTrip` | src/game/osu_reader.rs:51-60 | a `key:value` line, with spaces anywhere, reads back as that key and value |
| `OsuReader.JoinFirstTwo` | src/game/osu_reader.rs:58-59 | a join of two or more pieces begins with the first piece, the separator and the second piece, followed by nothing or by the separator |
| `OsuReader.GetNamesFromVec` | src/game/osu_reader.rs:44-49 | the result is the first position holding the name, and a panic exactly when the name is absent |
| `OsuReader.HeaderIndexes` | src/game/osu_reader.rs:77-85 | the recorded indexes are increasing, each points at a line containing `[`, and every such line is recorded |
| `OsuReader.CollectHeaderIndexes` | src/game/osu_reader.rs:75-85 | the scanning loop records a line index exactly when that line is a header |
| `OsuReader.SpelledIndexFindsItsPosition` | src/game/osu_reader.rs:88-95 | looking up a header's spelled line index among the spelled indexes finds that header's own position |
| `OsuReader.Lines` | src/game/osu_reader.rs:70-72 | the file splits into one line more than it has newlines after carriage returns are dropped; no line holds `\r` or `\n` |
| `OsuReader.SectionEnd` | src/game/osu_reader.rs:97-101 | a section ends at the next header, or for the last header at the file's last line, which is excluded |
| `OsuReader.KeyValuesSpec` | src/game/osu_reader.rs:108-112 | after reading key/value lines, the keys are the base keys plus the keys of lines with `:`; base keys holding a space keep their entry; the last line with a key gives its value |
| `OsuReader.KeyValuesKeys` | src/game/osu_reader.rs:108-112 | a key is in the section exactly when it was already there or some line of the body gives it |
| `OsuReader.KeyValuesKeepSpaced` | src/game/osu_reader.rs:108-112 | the `SourceLine - 1` entry (a key with a space) is never overwritten by a line, since line keys have no spaces |
| `OsuReader.KeyValuesLastWins` | src/game/osu_reader.rs:110 | of several lines with the same key, the last one's value is stored |
| `OsuReader.InsertNumberedSpec` | src/game/osu_reader.rs:105-107 | storing processed lines panics exactly when one of them panicked; otherwise entry i sits under the spelling of i, the keys are the old ones plus those spellings, and non-numeric old entries are kept |
| `OsuReader.NumberKeys` | src/game/osu_reader.rs:106 | the key set holds the spelling of every j < n and only digit strings |
| `OsuReader.HitObjectEntries` | src/game/osu_reader.rs:104-106 | one processed entry per body line |
| `OsuReader.ParseHitObjectsSpec` | src/game/osu_reader.rs:104-107 | reading hit-object lines panics exactly when one line does not parse; otherwise line i is stored under the spelling of i |
| `OsuReader.SectionBody` | src/game/osu_reader.rs:97-104 | a body is the lines strictly between its header and the section end, and holds no header except in the last section; slicing panics exactly when the last header is the file's last line |
| `OsuReader.HeadersBetween` | src/game/osu_reader.rs:77-85 | no line strictly between two consecutive headers is a header |
| `OsuReader.ParseSection` | src/game/osu_reader.rs:97-113 | only the last section can panic, and only when the last header is the file's last line or one of its lines does not parse; every section keeps its header's line index under `SourceLine - 1` |
| `OsuReader.LastBodyPanicsIff` | src/game/osu_reader.rs:104-106 | a line of the last body fails exactly when a line of the file between the last header and the last line fails |
| `OsuReader.KeyValueSection` | src/game/osu_reader.rs:108-112 | a section other than the last never panics; its keys are `SourceLine - 1` plus the keys of its body's key/value lines |
| `OsuReader.SectionOfKeyValues` | src/game/osu_reader.rs:104-112 | a section other than the last reads its body as key/value lines over the `SourceLine - 1` entry |
| `OsuReader.SectionOfHitObjects` | src/game/osu_reader.rs:104-107 | the last section reads its body as hit objects over the `SourceLine - 1` entry |
| `OsuReader.HitObjectSection` | src/game/osu_reader.rs:103-107 | when the last section parses, its keys are `SourceLine - 1` and the spellings 0 to n-1, and entry j is the hit object of body line j |
| `OsuReader.ParsedHitObjects` | src/game/osu_reader.rs:105-107 | parsed hit-object lines give one numbered entry per line holding that line's hit object, added to the base keys |
| `OsuReader.NumberedHitObjects` | src/game/osu_reader.rs:105-107 | numbered entries of processed lines hold each line's hit object |
| `OsuReader.LastHeaderBeforeLastLine` | src/game/osu_reader.rs:97-104 | if the last section does not panic, the last header is not the file's last line |
| `OsuReader.BuildSections` | src/game/osu_reader.rs:78-87 | the table has one entry per header text, taken from that text's last header; building panics exactly when such a header's section panics |
| `OsuReader.TableStep` | src/game/osu_reader.rs:80 | inserting the section of a header that is not superseded keeps the table invariant |
| `OsuReader.SectionTables` | src/game/osu_reader.rs:87-115 | entry p is the parsed section of header p |
| `OsuReader.LastHeaderWithText` | src/game/osu_reader.rs:80 | every header text has a header that is not superseded (its last occurrence) |
| `OsuReader.OnlyLastSectionPanics` | src/game/osu_reader.rs:103-113 | some retained section panics exactly when the last section panics |
| `OsuReader.ReadSections` | src/game/osu_reader.rs:74-115 | reading panics exactly when the last section does; otherwise the keys are exactly the header line texts and each holds the section of its last header |
| `OsuReader.OpenOsu` | src/game/osu_reader.rs:62-117 | the table of a file holds exactly its header texts, and reading panics exactly when the last section panics |
| `OsuReader.TableCoversHeaderLines` | src/game/osu_reader.rs:78-83 | the finished table's keys are exactly the texts of the header lines |
| `OsuReader.TableTextsAreHeaders` | src/game/osu_reader.rs:79-80 | every table key is the text of a header line |
| `OsuReader.HeaderTextsInTable` | src/game/osu_reader.rs:79-80 | every header line's text is a table key |
| `OsuReader.HeaderTextsCovered` | src/game/osu_reader.rs:79-80 | every header line's text is that of a header that is not superseded |
| `Beatmap.AudioPath` | src/game/beatmap_plugin.rs:73-74 | the path is `beatmaps/` followed by the name with its length kept, no `.mp3` remains, and a name without `.mp3` is kept as it is |
| `Beatmap.AudioPathOfFirstMp3` | src/game/beatmap_plugin.rs:73-74 | in any name, the text before the first `.mp3` is kept, that `.mp3` becomes `.ogg` and the rest is rewritten the same way, all under `beatmaps/` |
| `Beatmap.AudioPathOfMp3` | src/game/beatmap_plugin.rs:73-74 | `<stem>.mp3` with a dot-free stem is played from `beatmaps/<stem>.ogg` |
| `Beatmap.AudioPathExample` | src/game/beatmap_plugin.rs:73-74 | `song.mp3` is played from `beatmaps/song.ogg` |
| `Beatmap.AudioFilename` | src/game/beatmap_plugin.rs:67-70 | the lookup panics exactly when `[General]` is missing or is a key/value map without `AudioFilename`; otherwise it gives that value, or the empty name for a non-map section |
| `Beatmap.BeatmapStart` | src/game/beatmap_plugin.rs:40-79 | the start timer finishing starts the beatmap and unpauses the play and music-offset timers; music is requested exactly when the music-offset timer just finished; the tick panics exactly then with no filename |
| `Beatmap.StartIsLatched` | src/game/beatmap_plugin.rs:48-58 | a started beatmap stays started, and it only becomes started on the tick its start timer just finished |
| `Beatmap.PlayDuration` | src/game/beatmap_plugin.rs:89-92 | the play timer lasts until the last hit object's time, or 0 without hit objects |
| `Beatmap.InitSystem` | src/game/beatmap_plugin.rs:81-98 | it panics exactly when `[HitObjects]` is missing; with hit objects it sets the play timer to the last hit time and the start and music-offset timers to 500 and 700 ms, keeping the cursor and the started flag; a key/value section there leaves the playback unchanged |
| `Fruits.SpawnXMapsPlayfieldOntoBand` | src/game/fruit_plugin.rs:101-104 | the x mapping is monotone and sends 0 and 640 to the two edges of the spawn band |
| `Fruits.NewFruit` | src/game/fruit_plugin.rs:127-141 | a new fruit rises at `FRUIT_SPEED` under the upward gravity, has no contact, and is neither cut nor cuttable |
| `Fruits.SpawnFruit` | src/game/fruit_plugin.rs:61-148 | nothing happens before the beatmap starts; afterwards it panics exactly when the cursor is past the last hit object; else it spawns at most one fruit, exactly when the elapsed time reaches the hit object's time, and the cursor advances by one exactly then |
| `Fruits.SpawnFruitGuarded` | src/game/fruit_plugin.rs:82-92 | agrees with the source whenever the source does not panic; where the source panics it only ticks the play timer; the cursor moves by 0 or 1 and never leaves the hit-object list once inside it |
| `Fruits.SpawnPanicsAfterLastFruit` | src/game/fruit_plugin.rs:85 | after the last hit object's fruit spawns, the next tick panics |
| `Fruits.FruitContact` | src/game/fruit_plugin.rs:157-163 | contact is `Floor` exactly at or below the floor line and none above it; no other value occurs |
| `Fruits.FruitCorners` | src/game/fruit_plugin.rs:150-169 | every fruit and piece gets its floor contact and nothing else changes |
| `Fruits.SpawnHeightIsFloorLine` | src/game/fruit_plugin.rs:157-163 | fruit spawns exactly on the floor line, so a fruit that has not moved yet already counts as on the floor |
| `Fruits.Cuttable` | src/game/fruit_plugin.rs:257-276 | a fruit is cuttable exactly when vy <= 2; gravity is FALL exactly when vy < 0, HOLD exactly when 0 <= vy <= 2, UP exactly when vy > 2; nothing else changes |
| `Fruits.FruitsCuttable` | src/game/fruit_plugin.rs:257-276 | every fruit is updated by the cuttable rule, in order |
| `Fruits.CutFruits` | src/game/fruit_plugin.rs:204-207 | the selected fruits are exactly the cut ones: each cut fruit as often as it occurs in the list, and no uncut fruit |
| `Fruits.UncutFruits` | src/game/fruit_plugin.rs:204-207 | the kept fruits are exactly the uncut ones: each uncut fruit as often as it occurs in the list, and no cut fruit |
| `Fruits.SelectFirst` | src/game/fruit_plugin.rs:204-207 | one query step: if the tail's selection counts each fruit with the right mark as often as the tail does, prefixing the head when it has that mark counts them for the whole list |
| `Fruits.CutAndUncutPartition` | src/game/fruit_plugin.rs:204-207 | cut and kept fruits together are the fruits, each as often as it occurs, and their counts add up to the number of fruits |
| `Fruits.PiecesOf` | src/game/fruit_plugin.rs:212-252 | a cut fruit gives exactly `NUMBER_OF_FRUIT_PIECES` pieces, piece k drawn with its own random choice |
| `Fruits.NewParts` | src/game/fruit_plugin.rs:208-254 | every cut fruit gives N pieces at its position and texture, atlas cells 0 to N-1, with speeds in range when the draws are |
| `Fruits.PiecesPrepended` | src/game/fruit_plugin.rs:208-254 | the pieces of one fruit followed by those of the next fruits are numbered block by block |
| `Fruits.FruitsGetCut` | src/game/fruit_plugin.rs:198-255 | each cut fruit adds exactly 1 to the score, is despawned and adds N pieces; uncut fruits and existing pieces stay |
| `Fruits.FruitsGetCutAccounts` | src/game/fruit_plugin.rs:198-255 | every fruit is accounted for: a fruit stays exactly when it is not cut, the score rises by the number of fruits removed and the pieces by N times that number |
| `Fruits.NothingCutNothingChanges` | src/game/fruit_plugin.rs:204-207 | without a cut fruit, score, fruits and pieces are unchanged |
| `Fruits.NothingCutFilters` | src/game/fruit_plugin.rs:204-207 | without a cut fruit, none is selected and all are kept |
| `Fruits.FruitsReachBottom` | src/game/fruit_plugin.rs:184-196 | at most one restart event is sent, and one is sent exactly when some fruit has a contact |
| `Fruits.FallenFruitRestartsOnce` | src/game/fruit_plugin.rs:150-196 | a fruit at or below the floor line makes the next bottom check send exactly one restart |
| `Fruits.FruitPartEliminate` | src/game/fruit_plugin.rs:171-182 | pieces with a contact are despawned and every other piece is kept as often as it occurs |
| `Player.Friction` | src/game/player_plugin.rs:59-64 | the magnitude never grows, the sign never flips, a speed within the attrition becomes 0, and a larger one loses exactly the attrition |
| `Player.ApplyFriction` | src/game/player_plugin.rs:59-64 | friction acts on each component separately |
| `Player.ResetJows` | src/game/player_plugin.rs:66-69 | reset zeroes both components |
| `Player.FrictionTimesDecays` | src/game/player_plugin.rs:59-64 | after n frictions the magnitude is max(|x| - n·5, 0) and the sign of x is kept |
| `Player.FrictionReachesRest` | src/game/player_plugin.rs:59-64 | enough frictions bring any wall-jump speed to rest |
| `Player.PlayerCorners` | src/game/player_plugin.rs:114-147 | just after a wall jump nothing changes; otherwise the sides are classified and clamped first, then the floor and roof override them; the roof also clamps y and stops vy |
| `Player.CornersKeepPlayerInside` | src/game/player_plugin.rs:121-144 | after the check the player is between the side walls and under the roof unless on the floor, and a second check does not move it |
| `Player.RoofContactIsTransient` | src/game/player_plugin.rs:138-144 | a roof contact, checked again after the clamp, becomes a side-wall contact or none |
| `Player.PlayerMovementAir` | src/game/player_plugin.rs:149-198 | it runs only when free, on the roof or just after leaving a wall, and not dashing; a pending jump is always consumed but counted only while jumps remain; fast-fall overrides vy, otherwise gravity scales with 60·dt; the jump-off-wall speed is added and then worn down; the jump count stays within its cap |
| `Player.WallJumpSign` | src/game/player_plugin.rs:224-231 | a wall jump pushes right off the left wall, left off the right wall, and not at all otherwise |
| `Player.PlayerMovementWall` | src/game/player_plugin.rs:200-252 | on a wall without a jump the player slides at `-PLAYER_GRAVITY_ON_WALL` and loses its push; with a jump it is pushed away and up, its air jumps and fast-fall are reset and it is marked as just left; just after leaving, the push is worn down and becomes the velocity |
| `Player.AirAndWallStepsSplitContacts` | src/game/player_plugin.rs:158-210 | the air and wall steps both run only just after a wall jump, and one of them always runs when not dashing |
| `Player.CanDash` | src/game/player_plugin.rs:254-281 | on a side wall the request and direction are cleared and dashes are refilled; otherwise a pending request while not dashing is refused once dashes are used up, or starts a 66 ms dash, counts it and stops fast-fall; the count stays within its cap |
| `Player.CanDashLeavesDashWithoutDirection` | src/game/player_plugin.rs:259-309 | a dash running into a side wall keeps running with a zero direction |
| `Player.CanDashChecked` | src/game/player_plugin.rs:259-265 | the corrected step also ends a running dash on a side wall, so a requested or running dash always has a direction |
| `Player.EndDash` | src/game/player_plugin.rs:318-327 | ending a dash clears the direction, the dash and the request, keeps the count and timer, and sets the velocity to (0, 5) |
| `Player.DashSystem` | src/game/player_plugin.rs:283-316 | it does nothing unless dashing; a jump that still has an air jump cancels with velocity (0, 5); a finished timer ends it with velocity (0, 0); otherwise the dash velocity, of length `DASH_SPEED` along a non-zero direction, is applied, the push is reset and the timer runs |
| `Player.DashEndsAtRestAfterDuration` | src/game/player_plugin.rs:299-314 | without a jump a dash keeps running until its 66 ms timer finishes, and the step after that leaves the player at rest |
| `Player.FirstCut` | src/game/player_plugin.rs:345-353 | the result is the first fruit in query order that is cuttable and overlaps the player, or none when there is no such fruit |
| `Player.SaturatingDecrement` | src/game/player_plugin.rs:357-358 | the decrement stops at 0 |
| `Player.FruitCollision` | src/game/player_plugin.rs:329-373 | only while dashing, the first cuttable overlapping fruit is cut; the dash and jump counts drop by one without going below 0; the player snaps and/or ends the dash as the settings say; only the position and velocity of the player can change, its contact and jump-off-wall speed never do; counters never grow |
| `Player.AtMostOneCutPerTick` | src/game/player_plugin.rs:368-370 | if one fruit changed, every later fruit is unchanged |
| `Player.PlayerBottom` | src/game/player_plugin.rs:381-393 | a restart is requested exactly when the player is on the floor, of the player alone exactly when deaths have no penalty |
| `CommonSystems.Gravity` | src/game/common_systems.rs:57-61 | vy drops by the body's gravity strength and vx is kept |
| `CommonSystems.GravityFramesIsLinear` | src/game/common_systems.rs:57-61 | over n frames vy drops by n times the strength |
| `CommonSystems.MoveWithVelocity` | src/game/common_systems.rs:45-55 | the position moves by the velocity times 60·dt |
| `CommonSystems.MovementIsFrameRateIndependent` | src/game/common_systems.rs:49-53 | two frames of a and b seconds move as far as one frame of a+b seconds, and a body at rest stays put |
| `CommonSystems.RestartGame` | src/game/common_systems.rs:66-123 | without an event nothing changes; otherwise events are consumed and, with a player, the first player is placed at (-max_w, 0) at rest, score, jump and dash state are reset (x and lock kept), the beatmap is rewound with paused timers and every fruit and piece is despawned |
| `CommonSystems.RestartIsIdempotent` | src/game/common_systems.rs:78-121 | several pending events restart once, and restarting again right after changes nothing |
| `CommonSystems.RestartStopsSpawning` | src/game/common_systems.rs:107-113 | right after a restart the spawner neither spawns a fruit nor changes the playback, whatever the beatmap and frame time |
| `Schedule.StepKeepsSane` | src/game/player_plugin.rs:28-39 | each player system that writes player state (keyboard, corners, arrows, the corrected dash check, air, wall, dash and fruit collision), keeps jump and dash counts within their caps and a direction for every requested or running dash |
| `Schedule.RunKeepsSane` | src/game/player_plugin.rs:28-39 | any order and any number of runs of those systems, each dash step carrying its direction's dash velocity, keeps that invariant; `player_bottom_system` writes no player state and is not among them |
| `Schedule.SaneDashMovesAtDashSpeed` | src/game/player_plugin.rs:299-314 | in a sane state a running dash step keeps a non-zero direction and moves the player at exactly `DASH_SPEED` along it |
| `Schedule.SetupIsSane` | src/game/mod.rs:217-219 | the resources inserted by setup satisfy the invariant |
| `Schedule.UncheckedCanDashBreaksSanity` | src/game/player_plugin.rs:259-265 | one run of the dash check as written breaks the invariant |

## Left out

- Rendering, sprites, flips, the dash aura, texture and audio loading, music playback, fonts, the camera and `cursor_system`: these are presentation or engine calls with no game rule in them.
- File reading in `open_osu`: the reader starts from the file's text. `open_osu` itself returns `()`; the model returns the table it builds.
- `OsuFileSection`: osu_reader.rs defines `OsuFileInfo` and no `OsuFileSection`, yet beatmap_plugin.rs:6 and fruit_plugin.rs:12 import `OsuFileSection` from it. `Beatmap.OsuFileSection` and `Beatmap.BeatmapData` are shaped after how those two files use it (a `KeyValueMap` of entries or a list of `HitObjects`, looked up by header), and are taken as an input, so no conversion from the reader's `OsuFileInfo` table is modelled.
- Random draws (`thread_rng`): the fruit texture, the spawn drift and each piece's velocity and spin are parameters, constrained to their ranges by `ValidSpawnDraw` and `ValidPartDraw`.
- `Vec2::normalize` and Bevy's `collide`: the dash velocity is a parameter. `Player.DashSystem` requires it to satisfy `IsDashVelocity` whenever the dash moves along a non-zero direction, and `Schedule.Run` requires that of every dash step. For a zero direction the source's velocity is not a number; the model leaves it free. The overlap test is the box predicate `Overlaps`.
- Fruits.UncutFruits: the count of kept fruits is not in its own contract. `Fruits.CutAndUncutPartition` states that the cut and kept fruits add up to all of them.
- f32 arithmetic: all speeds and positions are exact reals, with no rounding, infinities or NaN.
- The `elapsed_secs() * 1000 as u32` truncation in the spawner: the timer counts whole milliseconds.
- Text.ParseF32: the `inf`/`nan` spellings and rounding to the nearest `f32` are not modelled. A number is read as an exact decimal with an optional sign and exponent.
- Player.SaturatingDecrement: `usize` counters are unbounded naturals. Only the saturation at 0 is modelled, not an upper wrap.
- Bevy's ECS scheduling within a system: the game spawns one player, so the player systems act on one body. `RestartGame` keeps a sequence of players and resets only the first, as the source's `break` does.
- The kind of a restart: `RestartEvent` is a unit struct (common_systems.rs:63-64), yet `player_bottom_system` sends `OnlyPlayer` or `All`. `Player.PlayerBottom` returns the kind the player asks for, and `CommonSystems.RestartGame` counts pending events and ignores their kind.
- The extra restart event of the common systems' own `init_system` (common_systems.rs:40-43) is not added to `Game.Setup`'s count.
- The loading sections other than `setup_system` that raise `sections_loaded` are not part of this model. `Game.UpdateLoadingScreen` takes the count as given.
- Section lookups in the reader: the `HashMap` iteration order of `open_osu` does not matter to the result, because every section is computed independently and any panic aborts. The model computes the sections in header order.
- The header indexes are stored as decimal strings and compared by spelling (osu_reader.rs:81-95). The model keeps them as naturals, and `OsuReader.SpelledIndexFindsItsPosition` shows the spelled lookup finds the same position.

## Findings

| source | as written | input that shows it | evidently intended | confidence | as-written member | corrected member |
|---|---|---|---|---|---|---|
| src/game/fruit_plugin.rs:85 | `hit_objects[current_hit_object_id]` is read with no bounds check | a started beatmap in the tick after its last hit object's fruit spawned (cursor = number of hit objects) | a cursor past the last hit object spawns nothing | high, not executed | `Fruits.SpawnPanicsAfterLastFruit` | `Fruits.SpawnFruitGuarded` |
| src/game/player_plugin.rs:260-265 | on a side wall, `can_dash_system` zeroes the dash direction but leaves `is_dashing` set | a running dash (direction (1, 0)) when the player touches the right wall: the next `dash_system` normalizes the zero vector (player_plugin.rs:309) | touching a side wall also ends the dash | medium, not executed | `Player.CanDashLeavesDashWithoutDirection` | `Player.CanDashChecked` |
