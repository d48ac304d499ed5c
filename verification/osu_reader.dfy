/** The `.osu` beatmap reader (src/game/osu_reader.rs), from the text of the
    file onward: lines, section headers, key/value lines and hit-object
    lines. The reader builds a table from each header line to the entries of
    its section. */
module OsuReader {
  import opened Outcome
  import opened Text

  /** An entry of a section: a text value, or a parsed hit object with its
      time and its playfield position. */
  datatype OsuFileInfo = Info(text: string) | Unknown(time: int, position: (real, real))

  type SectionMap = map<string, OsuFileInfo>

  //region Hit-object lines

  /** The loop of `hitobject_processing`: characters are gathered into the
      current field and every comma closes it; the field open at the end is
      kept. It reads the same fields as `str::split(',')`. */
  method CollectFields(line: string) returns (fields: seq<string>)
    ensures fields == Split(line, ',')
    ensures |fields| == Count(line, ',') + 1
    ensures forall i :: 0 <= i < |fields| ==> ',' !in fields[i]
    ensures Join(fields, ',') == line
  {
    var information: seq<string> := [];
    var getter: string := "";
    var i := 0;
    while i < |line|
      invariant 0 <= i <= |line|
      invariant information + [getter] == Split(line[..i], ',')
    {
      var ch := line[i];
      CollectStep(information, getter, line[..i], ch);
      assert line[..i + 1] == line[..i] + [ch];
      if ch == ',' {
        information := information + [getter];
        getter := "";
      } else {
        getter := getter + [ch];
      }
      i := i + 1;
    }
    assert line[..|line|] == line;
    fields := information + [getter];
    JoinSplit(line, ',');
  }

  /** One character of the field loop: a comma closes the open field and
      opens an empty one, any other character extends the open field. */
  lemma CollectStep(information: seq<string>, getter: string, prefix: string, ch: char)
    requires information + [getter] == Split(prefix, ',')
    ensures ch == ',' ==> information + [getter] + [""] == Split(prefix + [ch], ',')
    ensures ch != ',' ==> information + [getter + [ch]] == Split(prefix + [ch], ',')
  {
    SplitSnoc(prefix, ch, ',');
    var parts := information + [getter];
    assert parts[..|parts| - 1] == information;
  }

  /** `hitobject_processing`: the line's comma-separated fields are x, y and
      time (anything after is ignored). Fewer than three fields, or a field
      that does not parse, panics. */
  function HitObjectProcessing(line: string): (r: Result<OsuFileInfo>)
  {
    var fields := Split(line, ',');
    if |fields| < 3 then Panic
    else
      match (ParseI32(fields[2]), ParseF32(fields[0]), ParseF32(fields[1]))
      case (Some(t), Some(x), Some(y)) => Ok(Unknown(t, (x, y)))
      case _ => Panic
  }

  /** The decimal spelling of an integer has no comma. */
  lemma IntToStringHasNoComma(i: int)
    ensures ',' !in IntToString(i)
  {
    var s := IntToString(i);
    var digits := if i < 0 then NatToString(-i) else NatToString(i);
    assert forall k :: 0 <= k < |digits| ==> IsDigit(digits[k]);
    if i < 0 {
      assert s == "-" + digits;
    }
  }

  /** Three comma-free texts joined by commas split back into those three
      fields. */
  lemma ThreeFields(a: string, b: string, c: string)
    requires ',' !in a && ',' !in b && ',' !in c
    ensures Split(a + "," + b + "," + c, ',') == [a, b, c]
  {
    SplitWithoutSeparator(a, ',');
    SplitWithoutSeparator(b, ',');
    SplitWithoutSeparator(c, ',');
    SplitConcat(a, b, ',');
    var ab := a + [','] + b;
    SplitConcat(ab, c, ',');
    assert a + "," + b + "," + c == ab + [','] + c;
  }

  /** Text after a further comma only adds fields after the existing ones. */
  lemma FieldsBeforeTail(line: string, tail: string)
    ensures |Split(line + "," + tail, ',')| > |Split(line, ',')|
    ensures forall i :: 0 <= i < |Split(line, ',')| ==> Split(line + "," + tail, ',')[i] == Split(line, ',')[i]
  {
    SplitConcat(line, tail, ',');
    assert line + "," + tail == line + [','] + tail;
    assert (Split(line, ',') + Split(tail, ','))[..|Split(line, ',')|] == Split(line, ',');
  }

  /** Only the first three fields are read: on a line with at least three,
      whatever follows a further comma changes nothing. */
  lemma HitObjectIgnoresTail(line: string, tail: string)
    requires |Split(line, ',')| >= 3
    ensures HitObjectProcessing(line + "," + tail) == HitObjectProcessing(line)
  {
    FieldsBeforeTail(line, tail);
  }

  /** A line whose first three fields spell integers reads as those numbers. */
  lemma HitObjectFromFields(line: string, x: int, y: int, t: int)
    requires I32_MIN <= t <= I32_MAX
    requires |Split(line, ',')| >= 3
    requires Split(line, ',')[0] == IntToString(x) && Split(line, ',')[1] == IntToString(y) && Split(line, ',')[2] == IntToString(t)
    ensures HitObjectProcessing(line) == Ok(Unknown(t, (x as real, y as real)))
  {
    ParseI32RoundTrip(t);
    ParseF32OfInteger(x);
    ParseF32OfInteger(y);
  }

  /** A hit-object line written from integer coordinates and a time reads
      back as those numbers, whatever follows the time. */
  lemma HitObjectRoundTrip(x: int, y: int, t: int, tail: string)
    requires I32_MIN <= t <= I32_MAX
    ensures HitObjectProcessing(IntToString(x) + "," + IntToString(y) + "," + IntToString(t)) ==
            Ok(Unknown(t, (x as real, y as real)))
    ensures HitObjectProcessing(IntToString(x) + "," + IntToString(y) + "," + IntToString(t) + "," + tail) ==
            Ok(Unknown(t, (x as real, y as real)))
  {
    var sx, sy, st := IntToString(x), IntToString(y), IntToString(t);
    IntToStringHasNoComma(x);
    IntToStringHasNoComma(y);
    IntToStringHasNoComma(t);
    var line := sx + "," + sy + "," + st;
    ThreeFields(sx, sy, st);
    HitObjectFromFields(line, x, y, t);
    FieldsBeforeTail(line, tail);
    HitObjectFromFields(line + "," + tail, x, y, t);
  }

  //endregion

  //region Key/value lines

  /** `json_like_key_value_get`: every space is removed; a line without `:`
      is not a key/value line; otherwise the key is the text before the first
      `:` and the value the text between the first and the second. */
  function JsonLikeKeyValueGet(line: string): (r: Option<(string, string)>)
    ensures r.None? <==> ':' !in RemoveChar(line, ' ')
    ensures r.Some? ==> ':' !in r.value.0 && ':' !in r.value.1
    ensures r.Some? ==> ' ' !in r.value.0 && ' ' !in r.value.1
  {
    var stripped := RemoveChar(line, ' ');
    if ':' !in stripped then None
    else
      var parts := Split(stripped, ':');
      CountZeroIff(stripped, ':');
      SplitPiecesFromText(stripped, ':');
      Some((parts[0], parts[1]))
  }

  /** What follows the second piece of a join: nothing, or the separator
      and the remaining pieces. */
  function JoinRest(parts: seq<string>, c: char): (rest: string)
    requires |parts| >= 2
    ensures rest == "" || rest[0] == c
  {
    if |parts| == 2 then "" else [c] + Join(parts[2..], c)
  }

  /** A join of two or more pieces starts with the first two pieces. */
  lemma JoinFirstTwo(parts: seq<string>, c: char)
    requires |parts| >= 2
    ensures Join(parts, c) == parts[0] + [c] + parts[1] + JoinRest(parts, c)
  {
    JoinFront(parts, c);
    var tail := parts[1..];
    if |parts| == 2 {
      assert tail == [parts[1]];
    } else {
      JoinFront(tail, c);
      assert tail[1..] == parts[2..];
      AppendAssoc(parts[0] + [c], parts[1], [c], Join(parts[2..], c));
    }
  }

  /** Regrouping a concatenation of four pieces. */
  lemma AppendAssoc(a: string, b: string, sep: string, d: string)
    ensures a + (b + sep + d) == a + b + (sep + d)
  {
  }

  /** The key, the value and what was dropped, put back together, are the
      line without its spaces: the value ends at the second `:` or at the
      end of the line. */
  lemma KeyValueShape(line: string)
    requires JsonLikeKeyValueGet(line).Some?
    ensures var (key, value) := JsonLikeKeyValueGet(line).value;
      exists rest: string :: RemoveChar(line, ' ') == key + ":" + value + rest && (rest == "" || rest[0] == ':')
  {
    var stripped := RemoveChar(line, ' ');
    var parts := Split(stripped, ':');
    CountZeroIff(stripped, ':');
    JoinSplit(stripped, ':');
    JoinFirstTwo(parts, ':');
    var rest := JoinRest(parts, ':');
    assert stripped == parts[0] + ":" + parts[1] + rest;
  }

  /** A `key:value` line, spaces anywhere, reads back as that key and value. */
  lemma KeyValueRoundTrip(key: string, value: string, spaced: string)
    requires ':' !in key && ':' !in value && ' ' !in key && ' ' !in value
    requires RemoveChar(spaced, ' ') == key + ":" + value
    ensures JsonLikeKeyValueGet(spaced) == Some((key, value))
  {
    SplitWithoutSeparator(key, ':');
    SplitWithoutSeparator(value, ':');
    SplitConcat(key, value, ':');
    assert key + ":" + value == key + [':'] + value;
  }

  //endregion

  //region Header table

  /** `get_names_from_vec`: the position of the first entry equal to `name`;
      an absent name panics. */
  function GetNamesFromVec(names: seq<string>, name: string): (r: Result<nat>)
    ensures r.Ok? <==> name in names
    ensures r.Ok? ==> r.value < |names| && names[r.value] == name
    ensures r.Ok? ==> forall j :: 0 <= j < r.value ==> names[j] != name
    decreases |names|
  {
    if |names| == 0 then Panic
    else if names[0] == name then Ok(0)
    else
      match GetNamesFromVec(names[1..], name)
      case Panic => Panic
      case Ok(i) => Ok(i + 1)
  }

  /** A line is a section header when it contains `[`. */
  predicate IsHeader(line: string) {
    '[' in line
  }

  /** The line indexes of the headers, in order. */
  function HeaderIndexes(lines: seq<string>): (r: seq<nat>)
    ensures forall j :: 0 <= j < |r| ==> r[j] < |lines| && IsHeader(lines[r[j]])
    ensures forall i, j :: 0 <= i < j < |r| ==> r[i] < r[j]
    ensures forall k :: 0 <= k < |lines| && IsHeader(lines[k]) ==> k in r
    decreases |lines|
  {
    if |lines| == 0 then []
    else
      var init := HeaderIndexes(lines[..|lines| - 1]);
      if IsHeader(lines[|lines| - 1]) then init + [|lines| - 1] else init
  }

  /** The header scan of `open_osu`: one pass over the lines recording the
      index of every header. */
  method CollectHeaderIndexes(lines: seq<string>) returns (indexes: seq<nat>)
    ensures indexes == HeaderIndexes(lines)
    ensures forall k :: 0 <= k < |lines| ==> (IsHeader(lines[k]) <==> k in indexes)
  {
    indexes := [];
    var index := 0;
    while index < |lines|
      invariant 0 <= index <= |lines|
      invariant indexes == HeaderIndexes(lines[..index])
    {
      assert lines[..index + 1][..index] == lines[..index];
      if IsHeader(lines[index]) {
        indexes := indexes + [index];
      }
      index := index + 1;
    }
    assert lines[..|lines|] == lines;
  }

  /** The reader keeps header indexes as decimal strings and finds a header's
      position by comparing spellings; since spellings are unique this is the
      header's own position. */
  lemma SpelledIndexFindsItsPosition(headers: seq<nat>, p: nat)
    requires p < |headers|
    requires forall i, j :: 0 <= i < j < |headers| ==> headers[i] < headers[j]
    ensures GetNamesFromVec(seq(|headers|, i requires 0 <= i < |headers| => NatToString(headers[i])), NatToString(headers[p])) == Ok(p)
  {
    var names := seq(|headers|, i requires 0 <= i < |headers| => NatToString(headers[i]));
    assert names[p] == NatToString(headers[p]);
    var r := GetNamesFromVec(names, NatToString(headers[p]));
    var q := r.value;
    NatToStringInjective(headers[q], headers[p]);
  }

  //endregion

  //region Sections

  /** The entry of every section table recording its header's line index. */
  const SourceLineKey: string := "SourceLine - 1"

  /** The lines of the file: every carriage return is dropped, then the text
      is split at every newline (a final newline leaves an empty last line). */
  function Lines(source: string): (lines: seq<string>)
    ensures |lines| == Count(RemoveChar(source, '\r'), '\n') + 1
    ensures forall i :: 0 <= i < |lines| ==> '\r' !in lines[i] && '\n' !in lines[i]
  {
    var text := RemoveChar(source, '\r');
    SplitPiecesFromText(text, '\n');
    Split(text, '\n')
  }

  /** Header indexes as the scan records them: the index of every header
      line and of nothing else, in increasing order. */
  predicate ValidHeaders(lines: seq<string>, headers: seq<nat>) {
    && (forall j :: 0 <= j < |headers| ==> headers[j] < |lines| && IsHeader(lines[headers[j]]))
    && (forall i, j :: 0 <= i < j < |headers| ==> headers[i] < headers[j])
    && (forall k :: 0 <= k < |lines| && IsHeader(lines[k]) ==> k in headers)
  }

  /** Where the section of header `p` stops (exclusive): at the next header,
      or for the last header at the file's last line, which is left out. */
  function SectionEnd(lines: seq<string>, headers: seq<nat>, p: nat): (end: nat)
    requires |lines| > 0 && p < |headers|
    ensures p + 1 < |headers| ==> end == headers[p + 1]
    ensures p + 1 == |headers| ==> end == |lines| - 1
  {
    if p + 1 < |headers| then headers[p + 1] else |lines| - 1
  }

  /** The key/value lines of a section, read in order into `m`: lines
      without `:` are skipped and a later line overwrites an earlier one with
      the same key. */
  function ParseKeyValues(body: seq<string>, m: SectionMap): (r: SectionMap)
    decreases |body|
  {
    if |body| == 0 then m
    else
      var prev := ParseKeyValues(body[..|body| - 1], m);
      match JsonLikeKeyValueGet(body[|body| - 1])
      case None => prev
      case Some((key, value)) => prev[key := Info(value)]
  }

  /** The keys after reading a body are those of `m` and those of the
      body's key/value lines; a key of `m` that contains a space keeps its
      entry, since no line produces such a key; the last line with a key
      gives its value. */
  lemma KeyValuesSpec(body: seq<string>, m: SectionMap)
    ensures var r := ParseKeyValues(body, m);
      forall k :: k in r <==> k in m || exists i :: 0 <= i < |body| && HasKey(body, i, k)
    ensures var r := ParseKeyValues(body, m);
      forall k :: k in m && ' ' in k ==> k in r && r[k] == m[k]
    ensures var r := ParseKeyValues(body, m);
      forall i :: 0 <= i < |body| && JsonLikeKeyValueGet(body[i]).Some? && LastWithKey(body, i) ==>
        var (key, value) := JsonLikeKeyValueGet(body[i]).value;
        key in r && r[key] == Info(value)
  {
    KeyValuesKeys(body, m);
    KeyValuesKeepSpaced(body, m);
    KeyValuesLastWins(body, m);
  }

  /** The keys after reading a body: those of `m` and of its key/value lines. */
  lemma {:induction false} KeyValuesKeys(body: seq<string>, m: SectionMap)
    ensures var r := ParseKeyValues(body, m);
      forall k :: k in r <==> k in m || exists i :: 0 <= i < |body| && HasKey(body, i, k)
    decreases |body|
  {
    if |body| > 0 {
      var init := body[..|body| - 1];
      KeyValuesKeys(init, m);
      assert forall i :: 0 <= i < |init| ==> init[i] == body[i];
      assert forall i, k :: 0 <= i < |init| ==> (HasKey(init, i, k) <==> HasKey(body, i, k));
      var last := JsonLikeKeyValueGet(body[|body| - 1]);
      assert |init| == |body| - 1;
      assert forall k :: HasKey(body, |init|, k) <==> last.Some? && last.value.0 == k;
      if last.Some? {
        assert HasKey(body, |init|, last.value.0);
      }
    }
  }

  /** A key of `m` with a space in it is never overwritten: every key read
      from a line is free of spaces. */
  lemma {:induction false} KeyValuesKeepSpaced(body: seq<string>, m: SectionMap)
    ensures var r := ParseKeyValues(body, m);
      forall k :: k in m && ' ' in k ==> k in r && r[k] == m[k]
    decreases |body|
  {
    if |body| > 0 {
      KeyValuesKeepSpaced(body[..|body| - 1], m);
    }
  }

  /** The last line with a key gives that key's value. */
  lemma {:induction false} KeyValuesLastWins(body: seq<string>, m: SectionMap)
    ensures var r := ParseKeyValues(body, m);
      forall i :: 0 <= i < |body| && JsonLikeKeyValueGet(body[i]).Some? && LastWithKey(body, i) ==>
        var (key, value) := JsonLikeKeyValueGet(body[i]).value;
        key in r && r[key] == Info(value)
    decreases |body|
  {
    if |body| > 0 {
      var init := body[..|body| - 1];
      KeyValuesLastWins(init, m);
      assert forall i :: 0 <= i < |init| ==> init[i] == body[i];
      forall i | 0 <= i < |init| && JsonLikeKeyValueGet(body[i]).Some? && LastWithKey(body, i)
        ensures LastWithKey(init, i)
      {
      }
    }
  }

  /** Line `i` is a key/value line with key `k`. */
  predicate HasKey(lines: seq<string>, i: nat, k: string)
    requires i < |lines|
  {
    JsonLikeKeyValueGet(lines[i]).Some? && JsonLikeKeyValueGet(lines[i]).value.0 == k
  }

  /** Line `i` of `body` is the last with its key. */
  predicate LastWithKey(body: seq<string>, i: nat)
    requires i < |body| && JsonLikeKeyValueGet(body[i]).Some?
  {
    forall j :: i < j < |body| ==>
      JsonLikeKeyValueGet(body[j]).None? || JsonLikeKeyValueGet(body[j]).value.0 != JsonLikeKeyValueGet(body[i]).value.0
  }

  /** Parsed entries stored in order under the keys "0", "1", ...; the
      first failed parse panics. */
  function InsertNumbered(entries: seq<Result<OsuFileInfo>>, m: SectionMap): (r: Result<SectionMap>)
    decreases |entries|
  {
    if |entries| == 0 then Ok(m)
    else
      var n := |entries| - 1;
      match InsertNumbered(entries[..n], m)
      case Panic => Panic
      case Ok(prev) =>
        match entries[n]
        case Panic => Panic
        case Ok(o) => Ok(prev[NatToString(n) := o])
  }

  /** Storing numbered entries panics exactly when one of them failed;
      otherwise every entry sits under its spelled position. */
  lemma {:induction false} InsertNumberedSpec(entries: seq<Result<OsuFileInfo>>, m: SectionMap)
    ensures InsertNumbered(entries, m).Panic? <==> exists i :: 0 <= i < |entries| && entries[i].Panic?
    ensures InsertNumbered(entries, m).Ok? ==> NumberedEntries(entries, m, InsertNumbered(entries, m).value)
    decreases |entries|
  {
    if |entries| > 0 {
      var n := |entries| - 1;
      var init := entries[..n];
      InsertNumberedSpec(init, m);
      assert forall i :: 0 <= i < n ==> init[i] == entries[i];
      match InsertNumbered(init, m)
      case Panic =>
      case Ok(prev) =>
        match entries[n]
        case Panic =>
        case Ok(o) => NumberedStep(entries, m, prev, o);
    }
  }

  /** The spellings of `0` to `n - 1`. */
  function NumberKeys(n: nat): (keys: set<string>)
    ensures forall j :: 0 <= j < n ==> NatToString(j) in keys
    ensures forall k :: k in keys ==> AllDigits(k)
  {
    if n == 0 then {} else NumberKeys(n - 1) + {NatToString(n - 1)}
  }

  /** `r` holds `m` plus every entry under its spelled position; a key of
      `m` that is not all digits keeps its entry. */
  ghost predicate NumberedEntries(entries: seq<Result<OsuFileInfo>>, m: SectionMap, r: SectionMap) {
    && (forall j :: 0 <= j < |entries| ==>
          entries[j].Ok? && NatToString(j) in r && r[NatToString(j)] == entries[j].value)
    && r.Keys == m.Keys + NumberKeys(|entries|)
    && (forall k :: k in m && !AllDigits(k) ==> r[k] == m[k])
  }

  /** Storing one more entry keeps `NumberedEntries`. */
  lemma NumberedStep(entries: seq<Result<OsuFileInfo>>, m: SectionMap, prev: SectionMap, o: OsuFileInfo)
    requires |entries| > 0 && entries[|entries| - 1] == Ok(o)
    requires NumberedEntries(entries[..|entries| - 1], m, prev)
    ensures NumberedEntries(entries, m, prev[NatToString(|entries| - 1) := o])
  {
    var n := |entries| - 1;
    var key := NatToString(n);
    var r := prev[key := o];
    NumberedStepEntries(entries, m, prev, o);
    assert r.Keys == prev.Keys + {key};
    assert NumberKeys(n + 1) == NumberKeys(n) + {key};
    NumberedStepKeeps(entries, m, prev, o);
  }

  /** The entries already stored keep their keys when one more is stored. */
  lemma NumberedStepEntries(entries: seq<Result<OsuFileInfo>>, m: SectionMap, prev: SectionMap, o: OsuFileInfo)
    requires |entries| > 0 && entries[|entries| - 1] == Ok(o)
    requires NumberedEntries(entries[..|entries| - 1], m, prev)
    ensures var r := prev[NatToString(|entries| - 1) := o];
      forall j :: 0 <= j < |entries| ==>
        entries[j].Ok? && NatToString(j) in r && r[NatToString(j)] == entries[j].value
  {
    var n := |entries| - 1;
    var init := entries[..n];
    var r := prev[NatToString(n) := o];
    forall j | 0 <= j < |entries|
      ensures entries[j].Ok? && NatToString(j) in r && r[NatToString(j)] == entries[j].value
    {
      if j < n {
        NatToStringInjective(j, n);
        assert init[j] == entries[j];
      }
    }
  }

  /** A key that is not all digits keeps its entry when one more is stored. */
  lemma NumberedStepKeeps(entries: seq<Result<OsuFileInfo>>, m: SectionMap, prev: SectionMap, o: OsuFileInfo)
    requires |entries| > 0
    requires NumberedEntries(entries[..|entries| - 1], m, prev)
    ensures var r := prev[NatToString(|entries| - 1) := o];
      forall k :: k in m && !AllDigits(k) ==> r[k] == m[k]
  {
    var key := NatToString(|entries| - 1);
    forall k | k in m && !AllDigits(k)
      ensures prev[key := o][k] == m[k]
    {
      assert k != key;
    }
  }

  /** Each line of a hit-object section, processed. */
  function HitObjectEntries(body: seq<string>): (r: seq<Result<OsuFileInfo>>)
    ensures |r| == |body|
  {
    seq(|body|, i requires 0 <= i < |body| => HitObjectProcessing(body[i]))
  }

  /** Entry `i` is line `i`, processed. */
  lemma HitObjectEntriesAt(body: seq<string>)
    ensures forall i :: 0 <= i < |body| ==> HitObjectEntries(body)[i] == HitObjectProcessing(body[i])
  {
  }

  /** The hit-object lines of a section, read in order into `m` under the
      keys "0", "1", ...; a line that does not parse panics. */
  function ParseHitObjects(body: seq<string>, m: SectionMap): (r: Result<SectionMap>)
  {
    InsertNumbered(HitObjectEntries(body), m)
  }

  /** Reading hit-object lines panics exactly when one of them fails to
      parse; otherwise line `i` is stored under the spelling of `i`. */
  lemma ParseHitObjectsSpec(body: seq<string>, m: SectionMap)
    ensures ParseHitObjects(body, m).Panic? <==> exists i :: 0 <= i < |body| && HitObjectFails(body, i)
    ensures ParseHitObjects(body, m).Ok? ==> NumberedEntries(HitObjectEntries(body), m, ParseHitObjects(body, m).value)
  {
    var entries := HitObjectEntries(body);
    HitObjectEntriesAt(body);
    InsertNumberedSpec(entries, m);
    assert forall i :: 0 <= i < |body| ==> (entries[i].Panic? <==> HitObjectFails(body, i));
  }

  /** The table of header `p` before its lines are read: only its line
      index, spelled in decimal. */
  function SectionBase(headers: seq<nat>, p: nat): SectionMap
    requires p < |headers|
  {
    map[SourceLineKey := Info(NatToString(headers[p]))]
  }

  /** The body of header `p`'s section: the lines strictly after the header
      and before `SectionEnd`. Slicing panics when the range is reversed,
      which happens exactly when the last header is the file's last line. */
  function SectionBody(lines: seq<string>, headers: seq<nat>, p: nat): (r: Result<seq<string>>)
    requires |lines| > 0 && p < |headers| && ValidHeaders(lines, headers)
    ensures r.Panic? <==> p + 1 == |headers| && headers[p] == |lines| - 1
    ensures r.Ok? ==> var start := headers[p] + 1;
      && |r.value| == SectionEnd(lines, headers, p) - start
      && forall i :: 0 <= i < |r.value| ==> r.value[i] == lines[start + i]
    ensures r.Ok? ==> forall i :: 0 <= i < |r.value| ==> !IsHeader(r.value[i]) || p + 1 == |headers|
  {
    var start := headers[p] + 1;
    var end := SectionEnd(lines, headers, p);
    if start > end then Panic
    else
      var body := lines[start..end];
      assert forall i :: 0 <= i < |body| ==> !IsHeader(body[i]) || p + 1 == |headers| by {
        forall i | 0 <= i < |body| && p + 1 < |headers|
          ensures !IsHeader(body[i])
        {
          HeadersBetween(lines, headers, p, start + i);
        }
      }
      Ok(body)
  }

  /** With all headers recorded, no header lies strictly between two
      consecutive ones. */
  lemma HeadersBetween(lines: seq<string>, headers: seq<nat>, p: nat, k: nat)
    requires p + 1 < |headers| && ValidHeaders(lines, headers)
    requires headers[p] < k < headers[p + 1]
    ensures !IsHeader(lines[k])
  {
    forall q | 0 <= q < |headers|
      ensures headers[q] != k
    {
      if q < p {
        assert headers[q] < headers[p];
      } else if q > p + 1 {
        assert headers[p + 1] < headers[q];
      }
    }
    assert k !in headers;
  }

  /** The table of header `p`'s section. The last header's lines are hit
      objects numbered from 0; every other section holds key/value lines.
      Both keep the header's line index under `SourceLineKey`. Only the last
      section can panic. */
  function ParseSection(lines: seq<string>, headers: seq<nat>, p: nat): (r: Result<SectionMap>)
    requires |lines| > 0 && p < |headers| && ValidHeaders(lines, headers)
    ensures r.Panic? <==> p + 1 == |headers| && LastSectionPanics(lines, headers)
    ensures r.Ok? ==> SourceLineKey in r.value && r.value[SourceLineKey] == Info(NatToString(headers[p]))
  {
    match SectionBody(lines, headers, p)
    case Panic => Panic
    case Ok(body) =>
      var base := SectionBase(headers, p);
      assert ' ' in SourceLineKey && !AllDigits(SourceLineKey) by {
        assert SourceLineKey[10] == ' ';
      }
      if p + 1 == |headers| then
        LastBodyPanicsIff(lines, headers[p], body);
        ParseHitObjectsSpec(body, base);
        ParseHitObjects(body, base)
      else
        KeyValuesSpec(body, base);
        Ok(ParseKeyValues(body, base))
  }

  /** For a body cut from the lines after line `h`, up to the file's last
      line: one of its lines fails to parse exactly when a line of the file
      between line `h` and the last line does. */
  lemma LastBodyPanicsIff(lines: seq<string>, h: nat, body: seq<string>)
    requires h + 1 + |body| == |lines| - 1
    requires forall i :: 0 <= i < |body| ==> body[i] == lines[h + 1 + i]
    ensures (exists i :: 0 <= i < |body| && HitObjectFails(body, i)) <==>
            exists i :: h < i < |lines| - 1 && HitObjectFails(lines, i)
  {
    if exists i :: 0 <= i < |body| && HitObjectFails(body, i) {
      var i :| 0 <= i < |body| && HitObjectFails(body, i);
      assert body[i] == lines[h + 1 + i];
      assert HitObjectFails(lines, h + 1 + i);
    }
    if exists i :: h < i < |lines| - 1 && HitObjectFails(lines, i) {
      var i :| h < i < |lines| - 1 && HitObjectFails(lines, i);
      assert body[i - (h + 1)] == lines[i];
      assert HitObjectFails(body, i - (h + 1));
    }
  }


  /** A section other than the last holds its header's line index and the
      key of every key/value line of its body, and nothing else. */
  lemma KeyValueSection(lines: seq<string>, headers: seq<nat>, p: nat)
    requires |lines| > 0 && p + 1 < |headers| && ValidHeaders(lines, headers)
    ensures var body := SectionBody(lines, headers, p);
      var r := ParseSection(lines, headers, p);
      && body.Ok? && r.Ok?
      && forall k :: k in r.value <==>
           k == SourceLineKey || exists i :: 0 <= i < |body.value| && HasKey(body.value, i, k)
  {
    SectionOfKeyValues(lines, headers, p);
    var body := SectionBody(lines, headers, p).value;
    var m := SectionBase(headers, p);
    assert forall k :: k in m <==> k == SourceLineKey;
    KeyValuesKeys(body, m);
  }

  /** Unfolds `ParseSection` for a section other than the last. */
  lemma SectionOfKeyValues(lines: seq<string>, headers: seq<nat>, p: nat)
    requires |lines| > 0 && p + 1 < |headers| && ValidHeaders(lines, headers)
    ensures SectionBody(lines, headers, p).Ok?
    ensures ParseSection(lines, headers, p) ==
      Ok(ParseKeyValues(SectionBody(lines, headers, p).value, SectionBase(headers, p)))
  {
  }

  /** Unfolds `ParseSection` for the last section, when its header is not
      the file's last line. */
  lemma SectionOfHitObjects(lines: seq<string>, headers: seq<nat>) returns (body: seq<string>)
    requires |lines| > 0 && |headers| > 0 && ValidHeaders(lines, headers)
    requires headers[|headers| - 1] + 1 < |lines|
    ensures SectionBody(lines, headers, |headers| - 1) == Ok(body)
    ensures ParseSection(lines, headers, |headers| - 1) == ParseHitObjects(body, SectionBase(headers, |headers| - 1))
  {
    body := SectionBody(lines, headers, |headers| - 1).value;
  }

  /** The last section, when it parses, holds its header's line index and
      the hit object of the `j`-th line of its body under the spelling of
      `j`, and nothing else. */
  lemma HitObjectSection(lines: seq<string>, headers: seq<nat>)
    requires |lines| > 0 && |headers| > 0 && ValidHeaders(lines, headers)
    requires !LastSectionPanics(lines, headers)
    ensures var p := |headers| - 1;
      var body := SectionBody(lines, headers, p);
      var r := ParseSection(lines, headers, p);
      && body.Ok? && r.Ok?
      && r.value.Keys == {SourceLineKey} + NumberKeys(|body.value|)
      && forall j :: 0 <= j < |body.value| ==>
           NatToString(j) in r.value && HitObjectProcessing(body.value[j]) == Ok(r.value[NatToString(j)])
  {
    LastHeaderBeforeLastLine(lines, headers);
    var body := SectionOfHitObjects(lines, headers);
    var m := SectionBase(headers, |headers| - 1);
    assert ParseHitObjects(body, m).Ok?;
    assert m.Keys == {SourceLineKey};
    ParsedHitObjects(body, m);
  }

  /** Parsed hit-object lines: the keys of `m` and one numbered entry per
      line, holding that line's hit object. */
  lemma ParsedHitObjects(body: seq<string>, m: SectionMap)
    requires ParseHitObjects(body, m).Ok?
    ensures var r := ParseHitObjects(body, m).value;
      && r.Keys == m.Keys + NumberKeys(|body|)
      && forall j :: 0 <= j < |body| ==>
           NatToString(j) in r && HitObjectProcessing(body[j]) == Ok(r[NatToString(j)])
  {
    ParseHitObjectsSpec(body, m);
    NumberedHitObjects(body, m, ParseHitObjects(body, m).value);
  }

  /** When the last section does not panic, its header is not the file's
      last line. */
  lemma LastHeaderBeforeLastLine(lines: seq<string>, headers: seq<nat>)
    requires |lines| > 0 && |headers| > 0 && ValidHeaders(lines, headers)
    requires !LastSectionPanics(lines, headers)
    ensures headers[|headers| - 1] + 1 < |lines|
  {
  }

  /** Numbered hit-object entries, read line by line. */
  lemma NumberedHitObjects(body: seq<string>, m: SectionMap, r: SectionMap)
    requires NumberedEntries(HitObjectEntries(body), m, r)
    ensures r.Keys == m.Keys + NumberKeys(|body|)
    ensures forall j :: 0 <= j < |body| ==>
      NatToString(j) in r && HitObjectProcessing(body[j]) == Ok(r[NatToString(j)])
  {
    var entries := HitObjectEntries(body);
    assert |entries| == |body|;
    HitObjectEntriesAt(body);
    forall j | 0 <= j < |body|
      ensures NatToString(j) in r && HitObjectProcessing(body[j]) == Ok(r[NatToString(j)])
    {
      assert entries[j] == Ok(r[NatToString(j)]);
    }
  }

  /** Header `p` is replaced in the table by a later header line with the
      same text: the table has one entry per header text, the last. */
  predicate Superseded(lines: seq<string>, headers: seq<nat>, p: nat)
    requires p < |headers| && ValidHeaders(lines, headers)
  {
    exists q :: p < q < |headers| && lines[headers[q]] == lines[headers[p]]
  }

  /** `table` is the reader's table once the headers before `n` are
      processed: one entry per text of a header before `n` that is not
      superseded, holding that header's section from `sections`. */
  ghost predicate TableUpTo(lines: seq<string>, headers: seq<nat>, sections: seq<Result<SectionMap>>,
                            n: nat, table: map<string, SectionMap>)
    requires n <= |headers| && ValidHeaders(lines, headers)
  {
    && (forall h :: h in table <==> exists p :: 0 <= p < n && !Superseded(lines, headers, p) && lines[headers[p]] == h)
    && (forall p :: 0 <= p < n && !Superseded(lines, headers, p) ==>
          && lines[headers[p]] in table
          && p < |sections| && sections[p].Ok?
          && table[lines[headers[p]]] == sections[p].value)
  }

  /** The table after the sections of headers `0` to `n - 1` are filled in,
      `sections[p]` being the parsed section of header `p`; a superseded
      header is skipped, and the first failed section panics. */
  function BuildSections(lines: seq<string>, headers: seq<nat>, sections: seq<Result<SectionMap>>, n: nat)
    : (r: Result<map<string, SectionMap>>)
    requires n <= |headers| == |sections| && ValidHeaders(lines, headers)
    ensures r.Panic? <==> exists p :: 0 <= p < n && !Superseded(lines, headers, p) && sections[p].Panic?
    ensures r.Ok? ==> TableUpTo(lines, headers, sections, n, r.value)
    decreases n
  {
    if n == 0 then Ok(map[])
    else
      match BuildSections(lines, headers, sections, n - 1)
      case Panic => Panic
      case Ok(table) =>
        if Superseded(lines, headers, n - 1) then
          Ok(table)
        else
          match sections[n - 1]
          case Panic => Panic
          case Ok(section) =>
            TableStep(lines, headers, sections, n, table, section);
            Ok(table[lines[headers[n - 1]] := section])
  }

  /** A header that is not superseded adds its section under its text. */
  lemma TableStep(lines: seq<string>, headers: seq<nat>, sections: seq<Result<SectionMap>>,
                  n: nat, table: map<string, SectionMap>, section: SectionMap)
    requires 0 < n <= |headers| == |sections| && ValidHeaders(lines, headers)
    requires TableUpTo(lines, headers, sections, n - 1, table) && !Superseded(lines, headers, n - 1)
    requires sections[n - 1] == Ok(section)
    ensures TableUpTo(lines, headers, sections, n, table[lines[headers[n - 1]] := section])
  {
    TableStepKeys(lines, headers, sections, n, table, section);
    TableStepEntries(lines, headers, sections, n, table, section);
  }

  /** The texts in the table after one more header that is not superseded. */
  lemma TableStepKeys(lines: seq<string>, headers: seq<nat>, sections: seq<Result<SectionMap>>,
                      n: nat, table: map<string, SectionMap>, section: SectionMap)
    requires 0 < n <= |headers| == |sections| && ValidHeaders(lines, headers)
    requires TableUpTo(lines, headers, sections, n - 1, table) && !Superseded(lines, headers, n - 1)
    ensures forall h :: (h in table || h == lines[headers[n - 1]]) <==>
      exists p :: 0 <= p < n && !Superseded(lines, headers, p) && lines[headers[p]] == h
  {
    var t := table[lines[headers[n - 1]] := section];
    forall h | h in t
      ensures exists p :: 0 <= p < n && !Superseded(lines, headers, p) && lines[headers[p]] == h
    {
      if h != lines[headers[n - 1]] {
        var p :| 0 <= p < n - 1 && !Superseded(lines, headers, p) && lines[headers[p]] == h;
      }
    }
  }

  /** The entries in the table after one more header that is not
      superseded: an earlier header that is not superseded has another text,
      so its entry stays. */
  lemma TableStepEntries(lines: seq<string>, headers: seq<nat>, sections: seq<Result<SectionMap>>,
                         n: nat, table: map<string, SectionMap>, section: SectionMap)
    requires 0 < n <= |headers| == |sections| && ValidHeaders(lines, headers)
    requires TableUpTo(lines, headers, sections, n - 1, table) && !Superseded(lines, headers, n - 1)
    requires sections[n - 1] == Ok(section)
    ensures var t := table[lines[headers[n - 1]] := section];
      forall p :: 0 <= p < n && !Superseded(lines, headers, p) ==>
        && lines[headers[p]] in t
        && p < |sections| && sections[p].Ok?
        && t[lines[headers[p]]] == sections[p].value
  {
    var h := lines[headers[n - 1]];
    var t := table[h := section];
    forall p | 0 <= p < n && !Superseded(lines, headers, p)
      ensures lines[headers[p]] in t && sections[p].Ok? && t[lines[headers[p]]] == sections[p].value
    {
      if p < n - 1 {
        var k := lines[headers[p]];
        if k == h {
          assert false;
        }
        assert k in table && t[k] == table[k];
      }
    }
  }

  /** The parsed section of every header. */
  function SectionTables(lines: seq<string>, headers: seq<nat>): (r: seq<Result<SectionMap>>)
    requires |lines| > 0 && ValidHeaders(lines, headers)
    ensures |r| == |headers| && forall p :: 0 <= p < |headers| ==> r[p] == ParseSection(lines, headers, p)
  {
    seq(|headers|, p requires 0 <= p < |headers| => ParseSection(lines, headers, p))
  }

  /** Every header text has a header that is not superseded: its last one. */
  lemma {:induction false} LastHeaderWithText(lines: seq<string>, headers: seq<nat>, p: nat)
    requires p < |headers| && ValidHeaders(lines, headers)
    ensures exists q :: p <= q < |headers| && !Superseded(lines, headers, q) && lines[headers[q]] == lines[headers[p]]
    decreases |headers| - p
  {
    if Superseded(lines, headers, p) {
      var q :| p < q < |headers| && lines[headers[q]] == lines[headers[p]];
      LastHeaderWithText(lines, headers, q);
    }
  }

  /** Reading fails exactly at the last section: its header is the file's
      last line, or one of its lines (up to the file's last line, which is
      left out) is not a hit object. */
  predicate LastSectionPanics(lines: seq<string>, headers: seq<nat>)
    requires ValidHeaders(lines, headers)
  {
    && |headers| > 0
    && var h := headers[|headers| - 1];
      || h == |lines| - 1
      || exists i :: h < i < |lines| - 1 && HitObjectFails(lines, i)
  }

  /** Line `i` of the file, read as a hit object, does not parse. */
  predicate HitObjectFails(lines: seq<string>, i: nat)
    requires i < |lines|
  {
    HitObjectProcessing(lines[i]).Panic?
  }

  /** Of all sections only the last can panic, and the last header is never
      superseded. */
  lemma OnlyLastSectionPanics(lines: seq<string>, headers: seq<nat>, sections: seq<Result<SectionMap>>)
    requires |lines| > 0 && ValidHeaders(lines, headers) && sections == SectionTables(lines, headers)
    ensures (exists p :: 0 <= p < |headers| && !Superseded(lines, headers, p) && sections[p].Panic?) <==>
            LastSectionPanics(lines, headers)
  {
    forall p | 0 <= p < |headers|
      ensures sections[p].Panic? <==> p + 1 == |headers| && LastSectionPanics(lines, headers)
    {
    }
    if |headers| > 0 {
      assert !Superseded(lines, headers, |headers| - 1);
    }
  }

  /** The section tables of a file's lines: one table per header text,
      holding the section of that text's last header. */
  function ReadSections(lines: seq<string>): (r: Result<map<string, SectionMap>>)
    requires |lines| > 0
    ensures r.Panic? <==> LastSectionPanics(lines, HeaderIndexes(lines))
    ensures r.Ok? ==> forall h :: h in r.value <==> exists i :: 0 <= i < |lines| && IsHeader(lines[i]) && lines[i] == h
    ensures var headers := HeaderIndexes(lines);
      r.Ok? ==> forall p :: 0 <= p < |headers| && !Superseded(lines, headers, p) ==>
        lines[headers[p]] in r.value && r.value[lines[headers[p]]] == SectionTables(lines, headers)[p].value
  {
    var headers := HeaderIndexes(lines);
    assert ValidHeaders(lines, headers);
    var sections := SectionTables(lines, headers);
    OnlyLastSectionPanics(lines, headers, sections);
    var r := BuildSections(lines, headers, sections, |headers|);
    if r.Ok? then
      TableCoversHeaderLines(lines, headers, sections, r.value);
      r
    else r
  }

  /** `open_osu` after the file has been read: its lines, then their
      section tables. */
  function OpenOsu(source: string): (r: Result<map<string, SectionMap>>)
    ensures var lines := Lines(source);
      r.Ok? ==> forall h :: h in r.value <==> exists i :: 0 <= i < |lines| && IsHeader(lines[i]) && lines[i] == h
    ensures r.Panic? <==> LastSectionPanics(Lines(source), HeaderIndexes(Lines(source)))
  {
    ReadSections(Lines(source))
  }

  /** The finished table has exactly one entry per header text. */
  lemma TableCoversHeaderLines(lines: seq<string>, headers: seq<nat>, sections: seq<Result<SectionMap>>,
                               table: map<string, SectionMap>)
    requires ValidHeaders(lines, headers) && TableUpTo(lines, headers, sections, |headers|, table)
    ensures forall h :: h in table <==> exists i :: 0 <= i < |lines| && IsHeader(lines[i]) && lines[i] == h
  {
    TableTextsAreHeaders(lines, headers, sections, table);
    HeaderTextsInTable(lines, headers, sections, table);
  }

  /** Every key of the table is the text of some header line. */
  lemma TableTextsAreHeaders(lines: seq<string>, headers: seq<nat>, sections: seq<Result<SectionMap>>,
                             table: map<string, SectionMap>)
    requires ValidHeaders(lines, headers) && TableUpTo(lines, headers, sections, |headers|, table)
    ensures forall h :: h in table ==> exists i :: 0 <= i < |lines| && IsHeader(lines[i]) && lines[i] == h
  {
    forall h | h in table
      ensures exists i :: 0 <= i < |lines| && IsHeader(lines[i]) && lines[i] == h
    {
      var p :| 0 <= p < |headers| && !Superseded(lines, headers, p) && lines[headers[p]] == h;
      assert IsHeader(lines[headers[p]]);
    }
  }

  /** The text of every header line is a key of the table. */
  lemma HeaderTextsInTable(lines: seq<string>, headers: seq<nat>, sections: seq<Result<SectionMap>>,
                           table: map<string, SectionMap>)
    requires ValidHeaders(lines, headers) && TableUpTo(lines, headers, sections, |headers|, table)
    ensures forall i :: 0 <= i < |lines| && IsHeader(lines[i]) ==> lines[i] in table
  {
    HeaderTextsCovered(lines, headers);
  }

  /** Every header line's text is the text of a header that is not
      superseded. */
  lemma HeaderTextsCovered(lines: seq<string>, headers: seq<nat>)
    requires ValidHeaders(lines, headers)
    ensures forall i :: 0 <= i < |lines| && IsHeader(lines[i]) ==>
      exists p :: 0 <= p < |headers| && !Superseded(lines, headers, p) && lines[headers[p]] == lines[i]
  {
    forall i | 0 <= i < |lines| && IsHeader(lines[i])
      ensures exists p :: 0 <= p < |headers| && !Superseded(lines, headers, p) && lines[headers[p]] == lines[i]
    {
      var p :| 0 <= p < |headers| && headers[p] == i;
      LastHeaderWithText(lines, headers, p);
    }
  }

  //endregion
}
