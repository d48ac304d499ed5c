/** String helpers with the semantics of the Rust standard library calls the
    beatmap reader and the audio lookup use: `str::split`, `str::replace`,
    `String::retain`, `usize::to_string` and the `parse` implementations of
    `usize`, `i32` and `f32`. Strings are sequences of characters. */
module Text {
  import opened Outcome

  //region Counting, splitting and joining

  /** Number of occurrences of `c` in `s`. */
  function Count(s: string, c: char): nat
    decreases |s|
  {
    if |s| == 0 then 0 else Count(s[..|s| - 1], c) + (if s[|s| - 1] == c then 1 else 0)
  }

  lemma {:induction false} CountZeroIff(s: string, c: char)
    ensures Count(s, c) == 0 <==> c !in s
    decreases |s|
  {
    if |s| > 0 {
      CountZeroIff(s[..|s| - 1], c);
      assert s == s[..|s| - 1] + [s[|s| - 1]];
    }
  }

  /** `str::split(c)` read character by character from the left: every
      occurrence of `c` ends one piece and starts the next, so the first and
      last pieces are kept even when empty. */
  function Split(s: string, c: char): (parts: seq<string>)
    ensures |parts| == Count(s, c) + 1
    ensures forall i :: 0 <= i < |parts| ==> c !in parts[i]
    decreases |s|
  {
    if |s| == 0 then [""]
    else
      var init := Split(s[..|s| - 1], c);
      var ch := s[|s| - 1];
      if ch == c then init + [""]
      else init[..|init| - 1] + [init[|init| - 1] + [ch]]
  }

  /** Glues pieces back together with `c` between consecutive pieces. */
  function Join(parts: seq<string>, c: char): string
    requires |parts| > 0
    decreases |parts|
  {
    if |parts| == 1 then parts[0] else Join(parts[..|parts| - 1], c) + [c] + parts[|parts| - 1]
  }

  /** Extending the last piece extends the joined text by the same amount. */
  lemma JoinExtendLast(parts: seq<string>, ch: char, c: char)
    requires |parts| > 0
    ensures Join(parts[..|parts| - 1] + [parts[|parts| - 1] + [ch]], c) == Join(parts, c) + [ch]
  {
    var longer := parts[..|parts| - 1] + [parts[|parts| - 1] + [ch]];
    if |parts| > 1 {
      assert longer[..|longer| - 1] == parts[..|parts| - 1];
      var front := Join(parts[..|parts| - 1], c);
      assert Join(longer, c) == front + [c] + (parts[|parts| - 1] + [ch]);
      assert Join(parts, c) == front + [c] + parts[|parts| - 1];
    }
  }

  /** Splitting loses nothing: joining the pieces gives the text back. */
  lemma {:induction false} JoinSplit(s: string, c: char)
    ensures Join(Split(s, c), c) == s
    decreases |s|
  {
    if |s| > 0 {
      var p := s[..|s| - 1];
      var ch := s[|s| - 1];
      var init := Split(p, c);
      JoinSplit(p, c);
      assert s == p + [ch];
      if ch == c {
        var parts := init + [""];
        assert parts[..|parts| - 1] == init;
      } else {
        JoinExtendLast(init, ch, c);
      }
    }
  }

  /** Every character of every piece comes from the text. */
  lemma {:induction false} SplitPiecesFromText(s: string, c: char)
    ensures forall i, x :: 0 <= i < |Split(s, c)| && x in Split(s, c)[i] ==> x in s
    decreases |s|
  {
    if |s| > 0 {
      var p := s[..|s| - 1];
      SplitPiecesFromText(p, c);
      assert s == p + [s[|s| - 1]];
    }
  }

  /** A text without `c` is a single piece. */
  lemma {:induction false} SplitWithoutSeparator(s: string, c: char)
    requires c !in s
    ensures Split(s, c) == [s]
    decreases |s|
  {
    if |s| > 0 {
      SplitWithoutSeparator(s[..|s| - 1], c);
      assert s == s[..|s| - 1] + [s[|s| - 1]];
    }
  }

  /** Adding one character to a text either opens a new empty piece (the
      separator) or extends the last piece. */
  lemma SplitSnoc(s: string, ch: char, c: char)
    ensures var init := Split(s, c);
      Split(s + [ch], c) ==
        if ch == c then init + [""] else init[..|init| - 1] + [init[|init| - 1] + [ch]]
  {
    assert (s + [ch])[..|s + [ch]| - 1] == s;
  }

  /** A separator between two texts separates their pieces. */
  lemma {:induction false} SplitConcat(a: string, b: string, c: char)
    ensures Split(a + [c] + b, c) == Split(a, c) + Split(b, c)
    decreases |b|
  {
    if |b| == 0 {
      SplitSnoc(a, c, c);
      assert a + [c] + b == a + [c];
    } else {
      var b' := b[..|b| - 1];
      var ch := b[|b| - 1];
      var x := a + [c] + b';
      assert Split(a + [c] + b, c) == Split(x + [ch], c) by {
        assert a + [c] + b == x + [ch];
      }
      assert Split(b, c) == Split(b' + [ch], c) by {
        assert b == b' + [ch];
      }
      var sa, sb := Split(a, c), Split(b', c);
      SplitConcat(a, b', c);
      assert Split(x, c) == sa + sb;
      SplitSnoc(x, ch, c);
      SplitSnoc(b', ch, c);
      if ch == c {
        assert Split(x + [ch], c) == (sa + sb) + [""];
        assert Split(b' + [ch], c) == sb + [""];
        assert (sa + sb) + [""] == sa + (sb + [""]);
      } else {
        assert Split(b' + [ch], c) == sb[..|sb| - 1] + [sb[|sb| - 1] + [ch]];
        ExtendLast(sa, sb, ch);
      }
    }
  }

  /** Extending the last piece of a concatenation extends the last piece of
      its second half. */
  lemma ExtendLast(sa: seq<string>, sb: seq<string>, ch: char)
    requires |sb| > 0
    ensures var y := sa + sb;
      y[..|y| - 1] + [y[|y| - 1] + [ch]] == sa + (sb[..|sb| - 1] + [sb[|sb| - 1] + [ch]])
  {
    var y := sa + sb;
    assert y[..|y| - 1] == sa + sb[..|sb| - 1];
    assert y[|y| - 1] == sb[|sb| - 1];
  }

  /** Splitting undoes joining pieces that do not contain the separator. */
  lemma {:induction false} SplitJoin(parts: seq<string>, c: char)
    requires |parts| > 0
    requires forall i :: 0 <= i < |parts| ==> c !in parts[i]
    ensures Split(Join(parts, c), c) == parts
    decreases |parts|
  {
    var last := parts[|parts| - 1];
    SplitWithoutSeparator(last, c);
    if |parts| > 1 {
      var init := parts[..|parts| - 1];
      SplitJoin(init, c);
      SplitConcat(Join(init, c), last, c);
      assert init + [last] == parts;
    }
  }

  /** The first piece and the remaining pieces around the first separator. */
  lemma {:induction false} JoinFront(parts: seq<string>, c: char)
    requires |parts| >= 2
    ensures Join(parts, c) == parts[0] + [c] + Join(parts[1..], c)
    decreases |parts|
  {
    if |parts| > 2 {
      var init := parts[..|parts| - 1];
      JoinFront(init, c);
      assert init[1..] == parts[1..][..|parts[1..]| - 1];
    }
  }

  //endregion

  //region Removing and replacing

  /** `String::retain(|x| x != c)`: drops every `c` and keeps the order of
      everything else. */
  function RemoveChar(s: string, c: char): (r: string)
    ensures c !in r
    ensures |r| + Count(s, c) == |s|
    ensures forall x :: x in r <==> x in s && x != c
    decreases |s|
  {
    if |s| == 0 then ""
    else
      var init := RemoveChar(s[..|s| - 1], c);
      assert s == s[..|s| - 1] + [s[|s| - 1]];
      if s[|s| - 1] == c then init else init + [s[|s| - 1]]
  }

  lemma {:induction false} RemoveAbsentChar(s: string, c: char)
    requires c !in s
    ensures RemoveChar(s, c) == s
    decreases |s|
  {
    if |s| > 0 {
      RemoveAbsentChar(s[..|s| - 1], c);
      assert s == s[..|s| - 1] + [s[|s| - 1]];
    }
  }

  /** `pat` occurs in `s` starting at position `i`. */
  predicate OccursAt(s: string, pat: string, i: int) {
    0 <= i && i + |pat| <= |s| && s[i..i + |pat|] == pat
  }

  ghost predicate Occurs(s: string, pat: string) {
    exists i :: OccursAt(s, pat, i)
  }

  /** `str::replace(pat, rep)`: scans from the left and replaces each
      non-overlapping occurrence of `pat`. */
  function ReplaceAll(s: string, pat: string, rep: string): (r: string)
    requires |pat| > 0
    ensures |pat| == |rep| ==> |r| == |s|
    decreases |s|
  {
    if |s| < |pat| then s
    else if s[..|pat|] == pat then rep + ReplaceAll(s[|pat|..], pat, rep)
    else [s[0]] + ReplaceAll(s[1..], pat, rep)
  }

  /** Replacing a pattern that does not occur changes nothing. */
  lemma {:induction false} ReplaceAbsent(s: string, pat: string, rep: string)
    requires |pat| > 0 && !Occurs(s, pat)
    ensures ReplaceAll(s, pat, rep) == s
    decreases |s|
  {
    if |s| >= |pat| {
      assert !OccursAt(s, pat, 0);
      var t := s[1..];
      forall i | OccursAt(t, pat, i) ensures false {
        assert s[i + 1..i + 1 + |pat|] == t[i..i + |pat|];
        assert OccursAt(s, pat, i + 1);
      }
      ReplaceAbsent(t, pat, rep);
    }
  }

  /** When `a + pat + b` does not start with `pat`, the rewrite keeps its
      first character. */
  lemma {:induction false} KeepFirst(a: string, pat: string, rep: string, b: string)
    requires |pat| > 0 && |a| > 0 && !OccursAt(a + pat[..|pat| - 1], pat, 0)
    ensures ReplaceAll(a + pat + b, pat, rep) == [a[0]] + ReplaceAll(a[1..] + pat + b, pat, rep)
  {
    var s := a + pat + b;
    assert s[..|pat|] == (a + pat[..|pat| - 1])[..|pat|];
    assert s[1..] == a[1..] + pat + b;
  }

  /** No occurrence before the last one in `a + pat[..|pat| - 1]` means none
      in its tail either. */
  lemma {:induction false} NoEarlierOccurrence(a: string, pat: string)
    requires |pat| > 0 && |a| > 0 && !Occurs(a + pat[..|pat| - 1], pat)
    ensures !Occurs(a[1..] + pat[..|pat| - 1], pat)
  {
    var head := a + pat[..|pat| - 1];
    var tail := a[1..] + pat[..|pat| - 1];
    assert tail == head[1..];
    forall i | OccursAt(tail, pat, i) ensures false {
      assert tail[i..i + |pat|] == head[i + 1..i + 1 + |pat|];
      assert OccursAt(head, pat, i + 1);
    }
  }

  /** A text starting with `pat` has that occurrence replaced first. */
  lemma {:induction false} ReplaceAtFront(pat: string, rep: string, b: string)
    requires |pat| > 0
    ensures ReplaceAll(pat + b, pat, rep) == rep + ReplaceAll(b, pat, rep)
  {
    var s := pat + b;
    assert s[..|pat|] == pat && s[|pat|..] == b;
  }

  /** The rewrite works from the left: when the first occurrence of `pat` in
      `a + pat + b` is the one right after `a`, the text before it is kept,
      that occurrence becomes `rep`, and the rest is rewritten on its own. */
  lemma {:induction false} ReplaceFirstOccurrence(a: string, pat: string, rep: string, b: string)
    requires |pat| > 0 && !Occurs(a + pat[..|pat| - 1], pat)
    ensures ReplaceAll(a + pat + b, pat, rep) == a + rep + ReplaceAll(b, pat, rep)
    decreases |a|
  {
    if |a| == 0 {
      ReplaceAtFront(pat, rep, b);
      assert a + pat + b == pat + b;
    } else {
      var t := a[1..];
      var rest := ReplaceAll(b, pat, rep);
      assert ReplaceAll(a + pat + b, pat, rep) == [a[0]] + ReplaceAll(t + pat + b, pat, rep) by {
        assert !OccursAt(a + pat[..|pat| - 1], pat, 0);
        KeepFirst(a, pat, rep, b);
      }
      assert ReplaceAll(t + pat + b, pat, rep) == t + rep + rest by {
        NoEarlierOccurrence(a, pat);
        ReplaceFirstOccurrence(t, pat, rep, b);
      }
      assert [a[0]] + (t + rep + rest) == a + rep + rest by {
        assert a == [a[0]] + t;
      }
    }
  }

  const Mp3: string := ".mp3"
  const Ogg: string := ".ogg"

  /** The `.mp3` to `.ogg` rewrite, peeled by one character when the text does
      not start with `.mp3`. */
  lemma PeelOne(t: string)
    requires |t| > 0 && !(|t| >= 4 && t[..4] == Mp3)
    ensures ReplaceAll(t, Mp3, Ogg) == [t[0]] + ReplaceAll(t[1..], Mp3, Ogg)
  {
    if |t| < 4 {
      assert ReplaceAll(t[1..], Mp3, Ogg) == t[1..];
      assert t == [t[0]] + t[1..];
    }
  }

  /** A name without a dot followed by `.mp3` becomes the same name followed
      by `.ogg`. */
  lemma {:induction false} ReplaceMp3Suffix(stem: string)
    requires '.' !in stem
    ensures ReplaceAll(stem + Mp3, Mp3, Ogg) == stem + Ogg
    decreases |stem|
  {
    var t := stem + Mp3;
    if |stem| == 0 {
      assert t[..4] == Mp3 && t[4..] == "";
    } else {
      assert t[0] == stem[0] != '.' == Mp3[0];
      PeelOne(t);
      assert t[1..] == stem[1..] + Mp3;
      ReplaceMp3Suffix(stem[1..]);
      assert stem == [stem[0]] + stem[1..];
    }
  }

  /** After the rewrite no `.mp3` is left. */
  lemma {:induction false} ReplaceMp3Complete(s: string)
    ensures !Occurs(ReplaceAll(s, Mp3, Ogg), Mp3)
    decreases |s|
  {
    var r := ReplaceAll(s, Mp3, Ogg);
    if |s| >= 4 {
      var skip := if s[..4] == Mp3 then 4 else 1;
      var t := s[skip..];
      var rt := ReplaceAll(t, Mp3, Ogg);
      ReplaceMp3Complete(t);
      forall i | 0 <= i && i + 4 <= |r| ensures !OccursAt(r, Mp3, i) {
        if i >= skip {
          assert r[i..i + 4] == rt[i - skip..i - skip + 4];
          assert !OccursAt(rt, Mp3, i - skip);
        } else if skip == 4 {
          assert r[i..i + 4][0] == r[i] == Ogg[i];
        } else {
          NoMp3After(s);
        }
      }
      assert forall i :: !OccursAt(r, Mp3, i);
    }
  }

  /** The `.mp3` to `.ogg` rewrite leaves no `.mp3` behind and leaves a text
      without `.mp3` as it is. */
  lemma ReplaceMp3Facts(s: string)
    ensures !Occurs(ReplaceAll(s, Mp3, Ogg), Mp3)
    ensures !Occurs(s, Mp3) ==> ReplaceAll(s, Mp3, Ogg) == s
  {
    ReplaceMp3Complete(s);
    if !Occurs(s, Mp3) {
      ReplaceAbsent(s, Mp3, Ogg);
    }
  }

  /** A rewritten text that does not start with `.` is the original's first
      character followed by the rewritten rest. */
  lemma RewriteHead(t: string)
    requires |t| > 0 && ReplaceAll(t, Mp3, Ogg)[0] != '.'
    ensures ReplaceAll(t, Mp3, Ogg) == [t[0]] + ReplaceAll(t[1..], Mp3, Ogg)
  {
    PeelOne(t);
  }

  /** Where the rewritten text shows no `.`, it shows the original text. */
  lemma {:induction false} RewritePrefixWithoutDot(t: string, k: nat)
    requires k <= |t|
    requires forall j :: 0 <= j < k ==> ReplaceAll(t, Mp3, Ogg)[j] != '.'
    ensures t[..k] == ReplaceAll(t, Mp3, Ogg)[..k]
    decreases k
  {
    if k > 0 {
      var r := ReplaceAll(t, Mp3, Ogg);
      RewriteHead(t);
      var r1 := ReplaceAll(t[1..], Mp3, Ogg);
      assert forall j :: 0 <= j < k - 1 ==> r1[j] == r[j + 1];
      RewritePrefixWithoutDot(t[1..], k - 1);
      assert t[..k] == [t[0]] + t[1..][..k - 1];
      assert r[..k] == [t[0]] + r1[..k - 1];
    }
  }

  /** The first four characters of the rewrite of a text not starting with
      `.mp3`: its first character, then three of the rewritten rest. */
  lemma RewriteFirstFour(s: string)
    requires |s| >= 4 && s[..4] != Mp3
    ensures |ReplaceAll(s[1..], Mp3, Ogg)| == |s| - 1
    ensures ReplaceAll(s, Mp3, Ogg)[..4] == [s[0]] + ReplaceAll(s[1..], Mp3, Ogg)[..3]
  {
    PeelOne(s);
  }

  /** A text not starting with `.mp3` whose first four characters are put
      back as its first character and three characters that either contain a
      `.` or repeat the text's next three: those four are not `.mp3`. */
  lemma NoMp3Head(s: string, a: string, b: string)
    requires |s| >= 4 && s[..4] != Mp3 && |a| >= 4 && |b| >= 3
    requires a[..4] == [s[0]] + b[..3]
    requires b[0] != '.' && b[1] != '.' && b[2] != '.' ==> s[1..4] == b[..3]
    ensures a[..4] != Mp3
  {
    if b[0] != '.' && b[1] != '.' && b[2] != '.' {
      assert s[..4] == [s[0]] + s[1..4];
    } else {
      var k :| 0 <= k < 3 && b[k] == '.';
      assert a[k + 1] == '.' && Mp3[k + 1] != '.';
    }
  }

  /** Unless the rewrite of a text puts a `.` among its first three
      characters, those three are the text's own. */
  lemma RewriteThreeWithoutDot(t: string)
    requires |t| >= 3
    ensures var r := ReplaceAll(t, Mp3, Ogg);
      r[0] != '.' && r[1] != '.' && r[2] != '.' ==> t[..3] == r[..3]
  {
    var r := ReplaceAll(t, Mp3, Ogg);
    if r[0] != '.' && r[1] != '.' && r[2] != '.' {
      assert forall j :: 0 <= j < 3 ==> r[j] != '.' by {
        forall j | 0 <= j < 3 ensures r[j] != '.' {
          assert j == 0 || j == 1 || j == 2;
        }
      }
      RewritePrefixWithoutDot(t, 3);
    }
  }

  /** A text not starting with `.mp3` cannot start with `.mp3` once rewritten. */
  lemma NoMp3After(s: string)
    requires |s| >= 4 && s[..4] != Mp3
    ensures ReplaceAll(s, Mp3, Ogg)[..4] != Mp3
  {
    var t := s[1..];
    var a := ReplaceAll(s, Mp3, Ogg);
    var b := ReplaceAll(t, Mp3, Ogg);
    assert |a| >= 4 && |b| >= 3 && a[..4] == [s[0]] + b[..3] by {
      RewriteFirstFour(s);
    }
    assert b[0] != '.' && b[1] != '.' && b[2] != '.' ==> s[1..4] == b[..3] by {
      RewriteThreeWithoutDot(t);
      assert s[1..4] == t[..3];
    }
    NoMp3Head(s, a, b);
  }

  //endregion

  //region Decimal numbers

  predicate IsDigit(c: char) {
    '0' <= c <= '9'
  }

  predicate AllDigits(s: string) {
    forall i :: 0 <= i < |s| ==> IsDigit(s[i])
  }

  function DigitValue(c: char): nat
    requires IsDigit(c)
  {
    c as int - '0' as int
  }

  function DigitChar(d: nat): (c: char)
    requires d < 10
    ensures IsDigit(c) && DigitValue(c) == d
  {
    ('0' as int + d) as char
  }

  /** The value of a string of decimal digits, most significant first. */
  function DigitsValue(s: string): nat
    requires AllDigits(s)
    decreases |s|
  {
    if |s| == 0 then 0 else DigitsValue(s[..|s| - 1]) * 10 + DigitValue(s[|s| - 1])
  }

  /** `usize::to_string`: the shortest decimal spelling. */
  function NatToString(n: nat): (s: string)
    ensures |s| > 0 && AllDigits(s)
    decreases n
  {
    if n < 10 then [DigitChar(n)] else NatToString(n / 10) + [DigitChar(n % 10)]
  }

  /** The spelling of `n` reads back as `n`. */
  lemma {:induction false} NatToStringValue(n: nat)
    ensures DigitsValue(NatToString(n)) == n
    decreases n
  {
    if n >= 10 {
      var prefix := NatToString(n / 10);
      var s := NatToString(n);
      assert s[..|s| - 1] == prefix;
      NatToStringValue(n / 10);
    }
  }

  /** Different numbers have different spellings. */
  lemma NatToStringInjective(a: nat, b: nat)
    ensures NatToString(a) == NatToString(b) ==> a == b
  {
    NatToStringValue(a);
    NatToStringValue(b);
  }

  const USIZE_LIMIT: nat := 0x1_0000_0000_0000_0000
  const I32_MIN: int := -0x8000_0000
  const I32_MAX: int := 0x7FFF_FFFF

  /** `str::parse::<usize>`: an optional `+`, then one or more digits, and a
      value that fits in 64 bits. */
  function ParseUsize(s: string): (r: Option<nat>)
    ensures r.Some? ==> r.value < USIZE_LIMIT
    ensures |s| == 0 ==> r.None?
  {
    var digits := if |s| > 0 && s[0] == '+' then s[1..] else s;
    if |digits| > 0 && AllDigits(digits) && DigitsValue(digits) < USIZE_LIMIT then
      Some(DigitsValue(digits))
    else
      None
  }

  /** Parsing the spelling of a number gives the number back. */
  lemma ParseUsizeRoundTrip(n: nat)
    requires n < USIZE_LIMIT
    ensures ParseUsize(NatToString(n)) == Some(n)
  {
    var s := NatToString(n);
    NatToStringValue(n);
    assert IsDigit(s[0]);
  }

  /** `str::parse::<i32>`: an optional sign, then one or more digits, and a
      value within the 32-bit range. */
  function ParseI32(s: string): (r: Option<int>)
    ensures r.Some? ==> I32_MIN <= r.value <= I32_MAX
    ensures |s| == 0 ==> r.None?
  {
    var negative := |s| > 0 && s[0] == '-';
    var digits := if |s| > 0 && (s[0] == '+' || s[0] == '-') then s[1..] else s;
    if |digits| > 0 && AllDigits(digits) then
      var v := if negative then -(DigitsValue(digits) as int) else DigitsValue(digits) as int;
      if I32_MIN <= v <= I32_MAX then Some(v) else None
    else
      None
  }

  /** `i32::to_string`. */
  function IntToString(i: int): (s: string)
    ensures |s| > 0
  {
    if i < 0 then "-" + NatToString(-i) else NatToString(i)
  }

  lemma ParseI32RoundTrip(i: int)
    requires I32_MIN <= i <= I32_MAX
    ensures ParseI32(IntToString(i)) == Some(i)
  {
    var s := IntToString(i);
    if i < 0 {
      NatToStringValue(-i);
      assert s[1..] == NatToString(-i);
    } else {
      NatToStringValue(i);
      assert IsDigit(s[0]);
    }
  }

  /** Position of the first character of `s` that is in `cs`, or `|s|`. */
  function IndexOfAny(s: string, cs: set<char>): (i: nat)
    ensures i <= |s|
    ensures i < |s| ==> s[i] in cs
    ensures forall j :: 0 <= j < i ==> s[j] !in cs
    decreases |s|
  {
    if |s| == 0 then 0
    else if s[0] in cs then 0
    else 1 + IndexOfAny(s[1..], cs)
  }

  /** `x` times ten to the power `e`, one factor of ten at a time. */
  function Shift10(x: real, e: int): (r: real)
    ensures x >= 0.0 ==> r >= 0.0
    ensures e == 0 ==> r == x
    decreases if e >= 0 then e else -e
  {
    if e == 0 then x
    else if e > 0 then 10.0 * Shift10(x, e - 1)
    else Shift10(x, e + 1) / 10.0
  }

  /** A decimal exponent after `e`/`E`: an optional sign and one or more digits. */
  function ParseExponent(s: string): (r: Option<int>)
    ensures |s| == 0 ==> r.None?
    ensures r.Some? ==> forall j :: 1 <= j < |s| ==> IsDigit(s[j])
    ensures r.Some? && s[0] == '-' ==> r.value <= 0
    ensures r.Some? && s[0] != '-' ==> r.value >= 0
  {
    var negative := |s| > 0 && s[0] == '-';
    var digits := if |s| > 0 && (s[0] == '+' || s[0] == '-') then s[1..] else s;
    if |digits| > 0 && AllDigits(digits) then
      Some(if negative then -(DigitsValue(digits) as int) else DigitsValue(digits) as int)
    else
      None
  }

  /** A mantissa split at its `.`: digits on both sides, at least one digit
      in all, read exactly. */
  function DecimalOfParts(intPart: string, fracPart: string): (r: Option<real>)
    ensures r.Some? <==> AllDigits(intPart) && AllDigits(fracPart) && |intPart| + |fracPart| > 0
    ensures r.Some? ==> r.value >= DigitsValue(intPart) as real >= 0.0
  {
    if AllDigits(intPart) && AllDigits(fracPart) && |intPart| + |fracPart| > 0 then
      Some(DigitsValue(intPart) as real + Shift10(DigitsValue(fracPart) as real, -|fracPart|))
    else
      None
  }

  /** The mantissa of a float: digits with at most one `.` and at least
      one digit, read exactly. */
  function ParseDecimal(m: string): (r: Option<real>)
    ensures r.Some? ==> r.value >= 0.0
    ensures r.Some? ==> |m| > 0 && forall j :: 0 <= j < |m| ==> IsDigit(m[j]) || m[j] == '.'
    ensures r.Some? ==> forall j, k :: 0 <= j < k < |m| && m[j] == '.' ==> m[k] != '.'
  {
    var p := IndexOfAny(m, {'.'});
    DecimalOfParts(m[..p], if p < |m| then m[p + 1..] else "")
  }

  /** A float without its sign: a mantissa and an optional exponent after
      `e` or `E`. */
  function ParseUnsigned(body: string): (r: Option<real>)
    ensures r.Some? ==> r.value >= 0.0
  {
    var e := IndexOfAny(body, {'e', 'E'});
    var exponent := if e < |body| then ParseExponent(body[e + 1..]) else Some(0);
    match (ParseDecimal(body[..e]), exponent)
    case (Some(v), Some(x)) => Some(Shift10(v, x))
    case _ => None
  }

  /** `str::parse::<f32>` on decimal spellings: an optional sign, then an
      unsigned float. The value is exact (no rounding). */
  function ParseF32(s: string): (r: Option<real>)
    ensures |s| == 0 ==> r.None?
    ensures r.Some? && s[0] == '-' ==> r.value <= 0.0
    ensures r.Some? && s[0] != '-' ==> r.value >= 0.0
  {
    if |s| > 0 && s[0] == '-' then
      match ParseUnsigned(s[1..])
      case None => None
      case Some(magnitude) => Some(-magnitude)
    else if |s| > 0 && s[0] == '+' then ParseUnsigned(s[1..])
    else ParseUnsigned(s)
  }

  /** A digit string has no exponent mark and no decimal point. */
  lemma DigitsHaveNoMarks(d: string)
    requires AllDigits(d)
    ensures IndexOfAny(d, {'e', 'E'}) == |d|
    ensures IndexOfAny(d, {'.'}) == |d|
  {
    forall j | 0 <= j < |d|
      ensures d[j] !in {'e', 'E'} && d[j] !in {'.'}
    {
      assert IsDigit(d[j]);
    }
  }

  /** A digit string is a mantissa worth its value. */
  lemma ParseDecimalOfDigits(d: string)
    requires |d| > 0 && AllDigits(d)
    ensures ParseDecimal(d) == Some(DigitsValue(d) as real)
  {
    DigitsHaveNoMarks(d);
    assert d[..|d|] == d;
    WholeDecimal(d);
  }

  /** A mantissa without a fractional part is worth its integer part. */
  lemma WholeDecimal(d: string)
    requires |d| > 0 && AllDigits(d)
    ensures DecimalOfParts(d, "") == Some(DigitsValue(d) as real)
  {
    assert DigitsValue("") == 0;
    assert Shift10(0.0, 0) == 0.0;
  }

  lemma ParseUnsignedOfDigits(d: string)
    requires |d| > 0 && AllDigits(d)
    ensures ParseUnsigned(d) == Some(DigitsValue(d) as real)
  {
    DigitsHaveNoMarks(d);
    var e := IndexOfAny(d, {'e', 'E'});
    assert e == |d| && d[..e] == d;
    ParseDecimalOfDigits(d);
  }

  /** A text not starting with a sign parses as an unsigned float. */
  lemma ParseF32Unsigned(s: string, v: real)
    requires |s| > 0 && s[0] != '+' && s[0] != '-'
    requires ParseUnsigned(s) == Some(v)
    ensures ParseF32(s) == Some(v)
  {
  }

  /** A minus sign negates the unsigned float after it. */
  lemma ParseF32Negative(s: string, v: real)
    requires |s| > 0 && s[0] == '-'
    requires ParseUnsigned(s[1..]) == Some(v)
    ensures ParseF32(s) == Some(-v)
  {
  }

  /** A digit string parses as its value. */
  lemma ParseF32OfDigits(d: string)
    requires |d| > 0 && AllDigits(d)
    ensures ParseF32(d) == Some(DigitsValue(d) as real)
  {
    ParseUnsignedOfDigits(d);
    assert IsDigit(d[0]);
    ParseF32Unsigned(d, DigitsValue(d) as real);
  }

  /** A minus sign and a digit string parse as minus the value. */
  lemma ParseF32OfNegatedDigits(s: string)
    requires |s| > 1 && s[0] == '-' && AllDigits(s[1..])
    ensures ParseF32(s) == Some(-(DigitsValue(s[1..]) as real))
  {
    ParseUnsignedOfDigits(s[1..]);
    ParseF32Negative(s, DigitsValue(s[1..]) as real);
  }

  /** A mantissa with a decimal point is worth the digits before it plus the
      digits after it scaled down by one power of ten per digit. */
  lemma {:induction false} ParseDecimalOfFraction(i: string, f: string)
    requires AllDigits(i) && AllDigits(f) && |i| + |f| > 0
    ensures ParseDecimal(i + "." + f) == Some(DigitsValue(i) as real + Shift10(DigitsValue(f) as real, -|f|))
  {
    var m := i + "." + f;
    assert ParseDecimal(m) == DecimalOfParts(m[..|i|], m[|i| + 1..]) by {
      PointAfterDigits(i, f);
      DecimalAt(m, |i|);
    }
    assert m[..|i|] == i && m[|i| + 1..] == f;
    FractionValue(i, f);
  }

  /** A mantissa is read in two parts around its first `.`. */
  lemma {:induction false} DecimalAt(m: string, p: nat)
    requires p == IndexOfAny(m, {'.'}) && p < |m|
    ensures ParseDecimal(m) == DecimalOfParts(m[..p], m[p + 1..])
  {
  }

  /** Two digit strings, not both empty, read as a decimal. */
  lemma {:induction false} FractionValue(i: string, f: string)
    requires AllDigits(i) && AllDigits(f) && |i| + |f| > 0
    ensures DecimalOfParts(i, f) == Some(DigitsValue(i) as real + Shift10(DigitsValue(f) as real, -|f|))
  {
  }

  /** The first `.` of `i + "." + f` is the one after the digits `i`. */
  lemma {:induction false} PointAfterDigits(i: string, f: string)
    requires AllDigits(i)
    ensures IndexOfAny(i + "." + f, {'.'}) == |i|
  {
    var m := i + "." + f;
    assert m[|i|] == '.';
  }

  /** A text of digits and decimal points has no exponent mark. */
  lemma {:induction false} NoExponentMark(i: string, f: string)
    requires AllDigits(i) && AllDigits(f)
    ensures IndexOfAny(i + "." + f, {'e', 'E'}) == |i + "." + f|
  {
    var m := i + "." + f;
    forall j | 0 <= j < |m| ensures m[j] !in {'e', 'E'} {
      if j < |i| {
        assert m[j] == i[j] && IsDigit(i[j]);
      } else if j > |i| {
        assert m[j] == f[j - |i| - 1] && IsDigit(f[j - |i| - 1]);
      }
    }
  }

  /** A decimal fraction such as `256.5` parses as its exact value. */
  lemma {:induction false} ParseF32OfFraction(i: string, f: string)
    requires AllDigits(i) && AllDigits(f) && |i| + |f| > 0
    ensures ParseF32(i + "." + f) == Some(DigitsValue(i) as real + Shift10(DigitsValue(f) as real, -|f|))
  {
    var m := i + "." + f;
    var value := DigitsValue(i) as real + Shift10(DigitsValue(f) as real, -|f|);
    FractionIsMantissa(i, f);
    ParseF32OfMantissa(m, value);
  }

  lemma {:induction false} FractionIsMantissa(i: string, f: string)
    requires AllDigits(i) && AllDigits(f) && |i| + |f| > 0
    ensures var m := i + "." + f;
      && m[0] != '+' && m[0] != '-'
      && IndexOfAny(m, {'e', 'E'}) == |m|
      && ParseDecimal(m) == Some(DigitsValue(i) as real + Shift10(DigitsValue(f) as real, -|f|))
  {
    var m := i + "." + f;
    NoExponentMark(i, f);
    ParseDecimalOfFraction(i, f);
    if |i| > 0 {
      assert m[0] == i[0] && IsDigit(i[0]);
    }
  }

  /** A mantissa without sign or exponent parses as its value. */
  lemma {:induction false} ParseF32OfMantissa(m: string, v: real)
    requires |m| > 0 && m[0] != '+' && m[0] != '-'
    requires IndexOfAny(m, {'e', 'E'}) == |m| && ParseDecimal(m) == Some(v)
    ensures ParseF32(m) == Some(v)
  {
    UnsignedWithoutExponent(m, v);
    ParseF32Unsigned(m, v);
  }

  /** Without an exponent mark an unsigned float is just its mantissa. */
  lemma {:induction false} UnsignedWithoutExponent(body: string, v: real)
    requires IndexOfAny(body, {'e', 'E'}) == |body| && ParseDecimal(body) == Some(v)
    ensures ParseUnsigned(body) == Some(v)
  {
    assert body[..|body|] == body;
  }

  /** An unsigned float is its mantissa scaled by its exponent. */
  lemma {:induction false} UnsignedWithExponent(body: string, e: nat, v: real, k: int)
    requires e == IndexOfAny(body, {'e', 'E'}) && e < |body|
    requires ParseDecimal(body[..e]) == Some(v) && ParseExponent(body[e + 1..]) == Some(k)
    ensures ParseUnsigned(body) == Some(Shift10(v, k))
  {
  }

  /** An exponent spelled as an integer is worth that integer. */
  lemma {:induction false} ParseExponentOfInteger(k: int)
    ensures ParseExponent(IntToString(k)) == Some(k)
  {
    var s := IntToString(k);
    if k < 0 {
      NatToStringValue(-k);
      assert s[1..] == NatToString(-k);
    } else {
      NatToStringValue(k);
      assert IsDigit(s[0]);
    }
  }

  /** A mantissa followed by `e` and an exponent, such as `1e2`, is worth the
      mantissa times ten to the exponent. */
  lemma {:induction false} ParseF32WithExponent(m: string, v: real, k: int)
    requires |m| > 0 && m[0] != '+' && m[0] != '-'
    requires 'e' !in m && 'E' !in m && ParseDecimal(m) == Some(v)
    ensures ParseF32(m + "e" + IntToString(k)) == Some(Shift10(v, k))
  {
    var body := m + "e" + IntToString(k);
    assert ParseUnsigned(body) == Some(Shift10(v, k)) by {
      assert IndexOfAny(body, {'e', 'E'}) == |m| by {
        forall j | 0 <= j < |m| ensures body[j] !in {'e', 'E'} {
          assert body[j] == m[j];
        }
        assert body[|m|] == 'e';
      }
      assert body[..|m|] == m && body[|m| + 1..] == IntToString(k);
      ParseExponentOfInteger(k);
      UnsignedWithExponent(body, |m|, v, k);
    }
    assert body[0] == m[0];
    ParseF32Unsigned(body, Shift10(v, k));
  }


  /** An integer spelled in decimal parses as that real number. */
  lemma ParseF32OfInteger(i: int)
    ensures ParseF32(IntToString(i)) == Some(i as real)
  {
    if i < 0 {
      var n: nat := -i;
      var d := NatToString(n);
      var s := IntToString(i);
      assert s == "-" + d && s[1..] == d;
      NatToStringValue(n);
      ParseF32OfNegatedDigits(s);
      assert -(n as real) == i as real;
    } else {
      NatToStringValue(i);
      ParseF32OfDigits(NatToString(i));
    }
  }

  //endregion
}
