/// tsselect (tsselect/tsselect.go): passes on the paths whose timestamp
/// lies strictly between a start and an end time. Its filename timestamp
/// rule is a copy of Timestamps.GetTimeFromFileTimestamp apart from its
/// error text; with -exif the timestamp comes from the image instead, so
/// the rule is a parameter here.
module TsSelect {
  import opened Results
  import opened Strings
  import opened Calendar
  import opened Timestamps
  import opened Stream

  // ---------------------------------------------------------------------
  // time.Parse(time.RFC3339, s): "2006-01-02T15:04:05Z07:00"

  /// The zone: "Z", or a sign, two hour digits, ':' and two minute digits;
  /// the offset east of UTC in seconds and the rest of the text. An offset
  /// hour above 24 or minute above 60 is out of range.
  function Zone(v: string): (r: Option<(int, string)>)
    ensures r.Some? ==> |r.value.1| < |v|
    ensures r.Some? && |v| > 0 && v[0] != 'Z' ==> -90000 <= r.value.0 <= 90000
  {
    if |v| >= 1 && v[0] == 'Z' then Some((0, v[1..]))
    else if |v| < 6 || v[3] != ':' || (v[0] != '+' && v[0] != '-') then None
    else match (GetNum(v[1..3], true), GetNum(v[4..6], true))
      case (Some((hr, _)), Some((mm, _))) =>
        if hr > 24 || mm > 60 then None
        else
        var off := (hr * 60 + mm) * 60;
        Some((if v[0] == '-' then -off else off, v[6..]))
      case _ => None
  }

  /// A numeric zone "±hh:mm" is accepted exactly when the hour is at most
  /// 24 and the minute at most 60, and gives that many seconds east (for
  /// '+') or west (for '-') of UTC.
  lemma ZoneOffset(sign: char, hr: int, mm: int, rest: string)
    requires sign == '+' || sign == '-'
    requires 0 <= hr < 100 && 0 <= mm < 100
    ensures var off := (hr * 60 + mm) * 60;
      Zone([sign] + Pad2(hr) + ":" + Pad2(mm) + rest)
        == if hr <= 24 && mm <= 60 then Some((if sign == '-' then -off else off, rest)) else None
  {
    var v := [sign] + Pad2(hr) + ":" + Pad2(mm) + rest;
    assert v[1..3] == Pad2(hr) + [] && v[4..6] == Pad2(mm) + [];
    assert v[3] == ':' && v[6..] == rest;
    GetNumPad2(hr, [], true);
    GetNumPad2(mm, [], true);
  }

  /// The seconds, fractional seconds the layout does not mention, the
  /// zone, then the end of the text and the day-of-month check.
  function RfcSecond(y: int, mo: int, d: int, h: int, mi: int, v: string): Result<Time>
    requires 0 <= h < 24 && 0 <= mi < 60
  {
    match GetNum(v, true)
    case None => Err("cannot parse")
    case Some((sec, v)) =>
      if sec >= 60 then Err("second out of range")
      else match Zone(SkipFraction(v))
        case None => Err("cannot parse")
        case Some((off, rest)) =>
          if rest != "" then Err("extra text")
          else if !(1 <= mo <= 12 && 1 <= d <= DaysIn(y, mo)) then Err("day out of range")
          else Ok(ToTime(Civil(y, mo, d, h, mi, sec)) - off)
  }

  function RfcMinute(y: int, mo: int, d: int, h: int, v: string): Result<Time>
    requires 0 <= h < 24
  {
    match GetNum(v, true)
    case None => Err("cannot parse")
    case Some((mi, v)) =>
      if mi >= 60 then Err("minute out of range")
      else match Lit(v, ':')
        case None => Err("cannot parse")
        case Some(v) => RfcSecond(y, mo, d, h, mi, v)
  }

  /// "T15:": the layout's hour takes one or two digits.
  function RfcClock(y: int, mo: int, d: int, v: string): Result<Time> {
    match Lit(v, 'T')
    case None => Err("cannot parse")
    case Some(v) =>
      match GetNum(v, false)
      case None => Err("cannot parse")
      case Some((h, v)) =>
        if h >= 24 then Err("hour out of range")
        else match Lit(v, ':')
          case None => Err("cannot parse")
          case Some(v) => RfcMinute(y, mo, d, h, v)
  }

  function RfcDay(y: int, mo: int, v: string): Result<Time> {
    match GetNum(v, true)
    case None => Err("cannot parse")
    case Some((d, v)) => RfcClock(y, mo, d, v)
  }

  function RfcMonth(y: int, v: string): Result<Time> {
    match GetNum(v, true)
    case None => Err("cannot parse")
    case Some((mo, v)) =>
      if !(1 <= mo <= 12) then Err("month out of range")
      else match Lit(v, '-')
        case None => Err("cannot parse")
        case Some(v) => RfcDay(y, mo, v)
  }

  function ParseRfc3339(s: string): Result<Time> {
    if |s| < 4 || !AllDigits(s[..4]) then Err("cannot parse year")
    else match Lit(s[4..], '-')
      case None => Err("cannot parse")
      case Some(v) => RfcMonth(DigitsValue(s[..4]), v)
  }

  /// A date-time written in the layout, followed by `zone`.
  function RfcText(c: Civil, zone: string): string
    requires ExifFieldsInRange(c)
  {
    YearString(c.year) + ("-" + (Pad2(c.month) + ("-" + (Pad2(c.day) + ("T" + (Pad2(c.hour)
      + (":" + (Pad2(c.minute) + (":" + (Pad2(c.second) + zone))))))))))
  }

  lemma LitStep(c: char, rest: string)
    ensures Lit([c] + rest, c) == Some(rest)
  {
    assert ([c] + rest)[1..] == rest;
  }

  lemma RfcMinuteStep(c: Civil, zone: string)
    requires ExifFieldsInRange(c)
    ensures RfcMinute(c.year, c.month, c.day, c.hour, Pad2(c.minute) + (":" + (Pad2(c.second) + zone)))
      == RfcSecond(c.year, c.month, c.day, c.hour, c.minute, Pad2(c.second) + zone)
  {
    GetNumPad2(c.minute, ":" + (Pad2(c.second) + zone), true);
    LitStep(':', Pad2(c.second) + zone);
  }

  lemma RfcClockStep(c: Civil, rest: string)
    requires ExifFieldsInRange(c)
    ensures RfcClock(c.year, c.month, c.day, "T" + (Pad2(c.hour) + (":" + rest)))
      == RfcMinute(c.year, c.month, c.day, c.hour, rest)
  {
    LitStep('T', Pad2(c.hour) + (":" + rest));
    GetNumPad2(c.hour, ":" + rest, false);
    LitStep(':', rest);
  }

  lemma RfcMonthStep(c: Civil, rest: string)
    requires ExifFieldsInRange(c)
    ensures RfcMonth(c.year, Pad2(c.month) + ("-" + (Pad2(c.day) + rest)))
      == RfcClock(c.year, c.month, c.day, rest)
  {
    GetNumPad2(c.month, "-" + (Pad2(c.day) + rest), true);
    LitStep('-', Pad2(c.day) + rest);
    GetNumPad2(c.day, rest, true);
  }

  lemma RfcYearStep(c: Civil, rest: string)
    requires ExifFieldsInRange(c)
    ensures ParseRfc3339(YearString(c.year) + ("-" + rest)) == RfcMonth(c.year, rest)
  {
    var s := YearString(c.year) + ("-" + rest);
    assert s[..4] == YearString(c.year) && s[4..] == "-" + rest;
    LitStep('-', rest);
  }

  /// Parsing a written date-time comes down to reading its seconds and
  /// its zone.
  lemma RfcPrefix(c: Civil, zone: string)
    requires ExifFieldsInRange(c)
    ensures ParseRfc3339(RfcText(c, zone)) == RfcSecond(c.year, c.month, c.day, c.hour, c.minute, Pad2(c.second) + zone)
  {
    var r4 := Pad2(c.second) + zone;
    var r3 := Pad2(c.minute) + (":" + r4);
    var r2 := "T" + (Pad2(c.hour) + (":" + r3));
    var r1 := Pad2(c.month) + ("-" + (Pad2(c.day) + r2));
    calc {
      ParseRfc3339(RfcText(c, zone));
      { assert RfcText(c, zone) == YearString(c.year) + ("-" + r1); }
      ParseRfc3339(YearString(c.year) + ("-" + r1));
      { RfcYearStep(c, r1); }
      RfcMonth(c.year, r1);
      { RfcMonthStep(c, r2); }
      RfcClock(c.year, c.month, c.day, r2);
      { RfcClockStep(c, r3); }
      RfcMinute(c.year, c.month, c.day, c.hour, r3);
      { RfcMinuteStep(c, zone); }
      RfcSecond(c.year, c.month, c.day, c.hour, c.minute, r4);
    }
  }

  /// A valid UTC date-time with a four-digit year parses back to itself.
  lemma ParseRfcUtc(c: Civil)
    requires ValidCivil(c) && 0 <= c.year < 10000
    ensures ParseRfc3339(RfcText(c, "Z")) == Ok(ToTime(c))
  {
    RfcPrefix(c, "Z");
    GetNumPad2(c.second, "Z", true);
    UtcZone();
  }

  /// "Z" is the zone of offset 0, with nothing after it.
  lemma UtcZone()
    ensures SkipFraction("Z") == "Z" && Zone("Z") == Some((0, ""))
  {
  }

  /// Any text after the "Z" is extra text, so the parse fails.
  lemma ZoneExtraRejected(c: Civil, extra: string)
    requires ExifFieldsInRange(c) && extra != ""
    ensures ParseRfc3339(RfcText(c, "Z" + extra)).Err?
  {
    RfcPrefix(c, "Z" + extra);
    GetNumPad2(c.second, "Z" + extra, true);
    assert ("Z" + extra)[1..] == extra;
  }

  // ---------------------------------------------------------------------
  // The span

  /// The literal that init parses as the default start.
  const DefaultStartText := "1970-01-01T00:00:00" + "Z00:00"

  /// start: the parse of the extracted start date-time's ISO text, or of
  /// the default literal when none was extracted; a failed parse leaves
  /// Go's zero time.
  function StartBound(extracted: Option<string>): Time {
    match extracted
    case None => TimeOr(ParseRfc3339(DefaultStartText))
    case Some(text) => TimeOr(ParseRfc3339(text))
  }

  /// end: time.Now() when no end date-time was extracted.
  function EndBound(extracted: Option<string>, now: Time): Time {
    match extracted
    case None => now
    case Some(text) => TimeOr(ParseRfc3339(text))
  }

  /// The default start literal has "00:00" after its "Z", which RFC 3339
  /// (section 5.6) does not allow, so its parse fails and the default span
  /// runs from Go's zero time, not from 1970, up to now.
  lemma DefaultSpan(now: Time)
    ensures ParseRfc3339(DefaultStartText).Err?
    ensures StartBound(None) == ZeroTime
    ensures EndBound(None, now) == now
  {
    DefaultStartSpelling();
    ZoneExtraRejected(Civil(1970, 1, 1, 0, 0, 0), "00:00");
  }

  /// The default literal is 1970-01-01T00:00:00 followed by "Z00:00".
  lemma DefaultStartSpelling()
    ensures DefaultStartText == RfcText(Civil(1970, 1, 1, 0, 0, 0), "Z" + "00:00")
  {
    var c := Civil(1970, 1, 1, 0, 0, 0);
    EpochText();
    RfcTextZone(c, "Z00:00");
    assert "Z" + "00:00" == "Z00:00";
  }

  lemma EpochText()
    ensures RfcText(Civil(1970, 1, 1, 0, 0, 0), "") == "1970-01-01T00:00:00"
  {
  }

  /// The zone is appended to the date-time's text.
  lemma RfcTextZone(c: Civil, zone: string)
    requires ExifFieldsInRange(c)
    ensures RfcText(c, zone) == RfcText(c, "") + zone
  {
  }

  /// inTimeSpan: strictly after start and strictly before end.
  predicate InTimeSpan(t: Time, start: Time, end: Time) {
    start < t < end
  }

  /// checkFilePath: the resolver's error, or whether its time is in the
  /// span.
  function CheckFilePath(path: string, resolve: string -> Result<Time>, start: Time, end: Time): (r: (bool, Option<string>))
    ensures r.1.Some? <==> resolve(path).Err?
    ensures r.1.Some? ==> !r.0 && r.1.value == resolve(path).msg
    ensures r.0 <==> resolve(path).Ok? && InTimeSpan(resolve(path).value, start, end)
  {
    match resolve(path)
    case Err(e) => (false, Some(e))
    case Ok(t) => (InTimeSpan(t, start, end), None)
  }

  /// visit: the path printed on its own line, or nothing. Errors are only
  /// logged, so visit returns nil whatever happens.
  function Visit(path: string, info: FileInfo, resolve: string -> Result<Time>, start: Time, end: Time): (r: Option<string>)
    ensures r.Some? <==> !info.isDir && resolve(path).Ok? && start < resolve(path).value < end
    ensures r.Some? ==> r.value == path
  {
    if info.isDir then None
    else
      var (ok, _) := CheckFilePath(path, resolve, start, end);
      if ok then Some(path) else None
  }

  /// The printed paths, visit by visit.
  function Selected(visits: seq<(string, FileInfo)>, resolve: string -> Result<Time>, start: Time, end: Time): seq<string> {
    if visits == [] then []
    else
      var v := visits[|visits| - 1];
      var before := Selected(visits[..|visits| - 1], resolve, start, end);
      match Visit(v.0, v.1, resolve, start, end)
      case None => before
      case Some(p) => before + [p]
  }

  /// A path is printed exactly when it was visited as a file whose
  /// timestamp lies strictly inside the span.
  lemma {:induction false} SelectedIff(visits: seq<(string, FileInfo)>, resolve: string -> Result<Time>, start: Time, end: Time, p: string)
    ensures p in Selected(visits, resolve, start, end) <==>
      exists k :: 0 <= k < |visits| && visits[k].0 == p && !visits[k].1.isDir &&
        resolve(p).Ok? && start < resolve(p).value < end
  {
    if visits != [] {
      var init := visits[..|visits| - 1];
      SelectedIff(init, resolve, start, end, p);
      if exists k :: 0 <= k < |init| && init[k].0 == p && !init[k].1.isDir && resolve(p).Ok? && start < resolve(p).value < end {
        var k :| 0 <= k < |init| && init[k].0 == p && !init[k].1.isDir && resolve(p).Ok? && start < resolve(p).value < end;
        assert visits[k] == init[k];
      }
      if exists k :: 0 <= k < |visits| && visits[k].0 == p && !visits[k].1.isDir && resolve(p).Ok? && start < resolve(p).value < end {
        var k :| 0 <= k < |visits| && visits[k].0 == p && !visits[k].1.isDir && resolve(p).Ok? && start < resolve(p).value < end;
        if k < |init| {
          assert init[k] == visits[k];
        }
      }
    }
  }

  /// main's stdin loop: each line that is not a "[" log line and can be
  /// stat'ed is visited, and the paths visit prints are collected.
  method SelectStdin(lines: seq<string>, stat: string -> Option<FileInfo>, resolve: string -> Result<Time>, start: Time, end: Time)
    returns (printed: seq<string>)
    ensures printed == Selected(StatVisits(lines, stat), resolve, start, end)
  {
    printed := [];
    var i := 0;
    while i < |lines|
      invariant 0 <= i <= |lines|
      invariant printed == Selected(StatVisits(lines[..i], stat), resolve, start, end)
    {
      var text := LineText(lines[i]);
      assert lines[..i + 1][..i] == lines[..i];
      i := i + 1;
      if HasPrefix(text, "[") {
        continue;
      }
      var info := stat(text);
      if info.None? {
        continue;
      }
      var vs := StatVisits(lines[..i - 1], stat);
      assert StatVisits(lines[..i], stat) == vs + [(text, info.value)];
      assert (vs + [(text, info.value)])[..|vs|] == vs;
      var out := Visit(text, info.value, resolve, start, end);
      if out.Some? {
        printed := printed + [out.value];
      }
    }
    assert lines[..i] == lines;
  }
}
