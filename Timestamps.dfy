/// Timestamps in file names and EXIF strings.
///
/// File names carry a timestamp in the TsForm layout "2006_01_02_15_04_05";
/// it is found with the regular expression
/// [0-9]{4}_[0-1][0-9]_[0-3][0-9]_[0-2][0-9]_[0-5][0-9]_[0-5][0-9], whose
/// matches are always 19 characters long, so the leftmost match is the
/// first position where such a window starts.  The same search-then-parse
/// rule is copied into utils, tsarchive, tsorganize and tsselect; it is
/// modelled once here.
module Timestamps {
  import opened Results
  import opened Strings
  import opened Calendar

  const TsLen: nat := 19

  predicate InRange(c: char, lo: char, hi: char) {
    lo <= c <= hi
  }

  /// The 19-character window of s at i matches the timestamp pattern.
  predicate MatchesAt(s: string, i: nat) {
    && i + TsLen <= |s|
    && IsDigit(s[i]) && IsDigit(s[i + 1]) && IsDigit(s[i + 2]) && IsDigit(s[i + 3])
    && s[i + 4] == '_' && InRange(s[i + 5], '0', '1') && IsDigit(s[i + 6])
    && s[i + 7] == '_' && InRange(s[i + 8], '0', '3') && IsDigit(s[i + 9])
    && s[i + 10] == '_' && InRange(s[i + 11], '0', '2') && IsDigit(s[i + 12])
    && s[i + 13] == '_' && InRange(s[i + 14], '0', '5') && IsDigit(s[i + 15])
    && s[i + 16] == '_' && InRange(s[i + 17], '0', '5') && IsDigit(s[i + 18])
  }

  function FindFrom(s: string, i: nat): (r: Option<nat>)
    ensures r.Some? ==> i <= r.value && MatchesAt(s, r.value)
    ensures r.Some? ==> forall j :: i <= j < r.value ==> !MatchesAt(s, j)
    ensures r.None? ==> forall j :: i <= j ==> !MatchesAt(s, j)
    decreases |s| - i
  {
    if i + TsLen > |s| then None
    else if MatchesAt(s, i) then Some(i)
    else FindFrom(s, i + 1)
  }

  /// TsRegex.FindStringIndex: where the leftmost match starts, if any.
  function FindTs(s: string): (r: Option<nat>)
    ensures r.Some? ==> MatchesAt(s, r.value) && forall j :: 0 <= j < r.value ==> !MatchesAt(s, j)
    ensures r.None? ==> forall j :: 0 <= j ==> !MatchesAt(s, j)
  {
    FindFrom(s, 0)
  }

  /// The calendar fields a matched window spells.
  function WindowFields(w: string): Civil
    requires MatchesAt(w, 0)
  {
    Civil(DigitsValue(w[0..4]), DigitsValue(w[5..7]), DigitsValue(w[8..10]),
          DigitsValue(w[11..13]), DigitsValue(w[14..16]), DigitsValue(w[17..19]))
  }

  lemma WindowBounds(w: string)
    requires MatchesAt(w, 0)
    ensures 0 <= WindowFields(w).month && 0 <= WindowFields(w).day && 0 <= WindowFields(w).hour
    ensures 0 <= WindowFields(w).minute < 60 && 0 <= WindowFields(w).second < 60
  {
    DigitsValue2(w[14..16]);
    DigitsValue2(w[17..19]);
  }

  /// time.Parse(TsForm, w) on a window the pattern matched: the month is
  /// range-checked while parsing, then the hour, and the day against the
  /// month's length at the end; the pattern already keeps minutes and
  /// seconds below 60.
  function ParseTsWindow(w: string): (r: Result<Time>)
    requires MatchesAt(w, 0) && |w| == TsLen
    ensures r.Ok? <==> ValidCivil(WindowFields(w))
    ensures r.Ok? ==> r.value == ToTime(WindowFields(w))
  {
    var c := WindowFields(w);
    WindowBounds(w);
    if !(1 <= c.month <= 12) then Err("month out of range")
    else if !(c.hour < 24) then Err("hour out of range")
    else if !(1 <= c.day <= DaysIn(c.year, c.month)) then Err("day out of range")
    else Ok(ToTime(c))
  }

  /// GetTimeFromFileTimestamp: parse the leftmost match; no match, or a
  /// leftmost match that is not a real date-time, is an error.
  function GetTimeFromFileTimestamp(path: string): Result<Time> {
    match FindTs(path)
    case None => Err("failed regex timestamp from filename " + path)
    case Some(i) => ParseTsWindow(Window(path, i))
  }

  /// The time a caller keeps: the parsed time, or Go's zero time.Time{}
  /// that both parsers return with their error.
  function TimeOr(r: Result<Time>): Time {
    if r.Ok? then r.value else ZeroTime
  }

  lemma WindowMatch(s: string, i: nat)
    requires MatchesAt(s, i)
    ensures MatchesAt(s[i..i + TsLen], 0) && |s[i..i + TsLen]| == TsLen
  {
  }

  /// The 19 characters of a match at i.
  function Window(s: string, i: nat): (w: string)
    requires MatchesAt(s, i)
    ensures MatchesAt(w, 0) && |w| == TsLen && w == s[i..i + TsLen]
  {
    WindowMatch(s, i);
    s[i..i + TsLen]
  }

  /// A window written between two strings is a match where it starts.
  lemma MatchInside(a: string, w: string, b: string)
    requires MatchesAt(w, 0) && |w| == TsLen
    ensures MatchesAt(a + w + b, |a|) && Window(a + w + b, |a|) == w
  {
    var s := a + w + b;
    assert s[|a|..|a| + TsLen] == w;
    assert forall k :: 0 <= k < TsLen ==> s[|a| + k] == w[k];
  }

  /// Only the leftmost match counts: the result is the parse of that one
  /// window, and a path with no match fails.
  lemma LeftmostWindowDecides(path: string)
    ensures FindTs(path).None? ==> GetTimeFromFileTimestamp(path).Err?
    ensures forall i: nat :: MatchesAt(path, i) && (forall j :: 0 <= j < i ==> !MatchesAt(path, j)) ==>
      GetTimeFromFileTimestamp(path) == ParseTsWindow(Window(path, i))
  {
    forall i: nat | MatchesAt(path, i) && (forall j :: 0 <= j < i ==> !MatchesAt(path, j))
      ensures GetTimeFromFileTimestamp(path) == ParseTsWindow(Window(path, i))
    {
      var k := FindTs(path);
      assert k.Some?;
      assert k.value == i;
    }
  }

  // ---------------------------------------------------------------------
  // Digits and padding

  lemma DigitsValue2(s: string)
    requires |s| == 2 && AllDigits(s)
    ensures DigitsValue(s) == 10 * DigitValue(s[0]) + DigitValue(s[1])
    ensures DigitsValue(s) < 100
  {
    assert s[..1][..0] == [];
    assert DigitsValue(s[..1]) == DigitValue(s[0]);
  }

  lemma DigitsValue4(s: string)
    requires |s| == 4 && AllDigits(s)
    ensures DigitsValue(s) == 1000 * DigitValue(s[0]) + 100 * DigitValue(s[1]) + 10 * DigitValue(s[2]) + DigitValue(s[3])
    ensures DigitsValue(s) < 10000
  {
    assert s[..3][..2] == s[..2];
    assert s[..2][..1] == s[..1];
    assert s[..1][..0] == [];
    assert DigitsValue(s[..1]) == DigitValue(s[0]);
    assert DigitsValue(s[..2]) == 10 * DigitValue(s[0]) + DigitValue(s[1]);
    assert DigitsValue(s[..3]) == 100 * DigitValue(s[0]) + 10 * DigitValue(s[1]) + DigitValue(s[2]);
  }

  lemma DigitOfValue(c: char)
    requires IsDigit(c)
    ensures Digit(DigitValue(c)) == c
  {
  }

  lemma Pad2OfDigits(s: string)
    requires |s| == 2 && AllDigits(s)
    ensures DigitsValue(s) < 100 && Pad2(DigitsValue(s)) == s
  {
    DigitsValue2(s);
    var n := DigitsValue(s);
    DivModUnique(n, 10, DigitValue(s[0]), DigitValue(s[1]));
    DigitOfValue(s[0]);
    DigitOfValue(s[1]);
  }

  lemma YearOfDigits(s: string)
    requires |s| == 4 && AllDigits(s)
    ensures DigitsValue(s) < 10000 && YearString(DigitsValue(s)) == s
  {
    DigitsValue4(s);
    var a, b, c, d := DigitValue(s[0]), DigitValue(s[1]), DigitValue(s[2]), DigitValue(s[3]);
    var n := DigitsValue(s);
    DivModUnique(n, 1000, a, 100 * b + 10 * c + d);
    DivModUnique(n, 100, 10 * a + b, 10 * c + d);
    DivModUnique(10 * a + b, 10, a, b);
    DivModUnique(n, 10, 100 * a + 10 * b + c, d);
    DivModUnique(100 * a + 10 * b + c, 10, 10 * a + b, c);
    DigitOfValue(s[0]);
    DigitOfValue(s[1]);
    DigitOfValue(s[2]);
    DigitOfValue(s[3]);
  }

  lemma WindowConcat(w: string)
    requires MatchesAt(w, 0) && |w| == TsLen
    ensures w == w[0..4] + "_" + w[5..7] + "_" + w[8..10] + "_" + w[11..13] + "_" + w[14..16] + "_" + w[17..19]
  {
  }

  lemma Digits2At(w: string, i: nat)
    requires i + 2 <= |w| && IsDigit(w[i]) && IsDigit(w[i + 1])
    ensures AllDigits(w[i..i + 2])
  {
  }

  lemma Digits4At(w: string)
    requires 4 <= |w| && IsDigit(w[0]) && IsDigit(w[1]) && IsDigit(w[2]) && IsDigit(w[3])
    ensures AllDigits(w[0..4])
  {
  }

  /// TsForm applied to a window's own fields spells the window.
  lemma TsStringOfWindow(w: string)
    requires MatchesAt(w, 0) && |w| == TsLen
    requires ValidCivil(WindowFields(w))
    ensures TsString(WindowFields(w)) == w
  {
    Digits4At(w);
    Digits2At(w, 5);
    Digits2At(w, 8);
    Digits2At(w, 11);
    Digits2At(w, 14);
    Digits2At(w, 17);
    YearOfDigits(w[0..4]);
    Pad2OfDigits(w[5..7]);
    Pad2OfDigits(w[8..10]);
    Pad2OfDigits(w[11..13]);
    Pad2OfDigits(w[14..16]);
    Pad2OfDigits(w[17..19]);
    WindowConcat(w);
  }

  /// Formatting a parsed filename timestamp with TsForm gives back exactly
  /// the matched window.
  lemma FormatParsedWindow(w: string)
    requires MatchesAt(w, 0) && |w| == TsLen
    requires ParseTsWindow(w).Ok?
    ensures FormatTs(ParseTsWindow(w).value) == w
  {
    var c := WindowFields(w);
    FromToTime(c);
    TsStringOfWindow(w);
  }

  lemma Pad2Tens(n: int, hi: int)
    requires 0 <= n < 100 && 0 <= hi < 10 && n < 10 * (hi + 1)
    ensures IsDigit(Pad2(n)[0]) && Pad2(n)[0] <= Digit(hi)
  {
  }

  /// Where the date fields sit in TsForm's output.
  lemma TsStringDateSlices(c: Civil)
    requires ValidCivil(c) && 0 <= c.year < 10000
    ensures |TsString(c)| == TsLen
    ensures TsString(c)[0..4] == YearString(c.year) && TsString(c)[5..7] == Pad2(c.month)
    ensures TsString(c)[4] == '_' && TsString(c)[7] == '_'
  {
  }

  /// Where the day and hour sit in TsForm's output.
  lemma TsStringDayHourSlices(c: Civil)
    requires ValidCivil(c) && 0 <= c.year < 10000
    ensures |TsString(c)| == TsLen
    ensures TsString(c)[8..10] == Pad2(c.day) && TsString(c)[11..13] == Pad2(c.hour)
    ensures TsString(c)[10] == '_' && TsString(c)[13] == '_'
  {
  }

  /// Where the minute and second sit in TsForm's output.
  lemma TsStringClockSlices(c: Civil)
    requires ValidCivil(c) && 0 <= c.year < 10000
    ensures |TsString(c)| == TsLen
    ensures TsString(c)[14..16] == Pad2(c.minute) && TsString(c)[17..19] == Pad2(c.second)
    ensures TsString(c)[16] == '_'
  {
  }

  /// A valid date-time with a four-digit year is spelled by TsForm as a
  /// pattern window whose fields are that date-time.
  lemma WindowOfTsString(c: Civil)
    requires ValidCivil(c) && 0 <= c.year < 10000
    ensures MatchesAt(TsString(c), 0) && |TsString(c)| == TsLen
    ensures WindowFields(TsString(c)) == c
  {
    TsStringDateSlices(c);
    TsStringDayHourSlices(c);
    TsStringClockSlices(c);
    Pad2Tens(c.month, 1);
    Pad2Tens(c.day, 3);
    Pad2Tens(c.hour, 2);
    Pad2Tens(c.minute, 5);
    Pad2Tens(c.second, 5);
  }

  /// For a year written with four digits, TsForm's output is a pattern
  /// window that parses back to the same time.
  lemma ParseFormattedTs(t: Time)
    requires 0 <= FromTime(t).year < 10000
    ensures MatchesAt(FormatTs(t), 0) && |FormatTs(t)| == TsLen
    ensures ParseTsWindow(FormatTs(t)) == Ok(t)
  {
    WindowOfTsString(FromTime(t));
  }

  /// Every occurrence of a formatted four-digit-year timestamp is a pattern
  /// match; so when t was parsed from the leftmost match of a path, the
  /// first occurrence of FormatTs(t) in that path is that match.
  lemma FirstOccurrenceIsLeftmostMatch(path: string, i: nat)
    requires MatchesAt(path, i) && forall j :: 0 <= j < i ==> !MatchesAt(path, j)
    requires ParseTsWindow(Window(path, i)).Ok?
    ensures Index(path, FormatTs(ParseTsWindow(Window(path, i)).value)) == Some(i)
  {
    var w := path[i..i + TsLen];
    var t := ParseTsWindow(w).value;
    FormatParsedWindow(w);
    assert OccursAt(path, w, i);
    var k := Index(path, w);
    assert k.Some? && k.value <= i;
    assert path[k.value..k.value + TsLen] == w;
    assert MatchesAt(path, k.value);
  }

  // ---------------------------------------------------------------------
  // EXIF date-times: time.Parse("2006:01:02 15:04:05", s)

  /// Go's getnum: one or two leading digits (exactly two when fixed).
  function GetNum(s: string, fixed: bool): (r: Option<(int, string)>)
    ensures r.Some? ==> 0 <= r.value.0 < 100 && |r.value.1| < |s|
  {
    if |s| == 0 || !IsDigit(s[0]) then None
    else if |s| < 2 || !IsDigit(s[1]) then
      if fixed then None else Some((DigitValue(s[0]), s[1..]))
    else Some((10 * DigitValue(s[0]) + DigitValue(s[1]), s[2..]))
  }

  function CutSpace(s: string): (r: string)
    ensures |r| <= |s|
  {
    if |s| > 0 && s[0] == ' ' then CutSpace(s[1..]) else s
  }

  /// Matching a literal layout character.
  function Lit(s: string, c: char): Option<string> {
    if |s| > 0 && s[0] == c then Some(s[1..]) else None
  }

  /// A space in the layout: the value must be empty or start with a space;
  /// all leading spaces are then consumed.
  function Space(s: string): Option<string> {
    if |s| > 0 && s[0] != ' ' then None else Some(CutSpace(s))
  }

  /// Fractional seconds that the layout does not mention: '.' or ',' then
  /// digits are consumed (the sub-second value is not kept).
  function SkipFraction(s: string): string {
    if |s| >= 2 && (s[0] == '.' || s[0] == ',') && IsDigit(s[1]) then SkipDigits(s[2..]) else s
  }

  function SkipDigits(s: string): string {
    if |s| > 0 && IsDigit(s[0]) then SkipDigits(s[1..]) else s
  }

  /// The seconds field and what may follow it, then the day-of-month check
  /// Go makes once the whole value has been read.
  function ParseSecond(y: int, mo: int, d: int, h: int, mi: int, v: string): (r: Result<Time>)
    requires 0 <= h < 24 && 0 <= mi < 60
    ensures r.Ok? ==> FromTime(r.value).year == y
  {
    match GetNum(v, true)
    case None => Err("cannot parse")
    case Some((sec, v)) =>
      if sec >= 60 then Err("second out of range")
      else if SkipFraction(v) != "" then Err("extra text")
      else if !(1 <= mo <= 12 && 1 <= d <= DaysIn(y, mo)) then Err("day out of range")
      else
        FromToTime(Civil(y, mo, d, h, mi, sec));
        Ok(ToTime(Civil(y, mo, d, h, mi, sec)))
  }

  function ParseMinute(y: int, mo: int, d: int, h: int, v: string): (r: Result<Time>)
    requires 0 <= h < 24
    ensures r.Ok? ==> FromTime(r.value).year == y
  {
    match GetNum(v, true)
    case None => Err("cannot parse")
    case Some((mi, v)) =>
      if mi >= 60 then Err("minute out of range")
      else match Lit(v, ':')
      case None => Err("cannot parse")
      case Some(v) => ParseSecond(y, mo, d, h, mi, v)
  }

  /// The layout's " 15:" part: the space, then a one- or two-digit hour.
  function ParseClock(y: int, mo: int, d: int, v: string): (r: Result<Time>)
    ensures r.Ok? ==> FromTime(r.value).year == y
  {
    match Space(v)
    case None => Err("cannot parse")
    case Some(v) =>
      match GetNum(v, false)
      case None => Err("cannot parse")
      case Some((h, v)) =>
        if h >= 24 then Err("hour out of range")
        else match Lit(v, ':')
        case None => Err("cannot parse")
        case Some(v) => ParseMinute(y, mo, d, h, v)
  }

  function ParseDay(y: int, mo: int, v: string): (r: Result<Time>)
    ensures r.Ok? ==> FromTime(r.value).year == y
  {
    match GetNum(v, true)
    case None => Err("cannot parse")
    case Some((d, v)) => ParseClock(y, mo, d, v)
  }

  function ParseMonth(y: int, v: string): (r: Result<Time>)
    ensures r.Ok? ==> FromTime(r.value).year == y
  {
    match GetNum(v, true)
    case None => Err("cannot parse")
    case Some((mo, v)) =>
      if !(1 <= mo <= 12) then Err("month out of range")
      else match Lit(v, ':')
      case None => Err("cannot parse")
      case Some(v) => ParseDay(y, mo, v)
  }

  /// ParseExifDatetime: time.Parse("2006:01:02 15:04:05", s).  The year is
  /// four characters starting with a digit (Go's atoi then rejects any
  /// non-digit among them).
  function ParseExifDatetime(str: string): (r: Result<Time>)
    ensures r.Ok? ==> 0 <= FromTime(r.value).year < 10000
  {
    if |str| < 4 || !AllDigits(str[..4]) then Err("cannot parse year")
    else
      DigitsValue4(str[..4]);
      match Lit(str[4..], ':')
      case None => Err("cannot parse")
      case Some(v) => ParseMonth(DigitsValue(str[..4]), v)
  }

  // ---------------------------------------------------------------------
  // How lenient the EXIF parser is

  function Spaces(k: nat): (r: string)
    ensures |r| == k && forall i :: 0 <= i < k ==> r[i] == ' '
  {
    if k == 0 then "" else " " + Spaces(k - 1)
  }

  lemma {:induction false} CutSpaces(k: nat, x: string)
    requires x == "" || x[0] != ' '
    ensures CutSpace(Spaces(k) + x) == x
  {
    if k > 0 {
      assert (Spaces(k) + x)[1..] == Spaces(k - 1) + x;
      CutSpaces(k - 1, x);
    }
  }

  /// Fractional seconds after the seconds field: '.' or ',' and digits.
  predicate IsFraction(f: string) {
    |f| >= 2 && (f[0] == '.' || f[0] == ',') && AllDigits(f[1..])
  }

  lemma {:induction false} SkipAllDigits(s: string)
    requires AllDigits(s)
    ensures SkipDigits(s) == ""
  {
    if s != "" { SkipAllDigits(s[1..]); }
  }

  /// The hour may be written with one digit when it is below ten.
  predicate HourText(h: int, t: string) {
    0 <= h < 24 && (t == Pad2(h) || (h < 10 && t == [Digit(h)]))
  }

  /// Field values in the ranges the parser checks while reading them (the
  /// day is only checked against its month at the end).
  predicate ExifFieldsInRange(c: Civil) {
    && 0 <= c.year < 10000 && 1 <= c.month <= 12 && 0 <= c.day < 100
    && 0 <= c.hour < 24 && 0 <= c.minute < 60 && 0 <= c.second < 60
  }

  /// An EXIF-style date-time as Go accepts it: "YYYY:MM:DD", one or more
  /// spaces, a one- or two-digit hour, ":mm:ss", then the rest.
  function ExifText(c: Civil, spaces: nat, hour: string, rest: string): string
    requires ExifFieldsInRange(c)
  {
    YearString(c.year) + (":" + (Pad2(c.month) + (":" + (Pad2(c.day) + (Spaces(spaces)
      + (hour + (":" + (Pad2(c.minute) + (":" + (Pad2(c.second) + rest))))))))))
  }

  /// The canonical spelling "YYYY:MM:DD hh:mm:ss".
  function ExifString(c: Civil): string
    requires ExifFieldsInRange(c)
  {
    ExifText(c, 1, Pad2(c.hour), "")
  }

  lemma GetNumPad2(n: int, rest: string, fixed: bool)
    requires 0 <= n < 100
    ensures GetNum(Pad2(n) + rest, fixed) == Some((n, rest))
  {
    var p := Pad2(n);
    assert (p + rest)[2..] == rest;
    DigitsValue2(p);
  }

  lemma LitColon(rest: string)
    ensures Lit(":" + rest, ':') == Some(rest)
  {
    assert (":" + rest)[1..] == rest;
  }

  lemma SecondAccepted(c: Civil, frac: string)
    requires ExifFieldsInRange(c) && (frac == "" || IsFraction(frac))
    ensures ParseSecond(c.year, c.month, c.day, c.hour, c.minute, Pad2(c.second) + frac)
      == if ValidCivil(c) then Ok(ToTime(c)) else Err("day out of range")
  {
    GetNumPad2(c.second, frac, true);
    if frac != "" {
      SkipAllDigits(frac[1..][1..]);
      assert frac[2..] == frac[1..][1..];
    }
  }

  lemma SecondExtraRejected(c: Civil, extra: string)
    requires ExifFieldsInRange(c) && extra != "" && extra[0] != '.' && extra[0] != ','
    ensures ParseSecond(c.year, c.month, c.day, c.hour, c.minute, Pad2(c.second) + extra).Err?
  {
    GetNumPad2(c.second, extra, true);
  }

  lemma MinuteStep(c: Civil, rest: string)
    requires ExifFieldsInRange(c)
    ensures ParseMinute(c.year, c.month, c.day, c.hour, Pad2(c.minute) + (":" + rest))
      == ParseSecond(c.year, c.month, c.day, c.hour, c.minute, rest)
  {
    GetNumPad2(c.minute, ":" + rest, true);
    LitColon(rest);
  }

  lemma SpaceStep(spaces: nat, t: string)
    requires spaces >= 1 && t != "" && t[0] != ' '
    ensures Space(Spaces(spaces) + t) == Some(t)
  {
    CutSpaces(spaces, t);
  }

  lemma HourStep(h: int, hour: string, rest: string)
    requires HourText(h, hour)
    ensures GetNum(hour + (":" + rest), false) == Some((h, ":" + rest))
  {
    if hour == Pad2(h) {
      GetNumPad2(h, ":" + rest, false);
    } else {
      assert (hour + (":" + rest))[1..] == ":" + rest;
    }
  }

  lemma ClockStep(c: Civil, spaces: nat, hour: string, rest: string)
    requires ExifFieldsInRange(c) && spaces >= 1 && HourText(c.hour, hour)
    ensures ParseClock(c.year, c.month, c.day, Spaces(spaces) + (hour + (":" + rest)))
      == ParseMinute(c.year, c.month, c.day, c.hour, rest)
  {
    var t := hour + (":" + rest);
    SpaceStep(spaces, t);
    HourStep(c.hour, hour, rest);
    LitColon(rest);
  }

  lemma DayStep(c: Civil, rest: string)
    requires ExifFieldsInRange(c)
    ensures ParseDay(c.year, c.month, Pad2(c.day) + rest) == ParseClock(c.year, c.month, c.day, rest)
  {
    GetNumPad2(c.day, rest, true);
  }

  lemma MonthStep(c: Civil, rest: string)
    requires ExifFieldsInRange(c)
    ensures ParseMonth(c.year, Pad2(c.month) + (":" + rest)) == ParseDay(c.year, c.month, rest)
  {
    GetNumPad2(c.month, ":" + rest, true);
    LitColon(rest);
  }

  lemma YearStep(c: Civil, rest: string)
    requires ExifFieldsInRange(c)
    ensures ParseExifDatetime(YearString(c.year) + (":" + rest)) == ParseMonth(c.year, rest)
  {
    var s := YearString(c.year) + (":" + rest);
    assert s[..4] == YearString(c.year) && s[4..] == ":" + rest;
    LitColon(rest);
  }

  lemma ExifPrefix(c: Civil, spaces: nat, hour: string, rest: string)
    requires ExifFieldsInRange(c) && spaces >= 1 && HourText(c.hour, hour)
    ensures ParseExifDatetime(ExifText(c, spaces, hour, rest))
      == ParseSecond(c.year, c.month, c.day, c.hour, c.minute, Pad2(c.second) + rest)
  {
    var r4 := Pad2(c.second) + rest;
    var r3 := Pad2(c.minute) + (":" + r4);
    var r2 := Spaces(spaces) + (hour + (":" + r3));
    var r1 := Pad2(c.day) + r2;
    YearStep(c, Pad2(c.month) + (":" + r1));
    MonthStep(c, r1);
    DayStep(c, r2);
    ClockStep(c, spaces, hour, r3);
    MinuteStep(c, r4);
  }

  /// Exactly which EXIF-style strings are accepted, for fields in range:
  /// "YYYY:MM:DD", any positive number of spaces, a one- or two-digit hour,
  /// ":mm:ss" and optional fractional seconds parse to that date-time when
  /// the day exists in its month, and fail when it does not.
  lemma ParseExifLenient(c: Civil, spaces: nat, hour: string, frac: string)
    requires ExifFieldsInRange(c) && spaces >= 1 && HourText(c.hour, hour)
    requires frac == "" || IsFraction(frac)
    ensures ParseExifDatetime(ExifText(c, spaces, hour, frac))
      == if ValidCivil(c) then Ok(ToTime(c)) else Err("day out of range")
  {
    ExifPrefix(c, spaces, hour, frac);
    SecondAccepted(c, frac);
  }

  /// Every valid date-time with a four-digit year, written the EXIF way,
  /// parses to that date-time.
  lemma ParseExifString(c: Civil)
    requires ValidCivil(c) && 0 <= c.year < 10000
    ensures ParseExifDatetime(ExifString(c)) == Ok(ToTime(c))
  {
    ParseExifLenient(c, 1, Pad2(c.hour), "");
  }

  /// Text after the seconds that is not a fraction is rejected.
  lemma ExifExtraTextRejected(c: Civil, extra: string)
    requires ExifFieldsInRange(c) && extra != "" && extra[0] != '.' && extra[0] != ','
    ensures ParseExifDatetime(ExifText(c, 1, Pad2(c.hour), extra)).Err?
  {
    ExifPrefix(c, 1, Pad2(c.hour), extra);
    SecondExtraRejected(c, extra);
  }

  // ---------------------------------------------------------------------
  // Everything the EXIF parser accepts has that shape

  /// What getnum read: two digits, or (when not fixed) a single digit.
  lemma GetNumInv(s: string, fixed: bool) returns (n: int, text: string, rest: string)
    requires GetNum(s, fixed).Some?
    ensures GetNum(s, fixed) == Some((n, rest)) && s == text + rest && 0 <= n < 100
    ensures text == Pad2(n) || (!fixed && n < 10 && text == [Digit(n)])
  {
    n, rest := GetNum(s, fixed).value.0, GetNum(s, fixed).value.1;
    if |s| >= 2 && IsDigit(s[1]) {
      text := s[..2];
      DigitsValue2(text);
      Pad2OfDigits(text);
    } else {
      text := s[..1];
      DigitOfValue(s[0]);
    }
  }

  lemma {:induction false} CutSpaceInv(s: string) returns (k: nat)
    ensures s == Spaces(k) + CutSpace(s)
    ensures s != "" && s[0] == ' ' ==> k >= 1
  {
    if |s| > 0 && s[0] == ' ' {
      var k1 := CutSpaceInv(s[1..]);
      k := k1 + 1;
      assert s == " " + s[1..];
    } else {
      k := 0;
    }
  }

  lemma {:induction false} SkipDigitsEmpty(s: string)
    requires SkipDigits(s) == ""
    ensures AllDigits(s)
  {
    if s != "" {
      SkipDigitsEmpty(s[1..]);
      assert forall i :: 1 <= i < |s| ==> s[i] == s[1..][i - 1];
    }
  }

  lemma SecondInv(y: int, mo: int, d: int, h: int, mi: int, v: string) returns (sec: int, frac: string)
    requires 0 <= h < 24 && 0 <= mi < 60 && ParseSecond(y, mo, d, h, mi, v).Ok?
    ensures 0 <= sec < 60 && (frac == "" || IsFraction(frac)) && v == Pad2(sec) + frac
    ensures 1 <= mo <= 12 && 1 <= d <= DaysIn(y, mo)
  {
    var text;
    sec, text, frac := GetNumInv(v, true);
    if frac != "" {
      SkipDigitsEmpty(frac[2..]);
      assert forall i :: 1 <= i < |frac[1..]| ==> frac[1..][i] == frac[2..][i - 1];
    }
  }

  lemma MinuteInv(y: int, mo: int, d: int, h: int, v: string) returns (mi: int, rest: string)
    requires 0 <= h < 24 && ParseMinute(y, mo, d, h, v).Ok?
    ensures 0 <= mi < 60 && v == Pad2(mi) + (":" + rest)
    ensures ParseSecond(y, mo, d, h, mi, rest).Ok?
  {
    var text, r;
    mi, text, r := GetNumInv(v, true);
    rest := r[1..];
    assert r == ":" + rest;
  }

  lemma ClockInv(y: int, mo: int, d: int, v: string) returns (spaces: nat, h: int, hour: string, rest: string)
    requires ParseClock(y, mo, d, v).Ok?
    ensures spaces >= 1 && HourText(h, hour) && v == Spaces(spaces) + (hour + (":" + rest))
    ensures ParseMinute(y, mo, d, h, rest).Ok?
  {
    spaces := CutSpaceInv(v);
    var r;
    h, hour, r := GetNumInv(CutSpace(v), false);
    rest := r[1..];
    assert r == ":" + rest;
  }

  lemma DayInv(y: int, mo: int, v: string) returns (d: int, rest: string)
    requires ParseDay(y, mo, v).Ok?
    ensures 0 <= d < 100 && v == Pad2(d) + rest && ParseClock(y, mo, d, rest).Ok?
  {
    var text;
    d, text, rest := GetNumInv(v, true);
  }

  lemma MonthInv(y: int, v: string) returns (mo: int, rest: string)
    requires ParseMonth(y, v).Ok?
    ensures 1 <= mo <= 12 && v == Pad2(mo) + (":" + rest) && ParseDay(y, mo, rest).Ok?
  {
    var text, r;
    mo, text, r := GetNumInv(v, true);
    rest := r[1..];
    assert r == ":" + rest;
  }

  /// The converse of ParseExifLenient: a string the parser accepts is
  /// "YYYY:MM:DD", one or more spaces, a one- or two-digit hour, ":mm:ss"
  /// and an optional fraction, for a date-time that exists, and it parses
  /// to that date-time.
  lemma ExifAcceptedShape(s: string)
    requires ParseExifDatetime(s).Ok?
    ensures exists c, spaces, hour, frac ::
      && ExifFieldsInRange(c) && ValidCivil(c) && spaces >= 1 && HourText(c.hour, hour)
      && (frac == "" || IsFraction(frac)) && s == ExifText(c, spaces, hour, frac)
      && ParseExifDatetime(s) == Ok(ToTime(c))
  {
    var y := DigitsValue(s[..4]);
    YearOfDigits(s[..4]);
    var r0 := s[5..];
    assert s == YearString(y) + (":" + r0);
    var mo, r1 := MonthInv(y, r0);
    var d, r2 := DayInv(y, mo, r1);
    var spaces, h, hour, r3 := ClockInv(y, mo, d, r2);
    var mi, r4 := MinuteInv(y, mo, d, h, r3);
    var sec, frac := SecondInv(y, mo, d, h, mi, r4);
    var c := Civil(y, mo, d, h, mi, sec);
    assert s == ExifText(c, spaces, hour, frac);
    ParseExifLenient(c, spaces, hour, frac);
  }
}
