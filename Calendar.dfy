/// Go's time.Time reduced to what the tools use: whole seconds counted from
/// Go's zero time, 0001-01-01T00:00:00 UTC, on the proleptic Gregorian
/// calendar; Truncate; and the three fixed layouts that are formatted.
module Calendar {
  import opened Strings

  /// Seconds since 0001-01-01T00:00:00Z (Go's zero time.Time is 0).
  type Time = int

  const ZeroTime: Time := 0
  const Minute: int := 60
  const Hour: int := 3600
  const Day: int := 86400
  const Week: int := 604800

  datatype Civil = Civil(year: int, month: int, day: int, hour: int, minute: int, second: int)

  predicate IsLeap(y: int) {
    y % 4 == 0 && (y % 100 != 0 || y % 400 == 0)
  }

  function YearLen(y: int): int {
    if IsLeap(y) then 366 else 365
  }

  function DaysIn(y: int, m: int): int
    requires 1 <= m <= 12
  {
    if m == 2 then (if IsLeap(y) then 29 else 28)
    else if m == 4 || m == 6 || m == 9 || m == 11 then 30
    else 31
  }

  /// A real calendar date and time of day (what time.Parse validates).
  predicate ValidCivil(c: Civil) {
    && 1 <= c.month <= 12
    && 1 <= c.day <= DaysIn(c.year, c.month)
    && 0 <= c.hour < 24
    && 0 <= c.minute < 60
    && 0 <= c.second < 60
  }

  /// Days from 0001-01-01 to January 1st of year y.
  function DaysBeforeYear(y: int): int {
    var x := y - 1;
    365 * x + x / 4 - x / 100 + x / 400
  }

  /// Days from January 1st of year y to the first of month m (13: year end).
  function DaysBeforeMonth(y: int, m: int): int
    requires 1 <= m <= 13
  {
    [0, 31, 59, 90, 120, 151, 181, 212, 243, 273, 304, 334, 365][m - 1]
      + (if m > 2 && IsLeap(y) then 1 else 0)
  }

  function DayNumber(y: int, m: int, d: int): int
    requires 1 <= m <= 12
  {
    DaysBeforeYear(y) + DaysBeforeMonth(y, m) + d - 1
  }

  /// time.Date(y, m, d, hh, mm, ss, 0, time.UTC) for an in-range date.
  function ToTime(c: Civil): Time
    requires 1 <= c.month <= 12
  {
    DayNumber(c.year, c.month, c.day) * Day + c.hour * Hour + c.minute * Minute + c.second
  }

  lemma FloorStep(x: int, k: int)
    requires k > 0
    ensures (x + 1) / k == x / k + (if (x + 1) % k == 0 then 1 else 0)
  {
    var q := x / k;
    var r := x % k;
    if r + 1 < k {
      DivModUnique(x + 1, k, q, r + 1);
    } else {
      DivModUnique(x + 1, k, q + 1, 0);
    }
  }

  lemma DaysBeforeYearStep(y: int)
    ensures DaysBeforeYear(y + 1) == DaysBeforeYear(y) + YearLen(y)
  {
    FloorStep(y - 1, 4);
    FloorStep(y - 1, 100);
    FloorStep(y - 1, 400);
  }

  lemma DaysBeforeMonthStep(y: int, m: int)
    requires 1 <= m <= 12
    ensures DaysBeforeMonth(y, m + 1) == DaysBeforeMonth(y, m) + DaysIn(y, m)
    ensures DaysBeforeMonth(y, 13) == YearLen(y)
  {
  }

  lemma {:induction false} DaysBeforeYearMono(a: int, b: int)
    requires a <= b
    ensures DaysBeforeYear(a) + 365 * (b - a) <= DaysBeforeYear(b)
    decreases b - a
  {
    if a < b {
      DaysBeforeYearMono(a, b - 1);
      DaysBeforeYearStep(b - 1);
    }
  }

  lemma DaysBeforeMonthMono(y: int, a: int, b: int)
    requires 1 <= a <= b <= 13
    ensures DaysBeforeMonth(y, a) + 28 * (b - a) <= DaysBeforeMonth(y, b)
  {
  }

  function YearUp(n: int, y: int): (r: int)
    requires DaysBeforeYear(y) <= n
    ensures DaysBeforeYear(r) <= n < DaysBeforeYear(r + 1)
    decreases n - DaysBeforeYear(y)
  {
    DaysBeforeYearStep(y);
    if n < DaysBeforeYear(y + 1) then y else YearUp(n, y + 1)
  }

  function YearDown(n: int, y: int): (r: int)
    requires n < DaysBeforeYear(y + 1)
    ensures DaysBeforeYear(r) <= n < DaysBeforeYear(r + 1)
    decreases DaysBeforeYear(y + 1) - n
  {
    DaysBeforeYearStep(y);
    if DaysBeforeYear(y) <= n then y else YearDown(n, y - 1)
  }

  /// The year holding day number n.
  function YearOf(n: int): (r: int)
    ensures DaysBeforeYear(r) <= n < DaysBeforeYear(r + 1)
  {
    if n >= 0 then YearUp(n, 1) else YearDown(n, 0)
  }

  /// The month holding day doy (0-based) of year y, searched downwards from m.
  function MonthOf(y: int, doy: int, m: int): (r: int)
    requires 1 <= m <= 12 && 0 <= doy < DaysBeforeMonth(y, m + 1)
    ensures 1 <= r <= m && DaysBeforeMonth(y, r) <= doy < DaysBeforeMonth(y, r + 1)
    decreases m
  {
    if DaysBeforeMonth(y, m) <= doy then m else MonthOf(y, doy, m - 1)
  }

  /// The UTC calendar fields of a time (what t.Year(), t.Month(), ... give).
  function FromTime(t: Time): (c: Civil)
    ensures ValidCivil(c)
    ensures ToTime(c) == t
  {
    var n := t / Day;
    var s := t % Day;
    var y := YearOf(n);
    var doy := n - DaysBeforeYear(y);
    DaysBeforeYearStep(y);
    DaysBeforeMonthStep(y, 12);
    var m := MonthOf(y, doy, 12);
    DaysBeforeMonthStep(y, m);
    ClockSplit(s);
    assert DayNumber(y, m, doy - DaysBeforeMonth(y, m) + 1) == n;
    Civil(y, m, doy - DaysBeforeMonth(y, m) + 1, s / Hour, s % Hour / Minute, s % Minute)
  }

  /// A second of the day splits into hour, minute and second.
  lemma ClockSplit(s: int)
    requires 0 <= s < Day
    ensures 0 <= s / Hour < 24 && 0 <= s % Hour / Minute < 60 && 0 <= s % Minute < 60
    ensures s / Hour * Hour + s % Hour / Minute * Minute + s % Minute == s
  {
    assert s % Hour % Minute == s % Minute;
  }

  lemma YearUnique(n: int, y1: int, y2: int)
    requires DaysBeforeYear(y1) <= n < DaysBeforeYear(y1 + 1)
    requires DaysBeforeYear(y2) <= n < DaysBeforeYear(y2 + 1)
    ensures y1 == y2
  {
    if y1 < y2 {
      DaysBeforeYearMono(y1 + 1, y2);
    } else if y2 < y1 {
      DaysBeforeYearMono(y2 + 1, y1);
    }
  }

  lemma MonthUnique(y: int, doy: int, m1: int, m2: int)
    requires 1 <= m1 <= 12 && 1 <= m2 <= 12
    requires DaysBeforeMonth(y, m1) <= doy < DaysBeforeMonth(y, m1 + 1)
    requires DaysBeforeMonth(y, m2) <= doy < DaysBeforeMonth(y, m2 + 1)
    ensures m1 == m2
  {
    if m1 < m2 {
      DaysBeforeMonthMono(y, m1 + 1, m2);
    } else if m2 < m1 {
      DaysBeforeMonthMono(y, m2 + 1, m1);
    }
  }

  lemma DivModUnique(t: int, d: int, q: int, r: int)
    requires d > 0 && 0 <= r < d && t == q * d + r
    ensures t / d == q && t % d == r
  {
    var e := t / d - q;
    assert d * e == r - t % d;
    if e >= 1 {
      MulMono(1, e, d);
    } else if e <= -1 {
      MulMono(e, -1, d);
    }
  }

  /// Two valid civil date-times denote the same instant only if they are equal.
  lemma ToTimeInjective(c1: Civil, c2: Civil)
    requires ValidCivil(c1) && ValidCivil(c2)
    requires ToTime(c1) == ToTime(c2)
    ensures c1 == c2
  {
    var t := ToTime(c1);
    var s1 := c1.hour * Hour + c1.minute * Minute + c1.second;
    var s2 := c2.hour * Hour + c2.minute * Minute + c2.second;
    DivModUnique(t, Day, DayNumber(c1.year, c1.month, c1.day), s1);
    DivModUnique(t, Day, DayNumber(c2.year, c2.month, c2.day), s2);
    DayNumberInjective(c1, c2);
    ClockInjective(c1, c2);
  }

  /// Different valid dates have different day numbers.
  lemma DayNumberInjective(c1: Civil, c2: Civil)
    requires ValidCivil(c1) && ValidCivil(c2)
    requires DayNumber(c1.year, c1.month, c1.day) == DayNumber(c2.year, c2.month, c2.day)
    ensures c1.year == c2.year && c1.month == c2.month && c1.day == c2.day
  {
    var n := DayNumber(c1.year, c1.month, c1.day);
    DateInYear(c1.year, c1.month, c1.day);
    DateInYear(c2.year, c2.month, c2.day);
    YearUnique(n, c1.year, c2.year);
    MonthUnique(c1.year, n - DaysBeforeYear(c1.year), c1.month, c2.month);
  }

  /// A date's day number lies in its year, and within the year in its
  /// month.
  lemma DateInYear(y: int, m: int, d: int)
    requires 1 <= m <= 12 && 1 <= d <= DaysIn(y, m)
    ensures DaysBeforeYear(y) <= DayNumber(y, m, d) < DaysBeforeYear(y + 1)
    ensures DaysBeforeMonth(y, m) <= DayNumber(y, m, d) - DaysBeforeYear(y) < DaysBeforeMonth(y, m + 1)
  {
    DaysBeforeMonthStep(y, m);
    DaysBeforeMonthMono(y, m + 1, 13);
    DaysBeforeYearStep(y);
  }

  /// Different valid clock readings are different seconds of the day.
  lemma ClockInjective(c1: Civil, c2: Civil)
    requires ValidCivil(c1) && ValidCivil(c2)
    requires c1.hour * Hour + c1.minute * Minute + c1.second == c2.hour * Hour + c2.minute * Minute + c2.second
    ensures c1.hour == c2.hour && c1.minute == c2.minute && c1.second == c2.second
  {
    var s := c1.hour * Hour + c1.minute * Minute + c1.second;
    DivModUnique(s, Hour, c1.hour, c1.minute * Minute + c1.second);
    DivModUnique(s, Hour, c2.hour, c2.minute * Minute + c2.second);
    DivModUnique(s % Hour, Minute, c1.minute, c1.second);
    DivModUnique(s % Hour, Minute, c2.minute, c2.second);
  }

  /// Converting a valid civil date-time to seconds and back gives it back.
  lemma FromToTime(c: Civil)
    requires ValidCivil(c)
    ensures FromTime(ToTime(c)) == c
  {
    ToTimeInjective(FromTime(ToTime(c)), c);
  }

  /// time.Time.Truncate(d): rounds down to a multiple of d since the zero
  /// time; a non-positive d leaves the time unchanged.
  function Truncate(t: Time, d: int): Time {
    if d <= 0 then t else t - t % d
  }

  lemma TruncateBounds(t: Time, d: int)
    requires d > 0
    ensures Truncate(t, d) <= t < Truncate(t, d) + d
    ensures Truncate(t, d) % d == 0
    ensures Truncate(Truncate(t, d), d) == Truncate(t, d)
  {
    var q := t / d;
    assert Truncate(t, d) == q * d;
    DivModUnique(q * d, d, q, 0);
  }

  lemma TruncateQuotient(t: Time, d: int)
    requires d > 0
    ensures Truncate(t, d) == (t / d) * d
  {
  }

  lemma TruncateMono(t1: Time, t2: Time, d: int)
    requires d > 0 && t1 <= t2
    ensures Truncate(t1, d) <= Truncate(t2, d)
  {
    TruncateQuotient(t1, d);
    TruncateQuotient(t2, d);
    QuotientMono(t1, t2, d);
    MulMono(t1 / d, t2 / d, d);
  }

  lemma QuotientMono(t1: int, t2: int, d: int)
    requires d > 0 && t1 <= t2
    ensures t1 / d <= t2 / d
  {
    if t1 / d > t2 / d {
      MulMono(t2 / d + 1, t1 / d, d);
    }
  }

  lemma MulMono(a: int, b: int, d: int)
    requires d > 0 && a <= b
    ensures a * d <= b * d
  {
  }

  /// Two times truncate to the same value iff they have the same quotient.
  lemma TruncateSameIff(t1: Time, t2: Time, d: int)
    requires d > 0
    ensures Truncate(t1, d) == Truncate(t2, d) <==> t1 / d == t2 / d
  {
    TruncateQuotient(t1, d);
    TruncateQuotient(t2, d);
    if (t1 / d) * d == (t2 / d) * d {
      MulCancel(t1 / d, t2 / d, d);
    }
  }

  lemma MulCancel(a: int, b: int, d: int)
    requires d > 0 && a * d == b * d
    ensures a == b
  {
    if a < b { MulMono(a + 1, b, d); }
    else if b < a { MulMono(b + 1, a, d); }
  }

  // ---------------------------------------------------------------------
  // Fixed layouts

  function Digit(n: int): char
    requires 0 <= n < 10
  {
    ('0' as int + n) as char
  }

  /// Go's appendInt(n, 2) for 0 <= n < 100.
  function Pad2(n: int): (r: string)
    requires 0 <= n < 100
    ensures |r| == 2 && AllDigits(r) && DigitsValue(r) == n
  {
    var r := [Digit(n / 10), Digit(n % 10)];
    assert r[..1] == [Digit(n / 10)];
    assert DigitsValue(r[..1]) == n / 10 by {
      assert r[..1][..0] == [];
    }
    r
  }

  /// Go's appendInt(n, 4) for n >= 0: at least four digits, zero-padded.
  function Pad4(n: nat): (r: string)
    ensures AllDigits(r) && DigitsValue(r) == n
    ensures n < 10000 ==> |r| == 4
  {
    if n < 10000 then
      var r := [Digit(n / 1000), Digit(n / 100 % 10), Digit(n / 10 % 10), Digit(n % 10)];
      var r1 := [Digit(n / 1000)];
      var r2 := r1 + [Digit(n / 100 % 10)];
      var r3 := r2 + [Digit(n / 10 % 10)];
      assert r == r3 + [Digit(n % 10)];
      assert r1[..0] == [];
      assert r2[..1] == r1;
      assert r3[..2] == r2;
      assert r[..3] == r3;
      assert DigitsValue(r1) == n / 1000;
      assert DigitsValue(r2) == n / 100;
      assert DigitsValue(r3) == n / 10;
      r
    else
      NatToStringValue(n);
      NatToString(n)
  }

  /// The "2006" layout element: the year, zero-padded to four digits, with
  /// a '-' in front of negative years.
  function YearString(y: int): (r: string)
    ensures 0 <= y < 10000 ==> |r| == 4 && AllDigits(r) && DigitsValue(r) == y
  {
    if y < 0 then "-" + Pad4(-y) else Pad4(y)
  }

  /// The TsForm layout "2006_01_02_15_04_05" applied to calendar fields.
  function TsString(c: Civil): string
    requires ValidCivil(c)
  {
    YearString(c.year) + "_" + Pad2(c.month) + "_" + Pad2(c.day) + "_"
      + Pad2(c.hour) + "_" + Pad2(c.minute) + "_" + Pad2(c.second)
  }

  /// Format(t, TsForm).
  function FormatTs(t: Time): string {
    TsString(FromTime(t))
  }

  /// Format(t, "2006/2006_01/2006_01_02/2006_01_02_15/")
  /// (DefaultTsDirectoryStructure): its four directory elements.
  function DirElems(t: Time): seq<string> {
    var c := FromTime(t);
    var y := YearString(c.year);
    var ym := y + "_" + Pad2(c.month);
    var ymd := ym + "_" + Pad2(c.day);
    [y, ym, ymd, ymd + "_" + Pad2(c.hour)]
  }

  function FormatDirStruct(t: Time): string {
    var e := DirElems(t);
    e[0] + "/" + e[1] + "/" + e[2] + "/" + e[3] + "/"
  }

  /// The "2006-01-02" layout applied to calendar fields.
  function DateString(c: Civil): string
    requires ValidCivil(c)
  {
    YearString(c.year) + "-" + Pad2(c.month) + "-" + Pad2(c.day)
  }

  /// Format(t, "2006-01-02").
  function FormatDate(t: Time): string {
    DateString(FromTime(t))
  }

  lemma DigitsNoSlash(s: string)
    requires AllDigits(s)
    ensures '/' !in s
  {
    assert forall k :: 0 <= k < |s| ==> IsDigit(s[k]);
  }

  lemma DateNoSlash(c: Civil)
    requires ValidCivil(c)
    ensures '/' !in DateString(c)
  {
    if c.year < 0 {
      DigitsNoSlash(Pad4(-c.year));
    } else {
      DigitsNoSlash(Pad4(c.year));
    }
    DigitsNoSlash(Pad2(c.month));
    DigitsNoSlash(Pad2(c.day));
  }

  lemma FormatDateNoSlash(t: Time)
    ensures '/' !in FormatDate(t)
  {
    DateNoSlash(FromTime(t));
  }

  lemma YearNoSlash(y: int)
    ensures '/' !in YearString(y)
  {
    if y < 0 {
      DigitsNoSlash(Pad4(-y));
    } else {
      DigitsNoSlash(Pad4(y));
    }
  }

  lemma TsNoSlash(c: Civil)
    requires ValidCivil(c)
    ensures '/' !in TsString(c)
  {
    YearNoSlash(c.year);
    DigitsNoSlash(Pad2(c.month));
    DigitsNoSlash(Pad2(c.day));
    DigitsNoSlash(Pad2(c.hour));
    DigitsNoSlash(Pad2(c.minute));
    DigitsNoSlash(Pad2(c.second));
  }

  /// TsForm output never holds a '/', so it can be a file name element.
  lemma FormatTsNoSlash(t: Time)
    ensures '/' !in FormatTs(t)
  {
    TsNoSlash(FromTime(t));
  }
}
