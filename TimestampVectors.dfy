/// The timestamp vectors of the utils package's tests, and the edge cases
/// of the two parsers, as concrete facts about the model.
module TimestampVectors {
  import opened Results
  import opened Strings
  import opened Calendar
  import opened Timestamps

  lemma LeftmostAt(s: string, i: nat)
    requires MatchesAt(s, i)
    requires forall j :: 0 <= j < i ==> !MatchesAt(s, j)
    ensures FindTs(s) == Some(i)
  {
  }

  /// Reading the fields of a concrete window.
  lemma Fields(w: string)
    requires MatchesAt(w, 0) && |w| == TsLen
    ensures WindowFields(w) == Civil(
      1000 * DigitValue(w[0]) + 100 * DigitValue(w[1]) + 10 * DigitValue(w[2]) + DigitValue(w[3]),
      10 * DigitValue(w[5]) + DigitValue(w[6]), 10 * DigitValue(w[8]) + DigitValue(w[9]),
      10 * DigitValue(w[11]) + DigitValue(w[12]), 10 * DigitValue(w[14]) + DigitValue(w[15]),
      10 * DigitValue(w[17]) + DigitValue(w[18]))
  {
    DigitsValue4(w[0..4]);
    DigitsValue2(w[5..7]);
    DigitsValue2(w[8..10]);
    DigitsValue2(w[11..13]);
    DigitsValue2(w[14..16]);
    DigitsValue2(w[17..19]);
  }

  lemma Window19980608101000()
    ensures MatchesAt("1998_06_08_10_10_00", 0)
  {
  }

  lemma Fields19980608101000()
    ensures MatchesAt("1998_06_08_10_10_00", 0)
    ensures WindowFields("1998_06_08_10_10_00") == Civil(1998, 6, 8, 10, 10, 0)
  {
    Window19980608101000();
    Fields("1998_06_08_10_10_00");
  }

  lemma Window20000205011000()
    ensures MatchesAt("2000_02_05_01_10_00", 0)
  {
  }

  lemma Fields20000205011000()
    ensures MatchesAt("2000_02_05_01_10_00", 0)
    ensures WindowFields("2000_02_05_01_10_00") == Civil(2000, 2, 5, 1, 10, 0)
  {
    Window20000205011000();
    Fields("2000_02_05_01_10_00");
  }

  lemma Window20120608101000()
    ensures MatchesAt("2012_06_08_10_10_00", 0)
  {
  }

  lemma Fields20120608101000()
    ensures MatchesAt("2012_06_08_10_10_00", 0)
    ensures WindowFields("2012_06_08_10_10_00") == Civil(2012, 6, 8, 10, 10, 0)
  {
    Window20120608101000();
    Fields("2012_06_08_10_10_00");
  }

  lemma Window20150229101000()
    ensures MatchesAt("2015_02_29_10_10_00", 0)
  {
  }

  lemma Fields20150229101000()
    ensures MatchesAt("2015_02_29_10_10_00", 0)
    ensures WindowFields("2015_02_29_10_10_00") == Civil(2015, 2, 29, 10, 10, 0)
  {
    Window20150229101000();
    Fields("2015_02_29_10_10_00");
  }

  lemma Window20160008101000()
    ensures MatchesAt("2016_00_08_10_10_00", 0)
  {
  }

  lemma Fields20160008101000()
    ensures MatchesAt("2016_00_08_10_10_00", 0)
    ensures WindowFields("2016_00_08_10_10_00") == Civil(2016, 0, 8, 10, 10, 0)
  {
    Window20160008101000();
    Fields("2016_00_08_10_10_00");
  }

  lemma Window20160229101000()
    ensures MatchesAt("2016_02_29_10_10_00", 0)
  {
  }

  lemma Fields20160229101000()
    ensures MatchesAt("2016_02_29_10_10_00", 0)
    ensures WindowFields("2016_02_29_10_10_00") == Civil(2016, 2, 29, 10, 10, 0)
  {
    Window20160229101000();
    Fields("2016_02_29_10_10_00");
  }

  lemma Window20160431101000()
    ensures MatchesAt("2016_04_31_10_10_00", 0)
  {
  }

  lemma Fields20160431101000()
    ensures MatchesAt("2016_04_31_10_10_00", 0)
    ensures WindowFields("2016_04_31_10_10_00") == Civil(2016, 4, 31, 10, 10, 0)
  {
    Window20160431101000();
    Fields("2016_04_31_10_10_00");
  }

  lemma Window20160600101000()
    ensures MatchesAt("2016_06_00_10_10_00", 0)
  {
  }

  lemma Fields20160600101000()
    ensures MatchesAt("2016_06_00_10_10_00", 0)
    ensures WindowFields("2016_06_00_10_10_00") == Civil(2016, 6, 0, 10, 10, 0)
  {
    Window20160600101000();
    Fields("2016_06_00_10_10_00");
  }

  lemma Window20160608101000()
    ensures MatchesAt("2016_06_08_10_10_00", 0)
  {
  }

  lemma Fields20160608101000()
    ensures MatchesAt("2016_06_08_10_10_00", 0)
    ensures WindowFields("2016_06_08_10_10_00") == Civil(2016, 6, 8, 10, 10, 0)
  {
    Window20160608101000();
    Fields("2016_06_08_10_10_00");
  }

  lemma Window20160608240000()
    ensures MatchesAt("2016_06_08_24_00_00", 0)
  {
  }

  lemma Fields20160608240000()
    ensures MatchesAt("2016_06_08_24_00_00", 0)
    ensures WindowFields("2016_06_08_24_00_00") == Civil(2016, 6, 8, 24, 0, 0)
  {
    Window20160608240000();
    Fields("2016_06_08_24_00_00");
  }

  lemma Window20161308101000()
    ensures MatchesAt("2016_13_08_10_10_00", 0)
  {
  }

  lemma Fields20161308101000()
    ensures MatchesAt("2016_13_08_10_10_00", 0)
    ensures WindowFields("2016_13_08_10_10_00") == Civil(2016, 13, 8, 10, 10, 0)
  {
    Window20161308101000();
    Fields("2016_13_08_10_10_00");
  }

  lemma MatchOfSlice(s: string, i: nat)
    requires i + TsLen <= |s| && MatchesAt(s[i..i + TsLen], 0)
    ensures MatchesAt(s, i)
  {
    var w := s[i..i + TsLen];
    assert forall k :: 0 <= k < TsLen ==> w[k] == s[i + k];
  }

  lemma Middle(a: string, w: string, b: string)
    ensures (a + w + b)[|a|..|a| + |w|] == w
  {
  }

  lemma NoMatch2016()
    ensures forall j :: 0 <= j < 16 ==> !MatchesAt("BVZ-House-Picam_2016_06_08_10_10_00.jpg", j)
  {
  }

  lemma Find2016()
    ensures FindTs("BVZ-House-Picam_2016_06_08_10_10_00.jpg") == Some(16)
  {
    NoMatch2016();
    Slice2016();
    Window20160608101000();
    MatchOfSlice("BVZ-House-Picam_2016_06_08_10_10_00.jpg", 16);
    LeftmostAt("BVZ-House-Picam_2016_06_08_10_10_00.jpg", 16);
  }

  lemma Spell2016()
    ensures "BVZ-House-Picam_" + "2016_06_08_10_10_00" + ".jpg" == "BVZ-House-Picam_2016_06_08_10_10_00.jpg"
  {
  }

  lemma Slice2016()
    ensures "BVZ-House-Picam_2016_06_08_10_10_00.jpg"[16..35] == "2016_06_08_10_10_00"
  {
    Middle("BVZ-House-Picam_", "2016_06_08_10_10_00", ".jpg");
    Spell2016();
  }

  lemma Parse2016()
    ensures ParseTsWindow("2016_06_08_10_10_00") == Ok(ToTime(Civil(2016, 6, 8, 10, 10, 0)))
  {
    Fields20160608101000();
  }

  /// utils/main_test.go: "BVZ-House-Picam_2016_06_08_10_10_00.jpg" resolves to Civil(2016, 6, 8, 10, 10, 0).
  lemma FileVector2016()
    ensures GetTimeFromFileTimestamp("BVZ-House-Picam_2016_06_08_10_10_00.jpg") == Ok(ToTime(Civil(2016, 6, 8, 10, 10, 0)))
  {
    Find2016();
    Slice2016();
    Parse2016();
  }

  lemma NoMatch1998()
    ensures forall j :: 0 <= j < 1 ==> !MatchesAt("_1998_06_08_10_10_00.jpgBVZ-House-Picam", j)
  {
  }

  lemma Find1998()
    ensures FindTs("_1998_06_08_10_10_00.jpgBVZ-House-Picam") == Some(1)
  {
    NoMatch1998();
    Slice1998();
    Window19980608101000();
    MatchOfSlice("_1998_06_08_10_10_00.jpgBVZ-House-Picam", 1);
    LeftmostAt("_1998_06_08_10_10_00.jpgBVZ-House-Picam", 1);
  }

  lemma Spell1998()
    ensures "_" + "1998_06_08_10_10_00" + ".jpgBVZ-House-Picam" == "_1998_06_08_10_10_00.jpgBVZ-House-Picam"
  {
  }

  lemma Slice1998()
    ensures "_1998_06_08_10_10_00.jpgBVZ-House-Picam"[1..20] == "1998_06_08_10_10_00"
  {
    Middle("_", "1998_06_08_10_10_00", ".jpgBVZ-House-Picam");
    Spell1998();
  }

  lemma Parse1998()
    ensures ParseTsWindow("1998_06_08_10_10_00") == Ok(ToTime(Civil(1998, 6, 8, 10, 10, 0)))
  {
    Fields19980608101000();
  }

  /// utils/main_test.go: "_1998_06_08_10_10_00.jpgBVZ-House-Picam" resolves to Civil(1998, 6, 8, 10, 10, 0).
  lemma FileVector1998()
    ensures GetTimeFromFileTimestamp("_1998_06_08_10_10_00.jpgBVZ-House-Picam") == Ok(ToTime(Civil(1998, 6, 8, 10, 10, 0)))
  {
    Find1998();
    Slice1998();
    Parse1998();
  }

  lemma NoMatch2012()
    ensures forall j :: 0 <= j < 15 ==> !MatchesAt("BVZ-House-Picam2012_06_08_10_10_00", j)
  {
  }

  lemma Find2012()
    ensures FindTs("BVZ-House-Picam2012_06_08_10_10_00") == Some(15)
  {
    NoMatch2012();
    Slice2012();
    Window20120608101000();
    MatchOfSlice("BVZ-House-Picam2012_06_08_10_10_00", 15);
    LeftmostAt("BVZ-House-Picam2012_06_08_10_10_00", 15);
  }

  lemma Spell2012()
    ensures "BVZ-House-Picam" + "2012_06_08_10_10_00" + "" == "BVZ-House-Picam2012_06_08_10_10_00"
  {
  }

  lemma Slice2012()
    ensures "BVZ-House-Picam2012_06_08_10_10_00"[15..34] == "2012_06_08_10_10_00"
  {
    Middle("BVZ-House-Picam", "2012_06_08_10_10_00", "");
    Spell2012();
  }

  lemma Parse2012()
    ensures ParseTsWindow("2012_06_08_10_10_00") == Ok(ToTime(Civil(2012, 6, 8, 10, 10, 0)))
  {
    Fields20120608101000();
  }

  /// utils/main_test.go: "BVZ-House-Picam2012_06_08_10_10_00" resolves to Civil(2012, 6, 8, 10, 10, 0).
  lemma FileVector2012()
    ensures GetTimeFromFileTimestamp("BVZ-House-Picam2012_06_08_10_10_00") == Ok(ToTime(Civil(2012, 6, 8, 10, 10, 0)))
  {
    Find2012();
    Slice2012();
    Parse2012();
  }

  lemma NoMatch2000()
    ensures forall j :: 0 <= j < 15 ==> !MatchesAt("BVZ-House-Picam2000_02_05_01_10_00", j)
  {
  }

  lemma Find2000()
    ensures FindTs("BVZ-House-Picam2000_02_05_01_10_00") == Some(15)
  {
    NoMatch2000();
    Slice2000();
    Window20000205011000();
    MatchOfSlice("BVZ-House-Picam2000_02_05_01_10_00", 15);
    LeftmostAt("BVZ-House-Picam2000_02_05_01_10_00", 15);
  }

  lemma Spell2000()
    ensures "BVZ-House-Picam" + "2000_02_05_01_10_00" + "" == "BVZ-House-Picam2000_02_05_01_10_00"
  {
  }

  lemma Slice2000()
    ensures "BVZ-House-Picam2000_02_05_01_10_00"[15..34] == "2000_02_05_01_10_00"
  {
    Middle("BVZ-House-Picam", "2000_02_05_01_10_00", "");
    Spell2000();
  }

  lemma Parse2000()
    ensures ParseTsWindow("2000_02_05_01_10_00") == Ok(ToTime(Civil(2000, 2, 5, 1, 10, 0)))
  {
    Fields20000205011000();
  }

  /// utils/main_test.go: "BVZ-House-Picam2000_02_05_01_10_00" resolves to Civil(2000, 2, 5, 1, 10, 0).
  lemma FileVector2000()
    ensures GetTimeFromFileTimestamp("BVZ-House-Picam2000_02_05_01_10_00") == Ok(ToTime(Civil(2000, 2, 5, 1, 10, 0)))
  {
    Find2000();
    Slice2000();
    Parse2000();
  }

  /// A name whose leftmost window is not a date-time and whose second one is.
  const TwoWindows: string := "2016_13_08_10_10_00" + "_" + "2016_06_08_10_10_00"

  lemma SliceNoRetry()
    ensures |TwoWindows| == 39
    ensures TwoWindows[0..19] == "2016_13_08_10_10_00"
    ensures TwoWindows[20..39] == "2016_06_08_10_10_00"
  {
  }

  lemma ParseMonth13()
    ensures ParseTsWindow("2016_13_08_10_10_00").Err?
  {
    Fields20161308101000();
  }

  /// A leftmost match that is not a real date-time is an error, even when a
  /// later match parses: there is no retry.
  lemma FindNoRetry()
    ensures FindTs(TwoWindows) == Some(0)
    ensures MatchesAt(TwoWindows, 20)
  {
    SliceNoRetry();
    Window20161308101000();
    Window20160608101000();
    MatchOfSlice(TwoWindows, 0);
    MatchOfSlice(TwoWindows, 20);
    LeftmostAt(TwoWindows, 0);
  }

  lemma NoRetryOnLaterMatch()
    ensures MatchesAt(TwoWindows, 20)
    ensures TwoWindows[20..39] == "2016_06_08_10_10_00"
    ensures ParseTsWindow("2016_06_08_10_10_00").Ok?
    ensures GetTimeFromFileTimestamp(TwoWindows).Err?
  {
    FindNoRetry();
    SliceNoRetry();
    ParseMonth13();
    Parse2016();
  }

  lemma MonthZeroRejected()
    ensures ParseTsWindow("2016_00_08_10_10_00").Err?
  {
    Fields20160008101000();
  }

  lemma DayZeroRejected()
    ensures ParseTsWindow("2016_06_00_10_10_00").Err?
  {
    Fields20160600101000();
  }

  /// 2015 is not a leap year.
  lemma February29In2015Rejected()
    ensures ParseTsWindow("2015_02_29_10_10_00").Err?
  {
    Fields20150229101000();
  }

  /// 2016 is a leap year.
  lemma February29In2016Accepted()
    ensures ParseTsWindow("2016_02_29_10_10_00") == Ok(ToTime(Civil(2016, 2, 29, 10, 10, 0)))
  {
    Fields20160229101000();
  }

  lemma April31Rejected()
    ensures ParseTsWindow("2016_04_31_10_10_00").Err?
  {
    Fields20160431101000();
  }

  lemma HourTwentyFourRejected()
    ensures ParseTsWindow("2016_06_08_24_00_00").Err?
  {
    Fields20160608240000();
  }

  lemma ExifSpell2016()
    ensures ExifString(Civil(2016, 6, 8, 10, 10, 0)) == "2016:06:08 10:10:00"
  {
  }

  /// utils/main_test.go: "2016:06:08 10:10:00" parses to Civil(2016, 6, 8, 10, 10, 0).
  lemma ExifVector2016()
    ensures ParseExifDatetime("2016:06:08 10:10:00") == Ok(ToTime(Civil(2016, 6, 8, 10, 10, 0)))
  {
    ExifSpell2016();
    ParseExifString(Civil(2016, 6, 8, 10, 10, 0));
  }

  lemma ExifSpell1998()
    ensures ExifString(Civil(1998, 6, 8, 10, 10, 0)) == "1998:06:08 10:10:00"
  {
  }

  /// utils/main_test.go: "1998:06:08 10:10:00" parses to Civil(1998, 6, 8, 10, 10, 0).
  lemma ExifVector1998()
    ensures ParseExifDatetime("1998:06:08 10:10:00") == Ok(ToTime(Civil(1998, 6, 8, 10, 10, 0)))
  {
    ExifSpell1998();
    ParseExifString(Civil(1998, 6, 8, 10, 10, 0));
  }

  lemma ExifSpell2012()
    ensures ExifString(Civil(2012, 6, 8, 10, 10, 0)) == "2012:06:08 10:10:00"
  {
  }

  /// utils/main_test.go: "2012:06:08 10:10:00" parses to Civil(2012, 6, 8, 10, 10, 0).
  lemma ExifVector2012()
    ensures ParseExifDatetime("2012:06:08 10:10:00") == Ok(ToTime(Civil(2012, 6, 8, 10, 10, 0)))
  {
    ExifSpell2012();
    ParseExifString(Civil(2012, 6, 8, 10, 10, 0));
  }

  lemma ExifSpell2000()
    ensures ExifString(Civil(2000, 2, 5, 1, 10, 0)) == "2000:02:05 01:10:00"
  {
  }

  /// utils/main_test.go: "2000:02:05 01:10:00" parses to Civil(2000, 2, 5, 1, 10, 0).
  lemma ExifVector2000()
    ensures ParseExifDatetime("2000:02:05 01:10:00") == Ok(ToTime(Civil(2000, 2, 5, 1, 10, 0)))
  {
    ExifSpell2000();
    ParseExifString(Civil(2000, 2, 5, 1, 10, 0));
  }

  /// Go's parser is more lenient than the layout: a layout space matches
  /// any run of spaces, the hour may have one digit, and fractional seconds
  /// are accepted (and dropped).
  lemma SpellTwoSpaces()
    ensures ExifText(Civil(2016, 6, 8, 10, 10, 0), 2, Pad2(10), "") == "2016:06:08  10:10:00"
  {
  }

  lemma ExifTwoSpaces()
    ensures ParseExifDatetime("2016:06:08  10:10:00") == Ok(ToTime(Civil(2016, 6, 8, 10, 10, 0)))
  {
    var c := Civil(2016, 6, 8, 10, 10, 0);
    SpellTwoSpaces();
    ParseExifLenient(c, 2, Pad2(10), "");
  }

  lemma SpellOneDigitHour()
    ensures ExifText(Civil(2000, 2, 5, 1, 10, 0), 1, "1", "") == "2000:02:05 1:10:00"
  {
  }

  lemma ExifOneDigitHour()
    ensures ParseExifDatetime("2000:02:05 1:10:00") == Ok(ToTime(Civil(2000, 2, 5, 1, 10, 0)))
  {
    var c := Civil(2000, 2, 5, 1, 10, 0);
    SpellOneDigitHour();
    ParseExifLenient(c, 1, "1", "");
  }

  lemma SpellFraction()
    ensures ExifText(Civil(2016, 6, 8, 10, 10, 0), 1, Pad2(10), ".25") == "2016:06:08 10:10:00.25"
  {
  }

  lemma ExifFraction()
    ensures ParseExifDatetime("2016:06:08 10:10:00.25") == Ok(ToTime(Civil(2016, 6, 8, 10, 10, 0)))
  {
    var c := Civil(2016, 6, 8, 10, 10, 0);
    SpellFraction();
    ParseExifLenient(c, 1, Pad2(10), ".25");
  }

  lemma SpellTrailing()
    ensures ExifText(Civil(2016, 6, 8, 10, 10, 0), 1, Pad2(10), " UTC") == "2016:06:08 10:10:00 UTC"
  {
  }

  lemma ExifTrailingTextRejected()
    ensures ParseExifDatetime("2016:06:08 10:10:00 UTC").Err?
  {
    var c := Civil(2016, 6, 8, 10, 10, 0);
    SpellTrailing();
    ExifExtraTextRejected(c, " UTC");
  }

  lemma SpellMissingDay()
    ensures ExifText(Civil(2016, 2, 30, 10, 10, 0), 1, Pad2(10), "") == "2016:02:30 10:10:00"
  {
  }

  lemma ExifMissingDayRejected()
    ensures ParseExifDatetime("2016:02:30 10:10:00").Err?
  {
    var c := Civil(2016, 2, 30, 10, 10, 0);
    SpellMissingDay();
    ParseExifLenient(c, 1, Pad2(10), "");
  }

  lemma ExifDashesRejected()
    ensures ParseExifDatetime("2016-06-08 10:10:00").Err?
  {
    var s := "2016-06-08 10:10:00";
    assert s[..4] == "2016" && s[4] == '-';
  }

  lemma SpellTSeparator()
    ensures YearString(2016) + (":" + (Pad2(6) + (":" + (Pad2(8) + "T10:10:00")))) == "2016:06:08T10:10:00"
  {
  }

  lemma ExifTSeparatorRejected()
    ensures ParseExifDatetime("2016:06:08T10:10:00").Err?
  {
    var c := Civil(2016, 6, 8, 10, 10, 0);
    var rest := "T10:10:00";
    YearStep(c, Pad2(6) + (":" + (Pad2(8) + rest)));
    MonthStep(c, Pad2(8) + rest);
    DayStep(c, rest);
    SpellTSeparator();
  }

  lemma ExifEmptyRejected()
    ensures ParseExifDatetime("").Err?
  {
  }
}
