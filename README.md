# go-timestreamtools: a verified model of the stream tools' core

go-timestreamtools is a set of small Go command-line programs. They pass
time-stamped camera images along a shell pipeline: one tool's standard
output is the next tool's standard input. This project models in Dafny the
logic under their file I/O, and proves what that logic promises:

- **tsarchive**: the weekly archive router. Each image is put in the
  seven-day bucket of its filename timestamp, counted from Go's zero time
  (0001-01-01T00:00:00Z, a Monday). One `.tar` file and one tar writer per
  bucket are opened on first use, in a map held by the program. Each routed
  file adds one entry to its bucket's archive. At the end every writer, then
  every file, is closed. The state is the class `TsArchive.Archiver`.
- **Timestamps**: the filename timestamp rule shared by utils, tsarchive,
  tsorganize and tsselect. It takes the leftmost 19-character match of the
  timestamp pattern and parses it with the `2006_01_02_15_04_05` layout,
  with calendar validation. Also modelled: the EXIF date-time parser, and
  the test file's concrete vectors for both.
- **Names and intervals**:
  - tsalign aligns timestamps down to an interval and rewrites names; its
    stdin run skips a destination once one of its own visits has left a
    file there.
  - tsselect filters by an open time interval.
  - tsrename and tsorganize build destination paths.
  - tscrop and tsresize parse points, sort corners, lay out the tile grid
    and name outputs.
- **Stream protocol**:
  - the JSON/msgpack `Handle` loop, with cleanup records, skipped decode
    errors, the early return on a handler error and deferred cleanups run
    last-first;
  - `Emit` and the `EmitCleanup` marker;
  - the two stdin loops of the tools' `main` functions: stat-and-visit-once,
    and the path loop that visits each line twice.

Time is modelled as whole seconds since Go's zero time, in UTC, on the
proleptic Gregorian calendar (`Calendar`). `path.Clean`, `Join`, `Base`,
`Ext` and `Dir` are modelled in `GoPath`. The strings functions and
`strconv.Atoi` are in `Strings`. Effects the tools meet are parameters of
the model. These are file-system results, `filepath.Abs`, `os.Stat`,
`time.Now`, `ioutil.TempDir`, and what Go's map iteration order gives.

What `tsarchive/tsarchive.go` does with its archives, as modelled:
- each archive is named after the start of its bucket;
- `os.Create` truncates an existing archive of the same name;
- a failed create panics and ends the program;
- nothing is deduplicated, and no source file is deleted.

tsalign's usage text says both that chronologically earlier images are kept
and that a 10:03 image overwrites a 10:02 one. The code does neither: a
visit whose destination already exists is skipped, so the image that
reaches a destination first is kept, whatever its time (`TsAlign.FirstKept`).

## Model

| member | source | states |
|---|---|---|
| Calendar.FromTime | utils/main.go:27 | every time has valid UTC calendar fields, and they convert back to that time |
| Calendar.FromToTime | utils/main.go:356-361 | a valid civil date-time converted to seconds and back is unchanged |
| Calendar.ToTimeInjective | utils/main.go:356-361 | two valid civil date-times with the same seconds are equal |
| Calendar.TruncateBounds | tsalign/tsalign.go:25 | for d > 0, Truncate(t, d) is a multiple of d, at most t, more than t − d, and truncating again changes nothing |
| Calendar.TruncateMono | tsarchive/tsarchive.go:91-93 | Truncate is monotone for a positive divisor |
| Calendar.TruncateSameIff | tsarchive/tsarchive.go:91-93 | two times truncate alike iff their floor quotients by d are equal |
| Timestamps.FindTs | utils/main.go:350-354 | the index found is a pattern match with no match before it; None means no match anywhere |
| Timestamps.ParseTsWindow | utils/main.go:356-360 | a matched window parses iff its fields are a real date-time, to that date-time's seconds |
| Timestamps.GetTimeFromFileTimestamp | utils/main.go:349-361 | the regex match then time.Parse of TsForm; its properties are stated by FindTs, LeftmostWindowDecides, ParseTsWindow and the TimestampVectors lemmas |
| Timestamps.LeftmostWindowDecides | utils/main.go:349-361 | no match is an error; otherwise the result is the parse of the leftmost window alone |
| Timestamps.FormatParsedWindow | utils/main.go:27 | formatting a parsed window with TsForm gives back the 19 matched characters |
| Timestamps.ParseFormattedTs | utils/main.go:27 | for a four-digit year, TsForm output matches the pattern and parses back to the same time |
| Timestamps.FirstOccurrenceIsLeftmostMatch | tsalign/tsalign.go:27 | the first occurrence of the formatted parsed time in a path is the leftmost match it was read from |
| Timestamps.MatchInside | utils/main.go:350 | a window written between two strings is a match at its position |
| Timestamps.ParseExifDatetime | utils/main.go:288-294 | time.Parse with the EXIF layout; an accepted date-time has a year of 0 to 9999, and ParseExifLenient with ExifAcceptedShape state exactly which strings it accepts |
| Timestamps.ParseExifLenient | utils/main.go:288-294 | "YYYY:MM:DD", one or more spaces, a 1- or 2-digit hour, ":mm:ss" and an optional fraction parse to that time exactly when the day exists |
| Timestamps.ExifAcceptedShape | utils/main.go:288-294 | conversely, every accepted string is "YYYY:MM:DD", one or more spaces, a 1- or 2-digit hour, ":mm:ss" and an optional fraction, with fields in range and a day that exists, and it parses to that date-time |
| Timestamps.ParseExifString | utils/main.go:288-294 | every valid date-time with a four-digit year, written "YYYY:MM:DD hh:mm:ss", parses to itself |
| Timestamps.ExifExtraTextRejected | utils/main.go:288-294 | text after the seconds that does not start a fraction (with "." or ",") is an error |
| TimestampVectors.FileVector2016 | utils/main_test.go:19-23 | "BVZ-House-Picam_2016_06_08_10_10_00.jpg" gives 2016-06-08 10:10:00 UTC |
| TimestampVectors.FileVector1998 | utils/main_test.go:25-29 | "_1998_06_08_10_10_00.jpgBVZ-House-Picam" gives 1998-06-08 10:10:00 UTC |
| TimestampVectors.FileVector2012 | utils/main_test.go:30-34 | "BVZ-House-Picam2012_06_08_10_10_00" gives 2012-06-08 10:10:00 UTC |
| TimestampVectors.FileVector2000 | utils/main_test.go:35-39 | "BVZ-House-Picam2000_02_05_01_10_00" gives 2000-02-05 01:10:00 UTC |
| TimestampVectors.NoRetryOnLaterMatch | utils/main.go:350-360 | a name whose leftmost match has month 13 fails, though a later match is a valid time |
| TimestampVectors.MonthZeroRejected | utils/main.go:356-360 | month 00 is rejected |
| TimestampVectors.DayZeroRejected | utils/main.go:356-360 | day 00 is rejected |
| TimestampVectors.February29In2015Rejected | utils/main.go:356-360 | 29 February of a common year is rejected |
| TimestampVectors.February29In2016Accepted | utils/main.go:356-360 | 29 February of a leap year is accepted |
| TimestampVectors.April31Rejected | utils/main.go:356-360 | a day past the month's end is rejected |
| TimestampVectors.HourTwentyFourRejected | utils/main.go:356-360 | hour 24 is rejected |
| TimestampVectors.ExifVector2016 | utils/main_test.go:19-23 | "2016:06:08 10:10:00" gives 2016-06-08 10:10:00 UTC |
| TimestampVectors.ExifVector1998 | utils/main_test.go:25-29 | "1998:06:08 10:10:00" gives 1998-06-08 10:10:00 UTC |
| TimestampVectors.ExifVector2012 | utils/main_test.go:30-34 | "2012:06:08 10:10:00" gives 2012-06-08 10:10:00 UTC |
| TimestampVectors.ExifVector2000 | utils/main_test.go:35-39 | "2000:02:05 01:10:00" gives 2000-02-05 01:10:00 UTC |
| TimestampVectors.ExifTwoSpaces | utils/main.go:288-294 | two spaces between date and time are accepted |
| TimestampVectors.ExifOneDigitHour | utils/main.go:288-294 | a one-digit hour is accepted |
| TimestampVectors.ExifFraction | utils/main.go:288-294 | fractional seconds are accepted and dropped |
| TimestampVectors.ExifTrailingTextRejected | utils/main.go:288-294 | a trailing " UTC" is rejected |
| TimestampVectors.ExifMissingDayRejected | utils/main.go:288-294 | 30 February is rejected |
| TimestampVectors.ExifDashesRejected | utils/main.go:288-294 | '-' date separators are rejected |
| TimestampVectors.ExifTSeparatorRejected | utils/main.go:288-294 | a 'T' between date and time is rejected |
| TimestampVectors.ExifEmptyRejected | utils/main.go:288-294 | the empty string is rejected |
| Stream.PermissionValues | utils/main.go:42-99 | OsUserRW\|OsGroupRW = 0o660, OsAllRW = 0o666, OsAllRWX = 0o676 (not 0o777), and the three RWX sets together are 0o777 |
| Stream.Retype | tscrop/tscrop.go:176-179 | the new base ends in "." + ext, and the stem put back with the old extension is the old base |
| Stream.RetypedBasePlain | tsresize/tsresize.go:123-126 | the retyped base name is a single path element |
| Stream.Emit | utils/main.go:114-125 | the output is a line iff the format is "path", holding the path; a msgpack record iff it is "msgpack"; otherwise a record holding the image |
| Stream.EmitCleanup | utils/main.go:139-152 | "json"/"msgpack" write a record holding only the directory; any other format writes the line "#-" + dir |
| Stream.CleanupRoundTrip | utils/main.go:139-152 | a reader recovers the cleanup directory in every format, "#-" stripped with TrimPrefix |
| Stream.EmitRoundTrip | utils/main.go:114-125 | an emitted image reaches the reader as that image, or as its path in path format |
| Stream.Run | utils/main.go:160-191 | images given to the handler never carry a cleanup path; calls plus cleanups are at most the records read |
| Stream.ReversedIndex | utils/main.go:175 | element k of the reversed stack is element n − 1 − k of the stack |
| Stream.Mapped | tsrename/tsrename.go:176-190 | one result per item, the k-th being f of the k-th item |
| Stream.RunDeferred | utils/main.go:175 | deferred calls run in reverse order |
| Stream.Handle | utils/main.go:160-191 | the loop returns Run's error, calls the handler on exactly Run's images, and passes Run's cleanup paths to cleanupFn in reverse arrival order |
| Stream.RunWithoutStop | utils/main.go:160-191 | with no EOF and no handler error, every decoded non-cleanup image is handled, every cleanup deferred, and nil returned |
| Stream.RunAppend | utils/main.go:162-189 | records before the first stop contribute their calls and cleanups ahead of the rest of the run |
| Stream.EofEndsStream | utils/main.go:178-180 | nothing after an EOF matters |
| Stream.HandlerErrorEndsStream | utils/main.go:185-188 | nothing after a record whose handler fails matters |
| Stream.MalformedSkipped | utils/main.go:181-184 | a decode error other than EOF is skipped |
| Stream.FirstErrorReturned | utils/main.go:185-188 | a returned error is the last handler call's; every earlier call succeeded |
| Stream.StatVisits | tsrename/tsrename.go:176-190 | every visited line is not a "[" line and stats to the info it is visited with |
| Stream.ScanStat | tsrename/tsrename.go:176-190 | the stat loop visits exactly StatVisits(lines) |
| Stream.StatVisitsComplete | tsselect/tsselect.go:240-254 | every non-"[" line that can be stat'ed is visited |
| Stream.PathVisits | tsalign/tsalign.go:177-203 | no "[" line is ever visited |
| Stream.ScanPaths | tsalign/tsalign.go:177-203 | the path loop visits exactly PathVisits(lines), and the "#-" directories are removed in reverse arrival order |
| Stream.PathVisitsCount | tsalign/tsalign.go:177-203 | the visits number twice the plain lines plus the "#-" lines ("[" lines add none), and there is one removal per "#-" line |
| Stream.PathVisitsAppend | tsalign/tsalign.go:177-203 | the visits of two runs of lines are the first run's visits followed by the second's |
| Stream.PlainLineVisits | tsalign/tsalign.go:185-202 | a plain path line is visited twice in a row, right after the visits of the lines before it |
| Stream.PathStepsSplit | tscrop/tscrop.go:348-377 | the loop's steps in order, read apart, are exactly PathVisits and the deferred "#-" directories PathMarkers |
| Stream.PathStepsAppend | tscrop/tscrop.go:348-377 | the steps of two runs of lines are the first run's steps followed by the second's |
| Stream.LineStepsSplit | tscrop/tscrop.go:352-376 | a "[" line visits nothing, a "#-" line defers its directory and visits once, a plain line visits twice |
| Stream.IsImageFile | tsarchive/tsarchive.go:100-103 | the shared extension switch (also tscrop/tscrop.go:168-174 and tsresize/tsresize.go:115-121): the lower-cased path.Ext is one of .jpeg, .jpg, .tif, .tiff, .cr2; ImageExtensionCase states how case is folded |
| Stream.ImageExtensionCase | tscrop/tscrop.go:168-174 | the extension test lowers case as Go's strings.ToLower does: ".JPG" and ".TİF" (U+0130 lowers to 'i') are images, ".png" is not |
| Strings.ToLower | tsarchive/tsarchive.go:101 | the length is kept and each character is lowered: 'A'–'Z' by 32, U+0130 to 'i', U+212A to 'k' |
| TsArchive.WeekStart | tsarchive/tsarchive.go:91-93 | the bucket key k satisfies k ≤ t < k + 7 days and is a multiple of 7 days |
| TsArchive.WeekStartIdempotent | tsarchive/tsarchive.go:91-93 | bucketing a bucket key gives the same key |
| TsArchive.WeekStartMono | tsarchive/tsarchive.go:91-93 | t1 ≤ t2 implies key(t1) ≤ key(t2) |
| TsArchive.SameWeekIff | tsarchive/tsarchive.go:91-93 | two times share a key iff their floor quotients by 7 days are equal |
| TsArchive.WeekStartIsMonday | tsarchive/tsarchive.go:91-93 | every bucket starts on a Monday, not a Sunday |
| TsArchive.TsText | tsarchive/tsarchive.go:81 | FindString gives "" or a 19-character match |
| TsArchive.NamePart | tsarchive/tsarchive.go:79-86 | -name only switches the prefix on: the base name without its extension and without the first occurrence of the timestamp; NameIgnoresFlagValue and UnnamedArchive state its properties |
| TsArchive.ArchiveBase | tsarchive/tsarchive.go:87-88 | fmt.Sprintf of "%s2006-01-02.tar" formatted at the bucket start, with the name prefix as argument; UnnamedArchive and ArchiveInOutputDir state its properties |
| TsArchive.NameIgnoresFlagValue | tsarchive/tsarchive.go:78-89 | any two non-empty -name values give the same archive name |
| TsArchive.UnnamedArchive | tsarchive/tsarchive.go:78-88 | without -name the archive is "YYYY-MM-DD.tar" of the bucket start |
| TsArchive.ArchiveInOutputDir | tsarchive/tsarchive.go:116-117 | the archive path's base is the archive name and its directory the output directory |
| TsArchive.AddedEntry | tsarchive/tsarchive.go:38-61 | a header is written iff Stat and WriteHeader succeed, with the base name and the stat size, mode and mtime |
| TsArchive.VisitIgnores | tsarchive/tsarchive.go:97-112 | directories, other extensions (compared after Go's strings.ToLower, so ".TİF" is an image) and names without a valid timestamp leave map, files and output unchanged |
| TsArchive.OpenedSpec | tsarchive/tsarchive.go:115-126 | a writer and a file are added only for an absent key; existing writers are kept |
| TsArchive.AddedSpec | tsarchive/tsarchive.go:128-137 | the entry goes at the end of its own archive and nothing else changes; the path is printed exactly when addFile returned nil |
| TsArchive.VisitRoutes | tsarchive/tsarchive.go:113-137 | a routed file panics iff its key is new and create fails; otherwise one key at most is added, one file exactly then, the entry goes at the end of its week only, and the print happens iff addFile returned nil (absolute path when Abs succeeds) |
| TsArchive.VisitKeepsWellFormed | tsarchive/tsarchive.go:95-139 | a visit keeps one writer per key, each on its own file, with as many files as writers |
| TsArchive.RouteKeepsWellFormed | tsarchive/tsarchive.go:113-137 | routing keeps the state well formed |
| TsArchive.VisitManyWellFormed | tsarchive/tsarchive.go:199-215 | any sequence of visits keeps the state well formed |
| TsArchive.Archiver.constructor | tsarchive/tsarchive.go:193 | the map, the file list and the output start empty |
| TsArchive.Archiver.Visit | tsarchive/tsarchive.go:95-139 | the new state and the panic flag are VisitStep of the old state |
| TsArchive.Archiver.RouteFile | tsarchive/tsarchive.go:108-137 | the new state is Route of the old state |
| TsArchive.Archiver.OpenWriter | tsarchive/tsarchive.go:115-126 | a panic iff the key is absent and create fails; otherwise the state is Opened of the old one |
| TsArchive.Archiver.AddToWriter | tsarchive/tsarchive.go:128-137 | the state is Added of the old one |
| TsArchive.Archiver.VisitAll | tsarchive/tsarchive.go:199-215 | the state after the loop is VisitMany of the old state, stopping at a panic |
| TsArchive.Archiver.CloseAll | tsarchive/tsarchive.go:218-225 | every writer is closed once, in the given map order, then every file in opening order |
| TsAlign.AlignedFilename | tsalign/tsalign.go:23-31 | the path with its first TsForm and first dirstruct occurrence replaced by the aligned time, joined under the output directory; AlignsDown, RenamedTsFirstOnly, RetargetedFirstOnly, ReplacesParsedWindow and DestinationInOutputDir state its properties |
| TsAlign.AlignsDown | tsalign/tsalign.go:25 | the aligned time is at most ts, less than one interval below it, and a multiple of the interval |
| TsAlign.DefaultIntervalAlignment | tsalign/tsalign.go:138 | with the 5-minute default, hh:mm:ss aligns to hh:(mm rounded down to 5):00 of the same day |
| TsAlign.AlreadyAlignedUnchanged | tsalign/tsalign.go:23-31 | an aligned timestamp leaves the path unchanged apart from the join |
| TsAlign.ZeroTimeAligned | tsalign/tsalign.go:25 | the zero time of an image without a timestamp is aligned |
| TsAlign.RenamedTsFirstOnly | tsalign/tsalign.go:27 | only the first TsForm occurrence is replaced; a path without one is kept |
| TsAlign.RetargetedFirstOnly | tsalign/tsalign.go:29 | only the first directory-structure occurrence is replaced |
| TsAlign.ReplacesParsedWindow | tsalign/tsalign.go:27 | for a timestamp read from the path, the replaced text is the leftmost match itself |
| TsAlign.DestinationInOutputDir | tsalign/tsalign.go:74 | the destination is the aligned base directly in the output directory |
| TsAlign.Visit | tsalign/tsalign.go:65-106 | skip iff the destination exists; a MkdirAll failure iff it does not and MkdirAll fails; a dupe iff the absolute paths agree; a write failure as the code checks it; a dupe or a move emits the image with Path set to the absolute destination |
| TsAlign.MadeIsStat | tsalign/tsalign.go:76-80 | a visit whose Stat finds the destination is skipped, which is how a destination made earlier in the run is treated |
| TsAlign.RunFrom | tsalign/tsalign.go:177-203 | one action per visited path, and the set of destinations made only grows |
| TsAlign.MadeSkipped | tsalign/tsalign.go:76-80 | every visit of a destination that already holds a file from the run is skipped |
| TsAlign.FirstKept | tsalign/tsalign.go:76-104 | once a move has left a file at a destination, every later visit with that destination is skipped: nothing is overwritten within a run |
| TsAlign.DistinctVisits | tsalign/tsalign.go:177-203 | while destinations are distinct and none was made before, each action is visit on its own |
| TsAlign.SecondVisitSkipped | tsalign/tsalign.go:185-202 | when the first visit of a plain line moves the file and leaves it at the destination, the line's second visit is skipped |
| TsAlign.AlignStdin | tsalign/tsalign.go:157-203 | "tmp" uses the temporary directory and emits its cleanup marker; the actions are one run over PathVisits that sees the files it has made; the "#-" directories are removed last-first (as main returns, before the cleanup marker, which was deferred first) |
| TsSelect.Zone | tsselect/tsselect.go:196 | the zone parser consumes at least one character, and a numeric offset lies within ±25 hours (hour at most 24, minute at most 60, as time.Parse checks) |
| TsSelect.ZoneOffset | tsselect/tsselect.go:202-216 | "±hh:mm" is accepted exactly when hh ≤ 24 and mm ≤ 60, giving (hh·60 + mm)·60 seconds east for '+' and west for '-' |
| TsSelect.ParseRfcUtc | tsselect/tsselect.go:202 | a valid UTC date-time written in RFC 3339 parses back to itself |
| TsSelect.UtcZone | tsselect/tsselect.go:196 | "Z" is offset 0 with nothing after it |
| TsSelect.ZoneExtraRejected | tsselect/tsselect.go:196 | text after the "Z" makes the parse fail |
| TsSelect.DefaultStartSpelling | tsselect/tsselect.go:196 | the default literal is 1970-01-01T00:00:00 followed by "Z00:00" |
| TsSelect.DefaultSpan | tsselect/tsselect.go:195-210 | the default start literal fails to parse, so the start is Go's zero time; the default end is now |
| TsSelect.InTimeSpan | tsselect/tsselect.go:116-119 | strictly after start and strictly before end; CheckFilePath and SelectedIff state how selection uses it |
| TsSelect.CheckFilePath | tsselect/tsselect.go:121-127 | (false, err) on a resolver error, else (inTimeSpan(t), nil) |
| TsSelect.Visit | tsselect/tsselect.go:129-142 | the path is printed iff it is not a directory and its time resolves strictly between start and end |
| TsSelect.SelectedIff | tsselect/tsselect.go:129-142 | a path is printed iff some visit of it was a file with a time strictly inside the span |
| TsSelect.SelectStdin | tsselect/tsselect.go:240-254 | the loop prints exactly Selected(StatVisits(lines)) |
| TsRename.NormalizedExt | tsrename/tsrename.go:33-39 | exactly ".jpeg" → ".jpg" and ".tiff" → ".tif", case-sensitive; others kept |
| TsRename.NormalizedExtIdempotent | tsrename/tsrename.go:33-39 | normalising twice is normalising once |
| TsRename.ParseFilename | tsrename/tsrename.go:25-45 | a resolver error is returned unchanged; otherwise the destination for the resolved time |
| TsRename.TargetNamePlain | tsrename/tsrename.go:40 | the target name is a single path element |
| TsRename.DestinationKeepsDir | tsrename/tsrename.go:31-42 | the destination's base is name_TS_00ext, and its directory is Join(outputDir, Dir(source)) |
| TsRename.TargetNameTimestamp | tsrename/tsrename.go:40 | the new name carries the timestamp right after "name_", and it parses back to the same time |
| TsRename.Visit | tsrename/tsrename.go:65-111 | skipped iff a directory, a ".json" file or a dotfile; a resolver error iff not skipped and the time does not resolve; a MkdirAll failure next; a dupe iff abs source = abs destination |
| TsRename.MovedToDestination | tsrename/tsrename.go:100-110 | a moved file goes to abs(dest), with its sidecar to abs(dest)+".json" when present, and newPath is printed whatever the moves did |
| TsRename.Renamed | tsrename/tsrename.go:176-190 | one visit per visited pair, in order |
| TsRename.RenameStdin | tsrename/tsrename.go:167-192 | the loop's actions are the visits of StatVisits(lines) |
| TsOrganize.ParseFilename | tsorganize/tsorganize.go:145-157 | a resolver error is returned unchanged; otherwise Join(outputDir, Format(ts, dirstruct), Base(file)) |
| TsOrganize.DirElemsPlain | tsorganize/tsorganize.go:249 | the four default directory elements are single path elements |
| TsOrganize.DirStructLayout | tsorganize/tsorganize.go:151-154 | joining the output directory with the default layout gives the clean output directory followed by the YYYY, YYYY_MM, YYYY_MM_DD and YYYY_MM_DD_hh elements |
| TsOrganize.DestinationKeepsBase | tsorganize/tsorganize.go:152-154 | the base name is never altered, and the directory is the timestamp's tree |
| TsOrganize.MoveFilebyCopy | tsorganize/tsorganize.go:41-66 | the source is removed iff -del, open, create and copy succeeded and abs source ≠ abs destination, just before the Close; nil iff every step succeeded |
| TsOrganize.MoveOrRename | tsorganize/tsorganize.go:159-175 | always nil; with -del a successful Rename only, else the copy's operations |
| TsOrganize.NoRemovalWithoutDel | tsorganize/tsorganize.go:58-64 | no removal without -del, nor when source and destination are the same file |
| TsOrganize.Visit | tsorganize/tsorganize.go:177-218 | skipped iff a directory or ".json"; a resolver error, a MkdirAll failure and a dupe each exactly in their case; a move prints newPath and moves the file, and then the sidecar iff it exists, to the absolute destination |
| TsOrganize.Organized | tsorganize/tsorganize.go:285-299 | one visit per visited pair, in order |
| TsOrganize.OrganizedMovesOnlyResolved | tsorganize/tsorganize.go:177-218 | only a resolvable non-sidecar file not yet in place is moved, and its destination is printed |
| TsOrganize.OrganizedSnoc | tsorganize/tsorganize.go:285-299 | one more pair adds its visit at the end |
| TsOrganize.OrganizeStdin | tsorganize/tsorganize.go:276-300 | the loop's actions are the visits of StatVisits(lines) |
| TsCrop.MinMax | tscrop/tscrop.go:40-49 | min ≤ max and {min, max} = {a, b} |
| TsCrop.MinMaxSymmetric | tscrop/tscrop.go:40-49 | the argument order does not matter |
| TsCrop.StringToPoint | tscrop/tscrop.go:220-235 | fewer than two parts is an error; success iff both parts convert, to those values |
| TsCrop.StringToPointRoundTrip | tscrop/tscrop.go:220-235 | "x<sep>y" parses to (x, y) for 64-bit coordinates |
| TsCrop.PointTextRoundTrip | tscrop/tscrop.go:220-235 | "%d,%d" of a point parses back to it |
| TsCrop.ExtraPartsIgnored | tscrop/tscrop.go:220-235 | parts after the second do not change the point |
| TsCrop.GoQuo | tscrop/tscrop.go:304-308 | Go's truncating `/`: the remainder has the dividend's sign and is smaller than the divisor |
| TsCrop.GoQuoUnique | tscrop/tscrop.go:304-308 | those properties fix the quotient |
| TsCrop.OutputType | tscrop/tscrop.go:255-274 | "tif" iff tiff, tiff-deflate or tiff-none; "png" iff png; otherwise "jpeg", exactly with the quality-95 JPEG encoder; uncompressed TIFF iff tiff-none |
| TsCrop.Setup | tscrop/tscrop.go:275-309 | a bad -c1 panics; a bad -c2 panics outside centre mode; exit 2 iff the corners coincide outside centre mode; a zero grid part divides by zero; Ready has the corners sorted componentwise and the chunk (c2 − c1)/grid, or c1/grid in centre mode, with Go's division |
| TsCrop.ReadyChunk | tscrop/tscrop.go:287-305 | outside centre mode the area is non-empty and ordered, and a positive grid divides it rounding down |
| TsCrop.TileAt | tscrop/tscrop.go:96-97 | the k-th tile is at (k / grid.y, k % grid.y) |
| TsCrop.GridTiles | tscrop/tscrop.go:96-97 | one tile per goroutine the loops start |
| TsCrop.TileAtPosition | tscrop/tscrop.go:96-103 | tile (x, y) is started at step x·grid.y + y, anchored at (chunk.X·x, chunk.Y·y) |
| TsCrop.TileJobs | tscrop/tscrop.go:96-144 | the nested loops start exactly GridTiles, in order |
| TsCrop.Int32 | tscrop/tscrop.go:94 | the counter value is in the int32 range, congruent to the product modulo 2^32, and the product itself when that is in range |
| TsCrop.WaitGroupRun | tscrop/tscrop.go:93-145 | with the int32 counter of grid.x·grid.y: Wait returns iff it equals the goroutines started; Add panics iff it is negative; a Done panics iff it is smaller; Wait deadlocks iff it is larger |
| TsCrop.WaitGroupCases | tscrop/tscrop.go:93-145 | a positive grid below 2^31 tiles runs; two negative coordinates deadlock; 46341×46341 wraps negative and Add panics; 65536×65536 wraps to 0 and a Done panics |
| TsCrop.TilesInsideArea | tscrop/tscrop.go:103-105 | column x spans [chunk·x, chunk·(x+1)] within the width, before any later column |
| TsCrop.TileWithinArea | tscrop/tscrop.go:100-105 | every started tile lies inside the crop area |
| TsCrop.Printf | tscrop/tscrop.go:123 | fmt.Sprintf with one string argument; PrintfLiteral, PrintfVerb and FormatPattern state how it treats text, "%%", verbs and the MISSING, NOVERB and EXTRA notices |
| TsCrop.PrintfLiteral | tscrop/tscrop.go:123 | text without a '%' passes through fmt.Sprintf unchanged |
| TsCrop.PrintfVerb | tscrop/tscrop.go:123 | a one-character directive: "%%" gives '%', a verb after the argument is used gives "%!c(MISSING)", otherwise the verb's text of the argument |
| TsCrop.FormatPattern | tscrop/tscrop.go:122-123 | a "%s" between '%'-free text is replaced by the argument and nothing is appended |
| TsCrop.TilePath | tscrop/tscrop.go:122-123 | Sprintf of the pattern Join(outputDir, "%s", newBase) built at tscrop/tscrop.go:180 with the tile's "x,y"; TilePathLayout, TilePathNameDirective and TilePathDirDirective state the resulting path |
| TsCrop.TilePathLayout | tscrop/tscrop.go:122-123 | when neither the output directory nor the name holds a '%', a tile keeps the retyped name, in the "x,y" directory of the output directory |
| TsCrop.TilePathNameDirective | tscrop/tscrop.go:122-123 | a directive in the name leaves the tile's directory alone and rewrites the name: "%%" to '%', any other verb to "%!c(MISSING)" |
| TsCrop.TilePathDirDirective | tscrop/tscrop.go:122-123 | a directive in the output directory takes the "x,y" text, and the "%s" meant for it becomes "%!s(MISSING)", so every tile gets the same path |
| TsCrop.CropDirNamePlain | tscrop/tscrop.go:334-340 | the crop directory name is a single path element |
| TsCrop.CropOutputDirLayout | tscrop/tscrop.go:323-340 | the output directory is "x1,y1-x2,y2" (or "w,h" in centre mode) below -output or the temporary directory |
| TsCrop.TileRecord | tscrop/tscrop.go:124-130 | a tile record has an empty Path, the tile's bytes, the source's times, and the command line appended to its list |
| TsCrop.TilePrintsEmptyPath | tscrop/tscrop.go:124-140 | with -outfmt path a tile prints an empty line |
| TsCrop.TileResults | tscrop/tscrop.go:98-142 | one result per tile, written to the Sprintf-formatted tile path and emitted iff it was encoded |
| TsCrop.Visit | tscrop/tscrop.go:166-188 | non-image files (by Go's lower-cased extension) ignored; a load failure crops nothing; a WaitGroup panic or deadlock halts with that outcome; otherwise the tile results |
| TsCrop.CropStepsMeaning | tscrop/tscrop.go:348-377 | no halt iff no visited path halts; without one, the actions are the visits of every visited path and the deferred removals all of the steps'; with one, the last action is that halt and none before it halted |
| TsCrop.HaltedStays | tscrop/tscrop.go:93-145 | once a visit has stopped the program, later lines change nothing |
| TsCrop.HaltFirst | tscrop/tscrop.go:348-377 | the first halting visit ends the run: the earlier actions and it, and only the removals deferred before it |
| TsCrop.RunWithoutHalt | tscrop/tscrop.go:348-377 | without a halt the actions are visit of PathVisits(lines), one by one, and the deferred removals PathMarkers(lines) |
| TsCrop.ScanUntilHalted | tscrop/tscrop.go:348-377 | the loop over the two halves of each line computes the steps' run and stops scanning at the first halt |
| TsCrop.CropStdin | tscrop/tscrop.go:321-377 | the actions are the run into the crop directory; the "#-" directories deferred before any halt are removed last-first, and "tmp" emits the cleanup marker, exactly when main returns or wg.Add panics; a deadlock or a goroutine's panic runs neither |
| TsResize.StringToPoint | tsresize/tsresize.go:163-175 | the first part is converted first; out-of-range indexing iff it converts and there is no second part; success iff both convert |
| TsResize.ResolutionRoundTrip | tsresize/tsresize.go:163-175 | "WxH" parses to (W, H) |
| TsResize.MissingSeparatorPanics | tsresize/tsresize.go:170 | a number without "x" reads past the end of the parts |
| TsResize.ExtraPartsIgnored | tsresize/tsresize.go:163-175 | parts after the second do not change the point |
| TsResize.OutputType | tsresize/tsresize.go:189-208 | jpg → "jpg"; tiff, tiff-deflate, tiff-none → "tif"; png → "png"; anything else → "jpg" with quality 95 |
| TsResize.Setup | tsresize/tsresize.go:209-219 | an empty -res exits 2 before parsing; otherwise the resolution or the parse's failure |
| TsResize.ConvertImage | tsresize/tsresize.go:56-97 | only Data may change; an image without bytes takes the file's bytes once open and read succeed, and keeps them when decode or encode then fails; the encoded bytes replace Data exactly when decode and encode succeed; an unreadable empty image is an error and unchanged |
| TsResize.NewPathLayout | tsresize/tsresize.go:123-127 | the new path is the retyped base directly in the output directory |
| TsResize.Visit | tsresize/tsresize.go:113-141 | non-image files (by Go's lower-cased extension) ignored; a conversion error writes and emits nothing; otherwise Path is set to the new path before the write and the emit |
| TsResize.WrittenPrintsNewPath | tsresize/tsresize.go:134-138 | with -outfmt path a converted image prints its new path |
| TsResize.UnreadableNotWritten | tsresize/tsresize.go:56-67 | an empty image that cannot be opened or read is a logged error |
| TsResize.LoadedImageNotReread | tsresize/tsresize.go:57 | an image with bytes is never read from disc |
| TsResize.Resized | tsresize/tsresize.go:250-277 | one visit per path, in order |
| TsResize.ResizeStdin | tsresize/tsresize.go:231-277 | "tmp" emits the cleanup marker; the visits are PathVisits; the "#-" directories are removed last-first (as main returns, before the cleanup marker, which was deferred first) |

## Left out

- Pixel work: decoding, encoding, resizing and cropping (`image.Decode`, bild `transform`/`imgio`, `cutter.Crop`, `x/image/tiff`). These are foreign libraries. Their outcomes are parameters (`ConvertIo`, `CropIo`).
- The goroutines of tscrop's `cropImage`: tiles are modelled as run one after another, in the order they are started. The race on the shared `err` is not modelled.
- The JSON and msgpack encoders and decoders, goexif, and the JSON sidecar read. Records are abstract values, and `Handle` reads an abstract sequence of decoded records.
- File-system and process effects. These are `os.Create`, `Open`, `Stat`, `Rename`, `Remove`, `MkdirAll`, `RemoveAll`, `ioutil.TempDir`, `os.Exit` and `panic`. Their outcomes are parameters or results of the model. `filepath.Abs` is an uninterpreted function.
- `filepath.Walk` (the `-source` mode of every tool): only the stdin loops are modelled.
- `time.Now`: tsselect's default end is a parameter.
- The byte layout of tar archives: an archive is its sequence of entries.
- Go's general `time.Format` engine: only `2006_01_02_15_04_05`, the default directory structure and `2006-01-02` are modelled.
- fuzzytime: tsselect's start and end are given as the extracted ISO text, if any. Any other `-dirstruct` layout in tsorganize is left out too.
- Sub-second times and durations: times are whole seconds, and the tsalign interval is a whole number of seconds.
- `GetTimeFromExif` (file and sidecar I/O): the `-exif` time source is the `resolve` parameter.
- `LoadImage` and `WriteImageToFile`, which are file I/O: `LoadImage` is the `load` parameter, and the write's result is ignored as in the code.
- utils `MoveFilebyCopy` (utils/main.go:365-387) is plain I/O and is not modelled; for tsalign only whether it gets as far as creating the destination is, as `AlignIo.createOk`. tsrename calls a three-argument version, and `utils.EmitPath`; neither is defined in utils/main.go. For tsrename, `moveOrRename` is modelled only as the moves attempted, with nil returned.
- Usage text, flag registration and log messages.
- `Handle` with an input format other than json/msgpack: tsalign, tscrop and tsresize pass any `-infmt` other than "path" to it, and Go then calls the handler on an empty `Image{}` until the handler returns an error. `Run` takes a finite sequence of decoded records and cannot express that endless loop.
- Stream.Run, Stream.Handle: a decode error affects one record only. encoding/json's Decoder keeps a syntax error (or an unexpected EOF) and returns it on every later call, so on such input Go's `Handle` logs the same error forever; only errors after a complete value are really skipped.
- Strings.ToLower: only the characters whose lower case is ASCII are lowered ('A'–'Z', U+0130 and the Kelvin sign U+212A); every other character is kept. That is exact for the image-extension tests it serves, which compare with ASCII extensions.
- TsCrop.TilePath: fmt.Sprintf is modelled for literal text, "%%", one-character verbs, a missing verb and an unused argument; flags, width and precision are skipped (a width past 10^6 drops the rest, as fmt does) but their effect on the output is not modelled, nor `*` widths, `[n]` argument indexes or %q escaping.
- TsCrop.Setup, TsCrop.TileWithinArea: the corner differences, quotients and tile anchors of tscrop.go:87-103 and 304-308 are int64 in Go and can wrap; here they are unbounded integers.
- TsCrop.WaitGroupRun: when a goroutine's Done panics, tiles that finished before the crash may already be written; the model records only the halt.
- TsCrop.CropStdin, TsResize.ResizeStdin: both visits of a plain line get the same file-system outcome. Neither tool checks for an existing destination, so the second visit writes the same files again.
- Stream.StatVisits: the stat result is a function of the line's text, so when a path appears on two lines the second stat does not see that tsrename or tsorganize has already moved the file.
- TsAlign.LeavesFile: a failed `ioutil.WriteFile` is taken to leave no file behind, and a copy by MoveFilebyCopy leaves one as soon as `os.Create` succeeds.
- TsResize.ConvertImage, TsCrop.Visit: in both tools the read errors after `os.Open` and `ReadFrom` are shadowed by a bare `return` inside an inner block, which gc refuses to compile. They are modelled as the evidently intended failure: a conversion error in tsresize, nothing cropped in tscrop.
- TsArchive.AddIo, TsArchive.Archiver.Visit: each file's outcome is a free parameter, independent of what happened before on the same writer. After an `io.Copy` fails part-way (tsarchive/tsarchive.go:56), Go's `tar.Writer` fails every later `WriteHeader` on that week's archive ("missed writing N bytes"), so those files are neither added nor printed. The model does not tie them to the earlier failure; every property it proves holds for any sequence of outcomes.
- TsArchive.Archiver.CloseAll: the order in which `range` visits Go's map is unspecified, so it is a parameter: any listing of the keys, each once.
- TsCrop.StringToPoint, TsResize.StringToPoint: `strconv.Atoi` is modelled for decimal text with an optional sign and the 64-bit range. Error messages are not Go's exact text.
- Timestamps.ParseExifDatetime: the model follows Go's `time.Parse`, which accepts more than "YYYY:MM:DD hh:mm:ss". It allows any run of spaces, a one-digit hour and a fraction; the fraction is dropped.
