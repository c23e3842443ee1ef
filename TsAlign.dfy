/// tsalign (tsalign/tsalign.go): moves each image to a name whose
/// timestamp is rounded down to a fixed interval.
module TsAlign {
  import opened Results
  import opened Strings
  import opened GoPath
  import opened Calendar
  import opened Timestamps
  import opened Stream

  /// The -interval default, time.Minute * 5, in seconds.
  const DefaultInterval: int := 5 * Minute

  // ---------------------------------------------------------------------
  // alignedFilename

  /// The first TsForm occurrence of the timestamp replaced by the aligned
  /// timestamp.
  function RenamedTs(path: string, ts: Time, interval: int): string {
    Replace1(path, FormatTs(ts), FormatTs(Truncate(ts, interval)))
  }

  /// Then the first occurrence of the directory-structure form replaced.
  function Retargeted(path: string, ts: Time, interval: int): string {
    Replace1(RenamedTs(path, ts, interval), FormatDirStruct(ts), FormatDirStruct(Truncate(ts, interval)))
  }

  /// alignedFilename: the retargeted path joined under the output
  /// directory. It never fails, so it returns a plain string.
  function AlignedFilename(path: string, ts: Time, interval: int, outputDir: string): string {
    Join([outputDir, Retargeted(path, ts, interval)])
  }

  /// The aligned time only goes down, by less than one interval, to a
  /// multiple of the interval since Go's zero time.
  lemma AlignsDown(ts: Time, interval: int)
    requires interval > 0
    ensures Truncate(ts, interval) <= ts
    ensures ts - Truncate(ts, interval) < interval
    ensures Truncate(ts, interval) % interval == 0
  {
    TruncateBounds(ts, interval);
  }

  /// With the default interval a time of day hh:mm:ss goes to
  /// hh:(mm rounded down to a multiple of 5):00 of the same day, so 10:03
  /// becomes 10:00.
  lemma {:induction false} DefaultIntervalAlignment(c: Civil)
    requires ValidCivil(c)
    ensures Truncate(ToTime(c), DefaultInterval) == ToTime(c.(minute := c.minute - c.minute % 5, second := 0))
  {
    var n := DayNumber(c.year, c.month, c.day);
    var q := n * 288 + c.hour * 12 + c.minute / 5;
    var r := (c.minute % 5) * 60 + c.second;
    assert ToTime(c) == q * DefaultInterval + r;
    DivModUnique(ToTime(c), DefaultInterval, q, r);
  }

  /// An aligned timestamp (the zero time included, which is what an image
  /// without a filename timestamp carries) leaves the path as it is, up to
  /// the join with the output directory.
  lemma AlreadyAlignedUnchanged(path: string, ts: Time, interval: int, outputDir: string)
    requires Truncate(ts, interval) == ts
    ensures AlignedFilename(path, ts, interval, outputDir) == Join([outputDir, path])
  {
    Replace1Same(path, FormatTs(ts));
    Replace1Same(path, FormatDirStruct(ts));
  }

  lemma ZeroTimeAligned(interval: int)
    ensures Truncate(ZeroTime, interval) == ZeroTime
  {
  }

  /// Only the first occurrence of the formatted timestamp is replaced;
  /// the rest of the path is kept, and a path without it is kept whole.
  lemma RenamedTsFirstOnly(path: string, ts: Time, interval: int)
    ensures (forall j :: !OccursAt(path, FormatTs(ts), j)) ==> RenamedTs(path, ts, interval) == path
    ensures forall i :: OccursAt(path, FormatTs(ts), i) && (forall j :: 0 <= j < i ==> !OccursAt(path, FormatTs(ts), j)) ==>
              RenamedTs(path, ts, interval) == path[..i] + FormatTs(Truncate(ts, interval)) + path[i + |FormatTs(ts)|..]
  {
    Replace1Spec(path, FormatTs(ts), FormatTs(Truncate(ts, interval)));
  }

  /// The same for the directory-structure form, applied to the result of
  /// the first replacement.
  lemma RetargetedFirstOnly(path: string, ts: Time, interval: int)
    ensures var p := RenamedTs(path, ts, interval);
      (forall j :: !OccursAt(p, FormatDirStruct(ts), j)) ==> Retargeted(path, ts, interval) == p
    ensures var p := RenamedTs(path, ts, interval);
      forall i :: OccursAt(p, FormatDirStruct(ts), i) && (forall j :: 0 <= j < i ==> !OccursAt(p, FormatDirStruct(ts), j)) ==>
        Retargeted(path, ts, interval) == p[..i] + FormatDirStruct(Truncate(ts, interval)) + p[i + |FormatDirStruct(ts)|..]
  {
    var p := RenamedTs(path, ts, interval);
    Replace1Spec(p, FormatDirStruct(ts), FormatDirStruct(Truncate(ts, interval)));
  }

  /// When the timestamp was read from the same path, the occurrence
  /// replaced is exactly the leftmost pattern match the time came from.
  lemma ReplacesParsedWindow(path: string, i: nat, interval: int)
    requires MatchesAt(path, i) && forall j :: 0 <= j < i ==> !MatchesAt(path, j)
    requires ParseTsWindow(Window(path, i)).Ok?
    ensures var ts := ParseTsWindow(Window(path, i)).value;
      RenamedTs(path, ts, interval) == path[..i] + FormatTs(Truncate(ts, interval)) + path[i + TsLen..]
  {
    var w := path[i..i + TsLen];
    var ts := ParseTsWindow(w).value;
    WindowMatch(path, i);
    FormatParsedWindow(w);
    FirstOccurrenceIsLeftmostMatch(path, i);
    Replace1At(path, FormatTs(ts), FormatTs(Truncate(ts, interval)), i);
  }

  // ---------------------------------------------------------------------
  // visit

  /// visit's destination: the output directory joined with the base of the
  /// aligned path, so the source's directories are dropped.
  function Destination(path: string, ts: Time, interval: int, outputDir: string): string {
    Join([outputDir, Base(AlignedFilename(path, ts, interval, outputDir))])
  }

  lemma DestinationInOutputDir(path: string, ts: Time, interval: int, outputDir: string)
    requires Plain(Base(AlignedFilename(path, ts, interval, outputDir)))
    ensures Base(Destination(path, ts, interval, outputDir)) == Base(AlignedFilename(path, ts, interval, outputDir))
    ensures Dir(Destination(path, ts, interval, outputDir)) == if Join([outputDir]) == "" then "." else Join([outputDir])
  {
    var b := Base(AlignedFilename(path, ts, interval, outputDir));
    JoinPair(outputDir, b);
  }

  /// What visit meets in the file system as it stood before the run:
  /// whether Stat of the destination succeeds, whether MkdirAll of its
  /// directory succeeds, whether writing the image's bytes succeeds (used
  /// only when it has bytes), and whether MoveFilebyCopy gets as far as
  /// creating the destination (used only when it has none).
  datatype AlignIo = AlignIo(destExists: bool, mkdirOk: bool, writeOk: bool, createOk: bool)

  /// visit's outcome: skipped because the destination exists; skipped
  /// because its directory cannot be made; a dupe (source is destination)
  /// emitted unmoved; a failed write, logged; or a move and its emit.
  datatype AlignAction = SkipExisting | MkdirFailed | Dupe(out: Output) | WriteFailed | Moved(out: Output)

  /// moveOrRename: the write of the image's bytes when it has some, and
  /// otherwise MoveFilebyCopy, whose error is only logged.
  predicate MoveSucceeds(img: Image, io: AlignIo) {
    |img.data| == 0 || io.writeOk
  }

  /// Whether moveOrRename leaves a file at the destination: the write went
  /// through, or, for an image without bytes, MoveFilebyCopy created the
  /// destination (even when the copy into it then failed).
  predicate LeavesFile(img: Image, io: AlignIo) {
    if |img.data| > 0 then io.writeOk else io.createOk
  }

  /// visit(image), with filepath.Abs given as `abs`.
  function Visit(img: Image, interval: int, outputDir: string, outfmt: string, abs: string -> string, io: AlignIo): (r: AlignAction)
    ensures r.SkipExisting? <==> io.destExists
    ensures r.MkdirFailed? <==> !io.destExists && !io.mkdirOk
    ensures r.Dupe? <==> !io.destExists && io.mkdirOk && abs(img.path) == abs(Destination(img.path, img.timestamp, interval, outputDir))
    ensures r.WriteFailed? <==> (!io.destExists && io.mkdirOk &&
      abs(img.path) != abs(Destination(img.path, img.timestamp, interval, outputDir)) && !MoveSucceeds(img, io))
    ensures (r.Dupe? || r.Moved?) ==> r.out == Emit(img.(path := abs(Destination(img.path, img.timestamp, interval, outputDir))), outfmt)
  {
    var dest := Destination(img.path, img.timestamp, interval, outputDir);
    if io.destExists then SkipExisting
    else if !io.mkdirOk then MkdirFailed
    else
      var absSrc := abs(img.path);
      var absDest := abs(dest);
      if absSrc == absDest then Dupe(Emit(img.(path := absDest), outfmt))
      else if !MoveSucceeds(img, io) then WriteFailed
      else Moved(Emit(img.(path := absDest), outfmt))
  }

  // ---------------------------------------------------------------------
  // main

  /// One run of visits over the paths, in turn. `dest` gives each path's
  /// absolute destination, `visit` the action of visit when Stat does not
  /// find the destination, and `leaves` whether a move leaves a file there.
  /// `made` holds the destinations earlier visits of the run left a file
  /// at: Stat finds those, so their visits are skipped. The actions, and
  /// the destinations made by the end.
  function RunFrom(paths: seq<string>, dest: string -> string, visit: string -> AlignAction, leaves: string -> bool,
                   made: set<string>): (r: (seq<AlignAction>, set<string>))
    ensures |r.0| == |paths|
    ensures made <= r.1
    decreases |paths|
  {
    if paths == [] then ([], made)
    else
      var p := paths[0];
      var a := if dest(p) in made then SkipExisting else visit(p);
      var rest := RunFrom(paths[1..], dest, visit, leaves, if a.Moved? && leaves(p) then made + {dest(p)} else made);
      ([a] + rest.0, rest.1)
  }

  /// The destinations made after the first visit of a non-empty run.
  function MadeAfterFirst(paths: seq<string>, dest: string -> string, visit: string -> AlignAction, leaves: string -> bool,
                          made: set<string>): set<string>
    requires paths != []
  {
    var p := paths[0];
    var a := if dest(p) in made then SkipExisting else visit(p);
    if a.Moved? && leaves(p) then made + {dest(p)} else made
  }

  /// A run is its first visit followed by the run over the other paths.
  lemma RunFromFirst(paths: seq<string>, dest: string -> string, visit: string -> AlignAction, leaves: string -> bool,
                     made: set<string>, k: nat)
    requires 0 < k < |paths|
    ensures RunFrom(paths, dest, visit, leaves, made).0[k] ==
      RunFrom(paths[1..], dest, visit, leaves, MadeAfterFirst(paths, dest, visit, leaves, made)).0[k - 1]
    ensures paths[1..][k - 1] == paths[k]
  {
  }

  /// A destination made before the run is skipped by every visit of it.
  lemma {:induction false} MadeSkipped(paths: seq<string>, dest: string -> string, visit: string -> AlignAction,
                                       leaves: string -> bool, made: set<string>)
    ensures forall k :: 0 <= k < |paths| && dest(paths[k]) in made ==> RunFrom(paths, dest, visit, leaves, made).0[k] == SkipExisting
    decreases |paths|
  {
    if paths != [] {
      var m := MadeAfterFirst(paths, dest, visit, leaves, made);
      MadeSkipped(paths[1..], dest, visit, leaves, m);
      forall k | 0 < k < |paths| && dest(paths[k]) in made
        ensures RunFrom(paths, dest, visit, leaves, made).0[k] == SkipExisting
      {
        RunFromFirst(paths, dest, visit, leaves, made, k);
      }
    }
  }

  /// The first image moved to a destination is the one kept: once a visit
  /// has left a file there, every later visit with the same destination
  /// is skipped, so nothing is overwritten within a run.
  lemma {:induction false} FirstKept(paths: seq<string>, dest: string -> string, visit: string -> AlignAction,
                                     leaves: string -> bool, made: set<string>, i: nat, j: nat)
    requires i < j < |paths| && dest(paths[i]) == dest(paths[j])
    requires RunFrom(paths, dest, visit, leaves, made).0[i].Moved? && leaves(paths[i])
    ensures RunFrom(paths, dest, visit, leaves, made).0[j] == SkipExisting
    decreases i
  {
    var m := MadeAfterFirst(paths, dest, visit, leaves, made);
    RunFromFirst(paths, dest, visit, leaves, made, j);
    if i == 0 {
      MadeSkipped(paths[1..], dest, visit, leaves, m);
    } else {
      RunFromFirst(paths, dest, visit, leaves, made, i);
      FirstKept(paths[1..], dest, visit, leaves, m, i - 1, j - 1);
    }
  }

  /// While no destination repeats and none was made before, each visit is
  /// visit on its own.
  lemma {:induction false} DistinctVisits(paths: seq<string>, dest: string -> string, visit: string -> AlignAction,
                                          leaves: string -> bool, made: set<string>)
    requires forall k :: 0 <= k < |paths| ==> dest(paths[k]) !in made
    requires forall i, j :: 0 <= i < j < |paths| ==> dest(paths[i]) != dest(paths[j])
    ensures forall k :: 0 <= k < |paths| ==> RunFrom(paths, dest, visit, leaves, made).0[k] == visit(paths[k])
    decreases |paths|
  {
    if paths != [] {
      var m := MadeAfterFirst(paths, dest, visit, leaves, made);
      var tail := paths[1..];
      forall k | 0 <= k < |tail|
        ensures dest(tail[k]) !in m
      {
        assert tail[k] == paths[k + 1];
      }
      forall i, j | 0 <= i < j < |tail|
        ensures dest(tail[i]) != dest(tail[j])
      {
        assert tail[i] == paths[i + 1] && tail[j] == paths[j + 1];
      }
      DistinctVisits(tail, dest, visit, leaves, m);
      forall k | 0 < k < |paths|
        ensures RunFrom(paths, dest, visit, leaves, made).0[k] == visit(paths[k])
      {
        RunFromFirst(paths, dest, visit, leaves, made, k);
      }
    }
  }

  /// The second visit of a plain path line finds the file its first visit
  /// moved there, and is skipped.
  lemma SecondVisitSkipped(pre: seq<string>, line: string, post: seq<string>, dest: string -> string,
                           visit: string -> AlignAction, leaves: string -> bool)
    requires KindOf(LineText(line)) == PlainPath
    ensures var i := |PathVisits(pre)|;
      var r := RunFrom(PathVisits(pre + [line] + post), dest, visit, leaves, {}).0;
      i + 1 < |r| && (r[i].Moved? && leaves(LineText(line)) ==> r[i + 1] == SkipExisting)
  {
    var i := |PathVisits(pre)|;
    var vs := PathVisits(pre + [line] + post);
    PlainLineVisits(pre, line, post);
    if RunFrom(vs, dest, visit, leaves, {}).0[i].Moved? && leaves(LineText(line)) {
      FirstKept(vs, dest, visit, leaves, {}, i, i + 1);
    }
  }

  /// The absolute destination of the image LoadImage gives for a path.
  function AlignDest(p: string, load: string -> Image, interval: int, outputDir: string, abs: string -> string): string {
    abs(Destination(load(p).path, load(p).timestamp, interval, outputDir))
  }

  /// tsalign's run over the paths: visit of each loaded image, with Stat
  /// also finding what the run itself has moved.
  function AlignRun(paths: seq<string>, load: string -> Image, interval: int, outputDir: string, outfmt: string,
                    abs: string -> string, io: string -> AlignIo): seq<AlignAction> {
    RunFrom(paths, p => AlignDest(p, load, interval, outputDir, abs),
            p => Visit(load(p), interval, outputDir, outfmt, abs, io(p)),
            p => LeavesFile(load(p), io(p)), {}).0
  }

  /// A visit whose Stat finds the destination is skipped, so modelling
  /// what the run has made as a skip is visit with that Stat result.
  lemma MadeIsStat(img: Image, interval: int, outputDir: string, outfmt: string, abs: string -> string, io: AlignIo)
    ensures Visit(img, interval, outputDir, outfmt, abs, io.(destExists := true)) == SkipExisting
  {
  }

  /// main in path mode: "tmp" as -output means a fresh temporary
  /// directory; the stdin loop visits each path line twice, one run of
  /// visits that sees the files it has made, and defers removing the "#-"
  /// directories. When main returns the removals run first, last first,
  /// and the cleanup marker, deferred before them, is emitted after them.
  method AlignStdin(lines: seq<string>, outputDir: string, tmpDir: string, load: string -> Image, interval: int,
                    outfmt: string, abs: string -> string, io: string -> AlignIo)
    returns (actions: seq<AlignAction>, removed: seq<string>, cleanup: Option<Output>)
    ensures var dir := if outputDir == "tmp" then tmpDir else outputDir;
      actions == AlignRun(PathVisits(lines), load, interval, dir, outfmt, abs, io)
    ensures removed == Reversed(PathMarkers(lines))
    ensures cleanup.Some? <==> outputDir == "tmp"
    ensures cleanup.Some? ==> cleanup.value == EmitCleanup(tmpDir, outfmt)
  {
    var dir := outputDir;
    cleanup := None;
    if outputDir == "tmp" {
      dir := tmpDir;
      cleanup := Some(EmitCleanup(tmpDir, outfmt));
    }
    var visits;
    visits, removed := ScanPaths(lines);
    actions := AlignRun(visits, load, interval, dir, outfmt, abs, io);
  }
}
