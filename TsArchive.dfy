/// tsarchive: every image whose name carries a timestamp is appended to the
/// tar archive of its week; one archive file and one tar writer per week are
/// opened on first use and all are closed at the end.
///
/// The tool's own copy of the filename-timestamp parser is the same as
/// Timestamps.GetTimeFromFileTimestamp apart from its error text.
module TsArchive {
  import opened Results
  import opened Strings
  import opened GoPath
  import opened Calendar
  import opened Timestamps
  import opened Stream

  // ---------------------------------------------------------------------
  // Weeks

  /// truncateTimeToSunday: the time truncated to a multiple of seven days
  /// counted from the zero time.
  function WeekStart(t: Time): (k: Time)
    ensures k <= t < k + Week
    ensures k % Week == 0
  {
    TruncateBounds(t, Week);
    Truncate(t, Week)
  }

  lemma WeekStartIdempotent(t: Time)
    ensures WeekStart(WeekStart(t)) == WeekStart(t)
  {
    TruncateBounds(t, Week);
  }

  lemma WeekStartMono(t1: Time, t2: Time)
    requires t1 <= t2
    ensures WeekStart(t1) <= WeekStart(t2)
  {
    TruncateMono(t1, t2, Week);
  }

  /// Two times share an archive exactly when they lie in the same
  /// seven-day period counted from the zero time.
  lemma SameWeekIff(t1: Time, t2: Time)
    ensures WeekStart(t1) == WeekStart(t2) <==> t1 / Week == t2 / Week
  {
    TruncateSameIff(t1, t2, Week);
  }

  /// time.Weekday numbering (Sunday = 0): the zero time, 0001-01-01, was a
  /// Monday.
  function Weekday(t: Time): int {
    (t / Day + 1) % 7
  }

  /// Every bucket starts on a Monday, whatever the function's name says.
  lemma WeekStartIsMonday(t: Time)
    ensures Weekday(WeekStart(t)) == 1
  {
    var q := t / Week;
    TruncateQuotient(t, Week);
    assert WeekStart(t) == (7 * q) * Day + 0;
    DivModUnique(WeekStart(t), Day, 7 * q, 0);
    DivModUnique(7 * q + 1, 7, q, 1);
  }

  // ---------------------------------------------------------------------
  // Archive names

  /// tsRegex.FindString: the leftmost match, or "" when there is none.
  function TsText(path: string): (r: string)
    ensures r == "" || |r| == TsLen
  {
    match FindTs(path)
    case None => ""
    case Some(i) => path[i..i + TsLen]
  }

  /// The name prefix of getNameFromFilepath: empty when -name is unset;
  /// otherwise the file's base name without its extension and without the
  /// first occurrence of its timestamp.
  function NamePart(archiveName: string, path: string): string {
    if archiveName == "" then ""
    else
      var base := Base(path);
      Replace1(TrimSuffix(base, Ext(base)), TsText(path), "")
  }

  /// getNameFromFilepath: `<name>YYYY-MM-DD.tar` for the bucket start.
  function ArchiveBase(archiveName: string, path: string, week: Time): string {
    NamePart(archiveName, path) + FormatDate(week) + ".tar"
  }

  /// The path visit creates: path.Join(outputDir, tarbaseName).
  function TarPath(outputDir: string, archiveName: string, path: string, week: Time): string {
    Join([outputDir, ArchiveBase(archiveName, path, week)])
  }

  /// The value given to -name is only a switch: any two non-empty values
  /// give the same archive names.
  lemma NameIgnoresFlagValue(name1: string, name2: string, path: string, week: Time)
    requires name1 != "" && name2 != ""
    ensures ArchiveBase(name1, path, week) == ArchiveBase(name2, path, week)
  {
  }

  /// Without -name the archive is named by its date alone.
  lemma UnnamedArchive(path: string, week: Time)
    ensures ArchiveBase("", path, week) == FormatDate(week) + ".tar"
  {
  }

  lemma Replace1NoSlash(s: string, pat: string)
    requires '/' !in s
    ensures '/' !in Replace1(s, pat, "")
  {
    if pat != "" {
      match Index(s, pat)
      case None =>
      case Some(i) =>
        assert Replace1(s, pat, "") == s[..i] + s[i + |pat|..];
        assert forall k :: 0 <= k < i ==> s[..i][k] == s[k];
        assert forall k :: i + |pat| <= k < |s| ==> s[i + |pat|..][k - i - |pat|] == s[k];
    }
  }

  /// A path with an image extension does not end in '/', so its base name
  /// is its last element.
  lemma ImageBaseNoSlash(path: string)
    requires IsImageFile(path)
    ensures '/' !in Base(path)
  {
    var e := Ext(path);
    assert e != "";
    assert path[|path| - 1] == e[|e| - 1];
    assert StripTrailing(path) == path;
  }

  lemma StemNoSlash(base: string, ts: string)
    requires '/' !in base
    ensures '/' !in Replace1(TrimSuffix(base, Ext(base)), ts, "")
  {
    var f := TrimSuffix(base, Ext(base));
    assert forall k :: 0 <= k < |f| ==> f[k] == base[k];
    Replace1NoSlash(f, ts);
  }

  lemma NamePartNoSlash(archiveName: string, path: string)
    requires IsImageFile(path)
    ensures '/' !in NamePart(archiveName, path)
  {
    if archiveName != "" {
      ImageBaseNoSlash(path);
      StemNoSlash(Base(path), TsText(path));
    }
  }

  lemma PlainTar(n: string, d: string)
    requires '/' !in n && '/' !in d
    ensures Plain(n + d + ".tar")
  {
    var b := n + d + ".tar";
    assert b[|b| - 1] == 'r';
    assert forall k :: 0 <= k < |b| ==> b[k] == (if k < |n| then n[k] else if k < |n| + |d| then d[k - |n|] else ".tar"[k - |n| - |d|]);
  }

  lemma ArchiveBasePlain(archiveName: string, path: string, week: Time)
    requires IsImageFile(path)
    ensures Plain(ArchiveBase(archiveName, path, week))
  {
    NamePartNoSlash(archiveName, path);
    FormatDateNoSlash(week);
    PlainTar(NamePart(archiveName, path), FormatDate(week));
  }

  /// Every archive of a routed image is created directly in the output
  /// directory, under the name getNameFromFilepath gives it.
  lemma ArchiveInOutputDir(outputDir: string, archiveName: string, path: string, week: Time)
    requires IsImageFile(path)
    ensures Base(TarPath(outputDir, archiveName, path, week)) == ArchiveBase(archiveName, path, week)
    ensures Dir(TarPath(outputDir, archiveName, path, week)) == if Join([outputDir]) == "" then "." else Join([outputDir])
  {
    var b := ArchiveBase(archiveName, path, week);
    ArchiveBasePlain(archiveName, path, week);
    JoinPair(outputDir, b);
  }

  // ---------------------------------------------------------------------
  // Routing

  /// One tar header: the file's base name and its stat size, mode and
  /// modification time.
  datatype Entry = Entry(name: string, size: int, mode: int, modTime: Time)

  /// One week's tar writer: the index of its file in the list of opened
  /// files, and the entries written to it so far.
  datatype TarWriter = TarWriter(file: nat, entries: seq<Entry>)

  /// What addFile meets: Open fails; Stat of the open file fails (nothing
  /// written, nil returned); WriteHeader fails; the copy of the data fails
  /// after the header; or the whole file is written.
  datatype AddIo = OpenFails | StatFails | HeaderFails | CopyFails(stat: FileInfo) | Written(stat: FileInfo)

  /// The header addFile leaves in the archive, if any.
  function AddedEntry(path: string, add: AddIo): (e: Option<Entry>)
    ensures e.Some? <==> add.CopyFails? || add.Written?
    ensures e.Some? ==> e.value == Entry(Base(path), add.stat.size, add.stat.mode, add.stat.modTime)
  {
    match add
    case CopyFails(s) => Some(Entry(Base(path), s.size, s.mode, s.modTime))
    case Written(s) => Some(Entry(Base(path), s.size, s.mode, s.modTime))
    case _ => None
  }

  /// addFile returns nil after a full copy, and also when Stat fails.
  predicate AddReturnsNil(add: AddIo) {
    add.StatFails? || add.Written?
  }

  /// The line visit prints: the absolute path when filepath.Abs succeeds,
  /// otherwise the path as given.
  function Shown(path: string, abs: Option<string>): string {
    if abs.Some? then abs.value else path
  }

  /// The program's state: weeklyTarWriters, weeklyFileWriter (by the paths
  /// of the files) and the lines printed.
  datatype Archive = Archive(writers: map<Time, TarWriter>, files: seq<string>, emitted: seq<string>)

  /// One writer per week key, each on its own file, and one file per
  /// writer; every key is a bucket start.
  predicate WellFormed(a: Archive) {
    && |a.files| == |a.writers|
    && (forall k :: k in a.writers ==> k % Week == 0 && a.writers[k].file < |a.files|)
    && (forall k1, k2 :: k1 in a.writers && k2 in a.writers && k1 != k2 ==> a.writers[k1].file != a.writers[k2].file)
  }

  /// The result of one visit: the new state, and whether os.Create failed
  /// and visit panicked.
  datatype Visited = Visited(archive: Archive, panicked: bool)

  /// The state after opening the writer for week k when it is missing:
  /// os.Create(tarPath) appended to weeklyFileWriter, and a writer on it.
  function Opened(a: Archive, outputDir: string, archiveName: string, path: string, k: Time): Archive {
    if k in a.writers then a
    else a.(files := a.files + [TarPath(outputDir, archiveName, path, k)],
            writers := a.writers[k := TarWriter(|a.files|, [])])
  }

  /// addFile on the writer of week k, followed by the print when it
  /// returned nil.
  function Added(o: Archive, k: Time, path: string, abs: Option<string>, add: AddIo): Archive
    requires k in o.writers
  {
    var w := o.writers[k];
    var writers := match AddedEntry(path, add)
      case Some(e) => o.writers[k := w.(entries := w.entries + [e])]
      case None => o.writers;
    var emitted := if AddReturnsNil(add) then o.emitted + [Shown(path, abs)] else o.emitted;
    Archive(writers, o.files, emitted)
  }

  /// visit once the filter has let the file through, given the result of
  /// the timestamp parse.
  function Route(a: Archive, outputDir: string, archiveName: string, path: string, ts: Result<Time>,
                 abs: Option<string>, created: bool, add: AddIo): Visited
  {
    match ts
    case Err(_) => Visited(a, false)
    case Ok(t) =>
      var k := WeekStart(t);
      if k !in a.writers && !created then Visited(a, true)
      else Visited(Added(Opened(a, outputDir, archiveName, path, k), k, path, abs, add), false)
  }

  /// visit, for one file: the file information from os.Stat, the result of
  /// filepath.Abs, whether os.Create succeeds, and what addFile meets.
  function VisitStep(a: Archive, outputDir: string, archiveName: string, path: string, info: FileInfo,
                     abs: Option<string>, created: bool, add: AddIo): Visited
  {
    if info.isDir || !IsImageFile(path) then Visited(a, false)
    else Route(a, outputDir, archiveName, path, GetTimeFromFileTimestamp(path), abs, created, add)
  }

  /// Directories, files without an image extension and files without a
  /// readable timestamp leave everything unchanged.
  lemma VisitIgnores(a: Archive, outputDir: string, archiveName: string, path: string, info: FileInfo,
                     abs: Option<string>, created: bool, add: AddIo)
    requires info.isDir || !IsImageFile(path) || GetTimeFromFileTimestamp(path).Err?
    ensures VisitStep(a, outputDir, archiveName, path, info, abs, created, add) == Visited(a, false)
  {
  }

  lemma OpenedSpec(a: Archive, outputDir: string, archiveName: string, path: string, k: Time)
    ensures var o := Opened(a, outputDir, archiveName, path, k);
      && o.writers.Keys == a.writers.Keys + {k}
      && (forall j :: j in a.writers ==> o.writers[j] == a.writers[j])
      && o.writers[k].entries == (if k in a.writers then a.writers[k].entries else [])
      && o.files == a.files + (if k in a.writers then [] else [TarPath(outputDir, archiveName, path, k)])
      && o.emitted == a.emitted
  {
    if k in a.writers {
      assert a.writers.Keys + {k} == a.writers.Keys;
      assert a.files + [] == a.files;
    }
  }

  lemma AddedSpec(o: Archive, k: Time, path: string, abs: Option<string>, add: AddIo)
    requires k in o.writers
    ensures var n := Added(o, k, path, abs, add);
      && n.writers.Keys == o.writers.Keys
      && (forall j :: j in o.writers && j != k ==> n.writers[j] == o.writers[j])
      && n.writers[k].file == o.writers[k].file
      && n.writers[k].entries == o.writers[k].entries
           + (if add.CopyFails? || add.Written? then [Entry(Base(path), add.stat.size, add.stat.mode, add.stat.modTime)] else [])
      && n.files == o.files
      && n.emitted == o.emitted + (if add.StatFails? || add.Written? then [Shown(path, abs)] else [])
  {
    var e := AddedEntry(path, add);
    if e.None? {
      assert o.writers[k].entries + [] == o.writers[k].entries;
    }
    if !AddReturnsNil(add) {
      assert o.emitted + [] == o.emitted;
    }
  }

  /// A routed file: a writer is opened only when its week has none (and a
  /// failed create panics with nothing changed); one file is added exactly
  /// then; the file's entry goes to the end of its own week's archive and
  /// no other archive changes; the path is printed exactly when addFile
  /// returned nil.
  lemma VisitRoutes(a: Archive, outputDir: string, archiveName: string, path: string,
                    abs: Option<string>, created: bool, add: AddIo, t: Time)
    ensures var v := Route(a, outputDir, archiveName, path, Ok(t), abs, created, add);
      v.panicked <==> WeekStart(t) !in a.writers && !created
    ensures var v := Route(a, outputDir, archiveName, path, Ok(t), abs, created, add);
      v.panicked ==> v.archive == a
    ensures var v := Route(a, outputDir, archiveName, path, Ok(t), abs, created, add);
      var k := WeekStart(t);
      !v.panicked ==>
        && v.archive.writers.Keys == a.writers.Keys + {k}
        && (forall j :: j in a.writers && j != k ==> v.archive.writers[j] == a.writers[j])
        && v.archive.writers[k].entries ==
             (if k in a.writers then a.writers[k].entries else [])
             + (if add.CopyFails? || add.Written? then [Entry(Base(path), add.stat.size, add.stat.mode, add.stat.modTime)] else [])
        && v.archive.files == a.files + (if k in a.writers then [] else [TarPath(outputDir, archiveName, path, k)])
        && v.archive.emitted == a.emitted + (if add.StatFails? || add.Written? then [Shown(path, abs)] else [])
  {
    var k := WeekStart(t);
    if k in a.writers || created {
      OpenedSpec(a, outputDir, archiveName, path, k);
      AddedSpec(Opened(a, outputDir, archiveName, path, k), k, path, abs, add);
    }
  }

  /// Visiting keeps one writer, on its own file, per week.
  lemma VisitKeepsWellFormed(a: Archive, outputDir: string, archiveName: string, path: string, info: FileInfo,
                             abs: Option<string>, created: bool, add: AddIo)
    requires WellFormed(a)
    ensures WellFormed(VisitStep(a, outputDir, archiveName, path, info, abs, created, add).archive)
  {
    if !info.isDir && IsImageFile(path) {
      var ts := GetTimeFromFileTimestamp(path);
      if ts.Ok? {
        RouteKeepsWellFormed(a, outputDir, archiveName, path, ts.value, abs, created, add);
      }
    }
  }

  lemma RouteKeepsWellFormed(a: Archive, outputDir: string, archiveName: string, path: string, t: Time,
                             abs: Option<string>, created: bool, add: AddIo)
    requires WellFormed(a)
    ensures WellFormed(Route(a, outputDir, archiveName, path, Ok(t), abs, created, add).archive)
  {
    var k := WeekStart(t);
    if k in a.writers || created {
      OpenedWellFormed(a, outputDir, archiveName, path, k);
      AddedWellFormed(Opened(a, outputDir, archiveName, path, k), k, path, abs, add);
    }
  }

  lemma OpenedWellFormed(a: Archive, outputDir: string, archiveName: string, path: string, k: Time)
    requires WellFormed(a) && k % Week == 0
    ensures WellFormed(Opened(a, outputDir, archiveName, path, k))
  {
    if k !in a.writers {
      var o := Opened(a, outputDir, archiveName, path, k);
      assert |o.writers| == |a.writers| + 1;
      assert |o.files| == |a.files| + 1;
      forall j | j in o.writers
        ensures j % Week == 0 && o.writers[j].file < |o.files|
      {
        if j != k {
          assert j in a.writers;
        }
      }
      forall j1, j2 | j1 in o.writers && j2 in o.writers && j1 != j2
        ensures o.writers[j1].file != o.writers[j2].file
      {
        if j1 != k && j2 != k {
          assert j1 in a.writers && j2 in a.writers;
        } else if j1 == k {
          assert j2 in a.writers;
        } else {
          assert j1 in a.writers;
        }
      }
    }
  }

  lemma AddedWellFormed(o: Archive, k: Time, path: string, abs: Option<string>, add: AddIo)
    requires WellFormed(o) && k in o.writers
    ensures WellFormed(Added(o, k, path, abs, add))
  {
    var n := Added(o, k, path, abs, add);
    assert n.writers.Keys == o.writers.Keys;
    assert |n.writers| == |o.writers| by {
      assert |n.writers.Keys| == |o.writers.Keys|;
    }
    forall j | j in n.writers
      ensures n.writers[j].file == o.writers[j].file
    {
    }
  }

  /// visit over the lines the stdin loop hands it, in order; a panic ends
  /// the program.
  function VisitMany(a: Archive, outputDir: string, archiveName: string, visits: seq<(string, FileInfo)>,
                     abs: string -> Option<string>, created: string -> bool, add: string -> AddIo): Visited
    decreases |visits|
  {
    if visits == [] then Visited(a, false)
    else
      var p := visits[0].0;
      var v := VisitStep(a, outputDir, archiveName, p, visits[0].1, abs(p), created(p), add(p));
      if v.panicked then v else VisitMany(v.archive, outputDir, archiveName, visits[1..], abs, created, add)
  }

  lemma {:induction false} VisitManyWellFormed(a: Archive, outputDir: string, archiveName: string, visits: seq<(string, FileInfo)>,
                                               abs: string -> Option<string>, created: string -> bool, add: string -> AddIo)
    requires WellFormed(a)
    ensures WellFormed(VisitMany(a, outputDir, archiveName, visits, abs, created, add).archive)
    decreases |visits|
  {
    if visits != [] {
      var p := visits[0].0;
      VisitKeepsWellFormed(a, outputDir, archiveName, p, visits[0].1, abs(p), created(p), add(p));
      var v := VisitStep(a, outputDir, archiveName, p, visits[0].1, abs(p), created(p), add(p));
      if !v.panicked {
        VisitManyWellFormed(v.archive, outputDir, archiveName, visits[1..], abs, created, add);
      }
    }
  }

  /// One close call of main's final loops.
  datatype Closed = WriterClosed(week: Time) | FileClosed(index: nat)

  class Archiver {
    const outputDir: string
    const archiveName: string
    var writers: map<Time, TarWriter>
    var files: seq<string>
    var emitted: seq<string>
    var closeLog: seq<Closed>

    function Snapshot(): Archive
      reads this
    {
      Archive(writers, files, emitted)
    }

    ghost predicate Valid()
      reads this
    {
      WellFormed(Snapshot())
    }

    /// main's `make(map[time.Time]*tar.Writer)`, with the -output and
    /// -name values.
    constructor (outputDir: string, archiveName: string)
      ensures Valid()
      ensures this.outputDir == outputDir && this.archiveName == archiveName
      ensures Snapshot() == Archive(map[], [], []) && closeLog == []
    {
      this.outputDir := outputDir;
      this.archiveName := archiveName;
      writers := map[];
      files := [];
      emitted := [];
      closeLog := [];
    }

    /// visit(filePath, info) with its effects given as arguments.
    method Visit(path: string, info: FileInfo, abs: Option<string>, created: bool, add: AddIo) returns (panicked: bool)
      requires Valid()
      modifies this
      ensures Valid()
      ensures Visited(Snapshot(), panicked) == VisitStep(old(Snapshot()), outputDir, archiveName, path, info, abs, created, add)
      ensures closeLog == old(closeLog)
    {
      panicked := false;
      if info.isDir || !IsImageFile(path) {
        return;
      }
      var ts := GetTimeFromFileTimestamp(path);
      panicked := RouteFile(path, ts, abs, created, add);
    }

    /// The rest of visit, once the file passed the filters and its
    /// timestamp was parsed.
    method RouteFile(path: string, ts: Result<Time>, abs: Option<string>, created: bool, add: AddIo) returns (panicked: bool)
      requires Valid()
      modifies this
      ensures Valid()
      ensures Visited(Snapshot(), panicked) == Route(old(Snapshot()), outputDir, archiveName, path, ts, abs, created, add)
      ensures closeLog == old(closeLog)
    {
      panicked := false;
      if ts.Err? {
        return;
      }
      RouteKeepsWellFormed(Snapshot(), outputDir, archiveName, path, ts.value, abs, created, add);
      var k := WeekStart(ts.value);
      panicked := OpenWriter(path, k, created);
      if panicked {
        return;
      }
      AddToWriter(path, k, abs, add);
    }

    /// os.Create of week k's tar file and a writer on it, when the week has
    /// no writer yet; visit panics when os.Create fails.
    method OpenWriter(path: string, k: Time, created: bool) returns (panicked: bool)
      modifies this
      ensures panicked <==> k !in old(writers) && !created
      ensures panicked ==> Snapshot() == old(Snapshot())
      ensures !panicked ==> Snapshot() == Opened(old(Snapshot()), outputDir, archiveName, path, k) && k in writers
      ensures closeLog == old(closeLog)
    {
      panicked := false;
      if k !in writers {
        if !created {
          panicked := true;
          return;
        }
        files := files + [TarPath(outputDir, archiveName, path, k)];
        writers := writers[k := TarWriter(|files| - 1, [])];
      }
    }

    /// addFile on week k's writer, then the print when addFile returned nil.
    method AddToWriter(path: string, k: Time, abs: Option<string>, add: AddIo)
      requires k in writers
      modifies this
      ensures Snapshot() == Added(old(Snapshot()), k, path, abs, add)
      ensures closeLog == old(closeLog)
    {
      var entry := AddedEntry(path, add);
      if entry.Some? {
        writers := writers[k := writers[k].(entries := writers[k].entries + [entry.value])];
      }
      if AddReturnsNil(add) {
        emitted := emitted + [Shown(path, abs)];
      }
    }

    /// The stdin loop's visits, one after the other.
    method VisitAll(visits: seq<(string, FileInfo)>, abs: string -> Option<string>, created: string -> bool, add: string -> AddIo)
        returns (panicked: bool)
      requires Valid()
      modifies this
      ensures Valid()
      ensures Visited(Snapshot(), panicked) == VisitMany(old(Snapshot()), outputDir, archiveName, visits, abs, created, add)
      ensures closeLog == old(closeLog)
    {
      panicked := false;
      var i := 0;
      while i < |visits|
        invariant 0 <= i <= |visits|
        invariant Valid() && closeLog == old(closeLog)
        invariant VisitMany(old(Snapshot()), outputDir, archiveName, visits, abs, created, add)
               == VisitMany(Snapshot(), outputDir, archiveName, visits[i..], abs, created, add)
      {
        assert visits[i..][1..] == visits[i + 1..];
        var p := visits[i].0;
        panicked := Visit(p, visits[i].1, abs(p), created(p), add(p));
        i := i + 1;
        if panicked {
          return;
        }
      }
    }

    /// The end of main: every tar writer is closed, in the map's iteration
    /// order (which Go leaves unspecified, so it is a parameter here: any
    /// listing of the weeks, each once), and then every file, in the order
    /// it was opened.
    method CloseAll(order: seq<Time>)
      requires closeLog == []
      requires forall k :: k in writers ==> k in order
      requires forall i :: 0 <= i < |order| ==> order[i] in writers
      requires forall i, j :: 0 <= i < j < |order| ==> order[i] != order[j]
      modifies this`closeLog
      ensures |closeLog| == |order| + |files|
      ensures forall i :: 0 <= i < |order| ==> closeLog[i] == WriterClosed(order[i])
      ensures forall k :: k in writers ==> WriterClosed(k) in closeLog[..|order|]
      ensures forall i :: 0 <= i < |files| ==> closeLog[|order| + i] == FileClosed(i)
    {
      for i := 0 to |order|
        invariant |closeLog| == i
        invariant forall j :: 0 <= j < i ==> closeLog[j] == WriterClosed(order[j])
      {
        closeLog := closeLog + [WriterClosed(order[i])];
      }
      ghost var closedWriters := closeLog;
      for i := 0 to |files|
        invariant |closeLog| == |order| + i
        invariant closeLog[..|order|] == closedWriters
        invariant forall j :: 0 <= j < i ==> closeLog[|order| + j] == FileClosed(j)
      {
        closeLog := closeLog + [FileClosed(i)];
      }
      assert forall k :: k in writers ==> WriterClosed(k) in closedWriters by {
        forall k | k in writers
          ensures WriterClosed(k) in closedWriters
        {
          var j :| 0 <= j < |order| && order[j] == k;
          assert closedWriters[j] == WriterClosed(k);
        }
      }
    }
  }
}
