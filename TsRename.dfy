/// tsrename (tsrename/tsrename.go): renames each file to
/// "<name>_<timestamp>_00<ext>" in its own directory under the output
/// directory.
module TsRename {
  import opened Results
  import opened Strings
  import opened GoPath
  import opened Calendar
  import opened Timestamps
  import opened Stream

  // ---------------------------------------------------------------------
  // parseFilename

  /// The extension as tsrename writes it: ".jpeg" becomes ".jpg" and
  /// ".tiff" becomes ".tif"; the comparison is case-sensitive and every
  /// other extension is kept.
  function NormalizedExt(ext: string): (r: string)
    ensures ext == ".jpeg" ==> r == ".jpg"
    ensures ext == ".tiff" ==> r == ".tif"
    ensures ext != ".jpeg" && ext != ".tiff" ==> r == ext
  {
    var ext := if ext == ".jpeg" then ".jpg" else ext;
    if ext == ".tiff" then ".tif" else ext
  }

  /// Normalising twice is normalising once.
  lemma NormalizedExtIdempotent(ext: string)
    ensures NormalizedExt(NormalizedExt(ext)) == NormalizedExt(ext)
  {
  }

  /// The new base name.
  function TargetName(namedOutput: string, t: Time, ext: string): string {
    namedOutput + "_" + FormatTs(t) + "_00" + NormalizedExt(ext)
  }

  /// The destination for a file with time t: the target name in the
  /// file's own directory, under the output directory.
  function Destination(path: string, t: Time, outputDir: string, namedOutput: string): string {
    Join([outputDir, Dir(path), TargetName(namedOutput, t, Ext(path))])
  }

  /// parseFilename, with datetimeFunc given as `resolve`.
  function ParseFilename(path: string, resolve: string -> Result<Time>, outputDir: string, namedOutput: string): (r: Result<string>)
    ensures r.Err? <==> resolve(path).Err?
    ensures r.Err? ==> r.msg == resolve(path).msg
    ensures r.Ok? ==> r.value == Destination(path, resolve(path).value, outputDir, namedOutput)
  {
    match resolve(path)
    case Err(e) => Err(e)
    case Ok(t) => Ok(Destination(path, t, outputDir, namedOutput))
  }

  lemma TargetNamePlain(namedOutput: string, t: Time, ext: string)
    requires '/' !in namedOutput && '/' !in ext
    ensures Plain(TargetName(namedOutput, t, ext))
  {
    var n := TargetName(namedOutput, t, ext);
    var ts := FormatTs(t);
    var e := NormalizedExt(ext);
    FormatTsNoSlash(t);
    assert n == namedOutput + "_" + ts + "_00" + e;
    assert '/' !in "_" && '/' !in "_00";
    assert |n| >= 4;
  }

  /// The file keeps its directory: the destination's base is the target
  /// name, and its directory is the output directory joined with the
  /// source's directory.
  lemma DestinationKeepsDir(path: string, t: Time, outputDir: string, namedOutput: string)
    requires '/' !in namedOutput
    ensures Base(Destination(path, t, outputDir, namedOutput)) == TargetName(namedOutput, t, Ext(path))
    ensures Dir(Destination(path, t, outputDir, namedOutput)) == Join([outputDir, Dir(path)])
  {
    var b := TargetName(namedOutput, t, Ext(path));
    TargetNamePlain(namedOutput, t, Ext(path));
    assert [outputDir, Dir(path)] + [b] == [outputDir, Dir(path), b];
    JoinSplit([outputDir, Dir(path)], b);
    DirNonEmpty(path);
    JoinNonEmpty([outputDir, Dir(path)]);
  }

  /// For a four-digit year, the timestamp sits in the new name right
  /// after "<name>_" and reads back as the same time.
  lemma TargetNameTimestamp(namedOutput: string, t: Time, ext: string)
    requires 0 <= FromTime(t).year < 10000
    ensures var n := TargetName(namedOutput, t, ext); var i := |namedOutput| + 1;
      i + TsLen <= |n| && MatchesAt(n, i) && ParseTsWindow(Window(n, i)) == Ok(t)
  {
    var n := TargetName(namedOutput, t, ext);
    var i := |namedOutput| + 1;
    ParseFormattedTs(t);
    assert n == (namedOutput + "_") + FormatTs(t) + ("_00" + NormalizedExt(ext));
    MatchInside(namedOutput + "_", FormatTs(t), "_00" + NormalizedExt(ext));
  }

  // ---------------------------------------------------------------------
  // visit

  /// What visit meets in the file system: whether MkdirAll of the
  /// destination's directory succeeds, and whether a "<file>.json"
  /// sidecar exists.
  datatype RenameIo = RenameIo(mkdirOk: bool, sidecarExists: bool)

  /// visit's outcome: the file is skipped; its time cannot be resolved;
  /// its directory cannot be made; it is already where it would go; or it
  /// is moved (each pair a moveOrRename call) and its new path printed.
  datatype RenameAction =
    | Skipped
    | ParseFailed(msg: string)
    | MkdirFailed
    | Dupe
    | Moved(moves: seq<(string, string)>, printed: string)

  /// Directories, ".json" files (case-sensitive) and dotfiles are left
  /// alone.
  predicate Ignored(path: string, info: FileInfo) {
    info.isDir || Ext(path) == ".json" || HasPrefix(Base(path), ".")
  }

  /// visit, with filepath.Abs given as `abs`. moveOrRename swallows its
  /// error, so the new path is printed whether or not the moves succeed.
  function Visit(path: string, info: FileInfo, resolve: string -> Result<Time>, outputDir: string, namedOutput: string,
                 abs: string -> string, io: RenameIo): (r: RenameAction)
    ensures r.Skipped? <==> Ignored(path, info)
    ensures r.ParseFailed? <==> !Ignored(path, info) && resolve(path).Err?
    ensures r.MkdirFailed? <==> !Ignored(path, info) && resolve(path).Ok? && !io.mkdirOk
    ensures r.Dupe? <==> (!Ignored(path, info) && resolve(path).Ok? && io.mkdirOk &&
      abs(path) == abs(Destination(path, resolve(path).value, outputDir, namedOutput)))
  {
    if Ignored(path, info) then Skipped
    else match ParseFilename(path, resolve, outputDir, namedOutput)
      case Err(e) => ParseFailed(e)
      case Ok(newPath) =>
        if !io.mkdirOk then MkdirFailed
        else
          var absSrc := abs(path);
          var absDest := abs(newPath);
          if absSrc == absDest then Dupe
          else
            var moves := [(path, absDest)] + (if io.sidecarExists then [(path + ".json", absDest + ".json")] else []);
            Moved(moves, newPath)
  }

  /// A moved file is printed at its destination, and is moved there (by
  /// its absolute path) together with its sidecar when there is one.
  lemma MovedToDestination(path: string, info: FileInfo, resolve: string -> Result<Time>, outputDir: string, namedOutput: string,
                           abs: string -> string, io: RenameIo)
    requires Visit(path, info, resolve, outputDir, namedOutput, abs, io).Moved?
    ensures var r := Visit(path, info, resolve, outputDir, namedOutput, abs, io);
      var dest := Destination(path, resolve(path).value, outputDir, namedOutput);
      && r.printed == dest
      && |r.moves| == (if io.sidecarExists then 2 else 1)
      && r.moves[0] == (path, abs(dest))
      && (io.sidecarExists ==> r.moves[1] == (path + ".json", abs(dest) + ".json"))
  {
  }

  // ---------------------------------------------------------------------
  // main

  /// visit applied to each (path, info) pair in turn, the file system
  /// meeting each path as `io` says.
  function Renamed(vs: seq<(string, FileInfo)>, resolve: string -> Result<Time>, outputDir: string, namedOutput: string,
                   abs: string -> string, io: string -> RenameIo): (r: seq<RenameAction>)
    ensures |r| == |vs|
    ensures forall k :: 0 <= k < |vs| ==> r[k] == Visit(vs[k].0, vs[k].1, resolve, outputDir, namedOutput, abs, io(vs[k].0))
  {
    Mapped(vs, (v: (string, FileInfo)) => Visit(v.0, v.1, resolve, outputDir, namedOutput, abs, io(v.0)))
  }

  /// main's stdin loop: each line that is not a "[" log line and can be
  /// stat'ed is visited, in order.
  method RenameStdin(lines: seq<string>, stat: string -> Option<FileInfo>, resolve: string -> Result<Time>, outputDir: string,
                     namedOutput: string, abs: string -> string, io: string -> RenameIo)
    returns (actions: seq<RenameAction>)
    ensures actions == Renamed(StatVisits(lines, stat), resolve, outputDir, namedOutput, abs, io)
  {
    var visits := ScanStat(lines, stat);
    actions := Renamed(visits, resolve, outputDir, namedOutput, abs, io);
  }
}
