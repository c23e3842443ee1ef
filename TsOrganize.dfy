/// tsorganize (tsorganize/tsorganize.go): moves or copies each file into a
/// directory tree built from its timestamp, keeping its base name.
module TsOrganize {
  import opened Results
  import opened Strings
  import opened GoPath
  import opened Calendar
  import opened Timestamps
  import opened Stream

  // ---------------------------------------------------------------------
  // parseFilename with the default -dirstruct

  /// The destination: the output directory, the timestamp formatted with
  /// "2006/2006_01/2006_01_02/2006_01_02_15/", and the file's base name.
  function Destination(path: string, t: Time, outputDir: string): string {
    Join([outputDir, FormatDirStruct(t), Base(path)])
  }

  /// parseFilename, with datetimeFunc given as `resolve`.
  function ParseFilename(path: string, resolve: string -> Result<Time>, outputDir: string): (r: Result<string>)
    ensures r.Err? <==> resolve(path).Err?
    ensures r.Err? ==> r.msg == resolve(path).msg
    ensures r.Ok? ==> r.value == Destination(path, resolve(path).value, outputDir)
  {
    match resolve(path)
    case Err(e) => Err(e)
    case Ok(t) => Ok(Destination(path, t, outputDir))
  }

  lemma NoSlashConcat(a: string, b: string)
    requires '/' !in a && '/' !in b
    ensures '/' !in a + b
  {
    assert forall k :: 0 <= k < |a + b| ==> (a + b)[k] == (if k < |a| then a[k] else b[k - |a|]);
  }

  lemma YearPlain(y: int)
    ensures Plain(YearString(y)) && YearString(y)[0] != '.'
  {
    YearNoSlash(y);
    var s := YearString(y);
    var n := if y < 0 then -y else y;
    var d := Pad4(n);
    if n < 10000 {
      assert |d| == 4;
    } else {
      assert DigitsValue(d) > 0;
    }
    assert IsDigit(d[0]);
    assert s[0] == '-' || s[0] == d[0];
  }

  /// The four directory elements are plain path elements.
  lemma DirElemsPlain(t: Time)
    ensures AllPlain(DirElems(t))
  {
    var c := FromTime(t);
    var e := DirElems(t);
    var y := YearString(c.year);
    YearPlain(c.year);
    DigitsNoSlash(Pad2(c.month));
    DigitsNoSlash(Pad2(c.day));
    DigitsNoSlash(Pad2(c.hour));
    NoSlashConcat(y, "_");
    NoSlashConcat(y + "_", Pad2(c.month));
    NoSlashConcat(e[1], "_");
    NoSlashConcat(e[1] + "_", Pad2(c.day));
    NoSlashConcat(e[2], "_");
    NoSlashConcat(e[2] + "_", Pad2(c.hour));
    assert forall i :: 0 <= i < 4 ==> e[i][0] == y[0] && |e[i]| >= |y|;
  }

  lemma {:induction false} PlainsOfElems(e: seq<string>)
    requires AllPlain(e)
    ensures Plains(e + [""]) == e
  {
    if e == [] {
      assert Plains([""]) == [] + Plains([]) by {
        assert [""][1..] == [];
      }
    } else {
      assert (e + [""])[1..] == e[1..] + [""];
      PlainsOfElems(e[1..]);
      assert e == [e[0]] + e[1..];
    }
  }

  /// Four elements and an empty one join to the four with a '/' after each.
  lemma JoinFourDirs(a: string, b: string, c: string, d: string)
    ensures JoinSegs([a, b, c, d, ""]) == a + "/" + b + "/" + c + "/" + d + "/"
  {
    assert JoinSegs([d, ""]) == d + "/" by {
      assert [d, ""][1..] == [""];
    }
    assert JoinSegs([c, d, ""]) == c + "/" + d + "/" by {
      assert [c, d, ""][1..] == [d, ""];
    }
    assert JoinSegs([b, c, d, ""]) == b + "/" + c + "/" + d + "/" by {
      assert [b, c, d, ""][1..] == [c, d, ""];
    }
    assert [a, b, c, d, ""][1..] == [b, c, d, ""];
  }

  /// The layout is the four elements joined by '/', with a trailing '/'.
  lemma DirStructSegs(t: Time)
    ensures FormatDirStruct(t) == JoinSegs(DirElems(t) + [""])
  {
    var e := DirElems(t);
    assert e + [""] == [e[0], e[1], e[2], e[3], ""];
    JoinFourDirs(e[0], e[1], e[2], e[3]);
  }

  /// The timestamp's directory tree relative to the output directory:
  /// "YYYY/YYYY_MM/YYYY_MM_DD/YYYY_MM_DD_hh" below it, the trailing '/' of
  /// the layout removed by Join.
  lemma DirStructLayout(t: Time, outputDir: string)
    requires outputDir != ""
    ensures Join([outputDir, FormatDirStruct(t)]) == Attach(Clean(outputDir), JoinSegs(DirElems(t)))
  {
    var e := DirElems(t);
    var bs := e + [""];
    var d := FormatDirStruct(t);
    DirElemsPlain(t);
    DirStructSegs(t);
    assert JoinBuf([outputDir]) == outputDir by {
      assert [outputDir][..0] == [];
    }
    assert JoinBuf([outputDir, d]) == outputDir + "/" + JoinSegs(bs) by {
      assert [outputDir, d][..1] == [outputDir];
    }
    PlainsOfElems(e);
    assert forall i :: 0 <= i < |bs| ==> bs[i] == "" || Plain(bs[i]);
    CleanAppend(outputDir, bs);
    CleanNonEmpty(outputDir);
  }

  /// The file's base name is never altered, and it sits in the timestamp's
  /// directory tree below the output directory.
  lemma DestinationKeepsBase(path: string, t: Time, outputDir: string)
    requires Plain(Base(path))
    ensures Base(Destination(path, t, outputDir)) == Base(path)
    ensures Dir(Destination(path, t, outputDir)) == Join([outputDir, FormatDirStruct(t)])
  {
    var b := Base(path);
    assert [outputDir, FormatDirStruct(t)] + [b] == [outputDir, FormatDirStruct(t), b];
    JoinSplit([outputDir, FormatDirStruct(t)], b);
    assert FormatDirStruct(t) != "";
    JoinNonEmpty([outputDir, FormatDirStruct(t)]);
  }

  // ---------------------------------------------------------------------
  // moveFilebyCopy and moveOrRename

  /// The file operations these functions perform, in order.
  datatype FsOp = Create(path: string) | Copy(src: string, dst: string) | Remove(path: string) | Close(path: string) | Rename(src: string, dst: string)

  /// What moveFilebyCopy meets: the errors (if any) of opening the source,
  /// creating the destination, the copy, and closing the destination.
  datatype CopyIo = CopyIo(openErr: Option<string>, createErr: Option<string>, copyErr: Option<string>, closeErr: Option<string>)

  /// moveFilebyCopy(src, dst) with the -del flag `del` and filepath.Abs as
  /// `abs`: the operations done and the error returned.
  function MoveFilebyCopy(src: string, dst: string, del: bool, abs: string -> string, io: CopyIo): (r: (seq<FsOp>, Option<string>))
    ensures Remove(src) in r.0 <==> del && io.openErr.None? && io.createErr.None? && io.copyErr.None? && abs(src) != abs(dst)
    ensures Remove(src) in r.0 ==> |r.0| >= 2 && r.0[|r.0| - 2] == Remove(src) && r.0[|r.0| - 1] == Close(dst)
    ensures r.1.None? <==> io.openErr.None? && io.createErr.None? && io.copyErr.None? && io.closeErr.None?
  {
    if io.openErr.Some? then ([], io.openErr)
    else if io.createErr.Some? then ([], io.createErr)
    else if io.copyErr.Some? then ([Create(dst), Close(dst)], io.copyErr)
    else
      var removal := if del && abs(src) != abs(dst) then [Remove(src)] else [];
      ([Create(dst), Copy(src, dst)] + removal + [Close(dst)], io.closeErr)
  }

  /// What one moveOrRename call meets: whether os.Rename succeeds (tried
  /// only with -del), and what the copy meets.
  datatype MoveIo = MoveIo(renameOk: bool, copy: CopyIo)

  /// moveOrRename: with -del a rename, falling back to copying; without
  /// it a copy. The error is logged and nil returned, always.
  function MoveOrRename(src: string, dst: string, del: bool, abs: string -> string, io: MoveIo): (r: (seq<FsOp>, Option<string>))
    ensures r.1 == None
    ensures del && io.renameOk ==> r.0 == [Rename(src, dst)]
    ensures !(del && io.renameOk) ==> r.0 == MoveFilebyCopy(src, dst, del, abs, io.copy).0
  {
    var (ops, err) := if del && io.renameOk then ([Rename(src, dst)], None) else MoveFilebyCopy(src, dst, del, abs, io.copy);
    if err.Some? then (ops, None) else (ops, err)
  }

  /// The source is never removed without -del, and never when it is its
  /// own destination.
  lemma NoRemovalWithoutDel(src: string, dst: string, del: bool, abs: string -> string, io: MoveIo)
    requires !del || abs(src) == abs(dst)
    ensures Remove(src) !in MoveOrRename(src, dst, del, abs, io).0
  {
    if del && io.renameOk {
      assert MoveOrRename(src, dst, del, abs, io).0 == [Rename(src, dst)];
    }
  }

  // ---------------------------------------------------------------------
  // visit

  /// visit's outcome: the file is skipped; its time cannot be resolved;
  /// its directory cannot be made; it is already where it would go; or it
  /// is moved, its sidecar moved when there is one, and its new path
  /// printed.
  datatype OrganizeAction =
    | Skipped
    | ParseFailed(msg: string)
    | MkdirFailed
    | Dupe
    | Moved(file: seq<FsOp>, sidecar: Option<seq<FsOp>>, printed: string)

  /// What visit meets: MkdirAll's success, the move of the file, and the
  /// move of the "<file>.json" sidecar (None when it cannot be stat'ed).
  datatype OrganizeIo = OrganizeIo(mkdirOk: bool, file: MoveIo, sidecar: Option<MoveIo>)

  predicate Ignored(path: string, info: FileInfo) {
    info.isDir || Ext(path) == ".json"
  }

  /// visit, with filepath.Abs given as `abs`. newPath, not the absolute
  /// destination, is printed, whatever the moves did.
  function Visit(path: string, info: FileInfo, resolve: string -> Result<Time>, outputDir: string, del: bool,
                 abs: string -> string, io: OrganizeIo): (r: OrganizeAction)
    ensures r.Skipped? <==> Ignored(path, info)
    ensures r.ParseFailed? <==> !Ignored(path, info) && resolve(path).Err?
    ensures r.MkdirFailed? <==> !Ignored(path, info) && resolve(path).Ok? && !io.mkdirOk
    ensures r.Dupe? <==> (!Ignored(path, info) && resolve(path).Ok? && io.mkdirOk &&
      abs(path) == abs(Destination(path, resolve(path).value, outputDir)))
    ensures r.Moved? ==>
      var dest := Destination(path, resolve(path).value, outputDir);
      && r.printed == dest
      && r.file == MoveOrRename(path, abs(dest), del, abs, io.file).0
      && (r.sidecar.Some? <==> io.sidecar.Some?)
      && (r.sidecar.Some? ==> r.sidecar.value == MoveOrRename(path + ".json", abs(dest) + ".json", del, abs, io.sidecar.value).0)
  {
    if Ignored(path, info) then Skipped
    else match ParseFilename(path, resolve, outputDir)
      case Err(e) => ParseFailed(e)
      case Ok(newPath) =>
        if !io.mkdirOk then MkdirFailed
        else
          var absSrc := abs(path);
          var absDest := abs(newPath);
          if absSrc == absDest then Dupe
          else
            var file := MoveOrRename(path, absDest, del, abs, io.file).0;
            var sidecar := match io.sidecar
              case None => None
              case Some(sio) => Some(MoveOrRename(path + ".json", absDest + ".json", del, abs, sio).0);
            Moved(file, sidecar, newPath)
  }

  /// visit applied to each (path, info) pair in turn, the file system
  /// meeting each path as `io` says.
  function Organized(vs: seq<(string, FileInfo)>, resolve: string -> Result<Time>, outputDir: string, del: bool,
                     abs: string -> string, io: string -> OrganizeIo): (r: seq<OrganizeAction>)
    ensures |r| == |vs|
    ensures forall k :: 0 <= k < |vs| ==> r[k] == Visit(vs[k].0, vs[k].1, resolve, outputDir, del, abs, io(vs[k].0))
  {
    Mapped(vs, (v: (string, FileInfo)) => Visit(v.0, v.1, resolve, outputDir, del, abs, io(v.0)))
  }

  /// Only a resolvable, non-sidecar file that is not yet in place is
  /// moved, and the path printed for it is its destination.
  lemma OrganizedMovesOnlyResolved(vs: seq<(string, FileInfo)>, resolve: string -> Result<Time>, outputDir: string, del: bool,
                                   abs: string -> string, io: string -> OrganizeIo, k: nat)
    requires k < |vs|
    requires Organized(vs, resolve, outputDir, del, abs, io)[k].Moved?
    ensures !Ignored(vs[k].0, vs[k].1) && resolve(vs[k].0).Ok? && (io(vs[k].0)).mkdirOk
    ensures Organized(vs, resolve, outputDir, del, abs, io)[k].printed == Destination(vs[k].0, resolve(vs[k].0).value, outputDir)
    ensures abs(vs[k].0) != abs(Destination(vs[k].0, resolve(vs[k].0).value, outputDir))
  {
  }

  /// One more visited pair adds its visit at the end.
  lemma OrganizedSnoc(vs: seq<(string, FileInfo)>, v: (string, FileInfo), resolve: string -> Result<Time>, outputDir: string,
                      del: bool, abs: string -> string, io: string -> OrganizeIo)
    ensures Organized(vs + [v], resolve, outputDir, del, abs, io)
      == Organized(vs, resolve, outputDir, del, abs, io) + [Visit(v.0, v.1, resolve, outputDir, del, abs, io(v.0))]
  {
    var a := Organized(vs + [v], resolve, outputDir, del, abs, io);
    var b := Organized(vs, resolve, outputDir, del, abs, io) + [Visit(v.0, v.1, resolve, outputDir, del, abs, io(v.0))];
    forall k | 0 <= k < |a| ensures a[k] == b[k] {
      if k < |vs| {
        assert (vs + [v])[k] == vs[k];
      } else {
        assert (vs + [v])[k] == v;
      }
    }
  }

  /// main's stdin loop: each line that is not a "[" log line and can be
  /// stat'ed is visited.
  method OrganizeStdin(lines: seq<string>, stat: string -> Option<FileInfo>, resolve: string -> Result<Time>, outputDir: string,
                       del: bool, abs: string -> string, io: string -> OrganizeIo)
    returns (actions: seq<OrganizeAction>)
    ensures actions == Organized(StatVisits(lines, stat), resolve, outputDir, del, abs, io)
  {
    var visits := ScanStat(lines, stat);
    actions := [];
    var k := 0;
    while k < |visits|
      invariant 0 <= k <= |visits|
      invariant actions == Organized(visits[..k], resolve, outputDir, del, abs, io)
    {
      var (text, info) := visits[k];
      OrganizedSnoc(visits[..k], visits[k], resolve, outputDir, del, abs, io);
      assert visits[..k + 1] == visits[..k] + [visits[k]];
      actions := actions + [Visit(text, info, resolve, outputDir, del, abs, io(text))];
      k := k + 1;
    }
    assert visits[..k] == visits;
  }
}
