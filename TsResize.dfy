/// tsresize (tsresize/tsresize.go): re-encodes each image at a given
/// resolution into the output directory. The pixel work is not modelled;
/// what is modelled is the flag parsing, the naming, the order of the
/// updates visit makes to the image, and the stdin loop.
module TsResize {
  import opened Results
  import opened Strings
  import opened GoPath
  import opened Stream
  import opened Imaging

  // ---------------------------------------------------------------------
  // stringToPoint and init

  /// What stringToPoint(str, "x") does: a point, the error of strconv.Atoi
  /// on the first or the second part, or the run-time panic of reading a
  /// second part there is none of.
  datatype PointParse = Parsed(p: Point) | AtoiFailed(msg: string) | IndexOutOfRange

  /// stringToPoint: the first part is converted before the second is
  /// read, and there is no check on the number of parts.
  function StringToPoint(str: string, sep: char): (r: PointParse)
    ensures Atoi(Split(str, sep)[0]).None? ==> r.AtoiFailed?
    ensures r.IndexOutOfRange? <==> Atoi(Split(str, sep)[0]).Some? && |Split(str, sep)| < 2
    ensures r.Parsed? <==> (|Split(str, sep)| >= 2 && Atoi(Split(str, sep)[0]).Some? && Atoi(Split(str, sep)[1]).Some?)
    ensures r.Parsed? ==> r.p == Point(Atoi(Split(str, sep)[0]).value, Atoi(Split(str, sep)[1]).value)
  {
    var ra := Split(str, sep);
    match Atoi(ra[0])
    case None => AtoiFailed("strconv.Atoi: parsing " + ra[0] + ": invalid syntax")
    case Some(x) =>
      if |ra| < 2 then IndexOutOfRange
      else match Atoi(ra[1])
        case None => AtoiFailed("strconv.Atoi: parsing " + ra[1] + ": invalid syntax")
        case Some(y) => Parsed(Point(x, y))
  }

  /// "WxH" parses to (W, H), for sizes that fit in an int.
  lemma ResolutionRoundTrip(w: int, h: int)
    requires MinInt64 <= w <= MaxInt64 && MinInt64 <= h <= MaxInt64
    ensures StringToPoint(IntToString(w) + "x" + IntToString(h), 'x') == Parsed(Point(w, h))
  {
    var a := IntToString(w);
    var b := IntToString(h);
    IntToStringChars(w);
    IntToStringChars(h);
    assert 'x' !in a && 'x' !in b;
    SplitConcat(a, b, 'x');
    SplitNoSep(a, 'x');
    SplitNoSep(b, 'x');
    AtoiIntToString(w);
    AtoiIntToString(h);
  }

  /// A number with no "x" after it reads past the end of the parts.
  lemma MissingSeparatorPanics(s: string)
    requires 'x' !in s && Atoi(s).Some?
    ensures StringToPoint(s, 'x') == IndexOutOfRange
  {
    SplitNoSep(s, 'x');
  }

  /// Whatever follows a second "x" does not change the point.
  lemma ExtraPartsIgnored(a: string, b: string, rest: string)
    requires 'x' !in a && 'x' !in b
    ensures StringToPoint(a + "x" + b + "x" + rest, 'x') == StringToPoint(a + "x" + b, 'x')
  {
    assert a + "x" + b == a + ['x'] + b;
    assert a + "x" + b + "x" + rest == (a + ['x'] + b) + ['x'] + rest;
    SplitConcat(a + ['x'] + b, rest, 'x');
    SplitConcat(a, b, 'x');
    SplitNoSep(a, 'x');
    SplitNoSep(b, 'x');
  }

  /// The `-type` switch: the encoder and the targetExtension.
  function OutputType(t: string): (r: (Encoder, string))
    ensures r.1 in {"jpg", "tif", "png"}
    ensures r.1 == "tif" <==> t in {"tiff", "tiff-deflate", "tiff-none"}
    ensures r.1 == "png" <==> t == "png"
    ensures r.1 == "jpg" <==> r.0 == Jpeg(95)
    ensures r.0 == TiffUncompressed <==> t == "tiff-none"
  {
    match t
    case "jpg" => (Jpeg(95), "jpg")
    case "tiff" => (TiffDeflate, "tif")
    case "tiff-deflate" => (TiffDeflate, "tif")
    case "tiff-none" => (TiffUncompressed, "tif")
    case "png" => (Png, "png")
    case _ => (Jpeg(95), "jpg")
  }

  /// How init ends: exit status 2 without -res, a panic on a -res that does
  /// not parse, or the resolution.
  datatype ResizeSetup = NoResolution | FlagPanic(msg: string) | IndexPanic | Ready(resolution: Point)

  function Setup(res: string): (r: ResizeSetup)
    ensures r.NoResolution? <==> res == ""
    ensures res != "" ==> (r.Ready? <==> StringToPoint(res, 'x').Parsed?)
    ensures res != "" ==> (r.IndexPanic? <==> StringToPoint(res, 'x').IndexOutOfRange?)
    ensures r.Ready? ==> r.resolution == StringToPoint(res, 'x').p
  {
    if res == "" then NoResolution
    else match StringToPoint(res, 'x')
      case AtoiFailed(e) => FlagPanic(e)
      case IndexOutOfRange => IndexPanic
      case Parsed(p) => Ready(p)
  }

  // ---------------------------------------------------------------------
  // convertImage and visit

  /// What convertImage meets: whether the file opens and reads (only tried
  /// when the image carries no bytes), the bytes read, whether they decode,
  /// and the encoded bytes of the resized picture (None when encoding
  /// fails).
  datatype ConvertIo = ConvertIo(openOk: bool, readOk: bool, fileBytes: seq<bv8>, decodeOk: bool, encoded: Option<seq<bv8>>)

  /// convertImage(&img): the image as the pointer leaves it, and the error
  /// returned. A failure to open or read the file is an error like a
  /// failure to decode or encode. An image without bytes takes the file's
  /// bytes once they are read, and keeps them when decoding or encoding
  /// then fails; the encoded bytes replace them only when both succeed.
  function ConvertImage(img: Image, io: ConvertIo): (r: (Image, Option<string>))
    ensures r.0 == img.(data := r.0.data)
    ensures |img.data| == 0 && !(io.openOk && io.readOk) ==> r.0 == img && r.1.Some?
    ensures r.1.None? <==> (|img.data| > 0 || (io.openOk && io.readOk)) && io.decodeOk && io.encoded.Some?
    ensures r.1.None? ==> r.0.data == io.encoded.value
    ensures r.1.Some? && |img.data| == 0 && io.openOk && io.readOk ==> r.0.data == io.fileBytes
    ensures r.1.Some? && |img.data| > 0 ==> r.0 == img
  {
    if |img.data| == 0 && !io.openOk then (img, Some("open " + img.path + ": no such file or directory"))
    else if |img.data| == 0 && !io.readOk then (img, Some("read " + img.path + ": read failed"))
    else
      var loaded := if |img.data| == 0 then img.(data := io.fileBytes) else img;
      if !io.decodeOk then (loaded, Some("image: unknown format"))
      else match io.encoded
        case None => (loaded, Some("encode failed"))
        case Some(bytes) => (loaded.(data := bytes), None)
  }

  /// visit's outcome: not an image file; a conversion error, logged; or
  /// the image with its new path, written there and emitted.
  datatype ResizeAction = Ignored | ConvertFailed(msg: string) | Written(img: Image, out: Output)

  /// The new path: the retyped base name in the output directory.
  function NewPath(p: string, outputDir: string, targetExtension: string): string {
    Join([outputDir, RetypedBase(p, targetExtension)])
  }

  lemma NewPathLayout(p: string, outputDir: string, targetExtension: string)
    requires Base(p) != "/" && targetExtension != "" && '/' !in targetExtension && '.' !in targetExtension
    ensures Base(NewPath(p, outputDir, targetExtension)) == RetypedBase(p, targetExtension)
    ensures Dir(NewPath(p, outputDir, targetExtension)) == if Join([outputDir]) == "" then "." else Join([outputDir])
  {
    var b := RetypedBase(p, targetExtension);
    RetypedBasePlain(p, targetExtension);
    JoinPair(outputDir, b);
  }

  /// visit(img). The write's error is ignored; the path is set before the
  /// write and the emit.
  function Visit(img: Image, outputDir: string, targetExtension: string, outfmt: string, io: ConvertIo): (r: ResizeAction)
    ensures r.Ignored? <==> !IsImageFile(img.path)
    ensures r.ConvertFailed? <==> IsImageFile(img.path) && ConvertImage(img, io).1.Some?
    ensures r.Written? ==>
      && r.img == ConvertImage(img, io).0.(path := NewPath(img.path, outputDir, targetExtension))
      && r.out == Emit(r.img, outfmt)
  {
    if !IsImageFile(img.path) then Ignored
    else
      var newPath := NewPath(img.path, outputDir, targetExtension);
      var (converted, err) := ConvertImage(img, io);
      if err.Some? then ConvertFailed(err.value)
      else
        var out := converted.(path := newPath);
        Written(out, Emit(out, outfmt))
  }

  /// With -outfmt path a converted image prints its new path.
  lemma WrittenPrintsNewPath(img: Image, outputDir: string, targetExtension: string, io: ConvertIo)
    requires Visit(img, outputDir, targetExtension, "path", io).Written?
    ensures Visit(img, outputDir, targetExtension, "path", io).out == Line(NewPath(img.path, outputDir, targetExtension))
  {
  }

  /// An image file with no bytes that cannot be opened or read is a
  /// logged conversion error: nothing is written or emitted for it.
  lemma UnreadableNotWritten(img: Image, outputDir: string, targetExtension: string, outfmt: string, io: ConvertIo)
    requires IsImageFile(img.path) && |img.data| == 0 && !(io.openOk && io.readOk)
    ensures Visit(img, outputDir, targetExtension, outfmt, io).ConvertFailed?
  {
  }

  /// A picture that already carries bytes is never read from disc.
  lemma LoadedImageNotReread(img: Image, io: ConvertIo)
    requires |img.data| > 0
    ensures ConvertImage(img, io) == ConvertImage(img, io.(openOk := false, readOk := false, fileBytes := []))
  {
  }

  // ---------------------------------------------------------------------
  // main

  /// visit applied to the image LoadImage gives for each path, in turn.
  function Resized(paths: seq<string>, load: string -> Image, outputDir: string, targetExtension: string, outfmt: string,
                   io: string -> ConvertIo): (r: seq<ResizeAction>)
    ensures |r| == |paths|
    ensures forall k :: 0 <= k < |paths| ==> r[k] == Visit(load(paths[k]), outputDir, targetExtension, outfmt, io(paths[k]))
  {
    Mapped(paths, p => Visit(load(p), outputDir, targetExtension, outfmt, io(p)))
  }

  /// main in path mode: "tmp" as -output means a fresh temporary
  /// directory; the stdin loop visits each path line twice and defers
  /// removing the "#-" directories. When main returns the removals run
  /// first, last first, and the cleanup marker, deferred before them, is
  /// emitted after them.
  method ResizeStdin(lines: seq<string>, outputDir: string, tmpDir: string, load: string -> Image,
                     targetExtension: string, outfmt: string, io: string -> ConvertIo)
    returns (actions: seq<ResizeAction>, removed: seq<string>, cleanup: Option<Output>)
    ensures var dir := if outputDir == "tmp" then tmpDir else outputDir;
      actions == Resized(PathVisits(lines), load, dir, targetExtension, outfmt, io)
    ensures removed == Reversed(PathMarkers(lines))
    ensures cleanup.Some? <==> outputDir == "tmp"
    ensures cleanup.Some? ==> cleanup.value == EmitCleanup(tmpDir, outfmt)
  {
    var dir := outputDir;
    cleanup := None;
    if outputDir == "tmp" {
      dir := tmpDir;
      cleanup := Some(EmitCleanup(tmpDir, outfmt));
    }
    var visits;
    visits, removed := ScanPaths(lines);
    actions := Resized(visits, load, dir, targetExtension, outfmt, io);
  }
}
