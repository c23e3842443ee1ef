/// tscrop (tscrop/tscrop.go): crops a rectangle, or a centred area, out of
/// each image and splits it into a grid of equal tiles, one file per tile.
/// The pixel work is not modelled; what is modelled is the flag parsing,
/// the corner and tile geometry, and where each tile goes.
module TsCrop {
  import opened Results
  import opened Strings
  import opened GoPath
  import opened Calendar
  import opened Stream
  import opened Imaging

  // ---------------------------------------------------------------------
  // minMax and stringToPoint

  /// minMax(a, b): the smaller, then the larger.
  function MinMax(a: int, b: int): (r: (int, int))
    ensures r.0 <= r.1
    ensures (r.0 == a && r.1 == b) || (r.0 == b && r.1 == a)
  {
    if a < b then (a, b) else (b, a)
  }

  /// The order of the arguments does not matter.
  lemma MinMaxSymmetric(a: int, b: int)
    ensures MinMax(a, b) == MinMax(b, a)
  {
  }

  /// stringToPoint(str, sep): fewer than two parts is an error, so is a
  /// first or second part that strconv.Atoi rejects; parts after the
  /// second are ignored.
  function StringToPoint(str: string, sep: char): (r: Result<Point>)
    ensures |Split(str, sep)| < 2 ==> r == Err("not enough values to form point")
    ensures r.Ok? <==> (|Split(str, sep)| >= 2 && Atoi(Split(str, sep)[0]).Some? && Atoi(Split(str, sep)[1]).Some?)
    ensures r.Ok? ==> r.value == Point(Atoi(Split(str, sep)[0]).value, Atoi(Split(str, sep)[1]).value)
  {
    var ra := Split(str, sep);
    if |ra| < 2 then Err("not enough values to form point")
    else match Atoi(ra[0])
      case None => Err("strconv.Atoi: parsing " + ra[0] + ": invalid syntax")
      case Some(x) =>
        match Atoi(ra[1])
        case None => Err("strconv.Atoi: parsing " + ra[1] + ": invalid syntax")
        case Some(y) => Ok(Point(x, y))
  }

  /// "%d,%d" applied to a point.
  function PointText(p: Point): string {
    IntToString(p.x) + "," + IntToString(p.y)
  }

  lemma NoSepInInt(n: int, sep: char)
    requires !IsDigit(sep) && sep != '-'
    ensures sep !in IntToString(n)
  {
    IntToStringChars(n);
  }

  /// A point written as "x<sep>y" parses back, for coordinates that fit in
  /// an int.
  lemma StringToPointRoundTrip(p: Point, sep: char)
    requires !IsDigit(sep) && sep != '-'
    requires MinInt64 <= p.x <= MaxInt64 && MinInt64 <= p.y <= MaxInt64
    ensures StringToPoint(IntToString(p.x) + [sep] + IntToString(p.y), sep) == Ok(p)
  {
    var a := IntToString(p.x);
    var b := IntToString(p.y);
    NoSepInInt(p.x, sep);
    NoSepInInt(p.y, sep);
    SplitConcat(a, b, sep);
    SplitNoSep(a, sep);
    SplitNoSep(b, sep);
    AtoiIntToString(p.x);
    AtoiIntToString(p.y);
  }

  lemma PointTextRoundTrip(p: Point)
    requires MinInt64 <= p.x <= MaxInt64 && MinInt64 <= p.y <= MaxInt64
    ensures StringToPoint(PointText(p), ',') == Ok(p)
  {
    StringToPointRoundTrip(p, ',');
  }

  /// Whatever follows a second separator does not change the point.
  lemma ExtraPartsIgnored(a: string, b: string, rest: string, sep: char)
    requires sep !in a && sep !in b
    ensures StringToPoint(a + [sep] + b + [sep] + rest, sep) == StringToPoint(a + [sep] + b, sep)
  {
    SplitConcat(a + [sep] + b, rest, sep);
    SplitConcat(a, b, sep);
    SplitNoSep(a, sep);
    SplitNoSep(b, sep);
  }

  // ---------------------------------------------------------------------
  // Go's integer division

  function Abs(n: int): nat {
    if n < 0 then -n else n
  }

  lemma MulMono(a: int, b: int, c: int)
    requires a >= 0 && b <= c
    ensures a * b <= a * c
  {
  }

  /// The truncated quotient in each sign case, with the remainder it
  /// leaves.
  lemma TruncatedQuotient(a: int, b: int)
    requires b != 0
    ensures var m := Abs(a) / Abs(b);
      var q := if (a >= 0) == (b > 0) then m else -m;
      a - q * b == (if a >= 0 then Abs(a) % Abs(b) else -(Abs(a) % Abs(b)))
  {
    var m := Abs(a) / Abs(b);
    var rem := Abs(a) % Abs(b);
    assert Abs(a) == m * Abs(b) + rem;
    if a >= 0 && b > 0 {
    } else if a < 0 && b < 0 {
      assert m * b == -(m * Abs(b));
    } else if a >= 0 {
      assert (-m) * b == m * Abs(b);
    } else {
      assert (-m) * b == -(m * Abs(b));
    }
  }

  /// Go's `/` on ints: the quotient truncated toward zero, so that the
  /// remainder a - q * b has the sign of a and is smaller than b in size.
  /// For a non-negative dividend and a positive divisor it is Dafny's `/`.
  function GoQuo(a: int, b: int): (q: int)
    requires b != 0
    ensures a >= 0 ==> 0 <= a - q * b
    ensures a <= 0 ==> a - q * b <= 0
    ensures Abs(a - q * b) < Abs(b)
    ensures a >= 0 && b > 0 ==> q == a / b
  {
    TruncatedQuotient(a, b);
    var m := Abs(a) / Abs(b);
    if (a >= 0) == (b > 0) then m else -m
  }

  /// A non-zero multiple of b is at least as large as b.
  lemma NonZeroMultiple(d: int, b: int)
    requires d != 0 && b != 0
    ensures Abs(d * b) >= Abs(b)
  {
    if d > 0 {
      if b > 0 {
        MulMono(b, 1, d);
      } else {
        MulMono(-b, 1, d);
      }
    } else {
      if b > 0 {
        MulMono(b, 1, -d);
      } else {
        MulMono(-b, 1, -d);
      }
    }
  }

  lemma SubMul(p: int, q: int, b: int)
    ensures (p - q) * b == p * b - q * b
  {
  }

  /// Those three conditions fix the quotient.
  lemma GoQuoUnique(a: int, b: int, q: int)
    requires b != 0
    requires a >= 0 ==> 0 <= a - q * b
    requires a <= 0 ==> a - q * b <= 0
    requires Abs(a - q * b) < Abs(b)
    ensures q == GoQuo(a, b)
  {
    var p := GoQuo(a, b);
    SubMul(p, q, b);
    if p != q {
      NonZeroMultiple(p - q, b);
    }
  }

  // ---------------------------------------------------------------------
  // init: output type, corners, grid and chunk size

  /// The `-type` switch: the encoder and the targetExtension.
  function OutputType(t: string): (r: (Encoder, string))
    ensures r.1 in {"jpeg", "tif", "png"}
    ensures r.1 == "tif" <==> t in {"tiff", "tiff-deflate", "tiff-none"}
    ensures r.1 == "png" <==> t == "png"
    ensures r.1 == "jpeg" <==> r.0 == Jpeg(95)
    ensures r.0 == TiffUncompressed <==> t == "tiff-none"
  {
    match t
    case "jpeg" => (Jpeg(95), "jpeg")
    case "tiff" => (TiffDeflate, "tif")
    case "tiff-deflate" => (TiffDeflate, "tif")
    case "tiff-none" => (TiffUncompressed, "tif")
    case "png" => (Png, "png")
    case _ => (Jpeg(95), "jpeg")
  }

  /// How init ends: a panic on a flag that does not parse, exit status 2 for
  /// a crop area of zero, Go's run-time panic on a grid coordinate of 0, or
  /// the settings the crops use.
  datatype CropSetup =
    | FlagPanic(msg: string)
    | ZeroArea
    | DivideByZero
    | Ready(corner1: Point, corner2: Point, grid: Point, chunk: Point)

  /// init after parsing -c1, -c2 and -grid (parsing has no effects, so
  /// parsing -grid before the zero-area check changes nothing).
  function Setup(center: bool, c1: Result<Point>, c2: Result<Point>, grid: Result<Point>): (r: CropSetup)
    ensures c1.Err? ==> r == FlagPanic(c1.msg)
    ensures !center && c1.Ok? && c2.Err? ==> r == FlagPanic(c2.msg)
    // The area is zero only when both corners are the same point.
    ensures r.ZeroArea? <==> !center && c1.Ok? && c2.Ok? && c1.value == c2.value
    ensures r.DivideByZero? ==> grid.Ok? && (grid.value.x == 0 || grid.value.y == 0)
    ensures r.Ready? ==> c1.Ok? && grid == Ok(r.grid) && r.grid.x != 0 && r.grid.y != 0
    // Outside centre mode the corners are sorted componentwise and differ.
    ensures r.Ready? && !center ==>
      && c2.Ok?
      && (r.corner1.x, r.corner2.x) == MinMax(c1.value.x, c2.value.x)
      && (r.corner1.y, r.corner2.y) == MinMax(c1.value.y, c2.value.y)
      && r.corner1 != r.corner2
      && r.chunk == Point(GoQuo(r.corner2.x - r.corner1.x, r.grid.x), GoQuo(r.corner2.y - r.corner1.y, r.grid.y))
    // In centre mode -c1 is the size and an unparsable -c2 is the zero point.
    ensures r.Ready? && center ==>
      && r.corner1 == c1.value
      && r.corner2 == (if c2.Ok? then c2.value else Point(0, 0))
      && r.chunk == Point(GoQuo(r.corner1.x, r.grid.x), GoQuo(r.corner1.y, r.grid.y))
  {
    match c1
    case Err(e) => FlagPanic(e)
    case Ok(p1) =>
      if c2.Err? && !center then FlagPanic(c2.msg)
      else
        var p2 := if c2.Ok? then c2.value else Point(0, 0);
        var (x1, x2) := if center then (p1.x, p2.x) else MinMax(p1.x, p2.x);
        var (y1, y2) := if center then (p1.y, p2.y) else MinMax(p1.y, p2.y);
        if !center && Point(x1, y1) == Point(x2, y2) then ZeroArea
        else match grid
          case Err(e) => FlagPanic(e)
          case Ok(g) =>
            if g.x == 0 || g.y == 0 then DivideByZero
            else
              var chunk := if !center then Point(GoQuo(x2 - x1, g.x), GoQuo(y2 - y1, g.y))
                           else Point(GoQuo(x1, g.x), GoQuo(y1, g.y));
              Ready(Point(x1, y1), Point(x2, y2), g, chunk)
  }

  /// init, from the -center, -c1, -c2 and -grid flags.
  function Configure(center: bool, c1: string, c2: string, grid: string): CropSetup {
    Setup(center, StringToPoint(c1, ','), StringToPoint(c2, ','), StringToPoint(grid, ','))
  }

  /// A ready crop outside centre mode has a non-empty area with the
  /// corners in order, and with a positive grid the chunk is the area's
  /// size divided by the grid, rounded down.
  lemma ReadyChunk(center: bool, c1: Result<Point>, c2: Result<Point>, grid: Result<Point>)
    requires Setup(center, c1, c2, grid).Ready? && !center
    ensures var r := Setup(center, c1, c2, grid);
      && 0 <= r.corner2.x - r.corner1.x && 0 <= r.corner2.y - r.corner1.y
      && (r.corner2.x - r.corner1.x) + (r.corner2.y - r.corner1.y) > 0
      && (r.grid.x > 0 ==> r.chunk.x == (r.corner2.x - r.corner1.x) / r.grid.x)
      && (r.grid.y > 0 ==> r.chunk.y == (r.corner2.y - r.corner1.y) / r.grid.y)
  {
  }

  // ---------------------------------------------------------------------
  // The tile grid of cropImage

  /// One tile: its grid position and its anchor in the cropped area.
  datatype Tile = Tile(pos: Point, anchor: Point)

  function Max0(n: int): nat {
    if n > 0 then n else 0
  }

  /// The number of goroutines the nested loops start.
  function TileCount(grid: Point): nat {
    Max0(grid.x) * Max0(grid.y)
  }

  /// The k-th tile the loops start: x in the outer loop, y in the inner.
  function TileAt(grid: Point, chunk: Point, k: nat): (t: Tile)
    requires grid.y > 0
    ensures 0 <= t.pos.y < grid.y && k == t.pos.x * grid.y + t.pos.y
  {
    var x := k / grid.y;
    var y := k % grid.y;
    Tile(Point(x, y), Point(chunk.x * x, chunk.y * y))
  }

  /// The tiles in the order the loops start them.
  function GridTiles(grid: Point, chunk: Point): (r: seq<Tile>)
    ensures |r| == TileCount(grid)
  {
    seq(TileCount(grid), k requires 0 <= k < TileCount(grid) => if grid.y > 0 then TileAt(grid, chunk, k) else Tile(Point(0, 0), Point(0, 0)))
  }

  /// Tile (x, y) is the one started at step x * grid.y + y, anchored at
  /// (chunk.x * x, chunk.y * y).
  lemma TileAtPosition(grid: Point, chunk: Point, x: nat, y: nat)
    requires 0 <= y < grid.y
    ensures TileAt(grid, chunk, x * grid.y + y) == Tile(Point(x, y), Point(chunk.x * x, chunk.y * y))
  {
    DivModUnique(x * grid.y + y, grid.y, x, y);
  }

  /// The nested for loops of cropImage, recording the tile each goroutine
  /// is started for (running them concurrently is not modelled).
  method TileJobs(grid: Point, chunk: Point) returns (tiles: seq<Tile>)
    ensures |tiles| == TileCount(grid)
    ensures forall k :: 0 <= k < |tiles| ==> grid.y > 0 && tiles[k] == TileAt(grid, chunk, k)
  {
    tiles := [];
    var x := 0;
    while x < grid.x
      invariant 0 <= x && (x <= grid.x || x == 0)
      invariant |tiles| == x * Max0(grid.y)
      invariant forall k :: 0 <= k < |tiles| ==> grid.y > 0 && tiles[k] == TileAt(grid, chunk, k)
    {
      var y := 0;
      while y < grid.y
        invariant 0 <= y && (y <= grid.y || y == 0)
        invariant |tiles| == x * Max0(grid.y) + y
        invariant forall k :: 0 <= k < |tiles| ==> grid.y > 0 && tiles[k] == TileAt(grid, chunk, k)
      {
        TileAtPosition(grid, chunk, x, y);
        tiles := tiles + [Tile(Point(x, y), Point(chunk.x * x, chunk.y * y))];
        y := y + 1;
      }
      x := x + 1;
    }
  }

  /// The WaitGroup counter is an int32: wg.Add(grid.x * grid.y) leaves the
  /// low 32 bits of the product, read as a signed number (the int64 product
  /// and the exact one agree in those bits).
  function Int32(n: int): (r: int)
    ensures -0x8000_0000 <= r < 0x8000_0000
    ensures (n - r) % 0x1_0000_0000 == 0
    ensures -0x8000_0000 <= n < 0x8000_0000 ==> r == n
  {
    var m := n % 0x1_0000_0000;
    if m >= 0x8000_0000 then m - 0x1_0000_0000 else m
  }

  function WaitGroupCounter(grid: Point): int {
    Int32(grid.x * grid.y)
  }

  /// What the WaitGroup does with that counter and one Done per started
  /// goroutine: Wait returns; Add panics in main on a negative counter; a
  /// Done panics in a goroutine because fewer were added than started; or
  /// Wait blocks forever because more were added than started.
  datatype GridRun = Runs | NegativeCounter | DonePanics | Deadlock

  function WaitGroupRun(grid: Point): (r: GridRun)
    ensures r.Runs? <==> WaitGroupCounter(grid) == TileCount(grid)
    ensures r.NegativeCounter? <==> WaitGroupCounter(grid) < 0
    ensures r.DonePanics? <==> 0 <= WaitGroupCounter(grid) < TileCount(grid)
    ensures r.Deadlock? <==> WaitGroupCounter(grid) > TileCount(grid)
  {
    var v := WaitGroupCounter(grid);
    if v < 0 then NegativeCounter
    else if v < TileCount(grid) then DonePanics
    else if v > TileCount(grid) then Deadlock
    else Runs
  }

  /// A positive grid of fewer than 2^31 tiles waits for exactly its tiles;
  /// two negative coordinates with such a product deadlock; larger products
  /// wrap around in the counter.
  lemma WaitGroupCases(grid: Point)
    ensures grid.x > 0 && grid.y > 0 && grid.x * grid.y < 0x8000_0000 ==> WaitGroupRun(grid) == Runs
    ensures grid.x < 0 && grid.y < 0 && grid.x * grid.y < 0x8000_0000 ==> WaitGroupRun(grid) == Deadlock
    ensures WaitGroupRun(Point(46341, 46341)) == NegativeCounter
    ensures WaitGroupRun(Point(65536, 65536)) == DonePanics
  {
    if grid.x < 0 && grid.y < 0 {
      assert grid.x * grid.y > 0;
    }
    assert 46341 * 46341 == 0x8000_0000 + 4633;
    assert 65536 * 65536 == 0x1_0000_0000;
  }

  /// For a non-negative width split into n > 0 columns, column x starts at
  /// chunk * x, ends by the width, and ends before any later column starts:
  /// the tiles stay inside the crop area and do not overlap.
  lemma TilesInsideArea(width: int, n: int, x: int, x2: int)
    requires width >= 0 && n > 0 && 0 <= x < x2
    ensures var chunk := GoQuo(width, n);
      0 <= chunk * x && chunk * x + chunk <= chunk * x2
    ensures x < n ==> var chunk := GoQuo(width, n); chunk * (x + 1) <= width
  {
    var chunk := GoQuo(width, n);
    MulMono(chunk, 0, x);
    MulMono(chunk, x + 1, x2);
    if x < n {
      MulMono(chunk, x + 1, n);
    }
  }

  /// Every tile the loops start, for a positive grid over a width x height
  /// area, lies inside that area.
  lemma TileWithinArea(grid: Point, width: int, height: int, k: nat)
    requires grid.x > 0 && grid.y > 0 && width >= 0 && height >= 0 && k < TileCount(grid)
    ensures var chunk := Point(GoQuo(width, grid.x), GoQuo(height, grid.y));
      var t := TileAt(grid, chunk, k);
      && 0 <= t.anchor.x && t.anchor.x + chunk.x <= width
      && 0 <= t.anchor.y && t.anchor.y + chunk.y <= height
  {
    var chunk := Point(GoQuo(width, grid.x), GoQuo(height, grid.y));
    var t := TileAt(grid, chunk, k);
    var x := t.pos.x;
    var y := t.pos.y;
    assert x >= 0 by {
      if x < 0 {
        MulMono(grid.y, x, -1);
      }
    }
    assert x < grid.x by {
      if x >= grid.x {
        MulMono(grid.y, grid.x, x);
      }
    }
    TilesInsideArea(width, grid.x, x, x + 1);
    TilesInsideArea(height, grid.y, y, y + 1);
  }

  // ---------------------------------------------------------------------
  // fmt.Sprintf with one string argument

  predicate IsFlag(c: char) {
    c in "#0+- "
  }

  /// The format after the flags at its start.
  function SkipFlags(f: string): (r: string)
    ensures |r| <= |f| && r == f[|f| - |r|..]
  {
    if f != [] && IsFlag(f[0]) then SkipFlags(f[1..]) else f
  }

  /// fmt's parsenum at the start of f, with `num` read so far: the format
  /// after the digits, or nothing when the number passes 10^6 before they
  /// end (fmt then drops the rest of the format).
  function SkipNum(f: string, num: nat): (r: string)
    ensures |r| <= |f|
  {
    if f != [] && IsDigit(f[0]) then
      if num > 1000000 then [] else SkipNum(f[1..], num * 10 + (f[0] as int - '0' as int))
    else f
  }

  /// The directive's text after its '%', from the verb on: past the flags,
  /// the width and the precision; empty when the format ends first.
  function AtVerb(d: string): (r: string)
    ensures |r| <= |d|
  {
    var w := SkipNum(SkipFlags(d), 0);
    if w != [] && w[0] == '.' then SkipNum(w[1..], 0) else w
  }

  function HexDigit(d: nat, upper: bool): char
    requires d < 16
  {
    if d < 10 then ('0' as int + d) as char
    else if upper then ('A' as int + d - 10) as char
    else ('a' as int + d - 10) as char
  }

  /// The UTF-8 bytes of a character.
  function Utf8(c: char): (r: seq<nat>)
    ensures forall k :: 0 <= k < |r| ==> r[k] < 256
  {
    var n := c as int;
    if n < 0x80 then [n]
    else if n < 0x800 then [0xC0 + n / 0x40, 0x80 + n % 0x40]
    else if n < 0x1_0000 then [0xE0 + n / 0x1000, 0x80 + n / 0x40 % 0x40, 0x80 + n % 0x40]
    else [0xF0 + n / 0x4_0000 % 8, 0x80 + n / 0x1000 % 0x40, 0x80 + n / 0x40 % 0x40, 0x80 + n % 0x40]
  }

  function HexBytes(bs: seq<nat>, upper: bool): string
    requires forall k :: 0 <= k < |bs| ==> bs[k] < 256
  {
    if bs == [] then [] else [HexDigit(bs[0] / 16, upper), HexDigit(bs[0] % 16, upper)] + HexBytes(bs[1..], upper)
  }

  /// %x and %X of a string: two hex digits per UTF-8 byte.
  function HexText(s: string, upper: bool): string {
    if s == [] then [] else HexBytes(Utf8(s[0]), upper) + HexText(s[1..], upper)
  }

  /// The text a verb gives for the string argument s: %s and %v the text,
  /// %q the text in double quotes (exact for text that needs no escapes,
  /// as the position text), %x and %X its bytes in hex, %T its type, and
  /// any other verb the bad-verb notice.
  function VerbText(verb: char, s: string): string {
    if verb == 's' || verb == 'v' then s
    else if verb == 'q' then "\"" + s + "\""
    else if verb == 'x' then HexText(s, false)
    else if verb == 'X' then HexText(s, true)
    else if verb == 'T' then "string"
    else "%!" + [verb] + "(string=" + s + ")"
  }

  /// The notice fmt appends when the argument was never used.
  function ExtraText(s: string, used: bool): string {
    if used then "" else "%!(EXTRA string=" + s + ")"
  }

  /// fmt.Sprintf(f, s) with the one string argument s, `used` once a verb
  /// has taken it: text outside directives is copied, "%%" gives '%', a
  /// directive that runs off the end gives the no-verb notice, a verb after
  /// the argument is used gives the missing-argument notice, and an unused
  /// argument is reported at the end.
  function Printf(f: string, s: string, used: bool): string
    decreases |f|
  {
    if f == [] then ExtraText(s, used)
    else if f[0] != '%' then [f[0]] + Printf(f[1..], s, used)
    else
      var v := AtVerb(f[1..]);
      if v == [] then "%!(NOVERB)" + ExtraText(s, used)
      else if v[0] == '%' then "%" + Printf(v[1..], s, used)
      else if used then "%!" + [v[0]] + "(MISSING)" + Printf(v[1..], s, used)
      else VerbText(v[0], s) + Printf(v[1..], s, true)
  }

  /// A character other than '%' is copied.
  lemma PrintfChar(c: char, rest: string, s: string, used: bool)
    requires c != '%'
    ensures Printf([c] + rest, s, used) == [c] + Printf(rest, s, used)
  {
    assert ([c] + rest)[0] == c;
    assert ([c] + rest)[1..] == rest;
  }

  /// Text without a '%' is copied as it is.
  lemma {:induction false} PrintfLiteral(a: string, rest: string, s: string, used: bool)
    requires '%' !in a
    ensures Printf(a + rest, s, used) == a + Printf(rest, s, used)
  {
    if a != [] {
      var p := Printf(rest, s, used);
      calc {
        Printf(a + rest, s, used);
      == { assert a + rest == [a[0]] + (a[1..] + rest); }
        Printf([a[0]] + (a[1..] + rest), s, used);
      == { assert a[0] in a; PrintfChar(a[0], a[1..] + rest, s, used); }
        [a[0]] + Printf(a[1..] + rest, s, used);
      == { PrintfLiteral(a[1..], rest, s, used); }
        [a[0]] + (a[1..] + p);
      == { assert [a[0]] + a[1..] == a; }
        a + p;
      }
    } else {
      assert a + rest == rest;
    }
  }

  /// A directive with a one-character verb and no flags, width or
  /// precision.
  lemma PrintfVerb(c: char, rest: string, s: string, used: bool)
    requires !IsFlag(c) && !IsDigit(c) && c != '.'
    ensures Printf("%" + [c] + rest, s, used) ==
      if c == '%' then "%" + Printf(rest, s, used)
      else if used then "%!" + [c] + "(MISSING)" + Printf(rest, s, used)
      else VerbText(c, s) + Printf(rest, s, true)
  {
    var f := "%" + [c] + rest;
    assert f[1..] == [c] + rest;
    assert AtVerb(f[1..]) == [c] + rest;
    assert ([c] + rest)[1..] == rest;
  }

  // ---------------------------------------------------------------------
  // Names: visit, the tile paths, and the output directory of main

  /// The tile's file: visit builds the pattern Join(outputDir, "%s",
  /// newBase) and each tile's goroutine formats it with fmt.Sprintf and
  /// the tile's "x,y".
  function TilePath(outputDir: string, newBase: string, pos: Point): string {
    Printf(Join([outputDir, "%s", newBase]), PointText(pos), false)
  }

  /// The position text is digits, the separating ',' and minus signs.
  lemma PointTextChars(p: Point)
    ensures forall k :: 0 <= k < |PointText(p)| ==> var c := PointText(p)[k]; IsDigit(c) || c == ',' || c == '-'
    ensures PointText(p)[|IntToString(p.x)|] == ',' && |PointText(p)| >= 3
  {
    var s := PointText(p);
    var a := IntToString(p.x);
    var b := IntToString(p.y);
    IntToStringChars(p.x);
    IntToStringChars(p.y);
    forall k | 0 <= k < |s|
      ensures IsDigit(s[k]) || s[k] == ',' || s[k] == '-'
    {
      if k < |a| {
        assert s[k] == a[k];
      } else if k > |a| {
        assert s[k] == b[k - |a| - 1];
      }
    }
  }

  lemma PointTextPlain(p: Point)
    ensures Plain(PointText(p))
  {
    PointTextChars(p);
  }

  /// Each tile keeps the retyped name and lands in the directory of its
  /// grid position, as long as neither the output directory nor the name
  /// holds a '%' for fmt.Sprintf to read as a directive.
  lemma TilePathLayout(outputDir: string, newBase: string, pos: Point)
    requires Plain(newBase) && '%' !in newBase && '%' !in Join([outputDir])
    ensures TilePath(outputDir, newBase, pos) == Join([outputDir, PointText(pos), newBase])
    ensures Base(TilePath(outputDir, newBase, pos)) == newBase
    ensures Dir(TilePath(outputDir, newBase, pos)) == Join([outputDir, PointText(pos)])
  {
    var t := PointText(pos);
    PointTextPlain(pos);
    var pre := DirPrefix(Join([outputDir]));
    PatternText(outputDir, newBase);
    FormatPattern(pre, newBase, t);
    JoinThree(outputDir, t, newBase);
    LayoutOfJoin(outputDir, t, newBase);
  }

  /// What a one-character directive after the used argument prints.
  function LateDirective(c: char): string {
    if c == '%' then "%" else "%!" + [c] + "(MISSING)"
  }

  /// A directive in the name is a second verb after the position text has
  /// taken the argument: "%%" stays one '%', any other verb gives the
  /// missing-argument notice.
  lemma NameDirective(pre: string, a: string, c: char, b: string, t: string)
    requires '%' !in pre && '%' !in a && '%' !in b
    requires !IsFlag(c) && !IsDigit(c) && c != '.'
    ensures Printf(pre + "%s" + "/" + (a + "%" + [c] + b), t, false) ==
      pre + t + "/" + (a + LateDirective(c) + b)
  {
    var d := LateDirective(c);
    var tail := "/" + a;
    calc {
      Printf(pre + "%s" + "/" + (a + "%" + [c] + b), t, false);
    == { assert pre + "%s" + "/" + (a + "%" + [c] + b) == pre + ("%" + ['s'] + (tail + ("%" + [c] + b))); }
      Printf(pre + ("%" + ['s'] + (tail + ("%" + [c] + b))), t, false);
    == { PrintfLiteral(pre, "%" + ['s'] + (tail + ("%" + [c] + b)), t, false); }
      pre + Printf("%" + ['s'] + (tail + ("%" + [c] + b)), t, false);
    == { PrintfVerb('s', tail + ("%" + [c] + b), t, false); }
      pre + (t + Printf(tail + ("%" + [c] + b), t, true));
    == { PrintfLiteral(tail, "%" + [c] + b, t, true); }
      pre + (t + (tail + Printf("%" + [c] + b, t, true)));
    == { PrintfVerb(c, b, t, true); }
      pre + (t + (tail + (d + Printf(b, t, true))));
    == { assert b == b + []; PrintfLiteral(b, [], t, true); assert b + "" == b; }
      pre + (t + (tail + (d + b)));
    == { Regroup(pre, t, a, d, b); }
      pre + t + "/" + (a + d + b);
    }
  }

  /// A directive in the output directory takes the position text, and the
  /// "%s" meant for it finds no argument left.
  lemma DirDirective(a: string, c: char, b: string, n: string, t: string)
    requires '%' !in a && '%' !in b && '%' !in n
    requires !IsFlag(c) && !IsDigit(c) && c != '.' && c != '%'
    ensures Printf(a + "%" + [c] + b + "%s" + "/" + n, t, false) ==
      a + VerbText(c, t) + b + "%!s(MISSING)" + "/" + n
  {
    var rest := b + ("%" + ['s'] + ("/" + n));
    calc {
      Printf(a + "%" + [c] + b + "%s" + "/" + n, t, false);
    == { assert a + "%" + [c] + b + "%s" + "/" + n == a + ("%" + [c] + rest); }
      Printf(a + ("%" + [c] + rest), t, false);
    == { PrintfLiteral(a, "%" + [c] + rest, t, false); }
      a + Printf("%" + [c] + rest, t, false);
    == { PrintfVerb(c, rest, t, false); }
      a + (VerbText(c, t) + Printf(rest, t, true));
    == { MissingTail(b, n, t); }
      a + (VerbText(c, t) + (b + "%!s(MISSING)" + "/" + n));
    == { RegroupDir(a, VerbText(c, t), b, "%!s(MISSING)", n); }
      a + VerbText(c, t) + b + "%!s(MISSING)" + "/" + n;
    }
  }

  lemma Regroup(p: string, t: string, a: string, d: string, b: string)
    ensures p + (t + ("/" + a + (d + b))) == p + t + "/" + (a + d + b)
  {
  }

  lemma RegroupDir(a: string, v: string, b: string, m: string, n: string)
    ensures a + (v + (b + m + "/" + n)) == a + v + b + m + "/" + n
  {
  }

  /// A "%s" after the argument is used.
  lemma MissingTail(b: string, n: string, t: string)
    requires '%' !in b && '%' !in n
    ensures Printf(b + ("%" + ['s'] + ("/" + n)), t, true) == b + "%!s(MISSING)" + "/" + n
  {
    var tail := "/" + n;
    calc {
      Printf(b + ("%" + ['s'] + tail), t, true);
    == { PrintfLiteral(b, "%" + ['s'] + tail, t, true); }
      b + Printf("%" + ['s'] + tail, t, true);
    == { PrintfVerb('s', tail, t, true); }
      b + ("%!" + ['s'] + "(MISSING)" + Printf(tail, t, true));
    == { assert tail == tail + []; PrintfLiteral(tail, [], t, true); }
      b + ("%!" + ['s'] + "(MISSING)" + (tail + ""));
    == { assert tail + "" == tail; }
      b + "%!s(MISSING)" + "/" + n;
    }
  }

  /// A directive in the name: the tile lands where it would without it,
  /// in a file whose name has "%%" turned into '%' and any other verb into
  /// the missing-argument notice.
  lemma TilePathNameDirective(outputDir: string, a: string, c: char, b: string, pos: Point)
    requires '%' !in Join([outputDir]) && '%' !in a && '%' !in b
    requires !IsFlag(c) && !IsDigit(c) && c != '.' && c != '/'
    requires Plain(a + "%" + [c] + b)
    ensures TilePath(outputDir, a + "%" + [c] + b, pos) ==
      Join([outputDir, PointText(pos), a + LateDirective(c) + b])
  {
    var name := a + "%" + [c] + b;
    var late := a + LateDirective(c) + b;
    var t := PointText(pos);
    PointTextPlain(pos);
    LatePlain(a, c, b);
    var pre := DirPrefix(Join([outputDir]));
    calc {
      TilePath(outputDir, name, pos);
    == { PatternText(outputDir, name); }
      Printf(pre + "%s" + "/" + name, t, false);
    == { NameDirective(pre, a, c, b, t); }
      pre + t + "/" + late;
    == { JoinThree(outputDir, t, late); }
      Join([outputDir, t, late]);
    }
  }

  lemma LatePlain(a: string, c: char, b: string)
    requires Plain(a + "%" + [c] + b) && c != '/'
    ensures Plain(a + LateDirective(c) + b)
  {
    assert '/' !in LateDirective(c);
    assert (a + LateDirective(c) + b)[|a|] == '%';
  }

  /// A directive in a one-element output directory takes the position
  /// text, and the "%s" meant for it finds no argument left: every tile of
  /// the grid gets the same path.
  lemma TilePathDirDirective(a: string, c: char, b: string, newBase: string, pos: Point)
    requires Plain(a + "%" + [c] + b) && '%' !in a && '%' !in b
    requires !IsFlag(c) && !IsDigit(c) && c != '.' && c != '%'
    requires Plain(newBase) && '%' !in newBase
    ensures TilePath(a + "%" + [c] + b, newBase, pos) ==
      a + VerbText(c, PointText(pos)) + b + "/" + "%!s(MISSING)" + "/" + newBase
  {
    var dir := a + "%" + [c] + b;
    var t := PointText(pos);
    calc {
      TilePath(dir, newBase, pos);
    == { CleanPlain(dir); assert JoinBuf([dir]) == dir; PatternText(dir, newBase); }
      Printf(dir + "/" + "%s" + "/" + newBase, t, false);
    == { assert dir + "/" + "%s" + "/" + newBase == a + "%" + [c] + (b + "/") + "%s" + "/" + newBase; 
         DirDirective(a, c, b + "/", newBase, t); }
      a + VerbText(c, t) + (b + "/") + "%!s(MISSING)" + "/" + newBase;
    }
  }

  function DirPrefix(d: string): (r: string)
    ensures forall x :: Attach(d, x) == r + x
  {
    if d == "" || d == "." then "" else if d == "/" then "/" else d + "/"
  }

  lemma JoinThree(dir: string, x: string, b: string)
    requires Plain(x) && Plain(b)
    ensures Join([dir, x, b]) == DirPrefix(Join([dir])) + x + "/" + b
  {
    JoinSnoc([dir], x);
    assert [dir] + [x] == [dir, x];
    JoinSnoc([dir, x], b);
    assert [dir, x] + [b] == [dir, x, b];
    var pre := DirPrefix(Join([dir]));
    assert |pre + x| >= 2 || (pre == "" && Plain(x));
  }

  /// The pattern visit builds: the output directory's prefix, "%s/" and the
  /// name.
  lemma PatternText(outputDir: string, newBase: string)
    requires Plain(newBase)
    ensures Join([outputDir, "%s", newBase]) == DirPrefix(Join([outputDir])) + "%s" + "/" + newBase
  {
    JoinThree(outputDir, "%s", newBase);
  }

  lemma FormatPattern(pre: string, newBase: string, t: string)
    requires '%' !in pre && '%' !in newBase
    ensures Printf(pre + "%s" + "/" + newBase, t, false) == pre + t + "/" + newBase
  {
    var tail := "/" + newBase;
    calc {
      Printf(pre + "%s" + "/" + newBase, t, false);
    == { assert pre + "%s" + "/" + newBase == pre + ("%" + ['s'] + tail); }
      Printf(pre + ("%" + ['s'] + tail), t, false);
    == { PrintfLiteral(pre, "%" + ['s'] + tail, t, false); }
      pre + Printf("%" + ['s'] + tail, t, false);
    == { PrintfVerb('s', tail, t, false); }
      pre + (t + Printf(tail, t, true));
    == { assert tail == tail + []; PrintfLiteral(tail, [], t, true); }
      pre + (t + (tail + ""));
    == { assert tail + "" == tail; }
      pre + t + "/" + newBase;
    }
  }

  lemma LayoutOfJoin(outputDir: string, t: string, newBase: string)
    requires Plain(t) && Plain(newBase)
    ensures Base(Join([outputDir, t, newBase])) == newBase
    ensures Dir(Join([outputDir, t, newBase])) == Join([outputDir, t])
  {
    assert [outputDir, t] + [newBase] == [outputDir, t, newBase];
    JoinSplit([outputDir, t], newBase);
    JoinNonEmpty([outputDir, t]);
  }

  function CropDirName(center: bool, corner1: Point, corner2: Point): string {
    if center then PointText(corner1) else PointText(corner1) + "-" + PointText(corner2)
  }

  /// main's output directory: the temporary directory for "tmp", then the
  /// crop's own directory inside it.
  function CropOutputDir(outputDir: string, tmpDir: string, center: bool, corner1: Point, corner2: Point): string {
    Join([if outputDir == "tmp" then tmpDir else outputDir, CropDirName(center, corner1, corner2)])
  }

  lemma CropDirNamePlain(center: bool, corner1: Point, corner2: Point)
    ensures Plain(CropDirName(center, corner1, corner2))
  {
    var a := PointText(corner1);
    var b := PointText(corner2);
    PointTextPlain(corner1);
    PointTextPlain(corner2);
    if !center {
      var s := a + "-" + b;
      assert forall k :: 0 <= k < |s| ==> s[k] == '-' || s[k] in a || s[k] in b by {
        forall k | 0 <= k < |s|
          ensures s[k] == '-' || s[k] in a || s[k] in b
        {
          if k < |a| {
            assert s[k] == a[k];
          } else if k > |a| {
            assert s[k] == b[k - |a| - 1];
          }
        }
      }
      assert |s| > 2;
    }
  }

  /// The crop directory is one level below the chosen output directory.
  lemma CropOutputDirLayout(outputDir: string, tmpDir: string, center: bool, corner1: Point, corner2: Point)
    ensures Base(CropOutputDir(outputDir, tmpDir, center, corner1, corner2)) == CropDirName(center, corner1, corner2)
    ensures var root := if outputDir == "tmp" then tmpDir else outputDir;
      Dir(CropOutputDir(outputDir, tmpDir, center, corner1, corner2)) == if Join([root]) == "" then "." else Join([root])
  {
    var root := if outputDir == "tmp" then tmpDir else outputDir;
    var name := CropDirName(center, corner1, corner2);
    CropDirNamePlain(center, corner1, corner2);
    JoinPair(root, name);
  }

  /// The record each tile emits. Its Path is never set, so it is empty;
  /// the command line is appended to the source's command list.
  function TileRecord(src: Image, data: seq<bv8>, cmdLine: string): (r: Image)
    ensures r.path == "" && r.data == data
    ensures r.originalPath == src.originalPath && r.timestamp == src.timestamp && r.exifTimestamp == src.exifTimestamp
    ensures r.cmdList == src.cmdList + [cmdLine]
  {
    Blank.(originalPath := src.originalPath, data := data, timestamp := src.timestamp,
           exifTimestamp := src.exifTimestamp, cmdList := src.cmdList + [cmdLine])
  }

  /// With -outfmt path a tile prints an empty line, not its file's path.
  lemma TilePrintsEmptyPath(src: Image, data: seq<bv8>, cmdLine: string)
    ensures Emit(TileRecord(src, data, cmdLine), "path") == Line("")
  {
  }

  /// One tile's result: the file written and what is emitted.
  datatype TileWrite = TileWrite(path: string, out: Output)

  /// What cropImage meets: whether the image can be read and decoded, and
  /// for each grid position the encoded bytes of its tile, or None when
  /// the crop, the encoding or the write fails.
  datatype CropIo = CropIo(loadOk: bool, tileBytes: Point -> Option<seq<bv8>>)

  /// visit's outcome: not an image file; the image cannot be read; the
  /// program stops in cropImage because the WaitGroup panics or deadlocks;
  /// or one result per started tile, in the order the tiles are started.
  datatype CropAction = Ignored | LoadFailed | Halted(how: GridRun) | Cropped(tiles: seq<Option<TileWrite>>)

  /// The tiles' results, in order.
  function TileResults(src: Image, newBase: string, outputDir: string, tiles: seq<Tile>, outfmt: string,
                       cmdLine: string, tileBytes: Point -> Option<seq<bv8>>): (r: seq<Option<TileWrite>>)
    ensures |r| == |tiles|
    ensures forall k :: 0 <= k < |tiles| ==>
      (r[k].Some? <==> tileBytes(tiles[k].pos).Some?) &&
      (r[k].Some? ==> r[k].value == TileWrite(TilePath(outputDir, newBase, tiles[k].pos),
                                              Emit(TileRecord(src, tileBytes(tiles[k].pos).value, cmdLine), outfmt)))
  {
    if tiles == [] then []
    else
      var t := tiles[|tiles| - 1];
      var last := match tileBytes(t.pos)
        case None => None
        case Some(data) => Some(TileWrite(TilePath(outputDir, newBase, t.pos), Emit(TileRecord(src, data, cmdLine), outfmt)));
      TileResults(src, newBase, outputDir, tiles[..|tiles| - 1], outfmt, cmdLine, tileBytes) + [last]
  }

  /// visit(img) with cropImage, given the grid and the tiles TileJobs
  /// starts for it.
  function Visit(img: Image, outputDir: string, targetExtension: string, grid: Point, tiles: seq<Tile>, outfmt: string,
                 cmdLine: string, io: CropIo): (r: CropAction)
    ensures r.Ignored? <==> !IsImageFile(img.path)
    ensures r.LoadFailed? <==> IsImageFile(img.path) && !io.loadOk
    ensures r.Halted? <==> IsImageFile(img.path) && io.loadOk && !WaitGroupRun(grid).Runs?
    ensures r.Halted? ==> r.how == WaitGroupRun(grid)
    ensures r.Cropped? ==> r.tiles == TileResults(img, RetypedBase(img.path, targetExtension), outputDir, tiles, outfmt, cmdLine, io.tileBytes)
  {
    if !IsImageFile(img.path) then Ignored
    else
      var newBase := RetypedBase(img.path, targetExtension);
      if !io.loadOk then LoadFailed
      else if !WaitGroupRun(grid).Runs? then Halted(WaitGroupRun(grid))
      else Cropped(TileResults(img, newBase, outputDir, tiles, outfmt, cmdLine, io.tileBytes))
  }

  // ---------------------------------------------------------------------
  // main

  /// What every visit of the stdin loop shares: LoadImage, the crop
  /// directory, the target extension, the grid and the tiles it starts, the
  /// output format, the command line, and what the file system does for
  /// each path.
  datatype CropEnv = CropEnv(load: string -> Image, outputDir: string, targetExtension: string, grid: Point,
                             tiles: seq<Tile>, outfmt: string, cmdLine: string, io: string -> CropIo)

  /// visit applied to the image LoadImage gives for each path.
  function VisitOf(env: CropEnv): string -> CropAction {
    p => Visit(env.load(p), env.outputDir, env.targetExtension, env.grid, env.tiles, env.outfmt, env.cmdLine, env.io(p))
  }

  /// The stdin loop so far: the visits' actions, the removals it has
  /// deferred, and how the program stopped, once a visit has stopped it.
  datatype CropRun = CropRun(actions: seq<CropAction>, deferred: seq<string>, halt: Option<GridRun>)

  /// The loop over the steps, with `visit` for each visited path; nothing
  /// happens once a visit has stopped the program.
  function CropSteps(steps: seq<PathStep>, visit: string -> CropAction): CropRun {
    if steps == [] then CropRun([], [], None)
    else
      var run := CropSteps(steps[..|steps| - 1], visit);
      var last := steps[|steps| - 1];
      if run.halt.Some? then run
      else if last.DeferRemove? then run.(deferred := run.deferred + [last.dir])
      else
        var a := visit(last.path);
        CropRun(run.actions + [a], run.deferred, if a.Halted? then Some(a.how) else None)
  }

  /// The loop stops at the first visit that halts, and otherwise visits
  /// every path and defers every removal.
  lemma {:induction false} CropStepsMeaning(steps: seq<PathStep>, visit: string -> CropAction)
    ensures var r := CropSteps(steps, visit);
      (r.halt.None? <==> forall k :: 0 <= k < |steps| && steps[k].VisitPath? ==> !visit(steps[k].path).Halted?) &&
      (r.halt.None? ==> |r.actions| == |VisitedPaths(steps)| && r.deferred == DeferredDirs(steps)) &&
      (r.halt.None? ==> forall k :: 0 <= k < |r.actions| ==> r.actions[k] == visit(VisitedPaths(steps)[k])) &&
      (r.halt.None? ==> forall k :: 0 <= k < |r.actions| ==> !r.actions[k].Halted?) &&
      (r.halt.Some? ==> |r.actions| > 0 && r.actions[|r.actions| - 1] == Halted(r.halt.value)) &&
      (forall k :: 0 <= k < |r.actions| - 1 ==> !r.actions[k].Halted?)
  {
    if steps != [] {
      var before := steps[..|steps| - 1];
      CropStepsMeaning(before, visit);
      var run := CropSteps(before, visit);
      var last := steps[|steps| - 1];
      assert forall k :: 0 <= k < |before| ==> before[k] == steps[k];
      if run.halt.None? {
        if last.DeferRemove? {
          assert DeferredDirs(steps) == DeferredDirs(before) + [last.dir];
          assert VisitedPaths(steps) == VisitedPaths(before);
        } else {
          assert VisitedPaths(steps) == VisitedPaths(before) + [last.path];
          assert DeferredDirs(steps) == DeferredDirs(before);
        }
      }
    }
  }

  lemma CropStepsSnoc(steps: seq<PathStep>, x: PathStep, visit: string -> CropAction)
    ensures var run := CropSteps(steps, visit);
      CropSteps(steps + [x], visit) ==
        if run.halt.Some? then run
        else if x.DeferRemove? then run.(deferred := run.deferred + [x.dir])
        else CropRun(run.actions + [visit(x.path)], run.deferred,
                     if visit(x.path).Halted? then Some(visit(x.path).how) else None)
  {
    assert (steps + [x])[..|steps|] == steps;
  }

  lemma SnocPair<T>(s: seq<T>, x: T, y: T)
    ensures s + [x] + [y] == s + [x, y]
  {
  }

  /// Once the program has stopped, later lines change nothing.
  lemma {:induction false} HaltedStays(a: seq<PathStep>, b: seq<PathStep>, visit: string -> CropAction)
    requires CropSteps(a, visit).halt.Some?
    ensures CropSteps(a + b, visit) == CropSteps(a, visit)
  {
    if b == [] {
      assert a + b == a;
    } else {
      HaltedStays(a, b[..|b| - 1], visit);
      assert (a + b)[..|a + b| - 1] == a + b[..|b| - 1];
    }
  }

  /// The first visit that halts ends the run: its actions are the earlier
  /// visits' and the halting one, and only the removals deferred before it
  /// are pending.
  lemma HaltFirst(pre: seq<PathStep>, p: string, post: seq<PathStep>, visit: string -> CropAction)
    requires CropSteps(pre, visit).halt.None? && visit(p).Halted?
    ensures var r := CropSteps(pre + [VisitPath(p)] + post, visit);
      r.actions == CropSteps(pre, visit).actions + [visit(p)] &&
      r.deferred == DeferredDirs(pre) &&
      r.halt == Some(visit(p).how)
  {
    var a := pre + [VisitPath(p)];
    assert a[..|a| - 1] == pre;
    CropStepsMeaning(pre, visit);
    HaltedStays(a, post, visit);
  }

  /// Without a halt the crop loop visits exactly the paths of the
  /// path-mode loop and defers exactly its "#-" directories.
  lemma RunWithoutHalt(lines: seq<string>, visit: string -> CropAction)
    requires CropSteps(PathSteps(lines), visit).halt.None?
    ensures var r := CropSteps(PathSteps(lines), visit);
      |r.actions| == |PathVisits(lines)| &&
      (forall k :: 0 <= k < |r.actions| ==> r.actions[k] == visit(PathVisits(lines)[k])) &&
      r.deferred == PathMarkers(lines)
  {
    CropStepsMeaning(PathSteps(lines), visit);
    PathStepsSplit(lines);
  }

  /// Whether main's deferred calls run: main returns, or the panic is
  /// raised in main itself (wg.Add); a deadlock and a goroutine's panic end
  /// the program without running them.
  predicate DefersRun(halt: Option<GridRun>) {
    halt.None? || halt == Some(NegativeCounter)
  }

  /// The stdin loop of main, with `visit` for each loaded path: the two
  /// halves of each scan iteration, until a visit stops the program.
  method ScanUntilHalted(lines: seq<string>, visit: string -> CropAction) returns (run: CropRun)
    ensures run == CropSteps(PathSteps(lines), visit)
  {
    run := CropRun([], [], None);
    var i := 0;
    while i < |lines| && run.halt.None?
      invariant 0 <= i <= |lines|
      invariant run == CropSteps(PathSteps(lines[..i]), visit)
    {
      ghost var steps := PathSteps(lines[..i]);
      assert lines[..i + 1][..i] == lines[..i];
      var text := LineText(lines[i]);
      i := i + 1;
      assert PathSteps(lines[..i]) == steps + LineSteps(text);
      ghost var first: PathStep;
      if HasPrefix(text, "[") {
        assert steps + LineSteps(text) == steps;
        continue;
      } else if HasPrefix(text, "#-") {
        first := DeferRemove(TrimPrefix(text, "#-"));
        run := run.(deferred := run.deferred + [TrimPrefix(text, "#-")]);
      } else {
        first := VisitPath(text);
        var a := visit(text);
        run := CropRun(run.actions + [a], run.deferred, if a.Halted? then Some(a.how) else None);
      }
      CropStepsSnoc(steps, first, visit);
      var data := LineText(lines[i - 1]);
      assert data == text;
      if HasPrefix(data, "[") {
        continue;
      } else if run.halt.None? {
        var a := visit(data);
        run := CropRun(run.actions + [a], run.deferred, if a.Halted? then Some(a.how) else None);
      }
      CropStepsSnoc(steps + [first], VisitPath(data), visit);
      assert LineSteps(text) == [first, VisitPath(data)];
      SnocPair(steps, first, VisitPath(data));
    }
    if i < |lines| {
      var pre, post := lines[..i], lines[i..];
      assert pre + post == lines;
      PathStepsAppend(pre, post);
      HaltedStays(PathSteps(pre), PathSteps(post), visit);
    } else {
      assert lines[..i] == lines;
    }
  }

  /// main in path mode after a successful init: the crop's output
  /// directory (inside a fresh temporary directory for "tmp", whose cleanup
  /// marker is deferred first and so emitted last), then the stdin loop,
  /// which visits each path line twice and defers removing the "#-"
  /// directories. When no visit stops the program the removals run last
  /// first as main returns; a panic in wg.Add still runs the removals
  /// deferred so far, a deadlock or a panic in a goroutine runs none.
  method CropStdin(lines: seq<string>, outputDir: string, tmpDir: string, center: bool, setup: CropSetup, load: string -> Image,
                   targetExtension: string, outfmt: string, cmdLine: string, io: string -> CropIo)
    returns (actions: seq<CropAction>, removed: seq<string>, cleanup: Option<Output>)
    requires setup.Ready?
    ensures var env := CropEnv(load, CropOutputDir(outputDir, tmpDir, center, setup.corner1, setup.corner2),
                               targetExtension, setup.grid, GridTiles(setup.grid, setup.chunk), outfmt, cmdLine, io);
      var run := CropSteps(PathSteps(lines), VisitOf(env));
      actions == run.actions &&
      removed == (if DefersRun(run.halt) then Reversed(run.deferred) else []) &&
      (cleanup.Some? <==> outputDir == "tmp" && DefersRun(run.halt))
    ensures cleanup.Some? ==> cleanup.value == EmitCleanup(tmpDir, outfmt)
  {
    var dir := CropOutputDir(outputDir, tmpDir, center, setup.corner1, setup.corner2);
    var tiles := TileJobs(setup.grid, setup.chunk);
    var env := CropEnv(load, dir, targetExtension, setup.grid, tiles, outfmt, cmdLine, io);
    var run := ScanUntilHalted(lines, VisitOf(env));
    assert tiles == GridTiles(setup.grid, setup.chunk);
    assert env == CropEnv(load, CropOutputDir(outputDir, tmpDir, center, setup.corner1, setup.corner2),
                          targetExtension, setup.grid, GridTiles(setup.grid, setup.chunk), outfmt, cmdLine, io);
    actions := run.actions;
    removed := [];
    cleanup := None;
    if DefersRun(run.halt) {
      removed := RunDeferred(run.deferred);
      if outputDir == "tmp" {
        cleanup := Some(EmitCleanup(tmpDir, outfmt));
      }
    }
  }
}
