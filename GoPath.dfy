/// Go's `path` package (slash-separated paths, which is also what
/// `path/filepath` does on Unix): Clean, Join, Base, Ext, Dir.
///
/// Clean is modelled by what it computes rather than by its byte loop: the
/// path is split at '/', the pieces are folded into a stack (empty pieces and
/// "." are dropped, ".." pops the last real element, is dropped at the root
/// of a rooted path and is kept otherwise), and the stack is written back
/// with '/' between the elements.
module GoPath {
  import opened Results
  import opened Strings

  /// A single path element that Clean keeps as it is.
  predicate Plain(b: string) {
    b != "" && b != "." && b != ".." && '/' !in b
  }

  /// An element that may sit on a cleaned stack ("..", or a plain element).
  predicate Elem(b: string) {
    b != "" && b != "." && '/' !in b
  }

  predicate Rooted(p: string) {
    |p| > 0 && p[0] == '/'
  }

  function Segments(p: string): seq<string> {
    Split(p, '/')
  }

  function Step(rooted: bool, st: seq<string>, seg: string): seq<string> {
    if seg == "" || seg == "." then st
    else if seg == ".." then
      if |st| > 0 && st[|st| - 1] != ".." then st[..|st| - 1]
      else if rooted then st
      else st + [".."]
    else st + [seg]
  }

  function Fold(rooted: bool, st: seq<string>, segs: seq<string>): seq<string>
    decreases |segs|
  {
    if segs == [] then st else Fold(rooted, Step(rooted, st, segs[0]), segs[1..])
  }

  /// The elements joined with '/' between them.
  function JoinSegs(st: seq<string>): string
    decreases |st|
  {
    if |st| == 0 then "" else if |st| == 1 then st[0] else st[0] + "/" + JoinSegs(st[1..])
  }

  function Render(rooted: bool, st: seq<string>): string {
    if rooted then "/" + JoinSegs(st) else if st == [] then "." else JoinSegs(st)
  }

  /// path.Clean: the shortest lexically equivalent path; "" becomes ".".
  function Clean(p: string): string {
    if p == "" then "." else Render(Rooted(p), Fold(Rooted(p), [], Segments(p)))
  }

  /// The text path.Join hands to Clean: the elements, with a '/' added before
  /// each element once something has been written.
  function JoinBuf(elems: seq<string>): string
    decreases |elems|
  {
    if elems == [] then ""
    else
      var b := JoinBuf(elems[..|elems| - 1]);
      var e := elems[|elems| - 1];
      if |b| > 0 then b + "/" + e else e
  }

  /// path.Join: "" when every element is empty, otherwise the cleaned join.
  function Join(elems: seq<string>): string {
    var b := JoinBuf(elems);
    if b == "" then "" else Clean(b)
  }

  function StripTrailing(p: string): (r: string)
    ensures |r| <= |p| && r == p[..|r|]
    ensures r == [] || r[|r| - 1] != '/'
  {
    if |p| > 0 && p[|p| - 1] == '/' then StripTrailing(p[..|p| - 1]) else p
  }

  /// strings.LastIndex(p, string(c)) for a single character c.
  function LastIndexOf(p: string, c: char): (r: Option<nat>)
    ensures r.Some? ==> r.value < |p| && p[r.value] == c && c !in p[r.value + 1..]
    ensures r.None? ==> c !in p
  {
    if p == [] then None
    else if p[|p| - 1] == c then Some(|p| - 1)
    else
      var r := LastIndexOf(p[..|p| - 1], c);
      if r.Some? then
        assert p[r.value + 1..] == p[..|p| - 1][r.value + 1..] + [p[|p| - 1]];
        r
      else
        assert p == p[..|p| - 1] + [p[|p| - 1]];
        r
  }

  function LastSlash(p: string): Option<nat> {
    LastIndexOf(p, '/')
  }

  /// The text after the last '/' (all of p when there is none).
  function LastElem(p: string): (r: string)
    ensures '/' !in r && |r| <= |p| && r == p[|p| - |r|..]
  {
    match LastSlash(p)
    case None => p
    case Some(i) => p[i + 1..]
  }

  /// path.Base: the last element, with trailing slashes removed.
  function Base(p: string): string {
    if p == "" then "."
    else
      var last := LastElem(StripTrailing(p));
      if last == "" then "/" else last
  }

  /// path.Ext: the suffix from the last '.' of the last element, or "".
  function Ext(p: string): (r: string)
    ensures |r| <= |p| && r == p[|p| - |r|..]
    ensures '/' !in r
    ensures r == "" || r[0] == '.'
  {
    var q := LastElem(p);
    match LastIndexOf(q, '.')
    case None => ""
    case Some(j) =>
      SuffixOfSuffix(p, q, j);
      q[j..]
  }

  /// A suffix of a suffix of p is a suffix of p, and holds no character the
  /// outer suffix does not.
  lemma SuffixOfSuffix(p: string, q: string, j: nat)
    requires |q| <= |p| && q == p[|p| - |q|..] && j <= |q|
    ensures |q[j..]| <= |p| && q[j..] == p[|p| - |q[j..]|..]
    ensures forall c :: c in q[j..] ==> c in q
  {
    forall c | c in q[j..] ensures c in q {
      var k :| 0 <= k < |q[j..]| && q[j..][k] == c;
      assert q[j + k] == c;
    }
  }

  /// path.Dir: everything up to the last '/', cleaned.
  function Dir(p: string): string {
    match LastSlash(p)
    case None => Clean("")
    case Some(i) => Clean(p[..i + 1])
  }

  /// How a cleaned directory and a further relative path are joined.
  function Attach(c: string, x: string): string {
    if c == "" || c == "." then x else if c == "/" then "/" + x else c + "/" + x
  }

  // ---------------------------------------------------------------------
  // Lemmas about the segment model

  predicate NoSlashes(segs: seq<string>) {
    forall i :: 0 <= i < |segs| ==> '/' !in segs[i]
  }

  predicate AllPlain(segs: seq<string>) {
    forall i :: 0 <= i < |segs| ==> Plain(segs[i])
  }

  /// A stack Clean can produce: real elements, with ".." only at the front
  /// of a relative path.
  predicate Normal(rooted: bool, st: seq<string>) {
    && (forall i :: 0 <= i < |st| ==> Elem(st[i]))
    && (forall i :: 0 <= i < |st| && st[i] == ".." ==> !rooted)
    && (forall i, j :: 0 <= j < i < |st| && st[i] == ".." ==> st[j] == "..")
  }

  lemma SplitNoSlash(s: string)
    ensures NoSlashes(Segments(s))
  {
  }

  lemma {:induction false} FoldAppend(r: bool, st: seq<string>, a: seq<string>, b: seq<string>)
    ensures Fold(r, st, a + b) == Fold(r, Fold(r, st, a), b)
    decreases |a|
  {
    if a == [] {
      assert a + b == b;
    } else {
      assert (a + b)[1..] == a[1..] + b;
      FoldAppend(r, Step(r, st, a[0]), a[1..], b);
    }
  }

  lemma StepNormal(r: bool, st: seq<string>, seg: string)
    requires Normal(r, st) && '/' !in seg
    ensures Normal(r, Step(r, st, seg))
  {
  }

  lemma {:induction false} FoldNormal(r: bool, st: seq<string>, segs: seq<string>)
    requires Normal(r, st) && NoSlashes(segs)
    ensures Normal(r, Fold(r, st, segs))
    decreases |segs|
  {
    if segs != [] {
      StepNormal(r, st, segs[0]);
      FoldNormal(r, Step(r, st, segs[0]), segs[1..]);
    }
  }

  /// Folding an already normal stack onto its own prefix rebuilds it.
  lemma {:induction false} FoldNormalId(r: bool, acc: seq<string>, xs: seq<string>)
    requires Normal(r, acc + xs)
    ensures Fold(r, acc, xs) == acc + xs
    decreases |xs|
  {
    if xs != [] {
      var w := acc + xs;
      assert w[|acc|] == xs[0];
      if xs[0] == ".." {
        assert |acc| > 0 ==> w[|acc| - 1] == acc[|acc| - 1];
      }
      assert Step(r, acc, xs[0]) == acc + [xs[0]];
      assert acc + [xs[0]] + xs[1..] == w;
      FoldNormalId(r, acc + [xs[0]], xs[1..]);
    }
  }

  lemma {:induction false} JoinSegsAppend(a: seq<string>, b: seq<string>)
    requires |a| > 0 && |b| > 0
    ensures JoinSegs(a + b) == JoinSegs(a) + "/" + JoinSegs(b)
    decreases |a|
  {
    if |a| > 1 {
      assert (a + b)[1..] == a[1..] + b;
      JoinSegsAppend(a[1..], b);
    }
  }

  lemma {:induction false} SegmentsJoin(bs: seq<string>)
    requires |bs| > 0 && NoSlashes(bs)
    ensures Segments(JoinSegs(bs)) == bs
    decreases |bs|
  {
    if |bs| == 1 {
      SplitNoSep(bs[0], '/');
    } else {
      var x := bs[0];
      var y := JoinSegs(bs[1..]);
      assert JoinSegs(bs) == x + ['/'] + y;
      assert NoSlashes(bs[1..]) by {
        forall i | 0 <= i < |bs[1..]| ensures '/' !in bs[1..][i] { assert bs[1..][i] == bs[i + 1]; }
      }
      SegmentsJoin(bs[1..]);
      SplitNoSep(x, '/');
      SplitConcat(x, y, '/');
      assert bs == [x] + bs[1..];
    }
  }

  lemma JoinSegsHead(st: seq<string>)
    requires |st| > 0 && st[0] != ""
    ensures |JoinSegs(st)| > 0 && JoinSegs(st)[0] == st[0][0]
  {
  }

  lemma SegmentsAppend(a: string, bs: seq<string>)
    requires |bs| > 0 && NoSlashes(bs)
    ensures Segments(a + "/" + JoinSegs(bs)) == Segments(a) + bs
  {
    SegmentsJoin(bs);
    SplitConcat(a, JoinSegs(bs), '/');
  }

  /// Cleaned stacks render to something other than "", "." and "/" unless
  /// they are empty.
  lemma RenderShape(r: bool, st: seq<string>)
    requires st == [] || Elem(st[0])
    ensures st == [] ==> Render(r, st) == (if r then "/" else ".")
    ensures st != [] ==> Render(r, st) != "" && Render(r, st) != "." && Render(r, st) != "/"
  {
    if st != [] {
      JoinSegsHead(st);
      if |st| > 1 {
        assert JoinSegs(st) == st[0] + "/" + JoinSegs(st[1..]);
      }
    }
  }

  lemma RenderAppendEmpty(r: bool, ps: seq<string>)
    requires |ps| > 0
    ensures Render(r, ps) == Attach(Render(r, []), JoinSegs(ps))
  {
    if r {
      assert JoinSegs([]) == "";
      assert Render(r, []) == "/" + "" == "/";
    }
  }

  lemma RenderAppendNonEmpty(r: bool, st: seq<string>, ps: seq<string>)
    requires |st| > 0 && Elem(st[0]) && |ps| > 0
    ensures Render(r, st + ps) == Attach(Render(r, st), JoinSegs(ps))
  {
    RenderShape(r, st);
    JoinSegsAppend(st, ps);
    var a := Render(r, st);
    assert Attach(a, JoinSegs(ps)) == a + "/" + JoinSegs(ps);
    assert st + ps != [];
    if r {
      assert Render(r, st + ps) == "/" + JoinSegs(st + ps);
      AppendAssoc("/", JoinSegs(st) + "/", JoinSegs(ps));
    } else {
      assert Render(r, st + ps) == JoinSegs(st + ps);
    }
  }

  lemma RenderAppend(r: bool, st: seq<string>, ps: seq<string>)
    requires (st == [] || Elem(st[0])) && |ps| > 0
    ensures Render(r, st + ps) == Attach(Render(r, st), JoinSegs(ps))
  {
    if st == [] {
      assert st + ps == ps;
      RenderAppendEmpty(r, ps);
    } else {
      RenderAppendNonEmpty(r, st, ps);
    }
  }

  /// Appending plain elements (and empty ones, from doubled slashes) to a
  /// non-empty path appends them to its cleaned form.
  lemma CleanAppend(a: string, bs: seq<string>)
    requires a != "" && |bs| > 0 && NoSlashes(bs)
    requires forall i :: 0 <= i < |bs| ==> bs[i] == "" || Plain(bs[i])
    requires |Plains(bs)| > 0
    ensures Clean(a + "/" + JoinSegs(bs)) == Attach(Clean(a), JoinSegs(Plains(bs)))
  {
    var r := Rooted(a);
    SplitNoSlash(a);
    SegmentsAppend(a, bs);
    var st := Fold(r, [], Segments(a));
    FoldNormal(r, [], Segments(a));
    FoldAppend(r, [], Segments(a), bs);
    FoldPlains(r, st, bs);
    assert st == [] || Elem(st[0]);
    RenderAppend(r, st, Plains(bs));
    var whole := a + "/" + JoinSegs(bs);
    assert Rooted(whole) == r;
  }

  /// The non-empty elements of a list, in order.
  function Plains(bs: seq<string>): (r: seq<string>)
    ensures |r| <= |bs|
  {
    if bs == [] then [] else (if bs[0] == "" then [] else [bs[0]]) + Plains(bs[1..])
  }

  /// An empty piece is dropped and a plain one pushed.
  lemma StepPlain(r: bool, st: seq<string>, seg: string)
    requires seg == "" || Plain(seg)
    ensures Step(r, st, seg) == st + (if seg == "" then [] else [seg])
  {
  }

  lemma {:induction false} FoldPlains(r: bool, st: seq<string>, bs: seq<string>)
    requires forall i :: 0 <= i < |bs| ==> bs[i] == "" || Plain(bs[i])
    ensures Fold(r, st, bs) == st + Plains(bs)
    decreases |bs|
  {
    if bs != [] {
      var head := if bs[0] == "" then [] else [bs[0]];
      StepPlain(r, st, bs[0]);
      assert forall i :: 0 <= i < |bs[1..]| ==> bs[1..][i] == "" || Plain(bs[1..][i]) by {
        forall i | 0 <= i < |bs[1..]| ensures bs[1..][i] == "" || Plain(bs[1..][i]) { assert bs[1..][i] == bs[i + 1]; }
      }
      FoldPlains(r, st + head, bs[1..]);
      assert Plains(bs) == head + Plains(bs[1..]);
      AppendAssoc(st, head, Plains(bs[1..]));
    }
  }

  lemma CleanRenderRooted(st: seq<string>)
    requires Normal(true, st)
    ensures Clean("/" + JoinSegs(st)) == "/" + JoinSegs(st)
  {
    var c := "/" + JoinSegs(st);
    assert c == "" + "/" + JoinSegs(st);
    SplitConcat("", JoinSegs(st), '/');
    SplitNoSep("", '/');
    if st == [] {
      assert Segments(c) == ["", ""];
      assert ["", ""][1..] == [""] && [""][1..] == [];
      assert Fold(true, [], [""]) == [];
      assert Fold(true, [], ["", ""]) == [];
    } else {
      SegmentsJoin(st);
      assert Segments(c) == [""] + st;
      FoldAppend(true, [], [""], st);
      FoldNormalId(true, [], st);
      assert [] + st == st;
    }
  }

  lemma CleanRenderRelative(st: seq<string>)
    requires Normal(false, st) && st != []
    ensures Clean(JoinSegs(st)) == JoinSegs(st)
  {
    SegmentsJoin(st);
    JoinSegsHead(st);
    FoldNormalId(false, [], st);
    assert [] + st == st;
  }

  /// Clean is idempotent: a cleaned path cleans to itself.
  lemma CleanIdempotent(p: string)
    ensures Clean(Clean(p)) == Clean(p)
  {
    if p == "" {
      SplitNoSep(".", '/');
    } else {
      var r := Rooted(p);
      SplitNoSlash(p);
      var st := Fold(r, [], Segments(p));
      FoldNormal(r, [], Segments(p));
      if r {
        CleanRenderRooted(st);
      } else if st == [] {
        SplitNoSep(".", '/');
      } else {
        CleanRenderRelative(st);
      }
    }
  }

  lemma CleanTrailingSlash(c: string)
    requires c != ""
    ensures Clean(c + "/") == Clean(c)
  {
    assert c + "/" == c + ['/'] + "";
    SplitConcat(c, "", '/');
    SplitNoSep("", '/');
    FoldAppend(Rooted(c), [], Segments(c), [""]);
    assert Rooted(c + "/") == Rooted(c);
  }

  lemma CleanPlain(b: string)
    requires Plain(b)
    ensures Clean(b) == b
  {
    SplitNoSep(b, '/');
    assert Fold(false, [], [b]) == [b];
  }

  /// Joining a plain last element to any list of elements attaches it to
  /// the join of the others.
  lemma JoinSnoc(elems: seq<string>, b: string)
    requires Plain(b)
    ensures Join(elems + [b]) == Attach(Join(elems), b)
  {
    assert (elems + [b])[..|elems|] == elems;
    var buf := JoinBuf(elems);
    if buf == "" {
      CleanPlain(b);
    } else {
      assert Plains([b]) == [b];
      CleanAppend(buf, [b]);
    }
  }

  lemma LastSlashAt(w: string, x: string)
    requires '/' !in x
    ensures LastSlash(w + "/" + x) == Some(|w|)
  {
    var p := w + "/" + x;
    assert p[|w|] == '/';
    assert forall j :: |w| < j < |p| ==> p[j] == x[j - |w| - 1];
    var k := LastSlash(p);
    assert k.Some?;
    assert forall j :: k.value < j < |p| ==> p[j] == p[k.value + 1..][j - k.value - 1];
    assert |w| <= k.value;
  }

  lemma BaseAfterSlash(w: string, x: string)
    requires Plain(x)
    ensures Base(w + "/" + x) == x
  {
    var p := w + "/" + x;
    assert StripTrailing(p) == p;
    LastSlashAt(w, x);
    assert p[|w| + 1..] == x;
  }

  lemma BasePlain(x: string)
    requires Plain(x)
    ensures Base(x) == x
  {
    assert StripTrailing(x) == x;
  }

  /// The base of an attached element is that element.
  lemma BaseAttach(c: string, x: string)
    requires Plain(x)
    ensures Base(Attach(c, x)) == x
  {
    if c == "" || c == "." {
      assert Attach(c, x) == x;
      BasePlain(x);
    } else if c == "/" {
      assert Attach(c, x) == "" + "/" + x;
      BaseAfterSlash("", x);
    } else {
      assert Attach(c, x) == c + "/" + x;
      BaseAfterSlash(c, x);
    }
  }

  lemma DirAfterSlash(w: string, x: string)
    requires Plain(x)
    ensures Dir(w + "/" + x) == Clean(w + "/")
  {
    var p := w + "/" + x;
    LastSlashAt(w, x);
    assert p[..|w| + 1] == w + "/";
  }

  /// The directory of an attached element is the cleaned directory it was
  /// attached to ("." when there was none).
  lemma DirAttach(c: string, x: string)
    requires Plain(x)
    ensures Dir(Attach(c, x)) == if c == "" then "." else Clean(c)
  {
    if c == "" || c == "." {
      assert LastSlash(x).None?;
      if c == "." {
        SplitNoSep(".", '/');
      }
    } else if c == "/" {
      DirAfterSlash("", x);
      assert "" + "/" + x == "/" + x;
      assert Segments("/") == ["", ""] by {
        SplitConcat("", "", '/');
      }
    } else {
      DirAfterSlash(c, x);
      CleanTrailingSlash(c);
    }
  }

  lemma JoinIsClean(elems: seq<string>)
    requires Join(elems) != ""
    ensures Clean(Join(elems)) == Join(elems)
  {
    CleanIdempotent(JoinBuf(elems));
  }

  /// path.Join(dir..., b) for a plain b splits back into b (its Base) and
  /// the join of the rest (its Dir, "." when the rest is empty).
  /// path.Join(dir, b) of a plain b: b is its base, and the joined dir its
  /// directory.
  lemma JoinPair(dir: string, b: string)
    requires Plain(b)
    ensures Base(Join([dir, b])) == b
    ensures Dir(Join([dir, b])) == if Join([dir]) == "" then "." else Join([dir])
  {
    assert [dir] + [b] == [dir, b];
    JoinSplit([dir], b);
  }

  lemma JoinSplit(elems: seq<string>, b: string)
    requires Plain(b)
    ensures Base(Join(elems + [b])) == b
    ensures Dir(Join(elems + [b])) == if Join(elems) == "" then "." else Join(elems)
  {
    JoinSnoc(elems, b);
    BaseAttach(Join(elems), b);
    DirAttach(Join(elems), b);
    if Join(elems) != "" { JoinIsClean(elems); }
  }

  /// Clean never returns the empty string.
  lemma CleanNonEmpty(p: string)
    ensures Clean(p) != ""
  {
    if p != "" {
      SplitNoSlash(p);
      FoldNormal(Rooted(p), [], Segments(p));
      RenderShape(Rooted(p), Fold(Rooted(p), [], Segments(p)));
    }
  }

  /// path.Dir never returns the empty string.
  lemma DirNonEmpty(p: string)
    ensures Dir(p) != ""
  {
    match LastSlash(p)
    case None =>
      assert Dir(p) == Clean("");
      CleanNonEmpty("");
    case Some(i) =>
      assert Dir(p) == Clean(p[..i + 1]);
      CleanNonEmpty(p[..i + 1]);
  }

  /// Join is empty only when every element is.
  lemma JoinNonEmpty(elems: seq<string>)
    requires |elems| > 0 && elems[|elems| - 1] != ""
    ensures Join(elems) != ""
  {
    CleanNonEmpty(JoinBuf(elems));
  }

  /// Only the root's base contains a '/'.
  lemma BaseNoSlash(p: string)
    requires Base(p) != "/"
    ensures '/' !in Base(p)
  {
  }
}
