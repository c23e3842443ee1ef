/// The record stream the tools pass along a pipeline (utils/main.go): the
/// Image record, the permission bits, Emit and EmitCleanup, the Handle loop
/// over decoded records, and the two stdin line loops the tools' `main`
/// functions run when they read paths.
module Stream {
  import opened Results
  import opened Strings
  import opened Calendar
  import GoPath

  /// utils.Image. Byte slices are byte sequences; times are seconds since
  /// Go's zero time.
  datatype Image = Image(
    path: string,
    originalPath: string,
    timestamp: Time,
    exifTimestamp: Time,
    exifBytes: seq<bv8>,
    data: seq<bv8>,
    cmdList: seq<string>,
    tempCleanupPath: string)

  /// The zero value `Image{}`.
  const Blank := Image("", "", ZeroTime, ZeroTime, [], [], [], "")

  /// The part of os.FileInfo the tools read.
  datatype FileInfo = FileInfo(isDir: bool, size: int, mode: int, modTime: Time)

  /// The extension filter of tsarchive, tscrop and tsresize:
  /// strings.ToLower(path.Ext(p)) is one of the image extensions.
  predicate IsImageFile(p: string) {
    ToLower(GoPath.Ext(p)) in {".jpeg", ".jpg", ".tif", ".tiff", ".cr2"}
  }

  /// The extension test folds case as strings.ToLower does, including the
  /// non-ASCII capital U+0130 whose lower case is 'i'.
  lemma ImageExtensionCase(p: string)
    ensures GoPath.Ext(p) == ".JPG" ==> IsImageFile(p)
    ensures GoPath.Ext(p) == ".T\U{0130}F" ==> IsImageFile(p)
    ensures GoPath.Ext(p) == ".png" ==> !IsImageFile(p)
  {
    LoweredSamples();
  }

  lemma LoweredSamples()
    ensures ToLower(".JPG") == ".jpg"
    ensures ToLower(".T\U{0130}F") == ".tif"
    ensures ToLower(".png") == ".png"
  {
    var a, b, c := ToLower(".JPG"), ToLower(".T\U{0130}F"), ToLower(".png");
    assert a[1] == 'j' && a[2] == 'p' && a[3] == 'g';
    assert b[1] == 't' && b[2] == 'i' && b[3] == 'f';
    assert c[1] == 'p' && c[2] == 'n' && c[3] == 'g';
  }

  /// A base name `b` with its extension `e` replaced by "." + ext.
  function Retype(b: string, e: string, ext: string): (r: string)
    ensures HasSuffix(r, "." + ext)
    ensures HasSuffix(b, e) ==> r[..|r| - |ext| - 1] + e == b
  {
    var stem := TrimSuffix(b, e);
    assert (stem + "." + ext)[..|stem|] == stem;
    stem + "." + ext
  }

  lemma RetypePlain(b: string, e: string, ext: string)
    requires '/' !in b && ext != "" && '/' !in ext && '.' !in ext
    ensures GoPath.Plain(Retype(b, e, ext))
  {
    var stem := TrimSuffix(b, e);
    var r := Retype(b, e, ext);
    assert |stem| <= |b| && stem == b[..|stem|];
    assert r[|stem| + 1] == ext[0] != '.';
    assert forall k :: 0 <= k < |r| ==> r[k] in b || r[k] == '.' || r[k] in ext by {
      forall k | 0 <= k < |r|
        ensures r[k] in b || r[k] == '.' || r[k] in ext
      {
        if k < |stem| {
          assert r[k] == stem[k] == b[k];
        } else if k > |stem| {
          assert r[k] == ext[k - |stem| - 1];
        }
      }
    }
  }

  /// The new base name tscrop and tsresize give an image: its base name
  /// without the extension, then "." and the output type's extension.
  function RetypedBase(p: string, ext: string): string {
    Retype(GoPath.Base(p), GoPath.Ext(p), ext)
  }

  /// With a real base name and an extension free of '/', the new base is a
  /// single path element.
  lemma RetypedBasePlain(p: string, ext: string)
    requires GoPath.Base(p) != "/" && ext != "" && '/' !in ext && '.' !in ext
    ensures GoPath.Plain(RetypedBase(p, ext))
  {
    GoPath.BaseNoSlash(p);
    RetypePlain(GoPath.Base(p), GoPath.Ext(p), ext);
  }

  // ---------------------------------------------------------------------
  // Permission bits

  const OsRead: bv16 := 4
  const OsWrite: bv16 := 2
  const OsEx: bv16 := 1
  const OsUserShift: bv16 := 6
  const OsGroupShift: bv16 := 3
  const OsOtherShift: bv16 := 0

  const OsUserR: bv16 := OsRead << OsUserShift
  const OsUserW: bv16 := OsWrite << OsUserShift
  const OsUserX: bv16 := OsEx << OsUserShift
  const OsUserRW: bv16 := OsUserR | OsUserW
  const OsUserRWX: bv16 := OsUserRW | OsUserX

  const OsGroupR: bv16 := OsRead << OsGroupShift
  const OsGroupW: bv16 := OsWrite << OsGroupShift
  const OsGroupX: bv16 := OsEx << OsGroupShift
  const OsGroupRW: bv16 := OsGroupR | OsGroupW
  const OsGroupRWX: bv16 := OsGroupRW | OsGroupX

  const OsOthR: bv16 := OsRead << OsOtherShift
  const OsOthW: bv16 := OsWrite << OsOtherShift
  const OsOthX: bv16 := OsEx << OsOtherShift
  const OsOthRW: bv16 := OsOthR | OsOthW
  const OsOthRWX: bv16 := OsOthRW | OsOthX

  const OsAllR: bv16 := OsUserR | OsGroupR | OsOthR
  const OsAllW: bv16 := OsUserW | OsGroupW | OsOthW
  const OsAllX: bv16 := OsUserX | OsGroupX | OsOthX
  const OsAllRW: bv16 := OsAllR | OsAllW
  /// As written this adds only the group execute bit.
  const OsAllRWX: bv16 := OsAllRW | OsGroupX

  /// The mode MoveFilebyCopy gives a copy, and the octal values of the
  /// combined constants: OsAllRWX is 0o676, not 0o777.
  lemma PermissionValues()
    ensures OsUserRW | OsGroupRW == 0x1B0
    ensures OsAllRW == 0x1B6
    ensures OsAllRWX == 0x1BE && OsAllRWX != 0x1FF
    ensures OsAllRWX & OsUserX == 0 && OsAllRWX & OsOthX == 0
    ensures OsUserRWX | OsGroupRWX | OsOthRWX == 0x1FF
  {
  }

  // ---------------------------------------------------------------------
  // Output

  /// What one call writes to stdout: a text line (Fprintln) or one record
  /// through the JSON or msgpack stream encoder.
  datatype Output = Line(text: string) | JsonRecord(record: Image) | MsgpackRecord(record: Image)

  /// utils.Emit: the path on its own line for "path", a msgpack record for
  /// "msgpack", and a JSON record for "json" and every other format.
  function Emit(img: Image, outfmt: string): (o: Output)
    ensures o.Line? <==> outfmt == "path"
    ensures o.MsgpackRecord? <==> outfmt == "msgpack"
    ensures o.Line? ==> o.text == img.path
    ensures !o.Line? ==> o.record == img
  {
    match outfmt
    case "path" => Line(img.path)
    case "json" => JsonRecord(img)
    case "msgpack" => MsgpackRecord(img)
    case _ => JsonRecord(img)
  }

  /// utils.EmitCleanup: a record holding only the directory for "json" and
  /// "msgpack", and the marker line "#-" + dir for "path" and every other
  /// format.
  function EmitCleanup(dir: string, outfmt: string): (o: Output)
    ensures o.Line? <==> outfmt != "json" && outfmt != "msgpack"
    ensures o.Line? ==> o.text == "#-" + dir
    ensures !o.Line? ==> o.record == Blank.(tempCleanupPath := dir)
  {
    match outfmt
    case "json" => JsonRecord(Blank.(tempCleanupPath := dir))
    case "msgpack" => MsgpackRecord(Blank.(tempCleanupPath := dir))
    case _ => Line("#-" + dir)
  }

  /// How the next tool in a pipeline takes one output.
  datatype Received = AsLog(text: string) | AsCleanup(dir: string) | AsPath(path: string) | AsImage(img: Image)

  /// The path-mode stdin loop: "[" lines are log lines, "#-" lines name a
  /// directory to remove, anything else is a path.
  function ReceiveLine(text: string): Received {
    if HasPrefix(text, "[") then AsLog(text)
    else if HasPrefix(text, "#-") then AsCleanup(TrimPrefix(text, "#-"))
    else AsPath(text)
  }

  /// Handle: a record with a cleanup path is a cleanup, any other is an image.
  function ReceiveRecord(img: Image): Received {
    if img.tempCleanupPath != "" then AsCleanup(img.tempCleanupPath) else AsImage(img)
  }

  function Receive(o: Output): Received {
    match o
    case Line(t) => ReceiveLine(t)
    case JsonRecord(r) => ReceiveRecord(r)
    case MsgpackRecord(r) => ReceiveRecord(r)
  }

  /// The reader recovers the directory of a cleanup message in every format.
  lemma CleanupRoundTrip(dir: string, outfmt: string)
    requires dir != ""
    ensures Receive(EmitCleanup(dir, outfmt)) == AsCleanup(dir)
  {
    var o := EmitCleanup(dir, outfmt);
    if o.Line? {
      assert o.text[0] == '#';
      assert o.text[..2] == "#-";
      assert TrimPrefix(o.text, "#-") == dir;
    }
  }

  /// An emitted image reaches the reader as that image (record formats) or
  /// as its path (path format), unless it could be mistaken for a cleanup
  /// or a log line.
  lemma EmitRoundTrip(img: Image, outfmt: string)
    requires img.tempCleanupPath == ""
    requires outfmt == "path" ==> !HasPrefix(img.path, "[") && !HasPrefix(img.path, "#-")
    ensures Receive(Emit(img, outfmt)) == if outfmt == "path" then AsPath(img.path) else AsImage(img)
  {
  }

  // ---------------------------------------------------------------------
  // Handle

  /// What the stream decoder reports together with the record it filled.
  datatype DecodeErr = NoErr | EOF | Malformed(msg: string)
  datatype Decoded = Decoded(img: Image, err: DecodeErr)

  /// What a run of Handle produced: its return value, the images passed to
  /// the image handler in order, and the cleanup paths deferred in order.
  datatype Outcome = Outcome(err: Option<string>, calls: seq<Image>, cleanups: seq<string>)

  /// Prefix an outcome with calls and deferrals made before it.
  function Extend(calls: seq<Image>, deferred: seq<string>, o: Outcome): Outcome {
    Outcome(o.err, calls + o.calls, deferred + o.cleanups)
  }

  /// One record's effect on the rest of the run.
  function Next(r: Decoded, handler: Image -> Option<string>, rest: Outcome): Outcome {
    if r.img.tempCleanupPath != "" then Extend([], [r.img.tempCleanupPath], rest)
    else if r.err == EOF then Outcome(None, [], [])
    else if r.err.Malformed? then rest
    else match handler(r.img)
      case Some(e) => Outcome(Some(e), [r.img], [])
      case None => Extend([r.img], [], rest)
  }

  /// The records Handle reads, one by one; past the end of the input the
  /// decoder reports EOF.
  function Run(rs: seq<Decoded>, handler: Image -> Option<string>): (o: Outcome)
    decreases |rs|
    ensures forall k :: 0 <= k < |o.calls| ==> o.calls[k].tempCleanupPath == ""
    ensures |o.calls| + |o.cleanups| <= |rs|
  {
    if rs == [] then Outcome(None, [], []) else Next(rs[0], handler, Run(rs[1..], handler))
  }

  function Reversed<T>(s: seq<T>): (r: seq<T>)
    ensures |r| == |s|
  {
    if s == [] then [] else Reversed(s[1..]) + [s[0]]
  }

  lemma {:induction false} ReversedIndex<T>(s: seq<T>, k: nat)
    requires k < |s|
    ensures Reversed(s)[k] == s[|s| - 1 - k]
  {
    if k < |s| - 1 {
      ReversedIndex(s[1..], k);
    }
  }

  /// f applied to each element in turn: the shape of every stdin loop
  /// that visits one item per line.
  function Mapped<A, B>(xs: seq<A>, f: A -> B): (r: seq<B>)
    ensures |r| == |xs|
    ensures forall k :: 0 <= k < |xs| ==> r[k] == f(xs[k])
  {
    if xs == [] then [] else Mapped(xs[..|xs| - 1], f) + [f(xs[|xs| - 1])]
  }

  /// Go runs deferred calls last-in first-out when the function returns.
  method RunDeferred(stack: seq<string>) returns (ran: seq<string>)
    ensures ran == Reversed(stack)
  {
    ran := [];
    var n := |stack|;
    while n > 0
      invariant 0 <= n <= |stack|
      invariant ran == Reversed(stack[n..])
    {
      n := n - 1;
      assert stack[n..][1..] == stack[n + 1..];
      ran := ran + [stack[n]];
    }
    assert stack[0..] == stack;
  }

  /// utils.Handle for the "json" and "msgpack" input formats: returns the
  /// loop's result, the images given to the handler, and the cleanup
  /// function's calls in the order the deferred calls run.
  method Handle(rs: seq<Decoded>, handler: Image -> Option<string>)
      returns (err: Option<string>, calls: seq<Image>, cleaned: seq<string>)
    ensures err == Run(rs, handler).err
    ensures calls == Run(rs, handler).calls
    ensures cleaned == Reversed(Run(rs, handler).cleanups)
  {
    var i := 0;
    var deferred: seq<string> := [];
    err, calls := None, [];
    while true
      invariant 0 <= i <= |rs|
      invariant err == None
      invariant Run(rs, handler) == Extend(calls, deferred, Run(rs[i..], handler))
      decreases |rs| - i
    {
      if i == |rs| {
        // the decoder reports EOF on an empty record from here on
        assert calls + [] == calls && deferred + [] == deferred;
        break;
      }
      var r := rs[i];
      assert rs[i..][1..] == rs[i + 1..];
      i := i + 1;
      if r.img.tempCleanupPath != "" {
        DeferStep(rs[i - 1..], handler, calls, deferred, Run(rs, handler));
        deferred := deferred + [r.img.tempCleanupPath];
        continue;
      }
      if r.err == EOF {
        EofStep(rs[i - 1..], handler, calls, deferred, Run(rs, handler));
        break;
      }
      if r.err.Malformed? {
        // logged and skipped
        SkipStep(rs[i - 1..], handler, calls, deferred, Run(rs, handler));
        continue;
      }
      var e := handler(r.img);
      CallStep(rs[i - 1..], handler, calls, deferred, Run(rs, handler));
      calls := calls + [r.img];
      if e.Some? {
        err := e;
        break;
      }
    }
    assert Run(rs, handler) == Outcome(err, calls, deferred);
    cleaned := RunDeferred(deferred);
  }

  // One turn of Handle's loop on the first record of `rest`, given that the
  // whole run `total` is what the earlier turns called and deferred followed
  // by the run of `rest`.

  /// A cleanup record is deferred.
  lemma DeferStep(rest: seq<Decoded>, handler: Image -> Option<string>, calls: seq<Image>, deferred: seq<string>, total: Outcome)
    requires rest != [] && rest[0].img.tempCleanupPath != ""
    requires total == Extend(calls, deferred, Run(rest, handler))
    ensures total == Extend(calls, deferred + [rest[0].img.tempCleanupPath], Run(rest[1..], handler))
  {
    PrefixStep(calls, deferred, Run(rest, handler), [], [rest[0].img.tempCleanupPath], Run(rest[1..], handler));
  }

  /// EOF on a record without a cleanup path ends the run.
  lemma EofStep(rest: seq<Decoded>, handler: Image -> Option<string>, calls: seq<Image>, deferred: seq<string>, total: Outcome)
    requires rest != [] && rest[0].img.tempCleanupPath == "" && rest[0].err == EOF
    requires total == Extend(calls, deferred, Run(rest, handler))
    ensures total == Outcome(None, calls, deferred)
  {
    assert calls + [] == calls && deferred + [] == deferred;
  }

  /// Any other decode error skips the record.
  lemma SkipStep(rest: seq<Decoded>, handler: Image -> Option<string>, calls: seq<Image>, deferred: seq<string>, total: Outcome)
    requires rest != [] && rest[0].img.tempCleanupPath == "" && rest[0].err.Malformed?
    requires total == Extend(calls, deferred, Run(rest, handler))
    ensures total == Extend(calls, deferred, Run(rest[1..], handler))
  {
  }

  /// A decoded image goes to the handler; its error ends the run.
  lemma CallStep(rest: seq<Decoded>, handler: Image -> Option<string>, calls: seq<Image>, deferred: seq<string>, total: Outcome)
    requires rest != [] && rest[0].img.tempCleanupPath == "" && rest[0].err == NoErr
    requires total == Extend(calls, deferred, Run(rest, handler))
    ensures handler(rest[0].img).Some? ==> total == Outcome(handler(rest[0].img), calls + [rest[0].img], deferred)
    ensures handler(rest[0].img).None? ==> total == Extend(calls + [rest[0].img], deferred, Run(rest[1..], handler))
  {
    if handler(rest[0].img).Some? {
      assert deferred + [] == deferred;
    } else {
      PrefixStep(calls, deferred, Run(rest, handler), [rest[0].img], [], Run(rest[1..], handler));
    }
  }

  lemma PrefixStep(calls: seq<Image>, deferred: seq<string>, o: Outcome, c: seq<Image>, d: seq<string>, rest: Outcome)
    requires o == Extend(c, d, rest)
    ensures Extend(calls, deferred, o) == Extend(calls + c, deferred + d, rest)
  {
    ExtendExtend(calls, deferred, c, d, rest);
  }

  /// A record on which the loop stops: EOF, or a handler error.
  predicate Stops(r: Decoded, handler: Image -> Option<string>) {
    r.img.tempCleanupPath == "" && (r.err == EOF || (r.err == NoErr && handler(r.img).Some?))
  }

  /// The cleanup paths of the records, in order.
  function CleanupPaths(rs: seq<Decoded>): (ps: seq<string>)
    ensures forall k :: 0 <= k < |ps| ==> ps[k] != ""
  {
    if rs == [] then []
    else (if rs[0].img.tempCleanupPath != "" then [rs[0].img.tempCleanupPath] else []) + CleanupPaths(rs[1..])
  }

  /// The images of the records that decoded and carry no cleanup path.
  function HandledImages(rs: seq<Decoded>): seq<Image> {
    if rs == [] then []
    else (if rs[0].img.tempCleanupPath == "" && rs[0].err == NoErr then [rs[0].img] else []) + HandledImages(rs[1..])
  }

  /// When nothing stops the loop, every decoded image goes to the handler,
  /// every cleanup path is deferred, and Handle returns nil.
  lemma {:induction false} RunWithoutStop(rs: seq<Decoded>, handler: Image -> Option<string>)
    requires forall k :: 0 <= k < |rs| ==> !Stops(rs[k], handler)
    ensures Run(rs, handler) == Outcome(None, HandledImages(rs), CleanupPaths(rs))
  {
    if rs != [] {
      assert !Stops(rs[0], handler);
      RunWithoutStop(rs[1..], handler);
    }
  }

  lemma ExtendExtend(c1: seq<Image>, d1: seq<string>, c2: seq<Image>, d2: seq<string>, o: Outcome)
    ensures Extend(c1, d1, Extend(c2, d2, o)) == Extend(c1 + c2, d1 + d2, o)
  {
    assert c1 + (c2 + o.calls) == (c1 + c2) + o.calls;
    assert d1 + (d2 + o.cleanups) == (d1 + d2) + o.cleanups;
  }

  /// The loop is compositional over a prefix on which it does not stop.
  lemma {:induction false} RunAppend(pre: seq<Decoded>, post: seq<Decoded>, handler: Image -> Option<string>)
    requires forall k :: 0 <= k < |pre| ==> !Stops(pre[k], handler)
    ensures Run(pre + post, handler) == Extend(Run(pre, handler).calls, Run(pre, handler).cleanups, Run(post, handler))
  {
    if pre == [] {
      assert pre + post == post;
    } else {
      var r := pre[0];
      assert (pre + post)[0] == r;
      assert (pre + post)[1..] == pre[1..] + post;
      assert !Stops(r, handler);
      RunAppend(pre[1..], post, handler);
      var rest := Run(pre[1..], handler);
      var tail := Run(post, handler);
      assert Run(pre + post, handler) == Next(r, handler, Extend(rest.calls, rest.cleanups, tail));
      assert Run(pre, handler) == Next(r, handler, rest);
      if r.img.tempCleanupPath != "" {
        ExtendExtend([], [r.img.tempCleanupPath], rest.calls, rest.cleanups, tail);
      } else if r.err.Malformed? {
      } else {
        ExtendExtend([r.img], [], rest.calls, rest.cleanups, tail);
      }
    }
  }

  /// EOF ends the loop: nothing after it is read, exactly as at the end of
  /// the input.
  lemma {:induction false} EofEndsStream(pre: seq<Decoded>, r: Decoded, post: seq<Decoded>, handler: Image -> Option<string>)
    requires r.img.tempCleanupPath == "" && r.err == EOF
    ensures Run(pre + [r] + post, handler) == Run(pre, handler)
  {
    if pre == [] {
      assert pre + [r] + post == [r] + post;
    } else {
      assert (pre + [r] + post)[1..] == pre[1..] + [r] + post;
      EofEndsStream(pre[1..], r, post, handler);
    }
  }

  /// A handler error is returned at once: nothing after it is read.
  lemma {:induction false} HandlerErrorEndsStream(pre: seq<Decoded>, r: Decoded, post: seq<Decoded>, handler: Image -> Option<string>)
    requires r.img.tempCleanupPath == "" && r.err == NoErr && handler(r.img).Some?
    ensures Run(pre + [r] + post, handler) == Run(pre + [r], handler)
  {
    if pre == [] {
      assert pre + [r] + post == [r] + post;
      assert pre + [r] == [r];
    } else {
      assert (pre + [r] + post)[1..] == pre[1..] + [r] + post;
      assert (pre + [r])[1..] == pre[1..] + [r];
      HandlerErrorEndsStream(pre[1..], r, post, handler);
    }
  }

  /// A decode error other than EOF is skipped as if the record were absent.
  lemma {:induction false} MalformedSkipped(pre: seq<Decoded>, r: Decoded, post: seq<Decoded>, handler: Image -> Option<string>)
    requires r.img.tempCleanupPath == "" && r.err.Malformed?
    ensures Run(pre + [r] + post, handler) == Run(pre + post, handler)
  {
    if pre == [] {
      assert pre + [r] + post == [r] + post;
      assert ([r] + post)[1..] == post;
      assert pre + post == post;
    } else {
      assert (pre + [r] + post)[1..] == pre[1..] + [r] + post;
      assert (pre + post)[1..] == pre[1..] + post;
      MalformedSkipped(pre[1..], r, post, handler);
    }
  }

  /// An error returned is the last handler call's; the calls before it
  /// succeeded.
  predicate ErrorFromLastCall(o: Outcome, handler: Image -> Option<string>) {
    && (o.err.Some? ==> |o.calls| > 0 && handler(o.calls[|o.calls| - 1]) == o.err)
    && (forall k :: 0 <= k < |o.calls| && (o.err.None? || k < |o.calls| - 1) ==> handler(o.calls[k]).None?)
  }

  /// One more record, handled or skipped, keeps that so.
  lemma NextKeepsErrorFromLastCall(r: Decoded, handler: Image -> Option<string>, rest: Outcome)
    requires ErrorFromLastCall(rest, handler)
    ensures ErrorFromLastCall(Next(r, handler, rest), handler)
  {
    var o := Next(r, handler, rest);
    if r.img.tempCleanupPath != "" {
      assert o.calls == rest.calls && o.err == rest.err;
    } else if r.err != EOF && !r.err.Malformed? && handler(r.img).None? {
      assert o.calls == [r.img] + rest.calls && o.err == rest.err;
      forall k | 0 <= k < |o.calls| && (o.err.None? || k < |o.calls| - 1)
        ensures handler(o.calls[k]).None?
      {
        if k > 0 {
          assert o.calls[k] == rest.calls[k - 1];
        }
      }
      if o.err.Some? {
        assert o.calls[|o.calls| - 1] == rest.calls[|rest.calls| - 1];
      }
    }
  }

  /// Handle returns the first handler error; every earlier handler call
  /// succeeded, and with a nil result every call succeeded.
  lemma {:induction false} FirstErrorReturned(rs: seq<Decoded>, handler: Image -> Option<string>)
    ensures ErrorFromLastCall(Run(rs, handler), handler)
  {
    if rs != [] {
      FirstErrorReturned(rs[1..], handler);
      NextKeepsErrorFromLastCall(rs[0], handler, Run(rs[1..], handler));
    }
  }

  // ---------------------------------------------------------------------
  // Stdin loops

  /// The line as the loops use it: `strings.Replace(text, "\n", "", -1)`.
  function LineText(line: string): string {
    DeleteChar(line, '\n')
  }

  /// The stat-based loop (tsarchive, tsselect, tsrename, tsorganize): a
  /// "[" line is logged, a line that cannot be stat'ed is logged, and any
  /// other line is visited once with its file information.
  function StatVisits<F>(lines: seq<string>, stat: string -> Option<F>): (vs: seq<(string, F)>)
    ensures |vs| <= |lines|
    ensures forall k :: 0 <= k < |vs| ==> !HasPrefix(vs[k].0, "[") && stat(vs[k].0) == Some(vs[k].1)
  {
    if lines == [] then []
    else
      var text := LineText(lines[|lines| - 1]);
      var before := StatVisits(lines[..|lines| - 1], stat);
      if HasPrefix(text, "[") then before
      else match stat(text)
        case None => before
        case Some(info) => before + [(text, info)]
  }

  method ScanStat<F>(lines: seq<string>, stat: string -> Option<F>) returns (visits: seq<(string, F)>)
    ensures visits == StatVisits(lines, stat)
  {
    visits := [];
    var i := 0;
    while i < |lines|
      invariant 0 <= i <= |lines|
      invariant visits == StatVisits(lines[..i], stat)
    {
      var text := LineText(lines[i]);
      assert lines[..i + 1][..i] == lines[..i];
      if HasPrefix(text, "[") {
        i := i + 1;
        continue;
      }
      var info := stat(text);
      if info.None? {
        i := i + 1;
        continue;
      }
      visits := visits + [(text, info.value)];
      i := i + 1;
    }
    assert lines[..i] == lines;
  }

  /// No line that can be stat'ed is lost: it is visited.
  lemma {:induction false} StatVisitsComplete<F>(lines: seq<string>, stat: string -> Option<F>, k: nat)
    requires k < |lines|
    requires !HasPrefix(LineText(lines[k]), "[") && stat(LineText(lines[k])).Some?
    ensures (LineText(lines[k]), stat(LineText(lines[k])).value) in StatVisits(lines, stat)
  {
    var init := lines[..|lines| - 1];
    if k < |lines| - 1 {
      assert init[k] == lines[k];
      StatVisitsComplete(init, stat, k);
    }
  }

  /// The three kinds of lines of the path-mode loop.
  datatype LineKind = Logged | Marker | PlainPath

  function KindOf(text: string): LineKind {
    if HasPrefix(text, "[") then Logged
    else if HasPrefix(text, "#-") then Marker
    else PlainPath
  }

  function CountKind(lines: seq<string>, kind: LineKind): nat {
    if lines == [] then 0
    else CountKind(lines[..|lines| - 1], kind) + (if KindOf(LineText(lines[|lines| - 1])) == kind then 1 else 0)
  }

  /// The path-mode loop (tsalign, tscrop, tsresize), in the order of its
  /// visits: each scan iteration runs the line through two halves, so a
  /// plain path is loaded and visited twice, a "#-" marker line once (in
  /// the second half), and a "[" line never.
  function PathVisits(lines: seq<string>): (vs: seq<string>)
    ensures forall k :: 0 <= k < |vs| ==> !HasPrefix(vs[k], "[")
  {
    if lines == [] then []
    else
      var text := LineText(lines[|lines| - 1]);
      var before := PathVisits(lines[..|lines| - 1]);
      match KindOf(text)
      case Logged => before
      case Marker => before + [text]
      case PlainPath => before + [text, text]
  }

  /// The directories the path-mode loop defers removing, in arrival order.
  function PathMarkers(lines: seq<string>): seq<string> {
    if lines == [] then []
    else
      var text := LineText(lines[|lines| - 1]);
      var before := PathMarkers(lines[..|lines| - 1]);
      if KindOf(text) == Marker then before + [TrimPrefix(text, "#-")] else before
  }

  /// The loop itself: what it visits, and the RemoveAll calls the deferred
  /// statements make when `main` returns.
  method ScanPaths(lines: seq<string>) returns (visits: seq<string>, removed: seq<string>)
    ensures visits == PathVisits(lines)
    ensures removed == Reversed(PathMarkers(lines))
  {
    visits := [];
    var deferred: seq<string> := [];
    var i := 0;
    while i < |lines|
      invariant 0 <= i <= |lines|
      invariant visits == PathVisits(lines[..i])
      invariant deferred == PathMarkers(lines[..i])
    {
      assert lines[..i + 1][..i] == lines[..i];
      var text := LineText(lines[i]);
      i := i + 1;
      if HasPrefix(text, "[") {
        continue;
      } else if HasPrefix(text, "#-") {
        deferred := deferred + [TrimPrefix(text, "#-")];
      } else {
        visits := visits + [text];
      }
      var data := LineText(lines[i - 1]);
      if HasPrefix(data, "[") {
        continue;
      } else {
        visits := visits + [data];
      }
    }
    assert lines[..i] == lines;
    removed := RunDeferred(deferred);
  }

  /// The same loop as one sequence of steps in the order they happen: a
  /// plain line visits its text twice, a marker line defers the removal of
  /// its directory and then visits its text, a "[" line does neither.
  datatype PathStep = VisitPath(path: string) | DeferRemove(dir: string)

  function LineSteps(text: string): seq<PathStep> {
    match KindOf(text)
    case Logged => []
    case Marker => [DeferRemove(TrimPrefix(text, "#-")), VisitPath(text)]
    case PlainPath => [VisitPath(text), VisitPath(text)]
  }

  function PathSteps(lines: seq<string>): seq<PathStep> {
    if lines == [] then []
    else PathSteps(lines[..|lines| - 1]) + LineSteps(LineText(lines[|lines| - 1]))
  }

  /// The paths the steps visit, in order.
  function VisitedPaths(steps: seq<PathStep>): seq<string> {
    if steps == [] then []
    else
      var before := VisitedPaths(steps[..|steps| - 1]);
      match steps[|steps| - 1]
      case VisitPath(p) => before + [p]
      case DeferRemove(_) => before
  }

  /// The directories the steps defer removing, in order.
  function DeferredDirs(steps: seq<PathStep>): seq<string> {
    if steps == [] then []
    else
      var before := DeferredDirs(steps[..|steps| - 1]);
      match steps[|steps| - 1]
      case VisitPath(_) => before
      case DeferRemove(d) => before + [d]
  }

  /// Read apart, the steps are exactly the loop's visits and its deferred
  /// removals.
  lemma {:induction false} PathStepsSplit(lines: seq<string>)
    ensures VisitedPaths(PathSteps(lines)) == PathVisits(lines)
    ensures DeferredDirs(PathSteps(lines)) == PathMarkers(lines)
  {
    if lines != [] {
      var before := lines[..|lines| - 1];
      var text := LineText(lines[|lines| - 1]);
      PathStepsSplit(before);
      VisitedPathsAppend(PathSteps(before), LineSteps(text));
      DeferredDirsAppend(PathSteps(before), LineSteps(text));
      LineStepsSplit(text);
    }
  }

  /// The same for the steps of one line.
  lemma LineStepsSplit(text: string)
    ensures VisitedPaths(LineSteps(text)) ==
      match KindOf(text)
      case Logged => []
      case Marker => [text]
      case PlainPath => [text, text]
    ensures DeferredDirs(LineSteps(text)) == if KindOf(text) == Marker then [TrimPrefix(text, "#-")] else []
  {
    var s := LineSteps(text);
    match KindOf(text)
    case Logged =>
    case Marker =>
      var d := TrimPrefix(text, "#-");
      assert s[..1] == [DeferRemove(d)] && s[..1][..0] == [];
      assert VisitedPaths(s[..1]) == [] && DeferredDirs(s[..1]) == [d];
    case PlainPath =>
      assert s[..1] == [VisitPath(text)] && s[..1][..0] == [];
      assert VisitedPaths(s[..1]) == [text] && DeferredDirs(s[..1]) == [];
  }

  /// The steps of consecutive runs of lines follow one another.
  lemma {:induction false} PathStepsAppend(a: seq<string>, b: seq<string>)
    ensures PathSteps(a + b) == PathSteps(a) + PathSteps(b)
  {
    if b == [] {
      assert a + b == a;
    } else {
      var b' := b[..|b| - 1];
      var t := LineSteps(LineText(b[|b| - 1]));
      calc {
        PathSteps(a + b);
      == { assert (a + b)[..|a + b| - 1] == a + b'; assert (a + b)[|a + b| - 1] == b[|b| - 1]; }
        PathSteps(a + b') + t;
      == { PathStepsAppend(a, b'); }
        PathSteps(a) + PathSteps(b') + t;
      == { assert PathSteps(a) + PathSteps(b') + t == PathSteps(a) + (PathSteps(b') + t); }
        PathSteps(a) + PathSteps(b);
      }
    }
  }

  /// Visits of consecutive runs of steps follow one another.
  lemma {:induction false} VisitedPathsAppend(a: seq<PathStep>, b: seq<PathStep>)
    ensures VisitedPaths(a + b) == VisitedPaths(a) + VisitedPaths(b)
  {
    if b == [] {
      assert a + b == a;
    } else {
      var b' := b[..|b| - 1];
      assert (a + b)[..|a + b| - 1] == a + b';
      assert (a + b)[|a + b| - 1] == b[|b| - 1];
      VisitedPathsAppend(a, b');
      match b[|b| - 1]
      case VisitPath(p) =>
        assert VisitedPaths(a) + VisitedPaths(b') + [p] == VisitedPaths(a) + (VisitedPaths(b') + [p]);
      case DeferRemove(_) =>
    }
  }

  /// Deferred removals of consecutive runs of steps follow one another.
  lemma {:induction false} DeferredDirsAppend(a: seq<PathStep>, b: seq<PathStep>)
    ensures DeferredDirs(a + b) == DeferredDirs(a) + DeferredDirs(b)
  {
    if b == [] {
      assert a + b == a;
    } else {
      var b' := b[..|b| - 1];
      assert (a + b)[..|a + b| - 1] == a + b';
      assert (a + b)[|a + b| - 1] == b[|b| - 1];
      DeferredDirsAppend(a, b');
      match b[|b| - 1]
      case VisitPath(_) =>
      case DeferRemove(d) =>
        assert DeferredDirs(a) + DeferredDirs(b') + [d] == DeferredDirs(a) + (DeferredDirs(b') + [d]);
    }
  }

  /// The visits of consecutive runs of lines follow one another.
  lemma PathVisitsAppend(a: seq<string>, b: seq<string>)
    ensures PathVisits(a + b) == PathVisits(a) + PathVisits(b)
  {
    PathStepsSplit(a + b);
    PathStepsSplit(a);
    PathStepsSplit(b);
    PathStepsAppend(a, b);
    VisitedPathsAppend(PathSteps(a), PathSteps(b));
  }

  /// A plain path line sits in the visits as its text twice in a row,
  /// after the visits of the lines before it.
  lemma PlainLineVisits(pre: seq<string>, line: string, post: seq<string>)
    requires KindOf(LineText(line)) == PlainPath
    ensures var vs := PathVisits(pre + [line] + post);
      var i := |PathVisits(pre)|;
      i + 1 < |vs| && vs[i] == LineText(line) && vs[i + 1] == LineText(line)
  {
    PathVisitsAppend(pre + [line], post);
    PathVisitsAppend(pre, [line]);
    assert [line][..0] == [];
  }

  /// Visits per kind: a plain line twice, a marker once, a log line never;
  /// one removal per marker.
  lemma {:induction false} PathVisitsCount(lines: seq<string>)
    ensures |PathVisits(lines)| == 2 * CountKind(lines, PlainPath) + CountKind(lines, Marker)
    ensures |PathMarkers(lines)| == CountKind(lines, Marker)
  {
    if lines != [] {
      PathVisitsCount(lines[..|lines| - 1]);
    }
  }
}
