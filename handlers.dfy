/** What each tool does to an abstract filesystem, stated on values: the
    reply it gives and the filesystem it leaves. The class in module Server
    performs the same steps in place and is proved to match these. */
module Handlers {
  import opened Paths
  import opened Protocol

  /** The filesystem the handlers see: regular files with their text, and
      directories. */
  datatype Disk = Disk(files: map<Path, string>, dirs: set<Path>)

  /** What the host does that the model cannot see.
      `readFailure`: if present, reading the file raises, with this text
      (undecodable bytes, permissions, I/O errors).
      `denied`: the paths at which the host refuses to create a directory or
      to open a file for writing (permissions, no room for a new entry).
      `cutShort`: if present, writing the text raises after the file has
      been opened, and so emptied, leaving only the first `n` characters of
      the content (a full disk; 0 for content that UTF-8 cannot encode,
      such as a lone surrogate).
      `errorText`: the text of any exception raised while writing. */
  datatype Host = Host(readFailure: Option<string>, denied: set<Path>,
                       cutShort: Option<nat>, errorText: string)

  /** A handler's reply together with the filesystem it leaves behind. */
  datatype Outcome = Outcome(result: CallToolResult, disk: Disk)

  const Cwd := Path(false, [])
  const Root := Path(true, [])

  /** A filesystem holding only "." and "/". */
  const Empty := Disk(map[], {Cwd, Root})

  /** A filesystem shaped like a tree: "." and "/" are directories, nothing is
      both a file and a directory, and every directory above an entry
      exists. */
  ghost predicate Sound(d: Disk) {
    && Cwd in d.dirs && Root in d.dirs
    && d.files.Keys !! d.dirs
    && (forall p, k | p in d.files && 0 <= k < |p.parts| :: Prefix(p, k) in d.dirs)
    && (forall p, k | p in d.dirs && 0 <= k < |p.parts| :: Prefix(p, k) in d.dirs)
  }

  /** `Path(arguments["path"])`. */
  function PathArg(args: Arguments): Path
    requires ReadArgsOk(args)
  {
    ParsePath(args["path"].s)
  }

  function NotAFile(p: Path): CallToolResult {
    Reply("Error: Not a file - " + Render(p), true)
  }

  // ---------------------------------------------------------------------
  // read_file

  /** The `newline` argument of a text-mode read. `read_text` without it,
      as the server calls it, reads with `Universal`. */
  datatype Newline = Universal | NoTranslation

  /** Universal-newline decoding: "\r\n" and a lone "\r" both become "\n";
      everything else is kept, in order. */
  function UniversalNewlines(s: string): (t: string)
    ensures '\r' !in t
    ensures '\r' !in s ==> t == s
    ensures |t| <= |s|
    decreases |s|
  {
    if s == [] then []
    else if s[0] == '\r' then
      "\n" + UniversalNewlines(if |s| > 1 && s[1] == '\n' then s[2..] else s[1..])
    else [s[0]] + UniversalNewlines(s[1..])
  }

  /** `s.replace(pattern, replacement)`: every occurrence of `pattern`, scanning
      left to right without overlap, replaced by `replacement`. */
  function ReplaceAll(s: string, pattern: string, replacement: string): string
    requires pattern != []
    decreases |s|
  {
    if s == [] then []
    else if |pattern| <= |s| && s[..|pattern|] == pattern then replacement + ReplaceAll(s[|pattern|..], pattern, replacement)
    else [s[0]] + ReplaceAll(s[1..], pattern, replacement)
  }

  /** Universal-newline decoding is
      `s.replace("\r\n", "\n").replace("\r", "\n")`: each "\r\n" and each
      lone "\r" becomes one "\n", and every other character stays, in
      order. */
  lemma {:induction false} UniversalNewlinesIsReplace(s: string)
    ensures UniversalNewlines(s) == ReplaceAll(ReplaceAll(s, "\r\n", "\n"), "\r", "\n")
    decreases |s|
  {
    if s == [] {
    } else if s[0] == '\r' && |s| > 1 && s[1] == '\n' {
      UniversalNewlinesIsReplace(s[2..]);
      var x := ReplaceAll(s[2..], "\r\n", "\n");
      assert s[..2] == "\r\n";
      var y := "\n" + x;
      assert y[..1] != "\r" && y[1..] == x;
    } else if s[0] == '\r' {
      UniversalNewlinesIsReplace(s[1..]);
      var x := ReplaceAll(s[1..], "\r\n", "\n");
      assert |s| >= 2 ==> s[..2][1] == s[1];
      var y := [s[0]] + x;
      assert y[..1] == "\r" && y[1..] == x;
    } else {
      UniversalNewlinesIsReplace(s[1..]);
      var x := ReplaceAll(s[1..], "\r\n", "\n");
      assert |s| >= 2 ==> s[..2][0] == s[0];
      var y := [s[0]] + x;
      assert y[..1] != "\r" && y[0] == s[0] && y[1..] == x;
    }
  }

  /** The text a read returns for stored text `s`. */
  function Decoded(mode: Newline, s: string): string {
    match mode
    case Universal => UniversalNewlines(s)
    case NoTranslation => s
  }

  /** `read_file_tool`: the stored text, decoded in `mode`, if the path is a
      regular file and the host lets it be read; otherwise an error reply.
      The server reads in `Universal` mode. */
  function ReadSpec(d: Disk, args: Arguments, host: Host, mode: Newline): (r: CallToolResult)
    requires ReadArgsOk(args)
    ensures |r.content| == 1
    ensures !r.isError <==> PathArg(args) in d.files && host.readFailure.None?
    ensures !r.isError ==> r.content[0].text == Decoded(mode, d.files[PathArg(args)])
    ensures PathArg(args) in d.files && host.readFailure.Some? ==>
              StartsWith(r.content[0].text, "Error reading file: ")
  {
    var p := PathArg(args);
    if p !in d.files then NotAFile(p)
    else match host.readFailure
      case Some(e) => Reply("Error reading file: " + e, true)
      case None => Reply(Decoded(mode, d.files[p]), false)
  }

  /** The "Not a file" reply comes exactly when the path is not a regular
      file; in particular for a directory. */
  lemma ReadReportsNotAFile(d: Disk, args: Arguments, host: Host)
    requires Sound(d) && ReadArgsOk(args)
    ensures ReadSpec(d, args, host, Universal) == NotAFile(PathArg(args)) <==> PathArg(args) !in d.files
    ensures PathArg(args) in d.dirs ==> ReadSpec(d, args, host, Universal) == NotAFile(PathArg(args))
  {
    var p := PathArg(args);
    if p in d.files && host.readFailure.Some? {
      var r := ReadSpec(d, args, host, Universal);
      assert r.content[0].text[5] == ' ';
      assert NotAFile(p).content[0].text[5] == ':';
    }
  }

  // ---------------------------------------------------------------------
  // write_file

  /** Creating directory `q` cannot go ahead: a file is in the way, or `q` is
      missing and the host refuses to create it. */
  predicate Blocks(d: Disk, denied: set<Path>, q: Path) {
    q in d.files || (q !in d.dirs && q in denied)
  }

  /** Where `mkdir(parents=True, exist_ok=True)` of `a` stops, scanning the
      directories from prefix length `k` down to `a` itself: the first that
      is blocked, or `|a.parts| + 1` if none is. */
  function MkdirStop(d: Disk, denied: set<Path>, a: Path, k: nat): (stop: nat)
    requires k <= |a.parts| + 1
    ensures k <= stop <= |a.parts| + 1
    ensures forall j | k <= j < stop :: !Blocks(d, denied, Prefix(a, j))
    ensures stop <= |a.parts| ==> Blocks(d, denied, Prefix(a, stop))
    decreases |a.parts| + 1 - k
  {
    if k > |a.parts| then k
    else if Blocks(d, denied, Prefix(a, k)) then k
    else MkdirStop(d, denied, a, k + 1)
  }

  /** The prefixes of `a` with fewer than `n` components. */
  function Lineage(a: Path, n: nat): (s: set<Path>)
    requires n <= |a.parts| + 1
    ensures forall j | 0 <= j < n :: Prefix(a, j) in s
  {
    set j | 0 <= j < n :: Prefix(a, j)
  }

  /** One more prefix in the lineage. */
  lemma LineageStep(a: Path, k: nat)
    requires k <= |a.parts|
    ensures Lineage(a, k + 1) == Lineage(a, k) + {Prefix(a, k)}
  {
  }

  /** The directories `path.parent.mkdir(parents=True)` makes sure exist:
      the parent and every directory above it. */
  function Ancestors(p: Path): set<Path> {
    Lineage(Parent(p), |Parent(p).parts| + 1)
  }

  function WriteFailure(text: string): (r: CallToolResult)
    ensures r.isError && |r.content| == 1
    ensures StartsWith(r.content[0].text, "Error writing file: ")
  {
    var r := Reply("Error writing file: " + text, true);
    assert r.content[0].text[..20] == "Error writing file: ";
    r
  }

  /** `write_file_tool`: create the missing directories above the path,
      outermost first, then open the file (which empties it) and write the
      text. A failure at any step ends the call; directories created before
      it stay, and a failure after the open leaves the file cut short. */
  function WriteSpec(d: Disk, args: Arguments, host: Host): (o: Outcome)
    requires WriteArgsOk(args)
    ensures |o.result.content| == 1
    ensures d.dirs <= o.disk.dirs <= d.dirs + Ancestors(PathArg(args))
    ensures o.disk.files - {PathArg(args)} == d.files - {PathArg(args)}
    ensures o.result.isError ==>
              && StartsWith(o.result.content[0].text, "Error writing file: ")
              && (|| o.disk.files == d.files
                  || (&& args["content"].JString? && host.cutShort.Some?
                      && PathArg(args) in o.disk.files
                      && o.disk.files[PathArg(args)] <= args["content"].s))
    ensures o.result.isError && host.cutShort.None? ==> o.disk.files == d.files
    ensures !o.result.isError ==>
              && args["content"].JString?
              && o.result.content[0].text == "Successfully wrote to " + Render(PathArg(args))
              && o.disk.files == d.files[PathArg(args) := args["content"].s]
              && o.disk.dirs == d.dirs + Ancestors(PathArg(args))
  {
    var p := PathArg(args);
    var a := Parent(p);
    var stop := MkdirStop(d, host.denied, a, 0);
    var made := d.(dirs := d.dirs + Lineage(a, stop));
    if stop <= |a.parts| then Outcome(WriteFailure(host.errorText), made)
    else match args["content"]
      case JOther(t) => Outcome(WriteFailure("data must be str, not " + t), made)
      case JString(c) =>
        assert forall k | 0 <= k < |p.parts| :: Prefix(p, k) == Prefix(a, k);
        WriteText(made, p, c, host)
  }

  /** `path.write_text(c)` once the directories exist: opening `p` for
      writing fails on a directory or where the host refuses it; otherwise
      the open empties the file, and the text is written in full or, if the
      host cuts the write short, in part. */
  function WriteText(d: Disk, p: Path, c: string, host: Host): (o: Outcome)
    requires forall k | 0 <= k < |p.parts| :: Prefix(p, k) in d.dirs
    ensures |o.result.content| == 1
    ensures o.disk.dirs == d.dirs
    ensures o.disk.files - {p} == d.files - {p}
    ensures o.result.isError <==> p in d.dirs || p in host.denied || host.cutShort.Some?
    ensures o.result.isError ==> StartsWith(o.result.content[0].text, "Error writing file: ")
    ensures p in d.dirs || p in host.denied ==> o.disk == d
    ensures !(p in d.dirs || p in host.denied) ==>
              && p in o.disk.files && o.disk.files[p] <= c
              && (host.cutShort.None? ==> o.disk.files[p] == c)
  {
    if p in d.dirs || p in host.denied then Outcome(WriteFailure(host.errorText), d)
    else match host.cutShort
      case Some(n) =>
        Outcome(WriteFailure(host.errorText),
                d.(files := d.files[p := if n < |c| then c[..n] else c]))
      case None =>
        Outcome(Reply("Successfully wrote to " + Render(p), false),
                d.(files := d.files[p := c]))
  }

  /** Every directory above a regular file of a sound filesystem exists. */
  lemma AncestorsOfFile(d: Disk, p: Path)
    requires Sound(d) && p in d.files
    ensures |p.parts| > 0
    ensures Ancestors(p) <= d.dirs
  {
    assert p != Cwd && p != Root;
    forall q | q in Ancestors(p) ensures q in d.dirs {
      var j :| 0 <= j <= |Parent(p).parts| && q == Prefix(Parent(p), j);
      assert q == Prefix(p, j);
    }
  }

  /** A write succeeds exactly when the content is a string, the path is
      not a directory, the host allows the write, and every directory above
      the path either exists or may be created, with no file in the way. */
  lemma WriteSucceedsIff(d: Disk, args: Arguments, host: Host)
    requires Sound(d) && WriteArgsOk(args)
    ensures !WriteSpec(d, args, host).result.isError <==>
              && args["content"].JString?
              && PathArg(args) !in d.dirs
              && PathArg(args) !in host.denied
              && host.cutShort.None?
              && forall q | q in Ancestors(PathArg(args)) :: !Blocks(d, host.denied, q)
  {
    var p := PathArg(args);
    var a := Parent(p);
    var stop := MkdirStop(d, host.denied, a, 0);
    if forall q | q in Ancestors(p) :: !Blocks(d, host.denied, q) {
      assert forall j | 0 <= j <= |a.parts| :: !Blocks(d, host.denied, Prefix(a, j));
      assert stop == |a.parts| + 1;
      if |p.parts| == 0 {
        assert p == Cwd || p == Root;
      } else {
        assert p !in Lineage(a, stop);
      }
    } else {
      var q :| q in Ancestors(p) && Blocks(d, host.denied, q);
      var j :| 0 <= j <= |a.parts| && q == Prefix(a, j);
      assert stop <= j;
    }
  }

  /** Creating the directories of `a` up to where `mkdir` stops keeps a
      sound filesystem sound: nothing created is a file, and everything
      above a created directory exists or is created too. */
  lemma MkdirPreservesSound(d: Disk, denied: set<Path>, a: Path)
    requires Sound(d)
    ensures Sound(d.(dirs := d.dirs + Lineage(a, MkdirStop(d, denied, a, 0))))
  {
    var stop := MkdirStop(d, denied, a, 0);
    var made := d.(dirs := d.dirs + Lineage(a, stop));
    assert made.files.Keys !! made.dirs by {
      forall j | 0 <= j < stop ensures Prefix(a, j) !in d.files {
        assert !Blocks(d, denied, Prefix(a, j));
      }
    }
    forall q, k | q in made.dirs && 0 <= k < |q.parts| ensures Prefix(q, k) in made.dirs {
      if q !in d.dirs {
        var j :| 0 <= j < stop && q == Prefix(a, j);
        assert Prefix(q, k) == Prefix(a, k);
      }
    }
  }

  /** A write leaves a sound filesystem sound, whatever its outcome. */
  lemma WritePreservesSound(d: Disk, args: Arguments, host: Host)
    requires Sound(d) && WriteArgsOk(args)
    ensures Sound(WriteSpec(d, args, host).disk)
  {
    var p := PathArg(args);
    var a := Parent(p);
    var stop := MkdirStop(d, host.denied, a, 0);
    var made := d.(dirs := d.dirs + Lineage(a, stop));
    MkdirPreservesSound(d, host.denied, a);
    if stop > |a.parts| && args["content"].JString? && p !in made.dirs && p !in host.denied {
      // the file was opened: whatever text it ends with, it sits below existing directories
      forall k | 0 <= k < |p.parts| ensures Prefix(p, k) in made.dirs {
        assert Prefix(p, k) == Prefix(a, k);
      }
    }
  }

  /** Writing the same arguments again right after a successful write
      succeeds with the same reply and changes nothing: existing directories
      are not an error, and the text is replaced, not appended. */
  lemma WriteIdempotent(d: Disk, args: Arguments, host: Host)
    requires Sound(d) && WriteArgsOk(args)
    requires !WriteSpec(d, args, host).result.isError
    ensures WriteSpec(WriteSpec(d, args, host).disk, args, host) == WriteSpec(d, args, host)
  {
    var p := PathArg(args);
    var o := WriteSpec(d, args, host);
    WritePreservesSound(d, args, host);
    WriteSucceedsIff(d, args, host);
    WriteSucceedsIff(o.disk, args, host);
    assert p in o.disk.files;
    AncestorsOfFile(o.disk, p);
    assert p !in Ancestors(p) by {
      assert forall j | 0 <= j <= |Parent(p).parts| :: |Prefix(Parent(p), j).parts| < |p.parts|;
    }
    var o2 := WriteSpec(o.disk, args, host);
    assert o2.disk.files == o.disk.files;
    assert o2.disk.dirs == o.disk.dirs;
  }

  /** Round trip: once a write succeeds, reading the same path gives back
      the written text as decoded in `mode`, whatever the file held before:
      the text is replaced, not appended to. */
  lemma WriteThenRead(d: Disk, path: string, content: string, host: Host, mode: Newline)
    requires host.readFailure.None?
    requires !WriteSpec(d, map["path" := JString(path), "content" := JString(content)], host).result.isError
    ensures ReadSpec(WriteSpec(d, map["path" := JString(path), "content" := JString(content)], host).disk,
                     map["path" := JString(path)], host, mode)
            == Reply(Decoded(mode, content), false)
  {
    var r := ReadSpec(WriteSpec(d, map["path" := JString(path), "content" := JString(content)], host).disk,
                      map["path" := JString(path)], host, mode);
    assert r.content == [TextContent(Decoded(mode, content))];
  }

  /** As the server reads, the round trip is exact for content without a
      carriage return. */
  lemma WriteThenReadExact(d: Disk, path: string, content: string, host: Host)
    requires host.readFailure.None? && '\r' !in content
    requires !WriteSpec(d, map["path" := JString(path), "content" := JString(content)], host).result.isError
    ensures ReadSpec(WriteSpec(d, map["path" := JString(path), "content" := JString(content)], host).disk,
                     map["path" := JString(path)], host, Universal)
            == Reply(content, false)
  {
    WriteThenRead(d, path, content, host, Universal);
  }

  /** On an empty filesystem, writing any text to "f" succeeds, and the
      server's read of "f" then answers that text decoded. */
  lemma WriteFreshThenRead(content: string)
    ensures var host := Host(None, {}, None, "");
            var o := WriteSpec(Empty, map["path" := JString("f"), "content" := JString(content)], host);
            && !o.result.isError
            && ReadSpec(o.disk, map["path" := JString("f")], host, Universal)
               == Reply(UniversalNewlines(content), false)
  {
    var host := Host(None, {}, None, "");
    var args := map["path" := JString("f"), "content" := JString(content)];
    var f := "f";
    assert f[0] == 'f' && f[1..] == "";
    assert Split(f[1..]) == [""];
    assert [f[0]] + "" == f;
    assert Split(f) == ["f"];
    assert Components(["f"]) == ["f"];
    var p := PathArg(args);
    assert p == Path(false, ["f"]);
    assert Parent(p) == Cwd;
    assert MkdirStop(Empty, {}, Cwd, 0) == 1;
    WriteSucceedsIff(Empty, args, host);
    WriteThenRead(Empty, "f", content, host, Universal);
  }

  /** As the server reads, a carriage return written to "f" on an empty
      filesystem is lost: "a\r\nb" and "a\rb" both read back as "a\nb". */
  lemma CarriageReturnLost()
    ensures var host := Host(None, {}, None, "");
            forall content | content == "a\r\nb" || content == "a\rb" ::
              var o := WriteSpec(Empty, map["path" := JString("f"), "content" := JString(content)], host);
              && !o.result.isError
              && ReadSpec(o.disk, map["path" := JString("f")], host, Universal) == Reply("a\nb", false)
              && "a\nb" != content
  {
    var crlf := "a\r\nb";
    assert crlf[1..][2..] == "b";
    assert UniversalNewlines("b") == "b";
    assert UniversalNewlines(crlf[1..]) == "\nb";
    assert UniversalNewlines(crlf) == "a\nb";
    WriteFreshThenRead(crlf);
    var cr := "a\rb";
    assert cr[1..][1..] == "b";
    assert UniversalNewlines(cr[1..]) == "\nb";
    assert UniversalNewlines(cr) == "a\nb";
    WriteFreshThenRead(cr);
  }

  /** Read without newline translation, the round trip is exact for every
      text. */
  lemma WriteThenReadVerbatim(d: Disk, path: string, content: string, host: Host)
    requires host.readFailure.None?
    requires !WriteSpec(d, map["path" := JString(path), "content" := JString(content)], host).result.isError
    ensures ReadSpec(WriteSpec(d, map["path" := JString(path), "content" := JString(content)], host).disk,
                     map["path" := JString(path)], host, NoTranslation)
            == Reply(content, false)
  {
    WriteThenRead(d, path, content, host, NoTranslation);
  }

  /** A write, whatever its outcome, touches no other file: every other
      path keeps its text, or stays absent. */
  lemma WriteFrame(d: Disk, args: Arguments, host: Host, q: Path)
    requires WriteArgsOk(args) && q != PathArg(args)
    ensures var o := WriteSpec(d, args, host);
            && (q in o.disk.files <==> q in d.files)
            && (q in d.files ==> o.disk.files[q] == d.files[q])
  {
  }

  // ---------------------------------------------------------------------
  // call_tool

  /** `call_tool`: route by name to a handler, or report the unknown tool.
      Every call answers with a single text block, and only a write can
      change the filesystem. */
  function CallSpec(d: Disk, name: string, args: Arguments, host: Host): (o: Outcome)
    requires HandlerArgsOk(name, args)
    ensures |o.result.content| == 1
    ensures name != WriteFileTool ==> o.disk == d
  {
    if name == ReadFileTool then Outcome(ReadSpec(d, args, host, Universal), d)
    else if name == WriteFileTool then WriteSpec(d, args, host)
    else Outcome(Reply("Unknown tool: " + name, true), d)
  }

  predicate IsUnknownTool(r: CallToolResult) {
    r.isError && |r.content| == 1 && StartsWith(r.content[0].text, "Unknown tool: ")
  }

  /** Every name outside the catalogue, the empty one included, gets the
      single block "Unknown tool: <name>" and leaves the filesystem as it
      was. */
  lemma UnknownToolReply(d: Disk, name: string, args: Arguments, host: Host)
    requires name != ReadFileTool && name != WriteFileTool
    ensures CallSpec(d, name, args, host) == Outcome(Reply("Unknown tool: " + name, true), d)
  {
  }

  /** Dispatch and registry agree: the "Unknown tool" reply comes exactly for
      the names `list_tools` does not advertise, so no advertised tool is
      unreachable and no other name reaches a handler. */
  lemma DispatchMatchesRegistry(d: Disk, name: string, args: Arguments, host: Host)
    requires HandlerArgsOk(name, args)
    ensures IsUnknownTool(CallSpec(d, name, args, host).result) <==> name !in ToolNames(ListTools())
  {
    var r := CallSpec(d, name, args, host).result;
    assert ToolNames(ListTools()) == [ReadFileTool, WriteFileTool];
    if name == ReadFileTool {
      if r.isError {
        assert r.content[0].text[0] == 'E';
      }
    } else if name == WriteFileTool {
      if r.isError {
        assert r.content[0].text[..20] == "Error writing file: ";
        assert r.content[0].text[0] == 'E';
      }
    } else {
      assert r.content[0].text[..14] == "Unknown tool: ";
    }
  }
}
