/** The server's tool-call layer acting on one filesystem in place:
    `read_file_tool`, `write_file_tool` and the `call_tool` dispatcher. */
module Server {
  import opened Paths
  import opened Protocol
  import opened Handlers

  class FileSystem {
    var files: map<Path, string>
    var dirs: set<Path>

    function State(): Disk
      reads this
    {
      Disk(files, dirs)
    }

    ghost predicate Valid()
      reads this
    {
      Sound(State())
    }

    /** An empty filesystem: only "." and "/". */
    constructor ()
      ensures Valid()
      ensures files == map[] && dirs == {Cwd, Root}
    {
      files := map[];
      dirs := {Cwd, Root};
    }

    /** `read_file_tool`: the `is_file` check, then the read in text mode,
        which turns "\r\n" and "\r" into "\n". */
    method ReadFile(args: Arguments, host: Host) returns (r: CallToolResult)
      requires Valid() && ReadArgsOk(args)
      ensures r == ReadSpec(State(), args, host, Universal)
    {
      var path := ParsePath(args["path"].s);
      if path !in files {
        return Reply("Error: Not a file - " + Render(path), true);
      }
      match host.readFailure {
        case Some(e) =>
          r := Reply("Error reading file: " + e, true);
        case None =>
          r := Reply(UniversalNewlines(files[path]), false);
      }
    }

    /** `a.mkdir(parents=True, exist_ok=True)`: create the missing
        directories of `a`, one at a time from the outermost, stopping at the
        first that is blocked. */
    method MakeParents(a: Path, host: Host) returns (ok: bool)
      requires Valid()
      modifies this
      ensures Valid()
      ensures files == old(files)
      ensures var stop := MkdirStop(old(State()), host.denied, a, 0);
              && ok == (stop == |a.parts| + 1)
              && dirs == old(dirs) + Lineage(a, stop)
    {
      ghost var d0 := State();
      MkdirPreservesSound(d0, host.denied, a);
      var k := 0;
      while k <= |a.parts|
        invariant k <= |a.parts| + 1
        invariant files == d0.files
        invariant dirs == d0.dirs + Lineage(a, k)
        invariant MkdirStop(d0, host.denied, a, 0) == MkdirStop(d0, host.denied, a, k)
      {
        var dir := Prefix(a, k);
        assert dir in dirs <==> dir in d0.dirs by {
          assert forall j | 0 <= j < k :: |Prefix(a, j).parts| != k;
        }
        if dir in files || (dir !in dirs && dir in host.denied) {
          return false;
        }
        LineageStep(a, k);
        dirs := dirs + {dir};
        k := k + 1;
      }
      ok := true;
    }

    /** `path.write_text(content)` once the directories exist: open the
        file, emptying it, and write. */
    method WriteText(path: Path, content: string, host: Host) returns (r: CallToolResult)
      requires Valid()
      requires forall k | 0 <= k < |path.parts| :: Prefix(path, k) in dirs
      modifies this
      ensures Valid()
      ensures Outcome(r, State()) == Handlers.WriteText(old(State()), path, content, host)
    {
      if path in dirs || path in host.denied {
        return WriteFailure(host.errorText);
      }
      // open(path, "w") creates the file or empties it
      files := files[path := ""];
      match host.cutShort {
        case Some(n) =>
          files := files[path := if n < |content| then content[..n] else content];
          r := WriteFailure(host.errorText);
        case None =>
          files := files[path := content];
          r := Reply("Successfully wrote to " + Render(path), false);
      }
    }

    /** `write_file_tool`: make the parent directories, then write the
        text. */
    method WriteFile(args: Arguments, host: Host) returns (r: CallToolResult)
      requires Valid() && WriteArgsOk(args)
      modifies this
      ensures Valid()
      ensures Outcome(r, State()) == WriteSpec(old(State()), args, host)
    {
      WritePreservesSound(State(), args, host);
      var path := ParsePath(args["path"].s);
      var ok := MakeParents(Parent(path), host);
      if !ok {
        return WriteFailure(host.errorText);
      }
      match args["content"] {
        case JOther(t) =>
          r := WriteFailure("data must be str, not " + t);
        case JString(content) =>
          assert forall k | 0 <= k < |path.parts| :: Prefix(path, k) == Prefix(Parent(path), k);
          r := WriteText(path, content, host);
      }
    }

    /** `call_tool`: route by name, or answer "Unknown tool". */
    method CallTool(name: string, args: Arguments, host: Host) returns (r: CallToolResult)
      requires Valid() && HandlerArgsOk(name, args)
      modifies this
      ensures Valid()
      ensures Outcome(r, State()) == CallSpec(old(State()), name, args, host)
    {
      if name == ReadFileTool {
        r := ReadFile(args, host);
      } else if name == WriteFileTool {
        r := WriteFile(args, host);
      } else {
        r := Reply("Unknown tool: " + name, true);
      }
    }
  }
}
