# Basic file-system MCP server: a Dafny model of its tool-call layer

The server exposes two tools to an MCP client: `read_file` and `write_file`.
It offers two requests: "list tools" and "call tool". This project models the
tool-call layer of `server.py`:

- the dispatcher `call_tool`, which routes a tool name to its handler or
  answers "Unknown tool: <name>";
- the registry `list_tools`, a constant catalogue of two tool descriptors;
- the handlers `read_file_tool` and `write_file_tool`, which turn filesystem
  outcomes into a `CallToolResult`: a list of text blocks and an `isError`
  flag.

The filesystem is abstract. It holds a map from path to text and a set of
directory paths. A path is a pathlib path: an "absolute" flag and a list of
components.

Layout:

- `paths.dfy` (module `Paths`): how `Path(arguments["path"])` parses the raw
  argument and how `f"{path}"` prints it back.
- `protocol.dfy` (module `Protocol`): argument values, `CallToolResult`, the
  tool descriptors, `ListTools`, and what each handler needs of its
  arguments.
- `handlers.dfy` (module `Handlers`): each tool as a function on filesystem
  values (`ReadSpec`, `WriteSpec`, `CallSpec`), with the lemmas about them.
- `server.dfy` (module `Server`): class `FileSystem`. Its fields are the files
  and the directories. Its methods `ReadFile`, `WriteFile` and `CallTool`
  perform the steps in place. Each method is proved to give the reply and
  the new state that its function in `Handlers` describes.

What the code does with its arguments:

- The raw argument is used as the path (`server.py:25`, `server.py:45`).
  Paths are not confined to any directory, and absolute paths stay
  absolute.
- Replies name the path as pathlib prints it, not as the caller typed it.
  For example, `"a//b/"` is printed as `a/b` (`ParseExtraSeparators`).
  `ParseOfRender` shows that the printed path parses back to the path the
  handler used.
- A missing `"path"` or `"content"` key is not turned into an error result.
  Neither is a non-string `"path"`. The source reads these outside any
  `try`, so they are preconditions (`ReadArgsOk`, `WriteArgsOk`). A
  non-string `"content"` is different: `write_text` raises `TypeError`
  inside the `try`, after `mkdir` has already run. The model gives that
  case the error reply "Error writing file: data must be str, not <type>"
  and keeps the directories that were created.

- `read_text` reads in text mode with universal newlines: "\r\n" and a lone
  "\r" both come back as "\n". `UniversalNewlines` is proved equal to
  `s.replace("\r\n", "\n").replace("\r", "\n")`. On a POSIX host `write_text`
  stores the text unchanged. The round trip is therefore exact only for text without
  "\r" (see "## Findings").

What the host does is given as a parameter, `Host`:

- `readFailure`: whether the read raises, and with what text;
- `denied`: the paths where creating a directory or opening a file for
  writing is refused;
- `cutShort`: whether writing the text fails after the file was opened (and
  so emptied), and how much of the content was stored by then;
- `errorText`: the text of any exception raised while writing.

Directories are created one at a time, outermost first, as
`mkdir(parents=True, exist_ok=True)` does. When a step fails, the directories
created before it stay.

## Model

| member | source | states |
|---|---|---|
| `Paths.ParsePath` | server.py:25 | `Path(arguments["path"])`: the result has only real components (no empty, "." or separator-bearing ones), and it is absolute exactly when the text starts with "/"; `ParseAroundSeparator` and `ParseSegment` pin down which components it keeps |
| `Paths.Split` | server.py:25 | every segment of the split is free of "/", and there is at least one segment |
| `Paths.Components` | server.py:25 | the components pathlib keeps are names: no empty or "." component survives parsing |
| `Paths.ComponentsAppend` | server.py:25 | filtering commutes with concatenation: every kept segment survives, in order, wherever it sits |
| `Paths.ComponentsOfSegment` | server.py:25 | a single segment is dropped exactly when it is empty or ".", and kept unchanged otherwise |
| `Paths.SplitAroundSeparator` | server.py:25 | splitting text joined by one "/" gives the segments of each side, concatenated |
| `Paths.ParseSegment` | server.py:25 | text without a separator parses to no component when it is empty or ".", and to itself otherwise |
| `Paths.ParseAroundSeparator` | server.py:25 | parsing `s + "/" + t` gives the components of `s` followed by those of `t`, absolute exactly when `s` is empty or absolute: a separator, repeated or not, only separates |
| `Paths.ParseExtraSeparators` | server.py:25-28 | for names x and y, "x//y/" parses to the components x, y and is printed as "x/y" |
| `Paths.JoinOfSplit` | server.py:25 | splitting on "/" loses nothing: joining the segments gives back the original text |
| `Paths.SplitOfJoin` | server.py:28 | joining separator-free segments and splitting again gives the same segments |
| `Paths.ComponentsOfNames` | server.py:25 | a path that is already normal is not changed by parsing |
| `Paths.ParseOfRender` | server.py:28 | the path printed in a reply (`f"{path}"`) parses back to the path the handler acted on |
| `Paths.RenderIsCanonical` | server.py:56 | parsing the printed form of any parsed path gives the same path |
| `Paths.Render` | server.py:28 | `str(path)` in the replies: "/" for the root, "." for the empty relative path; a well-formed path prints as non-empty text that starts with "/" exactly when the path is absolute (`Paths.ParseOfRender` is its inverse; `Paths.RenderSegments` fixes the text) |
| `Paths.RenderSegments` | server.py:28 | the printed text of a path with components splits on "/" into exactly its components, after one empty segment when absolute: single separators, none trailing, no "." |
| `Paths.JoinAppend` | server.py:28 | joining two non-empty lists of segments joins their texts with a single "/" |
| `Paths.Parent` | server.py:48 | `path.parent` drops the last component and keeps the anchor; "/" and "." are their own parents |
| `Protocol.ListTools` | server.py:60-98 | exactly two descriptors, `read_file` then `write_file`; `read_file` requires `["path"]`, `write_file` requires `["path", "content"]`; every schema is an object whose required keys are declared "string"; being a constant, it reads and changes no state |
| `Protocol.SchemaCoversHandler` | server.py:60-98 | arguments that satisfy a tool's advertised schema meet every need of the handler behind it, and give `write_file` string content |
| `Handlers.UniversalNewlines` | server.py:32 | the newline translation of a text-mode read: the result holds no "\r", is no longer than the input, and equals the input when the input holds no "\r" |
| `Handlers.UniversalNewlinesIsReplace` | server.py:32 | for every text, the translation equals `s.replace("\r\n", "\n").replace("\r", "\n")`: each "\r\n" and each lone "\r" becomes one "\n", everything else is kept in order |
| `Handlers.ReadSpec` | server.py:23-40 | one text block; no error exactly when the path is a regular file and the read succeeds; the text is then the stored contents with newlines translated (the server's mode); a failed read answers "Error reading file: ..." |
| `Handlers.ReadReportsNotAFile` | server.py:25-30 | "Error: Not a file - <path>" comes exactly when the path is not a regular file, and always for a directory |
| `Handlers.MkdirStop` | server.py:48 | where `mkdir(parents=True, exist_ok=True)` stops: every directory before the stop may be created or already exists; the one at the stop has a file in the way or may not be created |
| `Handlers.MkdirPreservesSound` | server.py:48 | creating the directories up to where `mkdir` stops keeps the filesystem a tree: no created directory is a file, and everything above it exists |
| `Handlers.WriteText` | server.py:49 | `path.write_text(c)`, required to be called with every directory above the path present: it fails exactly on a directory, a refused open, or a write cut short; it creates no directory and touches no other file; after the open the file holds a prefix of `c`, and all of `c` when the write is not cut short |
| `Handlers.WriteSpec` | server.py:43-57 | one text block; only directories above the path may be created, and no file other than the path changes; on success the path's text is the content, every directory above the path exists, and the reply is "Successfully wrote to <path>"; on failure the reply starts "Error writing file: " and the path keeps its old text, or, when the write failed after the file was opened, holds a prefix of the content |
| `Handlers.AncestorsOfFile` | server.py:48 | every directory above a regular file exists |
| `Handlers.WriteSucceedsIff` | server.py:47-54 | a write succeeds exactly when the content is a string, the path is not a directory, the host allows the open and the whole write, and no directory above it is blocked |
| `Handlers.WritePreservesSound` | server.py:47-49 | whatever its outcome, a write keeps the filesystem a tree: "." and "/" exist, no path is both file and directory, and every directory above an entry exists |
| `Handlers.WriteIdempotent` | server.py:48-49 | repeating a successful write succeeds again with the same reply and the same state (existing directories are not an error) |
| `Handlers.WriteThenRead` | server.py:32 | after a successful write of `c` to a path, reading that path answers `c` with newlines translated as the read mode says, whatever the file held before (replace, not append) |
| `Handlers.WriteThenReadExact` | server.py:32 | as the server reads, the round trip gives back exactly `c` when `c` holds no "\r" |
| `Handlers.WriteFreshThenRead` | server.py:32 | on an empty filesystem, any text written to "f" is stored and reads back translated |
| `Handlers.CarriageReturnLost` | server.py:32 | as the server reads, "a\r\nb" and "a\rb" written to "f" both read back as "a\nb" |
| `Handlers.WriteThenReadVerbatim` | server.py:32 | read without newline translation, the round trip gives back exactly `c` for every `c` |
| `Handlers.WriteFrame` | server.py:49 | whatever its outcome, a write changes the text of no other path, and creates or removes no other file |
| `Handlers.UnknownToolReply` | server.py:108-112 | any other name, the empty one included, gets the single error block "Unknown tool: <name>" and leaves the filesystem unchanged |
| `Handlers.DispatchMatchesRegistry` | server.py:104-112 | the "Unknown tool" reply comes exactly for the names `list_tools` does not advertise: every advertised tool is reachable and no other name reaches a handler |
| `Handlers.CallSpec` | server.py:101-112 | every call answers with a single text block, and calls other than `write_file` leave the filesystem unchanged |
| `Server.FileSystem.ReadFile` | server.py:23-40 | the in-place read gives the reply `ReadSpec` describes in the server's newline mode, and changes nothing |
| `Server.FileSystem.MakeParents` | server.py:48 | the directory-creation loop keeps the filesystem a tree, leaves the files alone, creates exactly the directories before the first blocked one, and succeeds exactly when none is blocked |
| `Server.FileSystem.WriteText` | server.py:49 | with every directory above the path present, the in-place open (which empties the file) and write give exactly the reply and state `Handlers.WriteText` describes, and keep the filesystem a tree |
| `Server.FileSystem.WriteFile` | server.py:43-57 | the in-place write (`MakeParents`, then `WriteText`) gives exactly the reply and the new files and directories that `WriteSpec` describes, and keeps the filesystem a tree |
| `Server.FileSystem.CallTool` | server.py:101-112 | the dispatcher gives the reply and state of `read_file_tool` for "read_file", of `write_file_tool` for "write_file", and "Unknown tool: <name>" with no change otherwise |

## Findings

| source | as written | input that shows it | evidently intended | confidence | as-written member | corrected member |
|---|---|---|---|---|---|---|
| server.py:32 | `path.read_text(encoding="utf-8")` reads with universal newlines, so "\r\n" and "\r" come back as "\n", while `write_text` (server.py:49) stores "\r" unchanged on a POSIX host | write_file {path: "f", content: "a\r\nb"}, then read_file {path: "f"}: the reply is "a\nb"; the same for content "a\rb" | "Read and return the contents of a file": the stored text verbatim, so that a read after a write returns the written text | medium, not executed | `Handlers.CarriageReturnLost` | `Handlers.WriteThenReadVerbatim` |

The handlers, `CallSpec` and the class keep the code's behaviour and read with
newline translation. The corrected read is the same `ReadSpec` in the
`NoTranslation` mode (`read_text(encoding="utf-8", newline="")`), for which
the round trip is exact.

## Left out

- `main`, `stdio_server`, `app.run` and `asyncio.run` (`server.py:115-125`): these are transport and session plumbing inside the MCP library.
- The `@app.list_tools()` and `@app.call_tool()` registration, and the `mcp.types` classes. `Tool` and `CallToolResult` are plain datatypes here. The library's own checks of arguments against the schema are not modelled. `SchemaCoversHandler` states what such a check would guarantee.
- `app.py` is not part of this model. It holds the UI, the language-model client and the code that spawns the server.
- UTF-8 encoding and decoding: file contents are strings. A read failure of any kind, decoding included, is the host's `readFailure`.
- The text of OS exceptions (`str(e)`) is opaque: every write failure raised by the host uses `errorText`. Only the `TypeError` for non-string content is spelled out.
- A write cut short is measured in characters of the content. The bytes of a partly written UTF-8 character are not modelled.
- The host is POSIX: paths parse as `PosixPath`, and `write_text` stores "\n" as it is. On Windows, paths parse differently and a written "\n" becomes "\r\n", so "a\r\nb" would read back as "a\n\nb"; neither is modelled.
- Relative paths resolve against the process's working directory. The model keeps relative and absolute paths as separate trees, so it does not capture a relative and an absolute path naming the same file.
- ".." is treated as an ordinary component, and symlinks are not modelled.
- `Paths.ParsePath`: pathlib keeps a leading "//" (exactly two slashes) as a distinct root. The model treats it as "/".
- Concurrent writers and races between the `is_file` check and the read are not modelled.
