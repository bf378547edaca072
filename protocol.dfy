/** The values exchanged with the client: tool-call arguments, results made
    of text blocks, and the static catalogue of tool descriptors. */
module Protocol {

  datatype Option<T> = None | Some(value: T)

  /** A decoded JSON argument value. Only strings matter to the handlers;
      any other value is known by its Python type name (int, list, ...). */
  datatype Json = JString(s: string) | JOther(typeName: string)

  type Arguments = map<string, Json>

  /** A `TextContent` block; its `type` is always "text". */
  datatype TextContent = TextContent(text: string)

  /** A `CallToolResult`: the content blocks and the error flag. */
  datatype CallToolResult = CallToolResult(content: seq<TextContent>, isError: bool)

  /** A result holding the single text block `text`. */
  function Reply(text: string, isError: bool): (r: CallToolResult)
    ensures |r.content| == 1 && r.content[0].text == text && r.isError == isError
  {
    CallToolResult([TextContent(text)], isError)
  }

  predicate StartsWith(s: string, prefix: string) {
    |prefix| <= |s| && s[..|prefix|] == prefix
  }

  const ReadFileTool := "read_file"
  const WriteFileTool := "write_file"

  /** One entry of an input schema's "properties" object. */
  datatype Property = Property(name: string, typ: string, description: string)

  /** A JSON-schema-shaped `inputSchema`. */
  datatype InputSchema = InputSchema(typ: string, properties: seq<Property>, required: seq<string>)

  /** A `Tool` descriptor. */
  datatype Tool = Tool(name: string, description: string, inputSchema: InputSchema)

  /** The declared type of property `key`, if the schema declares it. */
  function TypeOf(props: seq<Property>, key: string): (t: Option<string>)
    ensures t.Some? <==> exists i :: 0 <= i < |props| && props[i].name == key
  {
    if props == [] then None
    else if props[0].name == key then Some(props[0].typ)
    else TypeOf(props[1..], key)
  }

  /** Every required key is declared, and declared as a string. */
  predicate RequiresStrings(schema: InputSchema) {
    forall k | k in schema.required :: TypeOf(schema.properties, k) == Some("string")
  }

  /** `args` satisfies `schema`: every required key is present, and every
      present key declared "string" holds a string. */
  predicate Conforms(schema: InputSchema, args: Arguments) {
    && (forall k | k in schema.required :: k in args)
    && (forall k | k in args && TypeOf(schema.properties, k) == Some("string") :: args[k].JString?)
  }

  function ToolNames(tools: seq<Tool>): (names: seq<string>)
    ensures |names| == |tools|
    ensures forall i | 0 <= i < |tools| :: names[i] == tools[i].name
  {
    if tools == [] then [] else [tools[0].name] + ToolNames(tools[1..])
  }

  /** The registry answered on discovery: a constant, so it neither reads nor
      changes any state. */
  function ListTools(): (tools: seq<Tool>)
    ensures ToolNames(tools) == [ReadFileTool, WriteFileTool]
    ensures tools[0].inputSchema.required == ["path"]
    ensures tools[1].inputSchema.required == ["path", "content"]
    ensures forall i | 0 <= i < |tools| ::
              tools[i].inputSchema.typ == "object" && RequiresStrings(tools[i].inputSchema)
  {
    [ Tool(ReadFileTool, "Read and return the contents of a file.",
           InputSchema("object",
                       [Property("path", "string", "The path to the file")],
                       ["path"])),
      Tool(WriteFileTool, "Write string content to a file.",
           InputSchema("object",
                       [Property("path", "string", "The target file path"),
                        Property("content", "string", "The content to write")],
                       ["path", "content"])) ]
  }

  /** What `read_file_tool` needs to run without an uncaught exception:
      `arguments["path"]` exists and `Path(...)` accepts it. */
  predicate ReadArgsOk(args: Arguments) {
    "path" in args && args["path"].JString?
  }

  /** What `write_file_tool` needs besides: `arguments["content"]` exists. */
  predicate WriteArgsOk(args: Arguments) {
    ReadArgsOk(args) && "content" in args
  }

  /** What `call_tool` needs for `name`: the needs of the handler it routes to. */
  predicate HandlerArgsOk(name: string, args: Arguments) {
    && (name == ReadFileTool ==> ReadArgsOk(args))
    && (name == WriteFileTool ==> WriteArgsOk(args))
  }

  /** Arguments that satisfy a tool's advertised schema meet every need of
      the handler behind it, and give `write_file` string content. */
  lemma SchemaCoversHandler(i: nat, args: Arguments)
    requires i < |ListTools()|
    requires Conforms(ListTools()[i].inputSchema, args)
    ensures HandlerArgsOk(ListTools()[i].name, args)
    ensures ListTools()[i].name == WriteFileTool ==> args["content"].JString?
  {
    var tools := ListTools();
    var schema := tools[i].inputSchema;
    assert ToolNames(tools)[i] == tools[i].name;
    assert "path" in schema.required;
    assert TypeOf(schema.properties, "path") == Some("string");
    if i == 1 {
      assert "content" in schema.required;
      assert TypeOf(schema.properties, "content") == Some("string");
    }
  }
}
