/** The tool catalog list_tools announces, and the tool names call_tool
    dispatches on. */
module Catalog {
  import opened Values

  /** The six operations of the service. */
  datatype ToolName = CreateNote | GetAllNotes | GetNoteById | UpdateNote | DeleteNote | SearchNotes

  /** The name a tool is announced and called by. */
  function NameOf(t: ToolName): string
  {
    match t
    case CreateNote => "create_note"
    case GetAllNotes => "get_all_notes"
    case GetNoteById => "get_note_by_id"
    case UpdateNote => "update_note"
    case DeleteNote => "delete_note"
    case SearchNotes => "search_notes"
  }

  /** call_tool's chain of name comparisons: the tool a name selects, if any.
      It is the inverse of NameOf, so exactly the six names are known. */
  function ToolFor(name: string): (r: Option<ToolName>)
    ensures r.Some? ==> NameOf(r.value) == name
    ensures r.None? ==> forall t: ToolName :: NameOf(t) != name
  {
    if name == "create_note" then Some(CreateNote)
    else if name == "get_all_notes" then Some(GetAllNotes)
    else if name == "get_note_by_id" then Some(GetNoteById)
    else if name == "update_note" then Some(UpdateNote)
    else if name == "delete_note" then Some(DeleteNote)
    else if name == "search_notes" then Some(SearchNotes)
    else None
  }

  /** ... and NameOf is the inverse of ToolFor: each tool's own name selects it. */
  lemma NameSelectsTool(t: ToolName)
    ensures ToolFor(NameOf(t)) == Some(t)
  {
  }

  /** Two tools never share a name. */
  lemma NameOfInjective(a: ToolName, b: ToolName)
    ensures NameOf(a) == NameOf(b) ==> a == b
  {
    NameSelectsTool(a);
    NameSelectsTool(b);
  }

  /** The argument keys each operation reads with `arguments.get`. */
  function KeysRead(t: ToolName): set<string>
  {
    match t
    case CreateNote => {"title", "content"}
    case GetAllNotes => {}
    case GetNoteById => {"id"}
    case UpdateNote => {"id", "title", "content"}
    case DeleteNote => {"id"}
    case SearchNotes => {"keyword"}
  }

  // ---------------------------------------------------------------------------
  // JSON Schema declarations

  datatype JsonType = StringType | IntegerType

  /** One entry of an input schema's "properties". */
  datatype Property = Property(name: string, kind: JsonType, description: string)

  /** An input schema of "type": "object" with its properties and the names
      listed under "required". */
  datatype ObjectSchema = ObjectSchema(properties: seq<Property>, required: seq<string>)

  datatype Tool = Tool(name: string, description: string, inputSchema: ObjectSchema)

  /** The names of the declared properties. */
  function PropertyNames(props: seq<Property>): (names: set<string>)
  {
    if props == [] then {} else {props[0].name} + PropertyNames(props[1..])
  }

  /** No property is declared twice. */
  predicate Distinct(props: seq<Property>)
  {
    props == [] || (props[0].name !in PropertyNames(props[1..]) && Distinct(props[1..]))
  }

  /** A schema declares each property once and requires only declared ones. */
  predicate WellFormed(s: ObjectSchema)
  {
    Distinct(s.properties) && forall i :: 0 <= i < |s.required| ==> s.required[i] in PropertyNames(s.properties)
  }

  /** The "description" each tool is announced with. */
  function Description(t: ToolName): string
  {
    match t
    case CreateNote => "Create a new note in the database"
    case GetAllNotes => "Retrieve all notes from the database"
    case GetNoteById => "Get a specific note by its ID"
    case UpdateNote => "Update an existing note"
    case DeleteNote => "Delete a note by ID"
    case SearchNotes => "Search notes by keyword in title or content"
  }

  /** The "inputSchema" each tool is announced with: an id is declared an
      integer, every other argument a string. */
  function Schema(t: ToolName): (s: ObjectSchema)
    ensures forall j :: 0 <= j < |s.properties| ==>
      var p := s.properties[j];
      p.kind == (if p.name == "id" then IntegerType else StringType)
  {
    match t
    case CreateNote =>
      ObjectSchema([Property("title", StringType, "Title of the note"),
                    Property("content", StringType, "Content/body of the note")],
                   ["title", "content"])
    case GetAllNotes => ObjectSchema([], [])
    case GetNoteById =>
      ObjectSchema([Property("id", IntegerType, "ID of the note to retrieve")], ["id"])
    case UpdateNote =>
      ObjectSchema([Property("id", IntegerType, "ID of the note to update"),
                    Property("title", StringType, "New title (optional)"),
                    Property("content", StringType, "New content (optional)")],
                   ["id"])
    case DeleteNote =>
      ObjectSchema([Property("id", IntegerType, "ID of the note to delete")], ["id"])
    case SearchNotes =>
      ObjectSchema([Property("keyword", StringType, "Keyword to search for")], ["keyword"])
  }

  /** Every schema declares each property once and requires only declared ones. */
  lemma SchemaWellFormed(t: ToolName)
    ensures WellFormed(Schema(t))
  {
  }

  /** Every schema declares exactly the argument keys its operation reads. */
  lemma SchemaDeclaresKeysRead(t: ToolName)
    ensures PropertyNames(Schema(t).properties) == KeysRead(t)
  {
  }

  /** The catalog entry of one tool. */
  function Announce(t: ToolName): Tool
  {
    Tool(NameOf(t), Description(t), Schema(t))
  }

  /** The catalog's tools in the order call_tool tests their names. */
  const Order: seq<ToolName> := [CreateNote, GetAllNotes, GetNoteById, UpdateNote, DeleteNote, SearchNotes]

  /** list_tools: one entry per tool, in the order call_tool tests their names. */
  function ListTools(): (tools: seq<Tool>)
    ensures |tools| == |Order| == 6
  {
    seq(|Order|, i requires 0 <= i < |Order| => Announce(Order[i]))
  }

  /** Each entry list_tools announces is called by a name that selects that
      very tool, and has a well-formed schema declaring exactly the keys the
      tool reads. */
  lemma ListedToolsMatchDispatch()
    ensures forall i :: 0 <= i < |ListTools()| ==>
      var tool := ListTools()[i];
      && ToolFor(tool.name) == Some(Order[i])
      && WellFormed(tool.inputSchema)
      && PropertyNames(tool.inputSchema.properties) == KeysRead(Order[i])
  {
    forall i | 0 <= i < |ListTools()|
      ensures var tool := ListTools()[i];
        && ToolFor(tool.name) == Some(Order[i])
        && WellFormed(tool.inputSchema)
        && PropertyNames(tool.inputSchema.properties) == KeysRead(Order[i])
    {
      NameSelectsTool(Order[i]);
      SchemaWellFormed(Order[i]);
      SchemaDeclaresKeysRead(Order[i]);
    }
  }

  /** Every operation call_tool knows is announced ... */
  lemma CatalogCoversDispatch(t: ToolName)
    ensures exists i :: 0 <= i < |ListTools()| && ListTools()[i].name == NameOf(t)
  {
    var i := match t
      case CreateNote => 0
      case GetAllNotes => 1
      case GetNoteById => 2
      case UpdateNote => 3
      case DeleteNote => 4
      case SearchNotes => 5;
    var tools := ListTools();
    assert Order[i] == t;
    assert tools[i].name == NameOf(t);
  }

  /** ... and no name is announced twice. */
  lemma ListedNamesDistinct()
    ensures forall i, j :: 0 <= i < j < |ListTools()| ==> ListTools()[i].name != ListTools()[j].name
  {
    var tools := ListTools();
    OrderDistinct();
    forall i, j | 0 <= i < j < |tools| ensures tools[i].name != tools[j].name {
      assert tools[i].name == NameOf(Order[i]);
      assert tools[j].name == NameOf(Order[j]);
      NameOfInjective(Order[i], Order[j]);
    }
  }

  /** No tool is listed twice. */
  lemma OrderDistinct()
    ensures forall i, j :: 0 <= i < j < |Order| ==> Order[i] != Order[j]
  {
  }
}
