/** The running service: the `notes` table held in fields that each tool call
    updates in place, the CURRENT_TIMESTAMP clock, and call_tool itself. */
module Store {
  import opened Values
  import opened SqlLike
  import opened Collation
  import opened Timestamps
  import opened Notes
  import opened NoteLaws
  import opened Catalog
  import opened Service

  /** One pass of the `for row in rows` loop of get_all_notes and
      search_notes: the five `result +=` lines for one row. */
  method AppendBlock(text: string, row: Note, preview: bool) returns (result: string)
    ensures result == text + Block(row, preview)
  {
    result := text;
    result := result + ("ID: " + DecimalText(row.id) + "\n");
    assert result == text + IdLine(row);
    result := result + ("Title: " + row.title + "\n");
    AppendAssoc(text, IdLine(row), TitleLine(row));
    if preview {
      result := result + ("Content: " + Preview(row.content) + "...\n");
    } else {
      result := result + ("Content: " + row.content + "\n");
    }
    AppendAssoc(text, IdLine(row) + TitleLine(row), ContentLine(row, preview));
    result := result + ("Created: " + row.createdAt + "\n");
    AppendAssoc(text, IdLine(row) + TitleLine(row) + ContentLine(row, preview), CreatedLine(row));
    result := result + (Divider + "\n");
    AppendAssoc(text, IdLine(row) + TitleLine(row) + ContentLine(row, preview) + CreatedLine(row), DividerLine());
  }

  /** The text after row `i` is the text before it followed by its block. */
  lemma RenderStep(header: string, rows: seq<Note>, i: int, preview: bool)
    requires 0 <= i < |rows|
    ensures header + Listing(rows[..i + 1], preview) == header + Listing(rows[..i], preview) + Block(rows[i], preview)
  {
    assert rows[..i + 1] == rows[..i] + [rows[i]];
    ListingSnoc(rows[..i], rows[i], preview);
    AppendAssoc(header, Listing(rows[..i], preview), Block(rows[i], preview));
  }

  /** The loop itself: the header followed by one block per row, in row order. */
  method RenderRows(header: string, rows: seq<Note>, preview: bool) returns (text: string)
    ensures text == header + Listing(rows, preview)
  {
    text := header;
    for i := 0 to |rows|
      invariant text == header + Listing(rows[..i], preview)
    {
      text := AppendBlock(text, rows[i], preview);
      RenderStep(header, rows, i, preview);
    }
    assert rows[..|rows|] == rows;
  }

  /** Taking `id` off the pending rows adds its row to those already seen. */
  lemma WithoutOneLess(notes: map<int, Note>, pending: set<int>, id: int)
    requires id in pending && pending <= notes.Keys
    ensures Without(notes, pending - {id}) == Without(notes, pending)[id := notes[id]]
  {
  }

  /** ... and to the matching rows seen when it matches. */
  lemma MatchingOneLess(notes: map<int, Note>, pending: set<int>, id: int, pattern: string)
    requires id in pending && pending <= notes.Keys
    ensures var before, row := Matching(Without(notes, pending), pattern), notes[id];
      Matching(Without(notes, pending - {id}), pattern)
        == if Like(pattern, row.title) || Like(pattern, row.content) then before[id := row] else before
  {
    WithoutOneLess(notes, pending, id);
  }

  /** Handing out the newest pending row keeps the rows newest first, and
      every row still pending dated no later than any handed out. */
  lemma NewestStep(notes: map<int, Note>, pending: set<int>, rows: seq<Note>, id: int)
    requires pending <= notes.Keys && NewestPending(notes, pending, id) && NewestFirst(rows)
    requires forall i, k :: 0 <= i < |rows| && k in pending ==> LexLe(notes[k].createdAt, rows[i].createdAt)
    ensures NewestFirst(rows + [notes[id]])
    ensures forall i, k :: 0 <= i < |rows| + 1 && k in pending - {id} ==>
      LexLe(notes[k].createdAt, (rows + [notes[id]])[i].createdAt)
  {
  }

  class NoteStore {
    var notes: map<int, Note>
    var lastId: int
    var clock: DateTime

    /** The table as the tool functions see it. */
    function Snapshot(): Table
      reads this
    {
      Table(notes, lastId)
    }

    ghost predicate Valid()
      reads this
    {
      ValidDateTime(clock) && Inv(Snapshot(), StampText(clock))
    }

    /** init_database on a fresh database file: the table exists and is empty,
        and no id has been assigned yet. */
    constructor (start: DateTime)
      requires ValidDateTime(start)
      ensures Valid() && Snapshot() == EmptyTable && clock == start
    {
      notes := map[];
      lastId := 0;
      clock := start;
    }

    /** Time passes; CURRENT_TIMESTAMP never goes back. */
    method AdvanceClock(now: DateTime)
      requires Valid() && ValidDateTime(now) && NotLater(clock, now)
      modifies this`clock
      ensures Valid() && clock == now
    {
      StampOrder(clock, now);
      InvLaterClock(Snapshot(), StampText(clock), StampText(now));
      clock := now;
    }

    /** create_note: `INSERT INTO notes (title, content) VALUES (?, ?)`. */
    method CreateNote(args: Args) returns (out: Outcome)
      requires Valid()
      modifies this`notes, this`lastId
      ensures Valid()
      ensures Step(Snapshot(), out) == Create(old(Snapshot()), args, StampText(clock))
    {
      CreateKeepsInv(Snapshot(), args, StampText(clock));
      var title, content := Get(args, "title"), Get(args, "content");
      if !Binds(title) || !Binds(content) {
        out := Fault(IntTooLarge);
      } else if lastId >= MaxRowId {
        out := Fault(DatabaseFull);
      } else if title.Null? {
        out := Fault(NotNullFailed("title"));
      } else if content.Null? {
        out := Fault(NotNullFailed("content"));
      } else {
        var noteId := lastId + 1;
        notes := notes[noteId := Note(noteId, StoredText(title), StoredText(content), StampText(clock))];
        lastId := noteId;
        out := Reply(CreatedText(noteId, title));
      }
    }

    /** `SELECT * FROM notes ORDER BY created_at DESC`: the engine hands out
        the rows one by one, each time one dated no earlier than any row left. */
    method SelectNewestFirst() returns (rows: seq<Note>)
      requires Valid()
      ensures ListsExactly(rows, notes) && NewestFirst(rows)
    {
      rows := [];
      var pending := notes.Keys;
      while pending != {}
        invariant pending <= notes.Keys
        invariant ListsExactly(rows, Without(notes, pending))
        invariant NewestFirst(rows)
        invariant forall i, k :: 0 <= i < |rows| && k in pending ==> LexLe(notes[k].createdAt, rows[i].createdAt)
        decreases |pending|
      {
        NewestExists(notes, pending);
        var id :| NewestPending(notes, pending, id);
        WithoutOneLess(notes, pending, id);
        ListsExactlyAppend(rows, Without(notes, pending), notes[id]);
        NewestStep(notes, pending, rows, id);
        rows := rows + [notes[id]];
        pending := pending - {id};
      }
      assert Without(notes, {}) == notes;
    }

    /** get_all_notes. */
    method GetAllNotes() returns (out: Outcome)
      requires Valid()
      ensures GetAllOutcome(Snapshot(), out)
    {
      var rows := SelectNewestFirst();
      ListsExactlyCount(rows, notes);
      if rows == [] {
        out := Reply(NoNotesText);
      } else {
        var text := RenderRows(AllNotesHeader(), rows, false);
        out := Reply(text);
      }
    }

    /** get_note_by_id: `SELECT * FROM notes WHERE id = ?`. */
    method GetNoteById(args: Args) returns (out: Outcome)
      ensures out == GetById(Snapshot(), args)
    {
      var noteId := Get(args, "id");
      if !Binds(noteId) {
        out := Fault(IntTooLarge);
        return;
      }
      var found := Target(Snapshot(), noteId);
      if found.None? {
        out := Reply(NotFoundText(noteId));
        return;
      }
      var row := notes[found.value];
      var result := "Note Details:\n\n";
      result := result + "ID: " + DecimalText(row.id) + "\n";
      result := result + "Title: " + row.title + "\n";
      result := result + "Content: " + row.content + "\n";
      result := result + "Created: " + row.createdAt + "\n";
      out := Reply(result);
    }

    /** update_note: `UPDATE notes SET ... WHERE id = ?` with the SET list built
        from the truthy fields. */
    method UpdateNote(args: Args) returns (out: Outcome)
      requires Valid()
      modifies this`notes
      ensures Valid()
      ensures Step(Snapshot(), out) == Update(old(Snapshot()), args)
    {
      UpdateKeepsInv(Snapshot(), args, StampText(clock));
      var noteId, title, content := Get(args, "id"), Get(args, "title"), Get(args, "content");
      var updates: seq<Assignment> := [];
      if Truthy(title) {
        updates := updates + [Assignment(TitleColumn, title)];
      }
      if Truthy(content) {
        updates := updates + [Assignment(ContentColumn, content)];
      }
      assert updates == Assignments(title, content);
      if updates == [] {
        out := Reply(NoFieldsText);
        return;
      }
      if !AllBind(updates) || !Binds(noteId) {
        out := Fault(IntTooLarge);
        return;
      }
      var rowcount := 0;
      var found := Target(Snapshot(), noteId);
      if found.Some? {
        notes := notes[found.value := Assign(notes[found.value], updates)];
        rowcount := 1;
      }
      if rowcount == 0 {
        out := Reply(NotFoundText(noteId));
      } else {
        out := Reply(UpdatedText(noteId));
      }
    }

    /** delete_note: `DELETE FROM notes WHERE id = ?`. */
    method DeleteNote(args: Args) returns (out: Outcome)
      requires Valid()
      modifies this`notes
      ensures Valid()
      ensures Step(Snapshot(), out) == Delete(old(Snapshot()), args)
    {
      DeleteKeepsInv(Snapshot(), args, StampText(clock));
      var noteId := Get(args, "id");
      if !Binds(noteId) {
        out := Fault(IntTooLarge);
        return;
      }
      var rowcount := 0;
      var found := Target(Snapshot(), noteId);
      if found.Some? {
        notes := notes - {found.value};
        rowcount := 1;
      }
      if rowcount == 0 {
        out := Reply(NotFoundText(noteId));
      } else {
        out := Reply(DeletedText(noteId));
      }
    }

    /** `SELECT * FROM notes WHERE title LIKE ? OR content LIKE ?`: the engine
        scans the rows in an order of its own and keeps those that match. */
    method SelectMatching(pattern: string) returns (rows: seq<Note>)
      requires Valid()
      ensures ListsExactly(rows, Matching(notes, pattern))
    {
      rows := [];
      var pending := notes.Keys;
      while pending != {}
        invariant pending <= notes.Keys
        invariant ListsExactly(rows, Matching(Without(notes, pending), pattern))
        decreases |pending|
      {
        EmptyOrMember(pending);
        var id :| id in pending;
        var row := notes[id];
        ghost var seen := Matching(Without(notes, pending), pattern);
        MatchingOneLess(notes, pending, id, pattern);
        if Like(pattern, row.title) || Like(pattern, row.content) {
          ListsExactlyAppend(rows, seen, row);
          rows := rows + [row];
        }
        pending := pending - {id};
      }
      assert Without(notes, {}) == notes;
    }

    /** search_notes. */
    method SearchNotes(args: Args) returns (out: Outcome)
      requires Valid()
      ensures SearchOutcome(Snapshot(), args, out)
    {
      var keyword := Text(Get(args, "keyword"));
      var rows := SelectMatching("%" + keyword + "%");
      ListsExactlyCount(rows, Matching(notes, SearchPattern(Get(args, "keyword"))));
      if rows == [] {
        out := Reply(NoMatchText(keyword));
      } else {
        var text := RenderRows(SearchHeader(keyword), rows, true);
        out := Reply(text);
      }
    }

    /** call_tool: exactly one text block, whatever the name and arguments;
        the table moves as the tool's function says and the invariant holds. */
    method CallTool(name: string, args: Args) returns (result: seq<TextContent>)
      requires Valid()
      modifies this`notes, this`lastId
      ensures Valid()
      ensures |result| == 1 && result[0].kind == "text"
      ensures exists out ::
        CallOutcome(old(Snapshot()), name, args, StampText(clock), Snapshot(), out) && result[0].text == ResponseText(out)
    {
      var out: Outcome;
      if name == "create_note" {
        assert ToolFor(name) == Some(ToolName.CreateNote);
        out := CreateNote(args);
      } else if name == "get_all_notes" {
        assert ToolFor(name) == Some(ToolName.GetAllNotes);
        out := GetAllNotes();
      } else if name == "get_note_by_id" {
        assert ToolFor(name) == Some(ToolName.GetNoteById);
        out := GetNoteById(args);
      } else if name == "update_note" {
        assert ToolFor(name) == Some(ToolName.UpdateNote);
        out := UpdateNote(args);
      } else if name == "delete_note" {
        assert ToolFor(name) == Some(ToolName.DeleteNote);
        out := DeleteNote(args);
      } else if name == "search_notes" {
        assert ToolFor(name) == Some(ToolName.SearchNotes);
        out := SearchNotes(args);
      } else {
        assert ToolFor(name) == None;
        out := Reply(UnknownToolText(name));
      }
      assert CallOutcome(old(Snapshot()), name, args, StampText(clock), Snapshot(), out);
      result := [TextContent("text", ResponseText(out))];
    }
  }
}
