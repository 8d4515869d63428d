/** call_tool as a relation between the table before a call, the table after
    it and the one text block it answers with, and what holds across calls. */
module Service {
  import opened Values
  import opened Collation
  import opened Notes
  import opened NoteLaws
  import opened Catalog

  /** The MCP content block call_tool returns. */
  datatype TextContent = TextContent(kind: string, text: string)

  function UnknownToolText(name: string): string
  {
    "Unknown tool: " + name
  }

  /** The text call_tool answers with: a reply as it is, and an exception the
      catch-all caught as "Error: " followed by its message. */
  function ResponseText(out: Outcome): string
  {
    match out
    case Reply(text) => text
    case Fault(message) => "Error: " + message
  }

  /** One call of call_tool with the CURRENT_TIMESTAMP clock reading `now`:
      the table goes from `t` to `t'` and the outcome is `out`. Reads leave the
      table alone and an unknown name touches nothing. */
  ghost predicate CallOutcome(t: Table, name: string, args: Args, now: string, t': Table, out: Outcome)
  {
    match ToolFor(name)
    case None => t' == t && out == Reply(UnknownToolText(name))
    case Some(tool) => ToolOutcome(tool, t, args, now, t', out)
  }

  /** What the branch of call_tool for `tool` does. */
  ghost predicate ToolOutcome(tool: ToolName, t: Table, args: Args, now: string, t': Table, out: Outcome)
  {
    match tool
    case CreateNote => Step(t', out) == Create(t, args, now)
    case GetAllNotes => t' == t && GetAllOutcome(t, out)
    case GetNoteById => t' == t && out == GetById(t, args)
    case UpdateNote => Step(t', out) == Update(t, args)
    case DeleteNote => Step(t', out) == Delete(t, args)
    case SearchNotes => t' == t && SearchOutcome(t, args, out)
  }

  /** The replies of the four tools that read or write one note all start
      with "N": "Note ...", "No fields ..." or "Note with ID ... not found". */
  lemma CreateReplyLead(t: Table, args: Args, now: string)
    ensures var out := Create(t, args, now).out;
      out.Reply? ==> out.text != [] && out.text[0] == 'N'
  {
  }

  lemma GetByIdReplyLead(t: Table, args: Args)
    ensures var out := GetById(t, args);
      out.Reply? ==> out.text != [] && out.text[0] == 'N'
  {
  }

  lemma UpdateReplyLead(t: Table, args: Args)
    ensures var out := Update(t, args).out;
      out.Reply? ==> out.text != [] && out.text[0] == 'N'
  {
    var id := Get(args, "id");
    assert Update(t, args).out.Reply? ==> Update(t, args).out.text in {NoFieldsText, UpdatedText(id), NotFoundText(id)};
  }

  lemma DeleteReplyLead(t: Table, args: Args)
    ensures var out := Delete(t, args).out;
      out.Reply? ==> out.text != [] && out.text[0] == 'N'
  {
  }

  /** The first letters call_tool's replies can start with. */
  predicate ReplyInitial(c: char)
  {
    c == 'N' || c == 'A' || c == 'S' || c == 'U'
  }

  /** get_all_notes replies "No notes ..." or "All Notes: ...". */
  lemma GetAllReplyLead(t: Table, out: Outcome)
    requires GetAllOutcome(t, out)
    ensures out.Reply? && out.text != [] && ReplyInitial(out.text[0])
  {
    if t.notes != map[] {
      var rows :| ListsExactly(rows, t.notes) && out == Reply(AllNotesHeader() + Listing(rows, false));
    }
  }

  /** search_notes replies "No notes ..." or "Search Results ...". */
  lemma SearchReplyLead(t: Table, args: Args, out: Outcome)
    requires SearchOutcome(t, args, out)
    ensures out.Reply? && out.text != [] && ReplyInitial(out.text[0])
  {
    var keyword := Text(Get(args, "keyword"));
    var hits := Matching(t.notes, SearchPattern(Get(args, "keyword")));
    if hits != map[] {
      var rows :| ListsExactly(rows, hits) && out == Reply(SearchHeader(keyword) + Listing(rows, true));
    }
  }

  /** Every reply of a tool is a non-empty text that starts with "N", "A" or
      "S". */
  lemma ToolReplyLead(tool: ToolName, t: Table, args: Args, now: string, t': Table, out: Outcome)
    requires ToolOutcome(tool, t, args, now, t', out) && out.Reply?
    ensures out.text != [] && ReplyInitial(out.text[0])
  {
    match tool
    case CreateNote => CreateReplyLead(t, args, now);
    case GetAllNotes => GetAllReplyLead(t, out);
    case GetNoteById => GetByIdReplyLead(t, args);
    case UpdateNote => UpdateReplyLead(t, args);
    case DeleteNote => DeleteReplyLead(t, args);
    case SearchNotes => SearchReplyLead(t, args, out);
  }

  /** Every reply of call_tool is a non-empty text that starts with "N", "A",
      "S" or "U". */
  lemma ReplyLead(t: Table, name: string, args: Args, now: string, t': Table, out: Outcome)
    requires CallOutcome(t, name, args, now, t', out) && out.Reply?
    ensures out.text != [] && ReplyInitial(out.text[0])
  {
    match ToolFor(name)
    case None =>
    case Some(tool) => ToolReplyLead(tool, t, args, now, t', out);
  }

  /** No reply text starts the way an error text does, so a client can tell an
      error from a reply by the "Error: " prefix alone. */
  lemma ErrorPrefixIdentifiesFault(t: Table, name: string, args: Args, now: string, t': Table, out: Outcome)
    requires CallOutcome(t, name, args, now, t', out)
    ensures var text := ResponseText(out);
      out.Fault? <==> |text| >= 7 && text[..7] == "Error: "
  {
    var text := ResponseText(out);
    if out.Reply? {
      ReplyLead(t, name, args, now, t', out);
      if |text| >= 7 {
        assert text[..7][0] == text[0];
      }
    } else {
      assert text[..7] == "Error: ";
    }
  }

  /** A call that fails leaves the table as it was: each statement either
      completes or raises before it changes anything. */
  lemma FaultLeavesTable(t: Table, name: string, args: Args, now: string, t': Table, out: Outcome)
    requires CallOutcome(t, name, args, now, t', out)
    requires out.Fault?
    ensures t' == t
  {
  }

  /** Only create_note, update_note and delete_note can change the table. */
  lemma OnlyWritesChangeTable(t: Table, name: string, args: Args, now: string, t': Table, out: Outcome)
    requires CallOutcome(t, name, args, now, t', out)
    requires name != "create_note" && name != "update_note" && name != "delete_note"
    ensures t' == t
  {
  }

  /** A reading of the clock later than the one the table was kept under
      keeps the invariant: nothing is dated after the later reading either. */
  lemma InvLaterClock(t: Table, clock: string, later: string)
    requires Inv(t, clock) && LexLe(clock, later)
    ensures Inv(t, later)
  {
    forall id | id in t.notes ensures LexLe(t.notes[id].createdAt, later) {
      LexLeTransitive(t.notes[id].createdAt, clock, later);
    }
  }

  /** Every call keeps the table invariant. */
  lemma CallKeepsInv(t: Table, name: string, args: Args, clock: string, t': Table, out: Outcome)
    requires Inv(t, clock) && CallOutcome(t, name, args, clock, t', out)
    ensures Inv(t', clock)
  {
    match ToolFor(name)
    case None =>
    case Some(CreateNote) => CreateKeepsInv(t, args, clock);
    case Some(GetAllNotes) =>
    case Some(GetNoteById) =>
    case Some(UpdateNote) => UpdateKeepsInv(t, args, clock);
    case Some(DeleteNote) => DeleteKeepsInv(t, args, clock);
    case Some(SearchNotes) =>
  }

  /** The AUTOINCREMENT counter never goes down, and every id a call adds is
      larger than any id assigned before it. */
  lemma CallOnlyAddsFreshIds(t: Table, name: string, args: Args, now: string, t': Table, out: Outcome)
    requires CallOutcome(t, name, args, now, t', out)
    ensures t.lastId <= t'.lastId
    ensures forall id :: id in t'.notes && id !in t.notes ==> t.lastId < id <= t'.lastId
  {
  }

  /** One call as a client issues it, with the clock reading it is served at. */
  datatype Call = Call(name: string, args: Args, now: string)

  /** Some outcome of call `c` takes the table from `t` to `t'`. */
  ghost predicate Moves(t: Table, c: Call, t': Table)
  {
    exists out :: CallOutcome(t, c.name, c.args, c.now, t', out)
  }

  /** A sequence of calls: `states[i]` is the table before call `i`, and the
      clock readings never go back. */
  ghost predicate Run(calls: seq<Call>, states: seq<Table>)
  {
    && |states| == |calls| + 1
    && (forall i :: 0 <= i < |calls| ==> Moves(states[i], calls[i], states[i + 1]))
    && (forall i :: 0 < i < |calls| ==> LexLe(calls[i - 1].now, calls[i].now))
  }

  /** The calls after the first of a run form a run. */
  lemma RunTail(calls: seq<Call>, states: seq<Table>)
    requires Run(calls, states) && calls != []
    ensures Run(calls[1..], states[1..])
  {
    forall i | 0 <= i < |calls[1..]| ensures Moves(states[1..][i], calls[1..][i], states[1..][i + 1]) {
      assert Moves(states[i + 1], calls[i + 1], states[i + 2]);
    }
    forall i | 0 < i < |calls[1..]| ensures LexLe(calls[1..][i - 1].now, calls[1..][i].now) {
      assert LexLe(calls[i].now, calls[i + 1].now);
    }
  }

  /** An id that was assigned and is no longer in the table never comes back,
      whatever calls follow: AUTOINCREMENT never hands out an id twice. */
  lemma {:induction false} DeletedIdNeverReturns(calls: seq<Call>, states: seq<Table>, id: int)
    requires Run(calls, states)
    requires id <= states[0].lastId && id !in states[0].notes
    ensures forall i :: 0 <= i < |states| ==> id <= states[i].lastId && id !in states[i].notes
    decreases |calls|
  {
    if calls != [] {
      var c := calls[0];
      var out :| CallOutcome(states[0], c.name, c.args, c.now, states[1], out);
      CallOnlyAddsFreshIds(states[0], c.name, c.args, c.now, states[1], out);
      RunTail(calls, states);
      DeletedIdNeverReturns(calls[1..], states[1..], id);
      forall i | 0 < i < |states| ensures id <= states[i].lastId && id !in states[i].notes {
        assert states[i] == states[1..][i - 1];
      }
    }
  }

  /** A run served by a clock that never goes back keeps the table invariant. */
  lemma {:induction false} RunKeepsInv(calls: seq<Call>, states: seq<Table>, clock: string)
    requires Run(calls, states)
    requires Inv(states[0], clock) && (calls != [] ==> LexLe(clock, calls[0].now))
    ensures Inv(states[|calls|], if calls == [] then clock else calls[|calls| - 1].now)
    decreases |calls|
  {
    if calls != [] {
      var c := calls[0];
      InvLaterClock(states[0], clock, c.now);
      var out :| CallOutcome(states[0], c.name, c.args, c.now, states[1], out);
      CallKeepsInv(states[0], c.name, c.args, c.now, states[1], out);
      RunTail(calls, states);
      if |calls| > 1 {
        assert LexLe(calls[0].now, calls[1].now);
      }
      RunKeepsInv(calls[1..], states[1..], c.now);
    }
  }
}
