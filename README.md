# Notes database tool service, modelled in Dafny

This project models the tool service of `database_mcp_server.py`, an MCP
server that gives an assistant six tools over one SQLite table of notes:
`create_note`, `get_all_notes`, `get_note_by_id`, `update_note`,
`delete_note` and `search_notes`. The model covers:

- `init_database`: the `notes` table with an AUTOINCREMENT id, NOT NULL
  `title` and `content`, and a `created_at` that defaults to
  CURRENT_TIMESTAMP.
- `list_tools`: the catalog of six tools and their JSON Schema inputs.
- `call_tool`: the dispatch on the tool name, the six operations, the
  `Unknown tool: {name}` reply, and the catch-all that turns any exception
  into `Error: {message}`.

The model has three layers:

1. **What one call does, as functions of the table** (`notes.dfy`). A
   `Table` holds the rows by id and the AUTOINCREMENT counter. `Create`,
   `Update` and `Delete` return the new table and an `Outcome`, which is a
   reply text or the message of the exception the statement would raise.
   `GetById` returns only an `Outcome`, since it never changes the table.
   `GetAllOutcome` and `SearchOutcome` say which replies the two listings
   may give: the database engine picks the row order, so these are
   relations, not functions. These layers stand on small models of what the
   statements rely on:
   - Python's `str()` and the binding of a parameter to a 64-bit INTEGER
     (`values.dfy`);
   - SQLite's LIKE (`like.dfy`);
   - the BINARY collation that `ORDER BY created_at` uses, and the text
     CURRENT_TIMESTAMP stores (`timestamps.dfy`).
2. **The service as a class** (`store.dfy`). `NoteStore` keeps the table in
   fields that each tool method updates in place. Each method is proved
   against the layer-1 function or relation. The engine's row scans are
   loops with invariants. The `for row in rows: result += ...` loops that
   build the listing texts are proved against `Listing`. `CallTool` returns
   exactly one text block for every name and every argument map.
3. **Laws across calls** (`laws.dfy`, `service.dfy`, `catalog.dfy`). These
   cover:
   - the table invariant, kept by every call and by every run of calls;
   - AUTOINCREMENT never handing out an id twice;
   - a read seeing the write before it;
   - what a search keyword selects;
   - replies never starting with the `Error: ` prefix;
   - the catalog naming exactly the tools the dispatcher knows.

Arguments are JSON values that the host has decoded into `Value`: null, a
string or an integer. A missing key reads as null, as `arguments.get`
does. Three inputs are parameters of the model: the clock, the
argument map and the tool name. The host's transport is not part of this
model.

Three points where a reader of the tool descriptions might expect more than
the code gives. The model follows the code:

- `search_notes` sounds like `get_all_notes` restricted to the matches, but
  its query has no `ORDER BY` (database_mcp_server.py:320). Its results
  therefore come in no promised order, not newest first.
- The search query uses LIKE (database_mcp_server.py:320-321), which ignores
  ASCII case whatever the column's collation. A search is therefore
  case-insensitive for ASCII letters. `%` and `_` in a keyword act as
  wildcards, because the keyword is not escaped.
- `get_all_notes` orders by `created_at` only (database_mcp_server.py:206).
  CURRENT_TIMESTAMP counts whole seconds, so notes created in the same
  second come in no promised order. "Newest first" holds only between notes
  whose timestamps differ (`NoteLaws.NewestFirstTies`).

## Model

| member | source | states |
|---|---|---|
| Values.DecimalRoundTrip | database_mcp_server.py:200 | the id printed in a reply reads back as that id, negative ids included |
| Values.StoredText | database_mcp_server.py:49-50 | a TEXT column keeps a string exactly as given and an integer as decimal text that reads back as the integer |
| SqlLike.PercentMatchesAll | database_mcp_server.py:320-321 | the pattern `%` matches every text |
| SqlLike.TrailingPercent | database_mcp_server.py:320-321 | a wildcard-free keyword followed by `%` matches exactly the texts that start with the keyword, ignoring ASCII case |
| SqlLike.LeadingPercent | database_mcp_server.py:320-321 | a leading `%` lets the rest of the pattern match at any position of the text |
| SqlLike.KeywordMatch | database_mcp_server.py:320-321 | for a wildcard-free keyword, `LIKE '%keyword%'` holds exactly when the text contains the keyword, ignoring ASCII case |
| SqlLike.PercentKeywordMatchesAll | database_mcp_server.py:321 | the keyword is not escaped: searching for `%` matches every text |
| Collation.LexLeReflexive | database_mcp_server.py:206 | BINARY collation orders every text no later than itself |
| Collation.LexLeTotal | database_mcp_server.py:206 | any two texts are comparable under BINARY collation |
| Collation.LexLeAntisymmetric | database_mcp_server.py:206 | two texts that each sort no later than the other are equal |
| Collation.LexLeTransitive | database_mcp_server.py:206 | BINARY collation is transitive |
| Collation.LexLeAppend | database_mcp_server.py:206 | for texts that begin with parts of equal length, the parts decide the order unless they are equal, and then the rests decide |
| Timestamps.Pad2Order | database_mcp_server.py:51 | two-digit fields are equal, and ordered, exactly as their numbers are |
| Timestamps.Pad4Order | database_mcp_server.py:51 | four-digit year fields are equal, and ordered, exactly as their numbers are |
| Timestamps.FieldStep | database_mcp_server.py:51 | a field followed by a fixed separator decides the order unless the fields are equal |
| Timestamps.StampOrder | database_mcp_server.py:206 | ordering the stored `created_at` texts (19-character `YYYY-MM-DD HH:MM:SS`) under BINARY collation is ordering the moments they record |
| Notes.Preview | database_mcp_server.py:335 | the preview is the first min(100, length) characters of the content, a prefix of it |
| Notes.ListingAppend | database_mcp_server.py:216-222 | the listing of two row sequences one after the other is the two listings one after the other |
| Notes.ListingSnoc | database_mcp_server.py:217-222 | listing one more row appends that row's block |
| Notes.ListingShowsEachRow | database_mcp_server.py:216-222 | every row's block appears whole in the listing, right after the blocks of the rows before it |
| Notes.ListsExactlyCount | database_mcp_server.py:206-207 | a listing that holds each row of the table exactly once has as many entries as the table has rows |
| Notes.RowKey | database_mcp_server.py:231-233 | `WHERE id = ?` looks for an integer as itself. It looks for a decimal text exactly when that text spells an integer that fits in 64 bits, and then for that integer. It never matches NULL |
| Notes.Create | database_mcp_server.py:185-201 | a failed insert leaves the table unchanged. The insert succeeds exactly when title and content are non-null, bindable values and ids remain. After binding, an exhausted counter raises "database or disk is full" before any NOT NULL check. Then a null title raises the NOT NULL error for `notes.title`, and a null content the one for `notes.content`. On success it adds the one row `lastId + 1` with the values as stored text and the current timestamp, changes no other row, and replies with that id and the title |
| Notes.GetById | database_mcp_server.py:226-249 | it fails exactly when the id cannot be bound. It replies with the matched row's details, or with the not-found text when no row matches |
| Notes.SelectedFieldsApplied | database_mcp_server.py:258-272 | the SET list changes exactly the fields given a truthy value, to that value as stored text, and never the id or `created_at` |
| Notes.AssignmentsBind | database_mcp_server.py:258-279 | the SET list binds exactly when both new values do: a falsy value is never assigned and always binds |
| Notes.Update | database_mcp_server.py:251-290 | a failure leaves the table unchanged, and the counter and the set of ids never change. With neither field truthy, the reply is the no-fields text and nothing changes. Otherwise it raises exactly when the id or a new value cannot be bound. With a matching row it replies updated and sets exactly the truthy fields of that row to their stored text. With no matching row it replies not found and changes nothing. No other row ever changes |
| Notes.Delete | database_mcp_server.py:292-312 | it fails exactly when the id cannot be bound. It replies with the deleted text exactly when a row matches, and then removes exactly that row. With no matching row it replies not found and leaves the table unchanged. The counter never changes |
| NoteLaws.CreateKeepsInv | database_mcp_server.py:47-51 | an insert dated by the clock keeps every row under its own id, at most the counter, dated no later than the clock, and in date order by id |
| NoteLaws.UpdateKeepsInv | database_mcp_server.py:274-279 | an update keeps the table invariant |
| NoteLaws.DeleteKeepsInv | database_mcp_server.py:296-301 | a delete keeps the table invariant |
| NoteLaws.CreateIssuesFreshId | database_mcp_server.py:190-196 | a created note's id is larger than every id assigned before, is not in use, and the table grows by exactly one row |
| NoteLaws.CreateThenGetById | database_mcp_server.py:185-249 | creating a note from two strings replies with the new id, and fetching that id gives back the title and content exactly as given |
| NoteLaws.TextIdSelectsSameRow | database_mcp_server.py:231-233 | an id sent as the decimal text of an integer selects the same row as the integer |
| NoteLaws.PaddedIdSelectsSameRow | database_mcp_server.py:231-233 | an id sent as a decimal text with leading zeros, such as "007", selects the same row as the integer it spells |
| NoteLaws.DeleteThenGetById | database_mcp_server.py:292-312 | after a delete, fetching the same id replies not found |
| NoteLaws.UpdateContentOnly | database_mcp_server.py:251-290 | updating only a non-empty content of an existing note replies success and changes that content and nothing else |
| NoteLaws.UpdateChangesSelectedFields | database_mcp_server.py:258-279 | a successful update changes exactly the truthy fields of the matched row, and keeps its id and date |
| NoteLaws.NewestFirstTies | database_mcp_server.py:206 | in a newest-first listing, a smaller id can come before a larger one only when both have the same `created_at` |
| NoteLaws.NewestExists | database_mcp_server.py:206 | among the rows not yet fetched there is one dated no earlier than all the others |
| NoteLaws.SearchSelectsContaining | database_mcp_server.py:316-323 | for a wildcard-free keyword, search selects exactly the notes whose title or content contains it, ignoring ASCII case |
| Catalog.ToolFor | database_mcp_server.py:184-345 | the name chain selects a tool only under that tool's own name, and selects none for any other name |
| Catalog.NameSelectsTool | database_mcp_server.py:184-345 | each tool's own name selects that tool, so the dispatcher knows exactly the six names |
| Catalog.NameOfInjective | database_mcp_server.py:73-165 | no two tools share a name |
| Catalog.Schema | database_mcp_server.py:73-165 | every declared property named `id` is an integer and every other property is a string |
| Catalog.SchemaWellFormed | database_mcp_server.py:73-165 | each schema declares each property once and requires only declared properties |
| Catalog.SchemaDeclaresKeysRead | database_mcp_server.py:73-165 | each schema declares exactly the argument keys its operation reads with `arguments.get` |
| Catalog.ListedToolsMatchDispatch | database_mcp_server.py:73-165 | each announced name selects the operation of that entry, and the entry's schema is well formed and declares exactly the keys that operation reads |
| Catalog.CatalogCoversDispatch | database_mcp_server.py:73-165 | every tool the dispatcher knows is announced |
| Catalog.ListedNamesDistinct | database_mcp_server.py:73-165 | no name is announced twice |
| Service.ErrorPrefixIdentifiesFault | database_mcp_server.py:198-352 | a response starts with `Error: ` exactly when the call raised. Every reply, of each of the six tools and of an unknown name, is non-empty and starts with "N", "A", "S" or "U", so the prefix alone tells an error from a reply |
| Service.FaultLeavesTable | database_mcp_server.py:184-352 | a call that raises leaves the table unchanged |
| Service.OnlyWritesChangeTable | database_mcp_server.py:203-345 | listing, fetching, searching and unknown names never change the table |
| Service.InvLaterClock | database_mcp_server.py:51 | the table invariant survives the clock moving forward |
| Service.CallKeepsInv | database_mcp_server.py:184-352 | every call keeps the table invariant |
| Service.CallOnlyAddsFreshIds | database_mcp_server.py:190-196 | the AUTOINCREMENT counter never goes down, and every id a call adds is above every id assigned before it |
| Service.DeletedIdNeverReturns | database_mcp_server.py:48 | once an assigned id is gone from the table it never comes back, whatever calls follow |
| Service.RunKeepsInv | database_mcp_server.py:184-352 | any run of calls served by a clock that never goes back keeps the table invariant |
| Store.AppendBlock | database_mcp_server.py:218-222 | one pass of the listing loop appends exactly that row's block |
| Store.RenderRows | database_mcp_server.py:216-222 | the listing loop produces the header followed by each row's block, in row order |
| Store.NoteStore.constructor | database_mcp_server.py:35-54 | a fresh database has an empty table, no id assigned yet, and the invariant holds |
| Store.NoteStore.AdvanceClock | database_mcp_server.py:51 | the clock moves forward and the invariant still holds |
| Store.NoteStore.CreateNote | database_mcp_server.py:185-201 | the insert changes the table and replies as `Notes.Create` says, dated with the current timestamp, and keeps the invariant |
| Store.NoteStore.SelectNewestFirst | database_mcp_server.py:206-207 | the rows come out each exactly once, with no row dated after a row before it |
| Store.NoteStore.GetAllNotes | database_mcp_server.py:203-224 | the reply is the empty-table text exactly when there are no notes. Otherwise it lists every note exactly once, newest first |
| Store.NoteStore.GetNoteById | database_mcp_server.py:226-249 | the reply is what `Notes.GetById` gives on the current table |
| Store.NoteStore.UpdateNote | database_mcp_server.py:251-290 | the update changes the table and replies as `Notes.Update` says, and keeps the invariant |
| Store.NoteStore.DeleteNote | database_mcp_server.py:292-312 | the delete changes the table and replies as `Notes.Delete` says, and keeps the invariant |
| Store.NoteStore.SelectMatching | database_mcp_server.py:318-323 | the rows whose title or content matches the pattern come out, each exactly once |
| Store.NoteStore.SearchNotes | database_mcp_server.py:314-339 | with no matching note the reply is the no-match text. Otherwise it lists every match exactly once, with the content preview |
| Store.NoteStore.CallTool | database_mcp_server.py:168-352 | every call returns exactly one text block, the tool its name selects acts as its function says, and the invariant holds |

## Left out

- The MCP transport: the `Server` object, stdio, the decorators, `main` and
  `asyncio.run`. Requests reach the model as a tool name and an argument
  map.
- Checking the arguments against the declared schemas: the MCP library may
  do this before `call_tool` runs. The model runs every call on any
  argument map.
- The aiosqlite connections, `await` and `commit`. Each call is modelled as
  one atomic step of one client. Concurrent clients and a locked database
  file are not modelled.
- The SQL text, including the `UPDATE ... SET` string built at line 275.
  Each statement is modelled by its effect on the table.
- Logging (`logger.info`, `logger.error`): it has no observable effect on
  replies.
- The helper scripts `test_db_server.py`, `run_server_check.py`,
  `update_claude_config.py` and `merge_claude_config_from_backup.py`. They
  are process launch, timed reads and configuration file editing.
- The wall clock. The clock is a field that only moves forward, and each
  call reads it at its start.
- A database file that already holds notes from an earlier run: the
  constructor models `init_database` on a fresh file.
- Exceptions other than the ones the model names: the 64-bit overflow, NOT
  NULL, and the exhausted AUTOINCREMENT counter. Disk, connection and
  encoding errors are not modelled. For the same reason, `arguments` being
  None is not modelled.
- Argument values other than null, strings and integers: booleans, floats,
  lists and objects. The model has no way to express them.
- Unicode: LIKE folds only ASCII letters, as SQLite does without ICU.
  Strings that UTF-8 cannot encode are not modelled.
- Notes.RowKey: it recognises only an optionally signed run of decimal
  digits. SQLite's numeric affinity also accepts surrounding spaces, a `+`
  sign, and real numbers that are equal to an integer.
- Notes.SearchOutcome: Python refuses to convert an integer keyword of more
  than 4300 digits into text, and SQLite refuses LIKE patterns of more than
  50000 bytes. In both cases `search_notes` replies with an error; the model
  lists the matches instead.
- Timestamps.ValidDateTime: only the years 0000 to 9999 are modelled, the
  range CURRENT_TIMESTAMP produces in practice.
- TextContent: only the `type` and `text` fields of the content block are
  modelled.
