/** The `notes` table of init_database and what each notes tool does to it and
    replies, as functions of the table before the call. */
module Notes {
  import opened Values
  import opened SqlLike
  import opened Collation

  /** A row of `notes`: the id SQLite assigns, the NOT NULL `title` and
      `content` text columns, and the `created_at` text that the
      CURRENT_TIMESTAMP default filled in. */
  datatype Note = Note(id: int, title: string, content: string, createdAt: string)

  /** The table, and the AUTOINCREMENT counter SQLite keeps for it: the largest
      id ever assigned, 0 before the first insert. */
  datatype Table = Table(notes: map<int, Note>, lastId: int)

  /** What a tool produced before the catch-all turned it into text: a reply,
      or the message of the exception it raised. */
  datatype Outcome = Reply(text: string) | Fault(message: string)

  /** The table after a call, and the call's outcome. */
  datatype Step = Step(table: Table, out: Outcome)

  /** A fresh database after init_database. */
  const EmptyTable: Table := Table(map[], 0)

  /** The largest rowid SQLite can assign. */
  const MaxRowId: int := MaxInt64

  /** SQLite's message once an AUTOINCREMENT table has used up its ids. */
  const DatabaseFull: string := "database or disk is full"

  /** SQLite's message when a NOT NULL column of `notes` would receive NULL. */
  function NotNullFailed(column: string): string
  {
    "NOT NULL constraint failed: notes." + column
  }

  /** What holds of the table between calls, while the CURRENT_TIMESTAMP
      clock reads `clock`: every row sits under its own id, every id was
      assigned by the counter, no row is dated after the clock, and a row with
      a larger id is not dated before one with a smaller id. */
  ghost predicate Inv(t: Table, clock: string)
  {
    && 0 <= t.lastId <= MaxRowId
    && (forall id :: id in t.notes ==>
          t.notes[id].id == id && 1 <= id <= t.lastId && LexLe(t.notes[id].createdAt, clock))
    && (forall a, b :: a in t.notes && b in t.notes && a < b ==>
          LexLe(t.notes[a].createdAt, t.notes[b].createdAt))
  }

  // ---------------------------------------------------------------------------
  // Reply texts

  function CreatedText(id: int, title: Value): string
  {
    "Note created successfully! ID: " + DecimalText(id) + "\nTitle: " + Text(title)
  }

  const NoNotesText: string := "No notes found in database."

  function NotFoundText(id: Value): string
  {
    "Note with ID " + Text(id) + " not found."
  }

  const NoFieldsText: string := "No fields to update. " + "Provide title or content."

  function UpdatedText(id: Value): string
  {
    "Note " + Text(id) + " updated successfully!"
  }

  function DeletedText(id: Value): string
  {
    "Note " + Text(id) + " deleted successfully!"
  }

  function NoMatchText(keyword: string): string
  {
    "No notes found matching '" + keyword + "'."
  }

  /** `"-" * 50`. */
  const Divider: string := "--------------------------------------------------"

  /** The first 100 characters of a content, as `content[:100]` takes them. */
  function Preview(content: string): (p: string)
    ensures |p| == if |content| < 100 then |content| else 100
    ensures p <= content
  {
    if |content| <= 100 then content else content[..100]
  }

  /** The block a listing shows for one row; a search shows a content preview. */
  function Block(n: Note, preview: bool): string
  {
    IdLine(n) + TitleLine(n) + ContentLine(n, preview) + CreatedLine(n) + DividerLine()
  }

  function IdLine(n: Note): string
  {
    "ID: " + DecimalText(n.id) + "\n"
  }

  function TitleLine(n: Note): string
  {
    "Title: " + n.title + "\n"
  }

  function ContentLine(n: Note, preview: bool): string
  {
    if preview then "Content: " + Preview(n.content) + "...\n" else "Content: " + n.content + "\n"
  }

  function CreatedLine(n: Note): string
  {
    "Created: " + n.createdAt + "\n"
  }

  function DividerLine(): string
  {
    Divider + "\n"
  }

  /** The blocks of `rows`, in order. */
  function Listing(rows: seq<Note>, preview: bool): string
  {
    if rows == [] then "" else Block(rows[0], preview) + Listing(rows[1..], preview)
  }

  function AllNotesHeader(): string
  {
    "All Notes:\n\n"
  }

  function SearchHeader(keyword: string): string
  {
    "Search Results for '" + keyword + "':\n\n"
  }

  function DetailText(n: Note): string
  {
    "Note Details:\n\n"
    + "ID: " + DecimalText(n.id) + "\n"
    + "Title: " + n.title + "\n"
    + "Content: " + n.content + "\n"
    + "Created: " + n.createdAt + "\n"
  }

  lemma {:induction false} ListingAppend(a: seq<Note>, b: seq<Note>, preview: bool)
    ensures Listing(a + b, preview) == Listing(a, preview) + Listing(b, preview)
  {
    if a == [] {
      assert a + b == b;
    } else {
      assert (a + b)[0] == a[0] && (a + b)[1..] == a[1..] + b;
      ListingAppend(a[1..], b, preview);
      AppendAssoc(Block(a[0], preview), Listing(a[1..], preview), Listing(b, preview));
    }
  }

  /** A listing of one more row ends with that row's block. */
  lemma ListingSnoc(rows: seq<Note>, n: Note, preview: bool)
    ensures Listing(rows + [n], preview) == Listing(rows, preview) + Block(n, preview)
  {
    ListingAppend(rows, [n], preview);
    assert [n][1..] == [];
    var b := Block(n, preview);
    assert Listing([n], preview) == b + "" == b;
  }

  /** Every row of a listing is shown in full, in its place: the i-th block
      starts where the blocks of the rows before it end. */
  lemma ListingShowsEachRow(rows: seq<Note>, i: nat, preview: bool)
    requires i < |rows|
    ensures var at := |Listing(rows[..i], preview)|;
      var b := Block(rows[i], preview);
      at + |b| <= |Listing(rows, preview)| && Listing(rows, preview)[at..at + |b|] == b
  {
    assert rows == rows[..i] + [rows[i]] + rows[i + 1..];
    ListingAppend(rows[..i] + [rows[i]], rows[i + 1..], preview);
    ListingSnoc(rows[..i], rows[i], preview);
    var front, b, back := Listing(rows[..i], preview), Block(rows[i], preview), Listing(rows[i + 1..], preview);
    assert Listing(rows, preview) == front + b + back;
    assert (front + b + back)[|front|..|front| + |b|] == b;
  }

  // ---------------------------------------------------------------------------
  // Which rows a read returns

  /** `rows` holds every row of `m` exactly once and nothing else. */
  ghost predicate ListsExactly(rows: seq<Note>, m: map<int, Note>)
  {
    && (forall i :: 0 <= i < |rows| ==> rows[i].id in m && m[rows[i].id] == rows[i])
    && (forall id :: id in m ==> exists i :: 0 <= i < |rows| && rows[i].id == id)
    && (forall i, j :: 0 <= i < j < |rows| ==> rows[i].id != rows[j].id)
  }

  /** `ORDER BY created_at DESC`: no row is dated after a row before it. */
  ghost predicate NewestFirst(rows: seq<Note>)
  {
    forall i, j :: 0 <= i < j < |rows| ==> LexLe(rows[j].createdAt, rows[i].createdAt)
  }

  /** A listing of exactly the rows of `m` has as many rows as `m`. */
  lemma {:induction false} ListsExactlyCount(rows: seq<Note>, m: map<int, Note>)
    requires ListsExactly(rows, m)
    ensures |rows| == |m|
    decreases |rows|
  {
    if rows == [] {
      assert forall id :: id !in m;
      assert m.Keys == {};
    } else {
      var n := |rows| - 1;
      var last := rows[n];
      var front := rows[..n];
      var rest := m - {last.id};
      forall i | 0 <= i < |front|
        ensures front[i].id in rest && rest[front[i].id] == front[i]
      {
        assert front[i] == rows[i] && rows[i].id != rows[n].id;
      }
      forall id | id in rest
        ensures exists i :: 0 <= i < |front| && front[i].id == id
      {
        var i :| 0 <= i < |rows| && rows[i].id == id;
        assert i != n && front[i] == rows[i];
      }
      forall i, j | 0 <= i < j < |front| ensures front[i].id != front[j].id {
        assert front[i] == rows[i] && front[j] == rows[j];
      }
      assert ListsExactly(front, rest);
      assert |rest| == |m| - 1;
      ListsExactlyCount(front, rest);
    }
  }

  /** Listing one more row, filed under its own id, lists one more entry. */
  lemma ListsExactlyAppend(rows: seq<Note>, m: map<int, Note>, n: Note)
    requires ListsExactly(rows, m) && n.id !in m
    ensures ListsExactly(rows + [n], m[n.id := n])
  {
    var r, m' := rows + [n], m[n.id := n];
    forall id | id in m' ensures exists i :: 0 <= i < |r| && r[i].id == id {
      if id == n.id {
        assert r[|rows|].id == id;
      } else {
        var i :| 0 <= i < |rows| && rows[i].id == id;
        assert r[i].id == id;
      }
    }
  }

  /** The rows of `m` whose ids are not in `ids`. */
  function Without(m: map<int, Note>, ids: set<int>): (r: map<int, Note>)
    ensures r.Keys == m.Keys - ids
    ensures forall id :: id in r ==> r[id] == m[id]
  {
    map id | id in m && id !in ids :: m[id]
  }

  /** The rows whose title or content matches `pattern` under LIKE. */
  function Matching(notes: map<int, Note>, pattern: string): (m: map<int, Note>)
    ensures forall id :: id in m <==> id in notes && (Like(pattern, notes[id].title) || Like(pattern, notes[id].content))
    ensures forall id :: id in m ==> m[id] == notes[id]
  {
    map id | id in notes && (Like(pattern, notes[id].title) || Like(pattern, notes[id].content)) :: notes[id]
  }

  /** search_notes' pattern: the keyword as an f-string puts it, between `%`s. */
  function SearchPattern(keyword: Value): string
  {
    "%" + Text(keyword) + "%"
  }

  // ---------------------------------------------------------------------------
  // The six tools on the table

  /** create_note. The parameters are bound before the statement runs; the
      statement then takes the next rowid, which fails once the counter is at
      the largest rowid, and only then checks the NOT NULL columns, title
      first. */
  function Create(t: Table, args: Args, now: string): (s: Step)
    ensures s.out.Fault? ==> s.table == t
    ensures s.out.Reply? <==>
      && !Get(args, "title").Null? && Binds(Get(args, "title"))
      && !Get(args, "content").Null? && Binds(Get(args, "content"))
      && t.lastId < MaxRowId
    ensures Binds(Get(args, "title")) && Binds(Get(args, "content")) && t.lastId >= MaxRowId ==>
      s.out == Fault(DatabaseFull)
    ensures Get(args, "title").Null? && Binds(Get(args, "content")) && t.lastId < MaxRowId ==>
      s.out == Fault(NotNullFailed("title"))
    ensures !Get(args, "title").Null? && Binds(Get(args, "title")) && Get(args, "content").Null? && t.lastId < MaxRowId ==>
      s.out == Fault(NotNullFailed("content"))
    ensures s.out.Reply? ==>
      && s.table.lastId == t.lastId + 1
      && s.table.notes.Keys == t.notes.Keys + {t.lastId + 1}
      && s.table.notes[t.lastId + 1]
         == Note(t.lastId + 1, StoredText(Get(args, "title")), StoredText(Get(args, "content")), now)
      && (forall k :: k in t.notes && k != t.lastId + 1 ==> s.table.notes[k] == t.notes[k])
      && s.out.text == CreatedText(t.lastId + 1, Get(args, "title"))
  {
    var title, content := Get(args, "title"), Get(args, "content");
    if !Binds(title) || !Binds(content) then Step(t, Fault(IntTooLarge))
    else if t.lastId >= MaxRowId then Step(t, Fault(DatabaseFull))
    else if title.Null? then Step(t, Fault(NotNullFailed("title")))
    else if content.Null? then Step(t, Fault(NotNullFailed("content")))
    else
      var id := t.lastId + 1;
      var note := Note(id, StoredText(title), StoredText(content), now);
      Step(Table(t.notes[id := note], id), Reply(CreatedText(id, title)))
  }

  /** The rowid `WHERE id = ?` looks for, given the bound value: an integer
      itself; a text gets numeric affinity from the INTEGER PRIMARY KEY, so a
      decimal numeral that fits in 64 bits looks for the integer it spells;
      NULL equals nothing. */
  function RowKey(v: Value): (k: Option<int>)
    ensures v.Int? ==> k == Some(v.i)
    ensures v.Null? ==> k == None
    ensures v.Str? && k.Some? ==> ParseDecimal(v.s) == k && MinInt64 <= k.value <= MaxInt64
    ensures v.Str? && ParseDecimal(v.s).Some? && MinInt64 <= ParseDecimal(v.s).value <= MaxInt64 ==>
      k == ParseDecimal(v.s)
  {
    match v
    case Null => None
    case Int(i) => Some(i)
    case Str(s) =>
      var n := ParseDecimal(s);
      if n.Some? && MinInt64 <= n.value <= MaxInt64 then n else None
  }

  /** The id of the row `WHERE id = ?` matches in `t`, if there is one. */
  function Target(t: Table, id: Value): (r: Option<int>)
    ensures r.Some? <==> RowKey(id).Some? && RowKey(id).value in t.notes
    ensures r.Some? ==> r == RowKey(id)
  {
    var k := RowKey(id);
    if k.Some? && k.value in t.notes then k else None
  }

  /** get_note_by_id. */
  function GetById(t: Table, args: Args): (out: Outcome)
    ensures out.Fault? <==> !Binds(Get(args, "id"))
    ensures out.Reply? && Target(t, Get(args, "id")).Some? ==>
      out.text == DetailText(t.notes[Target(t, Get(args, "id")).value])
    ensures out.Reply? && Target(t, Get(args, "id")).None? ==>
      out.text == NotFoundText(Get(args, "id"))
  {
    var id := Get(args, "id");
    if !Binds(id) then Fault(IntTooLarge)
    else match Target(t, id)
      case Some(k) => Reply(DetailText(t.notes[k]))
      case None => Reply(NotFoundText(id))
  }

  datatype Column = TitleColumn | ContentColumn

  /** One `column = ?` of update_note's SET list with its parameter. */
  datatype Assignment = Assignment(column: Column, value: Value)

  /** update_note's SET list: a field is assigned only when its new value is
      truthy, the title before the content. */
  function Assignments(title: Value, content: Value): seq<Assignment>
  {
    (if Truthy(title) then [Assignment(TitleColumn, title)] else [])
    + (if Truthy(content) then [Assignment(ContentColumn, content)] else [])
  }

  predicate AllBind(a: seq<Assignment>)
  {
    forall i :: 0 <= i < |a| ==> Binds(a[i].value)
  }

  /** A falsy value always binds, so the SET list binds exactly when both new
      values do. */
  lemma AssignmentsBind(title: Value, content: Value)
    ensures AllBind(Assignments(title, content)) <==> Binds(title) && Binds(content)
  {
    var a := Assignments(title, content);
    if Truthy(title) && !Binds(title) {
      assert a[0].value == title;
    } else if Truthy(content) && !Binds(content) {
      assert a[|a| - 1].value == content;
    }
  }

  /** The row after a SET list has been executed on it. */
  function Assign(n: Note, a: seq<Assignment>): Note
    requires forall i :: 0 <= i < |a| ==> !a[i].value.Null?
    decreases |a|
  {
    if a == [] then n
    else
      var v := StoredText(a[0].value);
      Assign(if a[0].column == TitleColumn then n.(title := v) else n.(content := v), a[1..])
  }

  /** Falsy-field selection: only a field given a truthy value changes, and it
      takes that value; the id and the date never change. */
  lemma SelectedFieldsApplied(n: Note, title: Value, content: Value)
    ensures var a := Assignments(title, content);
      (forall i :: 0 <= i < |a| ==> !a[i].value.Null?) &&
      var m := Assign(n, a);
      && m.id == n.id
      && m.createdAt == n.createdAt
      && m.title == (if Truthy(title) then StoredText(title) else n.title)
      && m.content == (if Truthy(content) then StoredText(content) else n.content)
  {
    var a := Assignments(title, content);
    if Truthy(title) && Truthy(content) {
      assert a[1..] == [Assignment(ContentColumn, content)];
      var m1 := n.(title := StoredText(title));
      assert Assign(n, a) == Assign(m1, a[1..]);
      assert Assign(m1, a[1..]) == Assign(m1.(content := StoredText(content)), []);
    }
  }

  /** update_note. */
  function Update(t: Table, args: Args): (s: Step)
    ensures s.out.Fault? ==> s.table == t
    ensures s.table.lastId == t.lastId && s.table.notes.Keys == t.notes.Keys
    ensures !Truthy(Get(args, "title")) && !Truthy(Get(args, "content")) ==>
      s == Step(t, Reply(NoFieldsText))
    ensures s.out.Fault? <==>
      && (Truthy(Get(args, "title")) || Truthy(Get(args, "content")))
      && !(Binds(Get(args, "id")) && Binds(Get(args, "title")) && Binds(Get(args, "content")))
    ensures forall k :: k in t.notes && Target(t, Get(args, "id")) != Some(k) ==> s.table.notes[k] == t.notes[k]
    ensures var id, title, content := Get(args, "id"), Get(args, "title"), Get(args, "content");
      (Truthy(title) || Truthy(content)) && Binds(id) && Binds(title) && Binds(content) ==>
      match Target(t, id)
      case None => s == Step(t, Reply(NotFoundText(id)))
      case Some(k) =>
        && s.out == Reply(UpdatedText(id))
        && s.table.notes[k] == t.notes[k].(title := if Truthy(title) then StoredText(title) else t.notes[k].title,
                                          content := if Truthy(content) then StoredText(content) else t.notes[k].content)
  {
    var id, title, content := Get(args, "id"), Get(args, "title"), Get(args, "content");
    var assigns := Assignments(title, content);
    AssignmentsBind(title, content);
    if assigns == [] then Step(t, Reply(NoFieldsText))
    else if !AllBind(assigns) || !Binds(id) then Step(t, Fault(IntTooLarge))
    else match Target(t, id)
      case Some(k) =>
        SelectedFieldsApplied(t.notes[k], title, content);
        Step(t.(notes := t.notes[k := Assign(t.notes[k], assigns)]), Reply(UpdatedText(id)))
      case None => Step(t, Reply(NotFoundText(id)))
  }

  /** delete_note. */
  function Delete(t: Table, args: Args): (s: Step)
    ensures s.out.Fault? <==> !Binds(Get(args, "id"))
    ensures s.table.lastId == t.lastId
    ensures s.out == Reply(DeletedText(Get(args, "id"))) <==>
      Binds(Get(args, "id")) && Target(t, Get(args, "id")).Some?
    ensures s.out == Reply(DeletedText(Get(args, "id"))) ==>
      s.table.notes == t.notes - {Target(t, Get(args, "id")).value}
    ensures s.out != Reply(DeletedText(Get(args, "id"))) ==> s.table == t
    ensures Binds(Get(args, "id")) && Target(t, Get(args, "id")).None? ==>
      s == Step(t, Reply(NotFoundText(Get(args, "id"))))
  {
    var id := Get(args, "id");
    if !Binds(id) then Step(t, Fault(IntTooLarge))
    else match Target(t, id)
      case Some(k) => Step(t.(notes := t.notes - {k}), Reply(DeletedText(id)))
      case None =>
        assert |NotFoundText(id)| != |DeletedText(id)|;
        Step(t, Reply(NotFoundText(id)))
  }

  /** get_all_notes: every row exactly once, newest first, with the order of
      rows dated alike left open. */
  ghost predicate GetAllOutcome(t: Table, out: Outcome)
  {
    if t.notes == map[] then out == Reply(NoNotesText)
    else exists rows ::
      ListsExactly(rows, t.notes) && NewestFirst(rows) && out == Reply(AllNotesHeader() + Listing(rows, false))
  }

  /** search_notes: every matching row exactly once, in no promised order. */
  ghost predicate SearchOutcome(t: Table, args: Args, out: Outcome)
  {
    SearchReply(Text(Get(args, "keyword")), Matching(t.notes, SearchPattern(Get(args, "keyword"))), out)
  }

  /** The reply to a search for `keyword` whose matching rows are `hits`. */
  ghost predicate SearchReply(keyword: string, hits: map<int, Note>, out: Outcome)
  {
    if hits == map[] then out == Reply(NoMatchText(keyword))
    else exists rows ::
      ListsExactly(rows, hits) && out == Reply(SearchHeader(keyword) + Listing(rows, true))
  }
}
