/** What the notes tools promise across calls: the table invariant is kept,
    ids are never reused, and each write is seen by the reads after it. */
module NoteLaws {
  import opened Values
  import opened SqlLike
  import opened Collation
  import opened Notes

  /** create_note keeps the table invariant when it dates the row with the
      current clock reading. */
  lemma CreateKeepsInv(t: Table, args: Args, clock: string)
    requires Inv(t, clock)
    ensures Inv(Create(t, args, clock).table, clock)
  {
    var s := Create(t, args, clock);
    if s.out.Reply? {
      LexLeReflexive(clock);
      var id := t.lastId + 1;
      forall a, b | a in s.table.notes && b in s.table.notes && a < b
        ensures LexLe(s.table.notes[a].createdAt, s.table.notes[b].createdAt)
      {
        if b == id {
          assert a in t.notes;
        }
      }
    }
  }

  lemma UpdateKeepsInv(t: Table, args: Args, clock: string)
    requires Inv(t, clock)
    ensures Inv(Update(t, args).table, clock)
  {
    var s := Update(t, args);
    var title, content := Get(args, "title"), Get(args, "content");
    var target := Target(t, Get(args, "id"));
    if target.Some? {
      SelectedFieldsApplied(t.notes[target.value], title, content);
    }
  }

  lemma DeleteKeepsInv(t: Table, args: Args, clock: string)
    requires Inv(t, clock)
    ensures Inv(Delete(t, args).table, clock)
  {
  }

  /** The id create_note assigns is larger than every id assigned before, so a
      deleted note's id never comes back (AUTOINCREMENT). */
  lemma CreateIssuesFreshId(t: Table, args: Args, now: string, clock: string)
    requires Inv(t, clock)
    requires Create(t, args, now).out.Reply?
    ensures var id := Create(t, args, now).table.lastId;
      id > t.lastId && id !in t.notes && |Create(t, args, now).table.notes| == |t.notes| + 1
  {
    var id := t.lastId + 1;
    assert id !in t.notes;
    assert Create(t, args, now).table.notes.Keys == t.notes.Keys + {id};
  }

  /** Creating a note from two strings and then fetching it by the id in the
      reply yields the note with title and content exactly as given. */
  lemma CreateThenGetById(t: Table, title: string, content: string, now: string)
    requires 0 <= t.lastId < MaxRowId
    ensures var s := Create(t, map["title" := Str(title), "content" := Str(content)], now);
      var id := t.lastId + 1;
      && s.out == Reply(CreatedText(id, Str(title)))
      && GetById(s.table, map["id" := Int(id)]) == Reply(DetailText(Note(id, title, content, now)))
  {
    var args := map["title" := Str(title), "content" := Str(content)];
    assert Get(args, "title") == Str(title) && Get(args, "content") == Str(content);
    var id := t.lastId + 1;
    assert Get(map["id" := Int(id)], "id") == Int(id);
  }

  /** An id sent as the decimal text of a 64-bit integer selects the same row
      as the integer itself, because the INTEGER PRIMARY KEY gives the text
      numeric affinity. */
  lemma TextIdSelectsSameRow(t: Table, n: int)
    requires MinInt64 <= n <= MaxInt64
    ensures Target(t, Str(DecimalText(n))) == Target(t, Int(n))
  {
    DecimalRoundTrip(n);
  }

  /** A non-negative id sent as a decimal text with leading zeros, such as
      "007", still selects the row of the integer it spells. */
  lemma PaddedIdSelectsSameRow(t: Table, z: nat, n: nat)
    requires n <= MaxInt64
    ensures Target(t, Str(Zeros(z) + Digits(n))) == Target(t, Int(n))
  {
    var s := Zeros(z) + Digits(n);
    DigitsRoundTrip(n);
    PaddedValue(z, Digits(n));
    assert s[0] != '-' by {
      if z == 0 {
        assert s[0] == Digits(n)[0];
      }
    }
    assert ParseDecimal(s) == Some(n);
  }

  /** After deleting a note, fetching it by id replies not found. */
  lemma DeleteThenGetById(t: Table, id: int)
    requires MinInt64 <= id <= MaxInt64
    ensures var s := Delete(t, map["id" := Int(id)]);
      GetById(s.table, map["id" := Int(id)]) == Reply(NotFoundText(Int(id)))
  {
    assert Get(map["id" := Int(id)], "id") == Int(id);
  }

  /** update_note with only a non-empty content on an existing note changes
      that content and nothing else. */
  lemma UpdateContentOnly(t: Table, id: int, content: string, clock: string)
    requires Inv(t, clock) && id in t.notes && content != []
    ensures var s := Update(t, map["id" := Int(id), "content" := Str(content)]);
      && s.out == Reply(UpdatedText(Int(id)))
      && s.table.notes == t.notes[id := t.notes[id].(content := content)]
  {
    var args := map["id" := Int(id), "content" := Str(content)];
    assert Get(args, "id") == Int(id) && Get(args, "content") == Str(content) && Get(args, "title") == Null;
    SelectedFieldsApplied(t.notes[id], Null, Str(content));
  }

  /** update_note on an existing note changes exactly the fields given a
      truthy value, to that value, and keeps the id and the date. */
  lemma UpdateChangesSelectedFields(t: Table, args: Args, clock: string)
    requires Inv(t, clock)
    requires Target(t, Get(args, "id")).Some?
    requires Update(t, args).out.Reply? && Update(t, args).out.text == UpdatedText(Get(args, "id"))
    ensures var k, title, content := Target(t, Get(args, "id")).value, Get(args, "title"), Get(args, "content");
      var before, after := t.notes[k], Update(t, args).table.notes[k];
      && after.id == k && after.createdAt == before.createdAt
      && after.title == (if Truthy(title) then StoredText(title) else before.title)
      && after.content == (if Truthy(content) then StoredText(content) else before.content)
  {
    var k := Target(t, Get(args, "id")).value;
    SelectedFieldsApplied(t.notes[k], Get(args, "title"), Get(args, "content"));
  }

  /** Among notes listed newest first, a note with a smaller id comes before
      one with a larger id only when both carry the same `created_at`: the
      order within one second is not promised. */
  lemma NewestFirstTies(t: Table, clock: string, rows: seq<Note>, i: int, j: int)
    requires Inv(t, clock) && ListsExactly(rows, t.notes) && NewestFirst(rows)
    requires 0 <= i < j < |rows| && rows[i].id < rows[j].id
    ensures rows[i].createdAt == rows[j].createdAt
  {
    LexLeAntisymmetric(rows[i].createdAt, rows[j].createdAt);
  }

  /** `id` is a pending row dated no earlier than any other pending row. */
  predicate NewestPending(notes: map<int, Note>, pending: set<int>, id: int)
    requires pending <= notes.Keys
  {
    id in pending && forall k :: k in pending ==> LexLe(notes[k].createdAt, notes[id].createdAt)
  }

  /** Among finitely many rows one is the newest. */
  lemma {:induction false} NewestExists(notes: map<int, Note>, pending: set<int>)
    requires pending != {} && pending <= notes.Keys
    ensures exists id :: NewestPending(notes, pending, id)
    decreases pending
  {
    EmptyOrMember(pending);
    var x :| x in pending;
    var rest := pending - {x};
    LexLeReflexive(notes[x].createdAt);
    if rest == {} {
      assert pending == {x};
      assert NewestPending(notes, pending, x);
    } else {
      NewestExists(notes, rest);
      var y :| NewestPending(notes, rest, y);
      var cx, cy := notes[x].createdAt, notes[y].createdAt;
      LexLeTotal(cx, cy);
      if LexLe(cx, cy) {
        assert NewestPending(notes, pending, y);
      } else {
        forall k | k in pending ensures LexLe(notes[k].createdAt, cx) {
          if k != x {
            assert k in rest;
            LexLeTransitive(notes[k].createdAt, cy, cx);
          }
        }
        assert NewestPending(notes, pending, x);
      }
    }
  }

  /** For a keyword without wildcards, search_notes selects exactly the notes
      whose title or content contains the keyword, ignoring ASCII case. */
  lemma SearchSelectsContaining(notes: map<int, Note>, keyword: string)
    requires WildcardFree(keyword)
    ensures forall id :: id in Matching(notes, SearchPattern(Str(keyword))) <==>
      id in notes && (ContainsFolded(notes[id].title, keyword) || ContainsFolded(notes[id].content, keyword))
  {
    forall id | id in notes
      ensures Like(SearchPattern(Str(keyword)), notes[id].title) <==> ContainsFolded(notes[id].title, keyword)
      ensures Like(SearchPattern(Str(keyword)), notes[id].content) <==> ContainsFolded(notes[id].content, keyword)
    {
      KeywordMatch(keyword, notes[id].title);
      KeywordMatch(keyword, notes[id].content);
    }
  }
}
