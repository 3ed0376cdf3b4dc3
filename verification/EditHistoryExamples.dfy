/** Short runs of the tables page, each where the undo and redo law stops. */
module EditHistoryExamples {
  import opened Options
  import opened TableEdits
  import opened EditHistory

  const METERS := Table(map["month" := Textual, "note" := Textual], ["month"], {}, {"month", "note"})

  const SAMPLE := World(map["meters" := METERS], s => None, n => "0", s => None, s => s)

  function MeterRow(month: Value, note: Value): Row {
    map["month" := month, "note" := note]
  }

  function Meter(month: Value, note: Value): Db {
    map[Ref("meters", 0) := MeterRow(month, note)]
  }

  lemma OneMeter(month: Value, note: Value, id: Value)
    ensures Unique(SAMPLE, Meter(month, note))
    ensures Find(SAMPLE, Meter(month, note), "meters", [id])
            == if id == month && month != Null then Some(Ref("meters", 0)) else None
  {
    var db := Meter(month, note);
    var row := db[Ref("meters", 0)];
    assert Key(METERS, row) == [month];
    assert [id][0] == id;
    if id == month && month != Null {
      assert Hits(SAMPLE, db, "meters", [id], Ref("meters", 0));
    }
  }

  predicate Printed(s: string) {
    s != "" && s[0] in {'a', 'b', 'c', 'n', 'x'}
  }

  predicate Writable(v: Value) {
    v == Null || (v.Text? && Printed(v.s))
  }

  lemma PrintedIsNotBlank(s: string)
    requires Printed(s)
    ensures !Blank(s)
  {
    assert s[0] in s;
  }

  function MeterAfter(month: Value, note: Value, column: Column, v: Value): Db {
    if column == "month" then Meter(v, note) else Meter(month, v)
  }

  lemma MeterWritten(column: Column, v: Value)
    requires column in METERS.editable && Writable(v)
    ensures Written(SAMPLE, "meters", column, v) == Ok(v)
  {
    if v.Text? {
      PrintedIsNotBlank(v.s);
    }
  }

  lemma RowPut(month: Value, note: Value, v: Value)
    ensures MeterRow(month, note)["month" := v] == MeterRow(v, note)
    ensures MeterRow(month, note)["note" := v] == MeterRow(month, v)
  {
  }

  lemma MeterPut(month: Value, note: Value, column: Column, v: Value)
    requires column in METERS.editable
    ensures Put(Meter(month, note), Ref("meters", 0), column, v) == MeterAfter(month, note, column, v)
  {
    hide MeterRow;
    RowPut(month, note, v);
    Replaced(Ref("meters", 0), MeterRow(month, note), MeterRow(month, note)[column := v]);
  }

  lemma Replaced(ref: Ref, row: Row, other: Row)
    ensures map[ref := row][ref := other] == map[ref := other]
  {
  }

  lemma MeterKey(month: Value, note: Value)
    ensures Key(METERS, Meter(month, note)[Ref("meters", 0)]) == [month]
  {
  }

  lemma MeterPatch(month: Value, note: Value, id: Value, column: Column, v: Value)
    requires column in METERS.editable && Writable(v)
    ensures Patch(SAMPLE, Meter(month, note), "meters", [id], column, v)
            == if id != month || month == Null then Refused
               else Ok(Saved(MeterAfter(month, note, column, v), Ref("meters", 0), [if column == "month" then v else month]))
  {
    hide Written, Unique, Put, Key, Find, Writable;
    MeterWritten(column, v);
    OneMeter(month, note, id);
    var month', note' := if column == "month" then v else month, if column == "month" then note else v;
    OneMeter(month', note', month');
    MeterPut(month, note, column, v);
    MeterKey(month', note');
  }

  function OnMeters(db: Db): System {
    System(db, Page(Some("meters"), [], []))
  }

  lemma MeterEdit(month: Value, note: Value, undo: seq<Change>, column: Column, text: string)
    requires column in METERS.editable && month.Text? && (text == "null" || |text| == 1) && Printed(text)
    requires var was := if column == "month" then month else note; was.Text? && was.s != text && was.s != ""
    ensures var was := if column == "month" then month else note;
      var v := if text == "null" then Null else Text(text);
      Step(SAMPLE, System(Meter(month, note), Page(Some("meters"), undo, [])), Edit([month], column, text, true))
      == System(MeterAfter(month, note, column, v),
                Page(Some("meters"), undo + [Change("meters", [if column == "month" then v else month], column, was, v)], []))
  {
    hide Patch, Made, Meter, MeterAfter;
    MeterMade(month, note, undo, column, text);
    MeterPatch(month, note, month, column, if text == "null" then Null else Text(text));
  }

  lemma MeterMade(month: Value, note: Value, undo: seq<Change>, column: Column, text: string)
    requires column in METERS.editable && month.Text? && (text == "null" || |text| == 1)
    requires var was := if column == "month" then month else note; was.Text? && was.s != text && was.s != ""
    ensures var was := if column == "month" then month else note;
      var v := if text == "null" then Null else Text(text);
      Made(SAMPLE, System(Meter(month, note), Page(Some("meters"), undo, [])), Edit([month], column, text, true))
      == Some(Change("meters", [month], column, was, v))
  {
    hide Unique, Find;
    OneMeter(month, note, month);
    assert Lower("null") == "null";
    assert |Lower(text)| == |text|;
  }

  lemma ExecCons(s: System, op: Op, ops: seq<Op>)
    ensures Exec(SAMPLE, s, [op] + ops) == Exec(SAMPLE, Step(SAMPLE, s, op), ops)
  {
    assert ([op] + ops)[1..] == ops;
  }

  lemma Exec3(s: System, a: Op, b: Op, c: Op)
    ensures Exec(SAMPLE, s, [a, b, c]) == Step(SAMPLE, Step(SAMPLE, Step(SAMPLE, s, a), b), c)
  {
    hide Step;
    ExecCons(s, a, [b, c]);
    ExecCons(Step(SAMPLE, s, a), b, [c]);
    ExecCons(Step(SAMPLE, Step(SAMPLE, s, a), b), c, []);
    assert [a, b, c] == [a] + [b, c] && [b, c] == [b] + [c] && [c] == [c] + [];
  }

  /** The change of one meter's month from a to b, as the history keeps it once the row is under b. */
  const RENAMED := Change("meters", [Text("b")], "month", Text("a"), Text("b"))

  lemma Renames()
    ensures Step(SAMPLE, OnMeters(Meter(Text("a"), Text("n"))), Edit([Text("a")], "month", "b", true))
            == System(Meter(Text("b"), Text("n")), Page(Some("meters"), [RENAMED], []))
  {
    hide Step;
    MeterEdit(Text("a"), Text("n"), [], "month", "b");
    assert [] + [RENAMED] == [RENAMED];
  }

  lemma UndoneElsewhere()
    ensures Step(SAMPLE, System(Meter(Text("b"), Text("n")), Page(None, [RENAMED], [])), Undo(true))
            == System(Meter(Text("a"), Text("n")), Page(None, [], [RENAMED]))
  {
    hide Patch, Meter;
    MeterPatch(Text("b"), Text("n"), Text("b"), "month", Text("a"));
    Ends([], RENAMED);
    assert [] + [RENAMED] == [RENAMED];
  }

  lemma NotRedone()
    ensures var s := System(Meter(Text("a"), Text("n")), Page(None, [], [RENAMED]));
      Step(SAMPLE, s, Redo(true)) == s
  {
    hide Patch, Meter, Step;
    MeterPatch(Text("a"), Text("n"), Text("b"), "month", Text("b"));
    FailureChangesNothing(SAMPLE, System(Meter(Text("a"), Text("n")), Page(None, [], [RENAMED])), true);
  }

  /** Undoing an edit of a key column while another table is open strands it on the redo stack. */
  lemma RedoLosesItsRow()
    ensures var s := OnMeters(Meter(Text("a"), Text("n")));
      var undone := Exec(SAMPLE, s, [Edit([Text("a")], "month", "b", true), Open(None), Undo(true)]);
      && undone.db == s.db && undone.page.undo == [] && undone.page.redo != []
      && Step(SAMPLE, undone, Redo(true)) == undone
  {
    hide Patch, Made, Meter, Exec, Send;
    Exec3(OnMeters(Meter(Text("a"), Text("n"))), Edit([Text("a")], "month", "b", true), Open(None), Undo(true));
    Renames();
    UndoneElsewhere();
    NotRedone();
  }

  /** Setting a key column to NULL puts the row out of reach: the edit cannot be undone. */
  lemma NullKeyCannotBeUndone()
    ensures var s := OnMeters(Meter(Text("a"), Text("n")));
      var edited := Step(SAMPLE, s, Edit([Text("a")], "month", "null", true));
      edited.page.undo != [] && Step(SAMPLE, edited, Undo(true)) == edited
  {
    MeterEdit(Text("a"), Text("n"), [], "month", "null");
    MeterPatch(Null, Text("n"), Null, "month", Text("a"));
    FailureChangesNothing(SAMPLE, Step(SAMPLE, OnMeters(Meter(Text("a"), Text("n"))), Edit([Text("a")], "month", "null", true)), true);
  }

  lemma BlanksPatch()
    ensures Patch(SAMPLE, Meter(Text("a"), Text("b")), "meters", [Text("a")], "note", Text("  "))
            == Ok(Saved(Meter(Text("a"), Null), Ref("meters", 0), [Text("a")]))
  {
    MeterPatch(Text("a"), Text("b"), Text("a"), "note", Null);
    hide Find, Unique, Put, Key;
    assert Blank("  ");
  }

  /** A text of blanks is not put back by an undo: NULL is written instead. */
  lemma BlanksAreNotPutBack()
    ensures var s := OnMeters(Meter(Text("a"), Text("  ")));
      var edited := Step(SAMPLE, s, Edit([Text("a")], "note", "b", true));
      Step(SAMPLE, edited, Undo(true)).db == Meter(Text("a"), Null)
  {
    hide Patch, Made, Meter;
    MeterEdit(Text("a"), Text("  "), [], "note", "b");
    BlanksPatch();
  }

  /** After a key edit, an older change under the row's former key survives the row's deletion, and cannot be undone. */
  lemma DeleteLeavesFormerKey()
    ensures var s := OnMeters(Meter(Text("a"), Text("n")));
      var deleted := Exec(SAMPLE, s, [Edit([Text("a")], "note", "x", true), Edit([Text("a")], "month", "b", true), Delete([Text("b")], true)]);
      && deleted.db == map[]
      && deleted.page.undo == [Change("meters", [Text("a")], "note", Text("n"), Text("x"))]
      && Step(SAMPLE, deleted, Undo(true)) == deleted
  {
    hide Patch, Made, Meter, Exec, Step;
    var s := OnMeters(Meter(Text("a"), Text("n")));
    MeterEdit(Text("a"), Text("n"), [], "note", "x");
    MeterEdit(Text("a"), Text("x"), [UNDER_A], "month", "b");
    Exec3(s, Edit([Text("a")], "note", "x", true), Edit([Text("a")], "month", "b", true), Delete([Text("b")], true));
    assert [] + [UNDER_A] == [UNDER_A];
    RenamedDeleted();
    NothingToPatch("meters", UNDER_A.id, "note", UNDER_A.before);
    FailureChangesNothing(SAMPLE, System(map[], Page(Some("meters"), [UNDER_A], [])), true);
  }

  const UNDER_A := Change("meters", [Text("a")], "note", Text("n"), Text("x"))

  lemma RenamedDropped()
    ensures Without([UNDER_A] + [RENAMED], "meters", [Text("b")]) == [UNDER_A] && Without([], "meters", [Text("b")]) == []
  {
    Ends([UNDER_A], RENAMED);
    Ends([], UNDER_A);
    assert [] + [UNDER_A] == [UNDER_A];
    assert [Text("a")][0] != [Text("b")][0];
    assert Without([UNDER_A], "meters", [Text("b")]) == [UNDER_A];
  }

  lemma RenamedDeleted()
    ensures Step(SAMPLE, System(Meter(Text("b"), Text("x")), Page(Some("meters"), [UNDER_A] + [RENAMED], [])), Delete([Text("b")], true))
            == System(map[], Page(Some("meters"), [UNDER_A], []))
  {
    hide Find, Unique;
    RenamedDropped();
    OneMeter(Text("b"), Text("x"), Text("b"));
    assert Meter(Text("b"), Text("x")) - {Ref("meters", 0)} == map[];
  }

  lemma NothingToPatch(table: TableName, id: RowId, column: Column, v: Value)
    ensures Patch(SAMPLE, map[], table, id, column, v) == Refused
  {
  }

  // ---- two rows ----

  function TwoMeters(a: Row, b: Row): Db {
    map[Ref("meters", 0) := a, Ref("meters", 1) := b]
  }

  lemma TwoMetersHit(m: string, n: Value, m': string, n': Value)
    requires m != m'
    ensures var db := TwoMeters(MeterRow(Text(m), n), MeterRow(Text(m'), n'));
      && Unique(SAMPLE, db)
      && Hits(SAMPLE, db, "meters", [Text(m)], Ref("meters", 0)) && Hits(SAMPLE, db, "meters", [Text(m')], Ref("meters", 1))
  {
    assert Key(METERS, MeterRow(Text(m), n)) == [Text(m)] && Key(METERS, MeterRow(Text(m'), n')) == [Text(m')];
    assert [Text(m)][0] != [Text(m')][0];
  }

  /** An edit of one printed letter to another, on any database. */
  lemma LetterEdit(db: Db, ref: Ref, key: Value, month: Value, undo: seq<Change>, column: Column, was: string, text: string)
    requires Unique(SAMPLE, db) && Hits(SAMPLE, db, "meters", [key], ref) && ref.table == "meters"
    requires column in METERS.editable && column in db[ref] && db[ref][column] == Text(was) && was != "" && was != text
    requires |text| == 1 && Printed(text)
    requires Unique(SAMPLE, Put(db, ref, column, Text(text)))
    requires Key(METERS, Put(db, ref, column, Text(text))[ref]) == [month]
    ensures Step(SAMPLE, System(db, Page(Some("meters"), undo, [])), Edit([key], column, text, true))
      == System(Put(db, ref, column, Text(text)),
                Page(Some("meters"), undo + [Change("meters", [month], column, Text(was), Text(text))], []))
  {
    FindIs(SAMPLE, db, ref, [key]);
    assert |Lower(text)| == 1;
    MeterWritten(column, Text(text));
    hide Unique, Hits, Find, Put, Key, Written, Lower;
  }

  lemma PutInTwo(a: Row, b: Row, column: Column, v: Value)
    ensures Put(TwoMeters(a, b), Ref("meters", 0), column, v) == TwoMeters(a[column := v], b)
    ensures Put(TwoMeters(a, b), Ref("meters", 1), column, v) == TwoMeters(a, b[column := v])
  {
  }

  lemma RowPuts(month: Value, note: Value, v: Value, other: Row)
    ensures Put(TwoMeters(MeterRow(month, note), other), Ref("meters", 0), "note", v) == TwoMeters(MeterRow(month, v), other)
    ensures Put(TwoMeters(MeterRow(month, note), other), Ref("meters", 0), "month", v) == TwoMeters(MeterRow(v, note), other)
    ensures Put(TwoMeters(other, MeterRow(month, note)), Ref("meters", 1), "month", v) == TwoMeters(other, MeterRow(v, note))
  {
    hide *;
    RowPut(month, note, v);
    PutInTwo(MeterRow(month, note), other, "note", v);
    PutInTwo(MeterRow(month, note), other, "month", v);
    PutInTwo(other, MeterRow(month, note), "month", v);
  }

  const NOTED := Change("meters", [Text("b")], "note", Text("n"), Text("x"))
  const MOVED_ON := Change("meters", [Text("c")], "month", Text("b"), Text("c"))
  const TOOK_OVER := Change("meters", [Text("b")], "month", Text("a"), Text("b"))

  function Three(note: string, month0: string, month1: string): Db {
    TwoMeters(MeterRow(Text(month0), Text(note)), MeterRow(Text(month1), Text("n")))
  }

  lemma NoteIsTaken()
    ensures Step(SAMPLE, OnMeters(Three("n", "b", "a")), Edit([Text("b")], "note", "x", true))
      == System(Three("x", "b", "a"), Page(Some("meters"), [NOTED], []))
  {
    TwoMetersHit("b", Text("n"), "a", Text("n"));
    TwoMetersHit("b", Text("x"), "a", Text("n"));
    RowPuts(Text("b"), Text("n"), Text("x"), MeterRow(Text("a"), Text("n")));
    MeterKey(Text("b"), Text("x"));
    LetterEdit(Three("n", "b", "a"), Ref("meters", 0), Text("b"), Text("b"), [], "note", "n", "x");
    assert [] + [NOTED] == [NOTED];
  }

  lemma RowMovesOn()
    ensures Step(SAMPLE, System(Three("x", "b", "a"), Page(Some("meters"), [NOTED], [])), Edit([Text("b")], "month", "c", true))
      == System(Three("x", "c", "a"), Page(Some("meters"), [NOTED, MOVED_ON], []))
  {
    TwoMetersHit("b", Text("x"), "a", Text("n"));
    TwoMetersHit("c", Text("x"), "a", Text("n"));
    RowPuts(Text("b"), Text("x"), Text("c"), MeterRow(Text("a"), Text("n")));
    MeterKey(Text("c"), Text("x"));
    LetterEdit(Three("x", "b", "a"), Ref("meters", 0), Text("b"), Text("c"), [NOTED], "month", "b", "c");
    assert [NOTED] + [MOVED_ON] == [NOTED, MOVED_ON];
  }

  lemma OtherTakesOver()
    ensures Step(SAMPLE, System(Three("x", "c", "a"), Page(Some("meters"), [NOTED, MOVED_ON], [])), Edit([Text("a")], "month", "b", true))
      == System(Three("x", "c", "b"), Page(Some("meters"), [NOTED, MOVED_ON, TOOK_OVER], []))
  {
    TwoMetersHit("c", Text("x"), "a", Text("n"));
    TwoMetersHit("c", Text("x"), "b", Text("n"));
    RowPuts(Text("a"), Text("n"), Text("b"), MeterRow(Text("c"), Text("x")));
    MeterKey(Text("b"), Text("n"));
    LetterEdit(Three("x", "c", "a"), Ref("meters", 1), Text("a"), Text("b"), [NOTED, MOVED_ON], "month", "a", "b");
    assert [NOTED, MOVED_ON] + [TOOK_OVER] == [NOTED, MOVED_ON, TOOK_OVER];
  }

  lemma FilteredByKey()
    ensures Without([NOTED, MOVED_ON, TOOK_OVER], "meters", [Text("b")]) == [MOVED_ON] && Without([], "meters", [Text("b")]) == []
  {
    assert [NOTED, MOVED_ON, TOOK_OVER] == [NOTED, MOVED_ON] + [TOOK_OVER] && [NOTED, MOVED_ON] == [NOTED] + [MOVED_ON];
    assert [NOTED] == [] + [NOTED];
    Ends([NOTED, MOVED_ON], TOOK_OVER);
    Ends([NOTED], MOVED_ON);
    Ends([], NOTED);
    assert [Text("c")][0] != [Text("b")][0];
    assert Without([NOTED], "meters", [Text("b")]) == [];
    assert Without([NOTED, MOVED_ON], "meters", [Text("b")]) == [] + [MOVED_ON];
  }

  lemma OtherDeleted()
    ensures Step(SAMPLE, System(Three("x", "c", "b"), Page(Some("meters"), [NOTED, MOVED_ON, TOOK_OVER], [])), Delete([Text("b")], true))
      == System(map[Ref("meters", 0) := MeterRow(Text("c"), Text("x"))], Page(Some("meters"), [MOVED_ON], []))
  {
    TwoMetersHit("c", Text("x"), "b", Text("n"));
    FindIs(SAMPLE, Three("x", "c", "b"), Ref("meters", 1), [Text("b")]);
    FilteredByKey();
    assert Three("x", "c", "b") - {Ref("meters", 1)} == map[Ref("meters", 0) := MeterRow(Text("c"), Text("x"))];
  }

  /** A row's change is lost with another row: the first row is edited under a key and moves on, the second takes the
      key over and is deleted. The filter drops the first row's edit too, and no undo brings the old note back. */
  lemma DeleteDropsALivingRowsChange()
    ensures var s := OnMeters(Three("n", "b", "a"));
      var edited := Step(SAMPLE, Step(SAMPLE, Step(SAMPLE, s, Edit([Text("b")], "note", "x", true)),
                                      Edit([Text("b")], "month", "c", true)),
                         Edit([Text("a")], "month", "b", true));
      && edited.page.undo == [NOTED, MOVED_ON, TOOK_OVER]
      && Step(SAMPLE, edited, Delete([Text("b")], true))
         == System(map[Ref("meters", 0) := MeterRow(Text("c"), Text("x"))], Page(Some("meters"), [MOVED_ON], []))
  {
    hide *;
    NoteIsTaken();
    RowMovesOn();
    OtherTakesOver();
    OtherDeleted();
  }
}
