/** The undo and redo law over whole runs, deleting rows, and where the law stops. */
module EditHistoryLaws {
  import opened Options
  import opened TableEdits
  import opened EditHistory

  // ---- runs ----

  predicate Carries(c: Change, table: TableName, id: RowId) {
    c.table == table && c.id == id
  }

  /** The key that a row under `key` has once `c` is replayed. */
  function Trail(w: World, table: TableName, key: RowId, c: Change, redoing: bool): RowId
    requires table in w.tables
  {
    var columns, written := w.tables[table].key, Written(w, table, c.column, Target(c, redoing));
    if Carries(c, table, key) && |key| == |columns| && written.Ok? then
      seq(|key|, i requires 0 <= i < |key| => if columns[i] == c.column then written.value else key[i])
    else key
  }

  /** The key rule: replaying the change leaves its row's key alone, or its table is open. */
  predicate Tracks(w: World, page: Page, c: Change, redoing: bool) {
    page.open == Some(c.table) || (c.table in w.tables && Trail(w, c.table, c.id, c, redoing) == c.id)
  }

  /** A change keeps track of its row exactly when it follows the rule. */
  lemma TracksExactly(w: World, s: System, c: Change, redoing: bool)
    requires Unique(w, s.db) && Replays(w, s.db, c, redoing)
    ensures KeepsTrack(w, s, c, redoing) <==> Tracks(w, s.page, c, redoing)
  {
    var ref := RowOf(w, s.db, c, redoing);
    TrailFollows(w, s.db, ref, c.id, c, redoing);
  }

  /** The history tells the row now under `id` from the others: followed from the top down, by the key it had at each
      point, its changes are exactly those that carry `id`. */
  predicate Marked(w: World, cs: seq<Change>, table: TableName, id: RowId, key: RowId, redoing: bool)
    requires table in w.tables
    decreases |cs|
  {
    cs == [] ||
    ((Carries(Last(cs), table, key) <==> Carries(Last(cs), table, id))
     && Marked(w, Rest(cs), table, id, Trail(w, table, key, Last(cs), redoing), redoing))
  }

  /** What a caller can check before a step, for the history to stay replayable. */
  ghost predicate Careful(w: World, s: System, op: Op) {
    match op
    case Undo(reaches) => reaches && s.page.undo != [] ==> Tracks(w, s.page, Last(s.page.undo), false)
    case Redo(reaches) => reaches && s.page.redo != [] ==> Tracks(w, s.page, Last(s.page.redo), true)
    case Delete(id, reaches) =>
      reaches && s.page.open.Some? && s.page.open.value in w.tables ==>
        Marked(w, s.page.undo, s.page.open.value, id, id, false) && Marked(w, s.page.redo, s.page.open.value, id, id, true)
    case Open(_) => true
    case _ => Applies(w, s, op) ==> Undoable(w, s, op)
  }

  ghost predicate CarefulRun(w: World, s: System, ops: seq<Op>)
    decreases |ops|
  {
    ops == [] || (Careful(w, s, ops[0]) && CarefulRun(w, Step(w, s, ops[0]), ops[1..]))
  }

  lemma StepKeepsInv(w: World, s: System, op: Op)
    requires Inv(w, s) && Careful(w, s, op)
    ensures Inv(w, Step(w, s, op))
  {
    hide Chain, Unique;
    match op
    case Undo(reaches) =>
      FailureChangesNothing(w, s, reaches);
      if Step(w, s, op) != s {
        TopReplays(w, s.db, s.page.undo, false);
        TracksExactly(w, s, Last(s.page.undo), false);
        UndoStep(w, s);
      }
    case Redo(reaches) =>
      FailureChangesNothing(w, s, reaches);
      if Step(w, s, op) != s {
        TopReplays(w, s.db, s.page.redo, true);
        TracksExactly(w, s, Last(s.page.redo), true);
        RedoStep(w, s);
      }
    case Delete(id, reaches) =>
      DeleteKeepsInv(w, s, id, reaches);
    case Open(_) =>
    case _ =>
      if Applies(w, s, op) {
        EditStep(w, s, op);
      }
  }

  lemma TopReplays(w: World, db: Db, cs: seq<Change>, redoing: bool)
    requires Chain(w, db, cs, redoing) && cs != []
    ensures Replays(w, db, Last(cs), redoing)
  {
  }

  /** In every careful run both stacks stay replayable: the top change's id always names its row, all the way down. */
  lemma {:induction false} RunKeepsInv(w: World, s: System, ops: seq<Op>)
    requires Inv(w, s) && CarefulRun(w, s, ops)
    ensures Inv(w, Exec(w, s, ops))
    decreases |ops|
  {
    if ops != [] {
      StepKeepsInv(w, s, ops[0]);
      RunKeepsInv(w, Step(w, s, ops[0]), ops[1..]);
    }
  }

  /** When every editable cell holds what the server would write for it, an edit can be undone exactly when it leaves
      the row a whole key. */
  lemma SettledUndoable(w: World, s: System, op: Op)
    requires Settled(w, s.db) && Applies(w, s, op)
    ensures var c := Made(w, s, op).value;
      Undoable(w, s, op) <==> Null !in Patch(w, s.db, c.table, c.id, c.column, c.after).value.id
  {
    var c := Made(w, s, op).value;
    var ref := Patch(w, s.db, c.table, c.id, c.column, c.after).value.ref;
    assert c.before == s.db[ref][c.column];
  }

  /** What an operation sends to the server: a change, and which of its values. */
  ghost function Sends(w: World, s: System, op: Op): Option<(Change, Value)> {
    match op
    case Undo(_) => if s.page.undo == [] then None else Some((Last(s.page.undo), Last(s.page.undo).before))
    case Redo(_) => if s.page.redo == [] then None else Some((Last(s.page.redo), Last(s.page.redo).after))
    case Edit(_, _, _, _) => if Made(w, s, op).None? then None else Some((Made(w, s, op).value, Made(w, s, op).value.after))
    case Toggle(_, _, _) => if Made(w, s, op).None? then None else Some((Made(w, s, op).value, Made(w, s, op).value.after))
    case _ => None
  }

  /** The operation stores a text in a JSON column. */
  ghost predicate Unsettles(w: World, s: System, op: Op) {
    var sent := Sends(w, s, op);
    && sent.Some? && op.reaches
    && var (c, v) := sent.value;
       Patch(w, s.db, c.table, c.id, c.column, v).Ok? && StoresJsonText(w, c.table, c.column, v)
  }

  /** And an operation ends that exactly when it stores a text in a JSON column. */
  lemma StepSettles(w: World, s: System, op: Op)
    requires Legible(w) && Settled(w, s.db)
    ensures Settled(w, Step(w, s, op).db) <==> !Unsettles(w, s, op)
  {
    hide Patch, Made, Written, StoresJsonText;
    if Sends(w, s, op).Some? {
      var (c, v) := Sends(w, s, op).value;
      SendSettles(w, s.db, c, v, op.reaches);
    }
  }

  lemma SendSettles(w: World, db: Db, c: Change, v: Value, reaches: bool)
    requires Legible(w) && Settled(w, db)
    ensures Settled(w, Send(w, db, c, v, reaches).0) <==>
      !(reaches && Patch(w, db, c.table, c.id, c.column, v).Ok? && StoresJsonText(w, c.table, c.column, v))
  {
    if reaches && Patch(w, db, c.table, c.id, c.column, v).Ok? {
      PatchSettles(w, db, c.table, c.id, c.column, v);
    }
  }

  // ---- the inverse law ----

  ghost function Times(w: World, s: System, op: Op, k: nat): System
    decreases k
  {
    if k == 0 then s else Times(w, Step(w, s, op), op, k - 1)
  }

  lemma {:induction false} TimesLast(w: World, s: System, op: Op, k: nat)
    requires k > 0
    ensures Times(w, s, op, k) == Step(w, Times(w, s, op, k - 1), op)
    decreases k
  {
    if k > 1 {
      TimesLast(w, Step(w, s, op), op, k - 1);
    }
  }

  /** k undos and then k redos give back the database, both stacks and every row key. */
  lemma {:induction false} UndoThenRedo(w: World, s: System, k: nat)
    requires Inv(w, s) && k <= |s.page.undo|
    requires forall i | |s.page.undo| - k <= i < |s.page.undo| :: Tracks(w, s.page, s.page.undo[i], false)
    ensures Times(w, Times(w, s, Undo(true), k), Redo(true), k) == s
    ensures Inv(w, Times(w, s, Undo(true), k))
    decreases k
  {
    hide Chain, Unique, Step, Replayed, KeyAfter;
    if k > 0 {
      var s' := Step(w, s, Undo(true));
      TopReplays(w, s.db, s.page.undo, false);
      TracksExactly(w, s, Last(s.page.undo), false);
      UndoStep(w, s);
      UndoThenRedo(w, s', k - 1);
      TimesLast(w, Times(w, s, Undo(true), k), Redo(true), k);
    }
  }

  /** k redos and then k undos do too. */
  lemma {:induction false} RedoThenUndo(w: World, s: System, k: nat)
    requires Inv(w, s) && k <= |s.page.redo|
    requires forall i | |s.page.redo| - k <= i < |s.page.redo| :: Tracks(w, s.page, s.page.redo[i], true)
    ensures Times(w, Times(w, s, Redo(true), k), Undo(true), k) == s
    ensures Inv(w, Times(w, s, Redo(true), k))
    decreases k
  {
    hide Chain, Unique, Step, Replayed, KeyAfter;
    if k > 0 {
      var s' := Step(w, s, Redo(true));
      TopReplays(w, s.db, s.page.redo, true);
      TracksExactly(w, s, Last(s.page.redo), true);
      RedoStep(w, s);
      RedoThenUndo(w, s', k - 1);
      TimesLast(w, Times(w, s, Redo(true), k), Undo(true), k);
    }
  }

  predicate EditsOnly(ops: seq<Op>) {
    forall op <- ops :: op.Edit? || op.Toggle?
  }

  /** How many of the edits change the database. */
  ghost function Pushed(w: World, s: System, ops: seq<Op>): nat
    decreases |ops|
  {
    if ops == [] then 0
    else (if Applies(w, s, ops[0]) then 1 else 0) + Pushed(w, Step(w, s, ops[0]), ops[1..])
  }

  /** Undoing does not look at the redo stack. */
  lemma UndoIgnoresRedo(w: World, s: System, t: System)
    requires s.db == t.db && s.page.undo == t.page.undo && s.page.open == t.page.open
    ensures var s', t' := Step(w, s, Undo(true)), Step(w, t, Undo(true));
      s'.db == t'.db && s'.page.undo == t'.page.undo && s'.page.open == t'.page.open
  {
  }

  /** After any run of edits and toggles, key columns included, as many undos as edits took effect give back the
      database and the undo stack from before the run. */
  lemma {:induction false} EditsAreUndone(w: World, s: System, ops: seq<Op>)
    requires Inv(w, s) && EditsOnly(ops) && CarefulRun(w, s, ops)
    ensures var back := Times(w, Exec(w, s, ops), Undo(true), Pushed(w, s, ops));
      back.db == s.db && back.page.undo == s.page.undo && back.page.open == s.page.open
    decreases |ops|
  {
    hide Chain, Unique, Patch, Made, Undoable;
    if ops != [] {
      var s' := Step(w, s, ops[0]);
      StepKeepsInv(w, s, ops[0]);
      EditsAreUndone(w, s', ops[1..]);
      if Applies(w, s, ops[0]) {
        EditStep(w, s, ops[0]);
        var n := Pushed(w, s, ops);
        TimesLast(w, Exec(w, s, ops), Undo(true), n);
        UndoIgnoresRedo(w, s', Times(w, Exec(w, s, ops), Undo(true), n - 1));
      } else {
        EditWithoutEffect(w, s, ops[0]);
      }
    }
  }

  lemma EditWithoutEffect(w: World, s: System, op: Op)
    requires (op.Edit? || op.Toggle?) && !Applies(w, s, op)
    ensures Step(w, s, op) == s
  {
  }

  // ---- deleting a row ----

  lemma SmallerIsUnique(w: World, db: Db, ref: Ref)
    requires Unique(w, db)
    ensures Unique(w, db - {ref})
  {
    forall a: Ref, b: Ref, id: RowId | Hits(w, db - {ref}, a.table, id, a) && Hits(w, db - {ref}, a.table, id, b)
      ensures a == b
    {
      assert Hits(w, db, a.table, id, a) && Hits(w, db, a.table, id, b);
    }
  }

  /** A change on another row replays the same without the deleted row: the two commute. */
  lemma DeleteCommutes(w: World, db: Db, ref: Ref, c: Change, redoing: bool)
    requires Unique(w, db) && Replays(w, db, c, redoing)
    requires RowOf(w, db, c, redoing) != ref
    ensures Replays(w, db - {ref}, c, redoing)
    ensures Replayed(w, db - {ref}, c, redoing) == Replayed(w, db, c, redoing) - {ref}
  {
    var saved := Patch(w, db, c.table, c.id, c.column, Target(c, redoing)).value;
    SmallerIsUnique(w, db, ref);
    SmallerIsUnique(w, saved.db, ref);
    assert Hits(w, db, c.table, c.id, saved.ref);
    FindIs(w, db - {ref}, saved.ref, c.id);
    var v := Written(w, c.table, c.column, Target(c, redoing)).value;
    assert Put(db - {ref}, saved.ref, c.column, v) == saved.db - {ref};
  }

  /** A change reaches a row exactly when it carries the row's key at that point, and the trail is the row's key after. */
  lemma TrailFollows(w: World, db: Db, ref: Ref, key: RowId, c: Change, redoing: bool)
    requires Unique(w, db) && Hits(w, db, ref.table, key, ref) && Replays(w, db, c, redoing)
    ensures RowOf(w, db, c, redoing) == ref <==> Carries(c, ref.table, key)
    ensures Hits(w, Replayed(w, db, c, redoing), ref.table, Trail(w, ref.table, key, c, redoing), ref)
  {
    var saved := Patch(w, db, c.table, c.id, c.column, Target(c, redoing)).value;
    assert Hits(w, db, c.table, c.id, saved.ref);
    if saved.ref == ref {
      var v := Written(w, c.table, c.column, Target(c, redoing)).value;
      TrailIsKey(w.tables[ref.table], db[ref], c.column, v);
      assert saved.id == Trail(w, ref.table, key, c, redoing);
    }
  }

  lemma TrailIsKey(table: Table, row: Row, column: Column, v: Value)
    ensures |Key(table, row)| == |table.key|
    ensures Key(table, row[column := v])
         == seq(|table.key|, i requires 0 <= i < |table.key| =>
              if table.key[i] == column then v else Key(table, row)[i])
  {
  }

  /** Filtering the deleted row's changes out leaves the rest of a stack replayable on the rows that remain. */
  lemma {:induction false} FilterKeepsChain(
    w: World, db: Db, ref: Ref, id: RowId, key: RowId, cs: seq<Change>, redoing: bool)
    requires Unique(w, db) && Hits(w, db, ref.table, key, ref) && Chain(w, db, cs, redoing)
    requires Marked(w, cs, ref.table, id, key, redoing)
    ensures Chain(w, db - {ref}, Without(cs, ref.table, id), redoing)
    decreases |cs|
  {
    hide Replays, Unique, Hits, RowOf, Trail;
    if cs != [] {
      var c := Last(cs);
      var after := Replayed(w, db, c, redoing);
      TrailFollows(w, db, ref, key, c, redoing);
      ReplayedIsUnique(w, db, c, redoing);
      FilterKeepsChain(w, after, ref, id, Trail(w, ref.table, key, c, redoing), Rest(cs), redoing);
      if Carries(c, ref.table, id) {
        ReplayedElsewhere(w, db, c, redoing);
        assert after - {ref} == db - {ref};
      } else {
        DeleteCommutes(w, db, ref, c, redoing);
        Ends(Without(Rest(cs), ref.table, id), c);
      }
    }
  }

  /** No change that carries the given key set a key column. */
  predicate NoKeyEdits(w: World, cs: seq<Change>, table: TableName, id: RowId)
    requires table in w.tables
  {
    forall c <- cs :: Carries(c, table, id) ==> c.column !in w.tables[table].key
  }

  /** In particular a row is told apart if no change that carries its key set a key column. */
  lemma {:induction false} NoKeyEditsMark(w: World, cs: seq<Change>, table: TableName, id: RowId, redoing: bool)
    requires table in w.tables && NoKeyEdits(w, cs, table, id)
    ensures Marked(w, cs, table, id, id, redoing)
    decreases |cs|
  {
    if cs != [] {
      assert Last(cs) in cs && forall c <- Rest(cs) :: c in cs;
      assert Trail(w, table, id, Last(cs), redoing) == id;
      NoKeyEditsMark(w, Rest(cs), table, id, redoing);
    }
  }

  lemma ReplayedIsUnique(w: World, db: Db, c: Change, redoing: bool)
    requires Replays(w, db, c, redoing)
    ensures Unique(w, Replayed(w, db, c, redoing))
  {
  }

  /** Replaying a change touches only its own row. */
  lemma ReplayedElsewhere(w: World, db: Db, c: Change, redoing: bool)
    requires Replays(w, db, c, redoing)
    ensures var ref := RowOf(w, db, c, redoing);
      Replayed(w, db, c, redoing) - {ref} == db - {ref}
  {
  }

  lemma DeleteKeepsInv(w: World, s: System, id: RowId, reaches: bool)
    requires Inv(w, s) && Careful(w, s, Delete(id, reaches))
    ensures Inv(w, Step(w, s, Delete(id, reaches)))
  {
    hide Chain, Unique;
    if reaches && s.page.open.Some? && Find(w, s.db, s.page.open.value, id).Some? {
      var table := s.page.open.value;
      var found := Find(w, s.db, table, id);
      SmallerIsUnique(w, s.db, found.value);
      FilterKeepsChain(w, s.db, found.value, id, id, s.page.undo, false);
      FilterKeepsChain(w, s.db, found.value, id, id, s.page.redo, true);
    }
  }

  // ---- where the law stops ----

  lemma NotFoundIsRefused(w: World, db: Db, table: TableName, id: RowId, column: Column, v: Value)
    requires Find(w, db, table, id) == None
    ensures Patch(w, db, table, id, column, v) == Refused
  {
  }

  /** A change that is undone without following its row's key cannot be redone, nor after its table is opened again:
      its call is refused, and it blocks the redo stack below it. */
  lemma LostForGood(w: World, s: System, open: Option<TableName>)
    requires Inv(w, s) && s.page.undo != [] && !KeepsTrack(w, s, Last(s.page.undo), false)
    ensures var lost := Step(w, Step(w, s, Undo(true)), Open(open));
      Step(w, lost, Redo(true)) == lost && lost.page.redo != []
  {
    hide Chain, Unique, Patch, Find, Replayed, KeyAfter;
    var c := Last(s.page.undo);
    TopReplays(w, s.db, s.page.undo, false);
    UndoStep(w, s);
    StaleKeyFindsNothing(w, s.db, c, false);
    NotFoundIsRefused(w, Replayed(w, s.db, c, false), c.table, c.id, c.column, c.after);
    var lost := System(Replayed(w, s.db, c, false), Page(open, Rest(s.page.undo), s.page.redo + [c]));
    Ends(s.page.redo, c);
    FailureChangesNothing(w, lost, true);
  }
}
