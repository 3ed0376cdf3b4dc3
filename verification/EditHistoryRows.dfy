/** Which row each change was made on. The history itself knows only keys; here every change carries, beside the stacks,
    the identity of its row, and the keys are proved never to lead to another. */
module EditHistoryRows {
  import opened Options
  import opened TableEdits
  import opened EditHistory
  import opened EditHistoryLaws

  /** The rows of the changes on the two stacks, in the same order. */
  datatype Rows = Rows(undo: seq<Ref>, redo: seq<Ref>)

  function WithoutRows(cs: seq<Change>, refs: seq<Ref>, table: TableName, id: RowId): seq<Ref>
    requires |cs| == |refs|
  {
    if cs == [] then []
    else if Last(cs).table == table && Last(cs).id == id then WithoutRows(Rest(cs), Rest(refs), table, id)
    else WithoutRows(Rest(cs), Rest(refs), table, id) + [Last(refs)]
  }

  /** The rows other than this one. */
  function Elsewhere(refs: seq<Ref>, ref: Ref): seq<Ref> {
    if refs == [] then []
    else if Last(refs) == ref then Elsewhere(Rest(refs), ref)
    else Elsewhere(Rest(refs), ref) + [Last(refs)]
  }

  /** An edit notes the row it wrote; undo and redo carry the note across; a deletion drops it with the change. */
  ghost function StepRows(w: World, s: System, rows: Rows, op: Op): Rows
    requires |rows.undo| == |s.page.undo| && |rows.redo| == |s.page.redo|
  {
    match op
    case Open(_) => rows
    case Undo(_) =>
      if Step(w, s, op) == s || rows.undo == [] then rows else Rows(Rest(rows.undo), rows.redo + [Last(rows.undo)])
    case Redo(_) =>
      if Step(w, s, op) == s || rows.redo == [] then rows else Rows(rows.undo + [Last(rows.redo)], Rest(rows.redo))
    case Delete(id, reaches) =>
      if s.page.open.None? || !reaches || Find(w, s.db, s.page.open.value, id).None? then rows
      else
        var table := s.page.open.value;
        Rows(WithoutRows(s.page.undo, rows.undo, table, id), WithoutRows(s.page.redo, rows.redo, table, id))
    case _ =>
      if Applies(w, s, op) then
        var c := Made(w, s, op).value;
        Rows(rows.undo + [Patch(w, s.db, c.table, c.id, c.column, c.after).value.ref], [])
      else rows
  }

  /** Replayed from the top down, every change of the stack reaches the row beside it. */
  ghost predicate Reaches(w: World, db: Db, cs: seq<Change>, refs: seq<Ref>, redoing: bool)
    decreases |cs|
  {
    |cs| == |refs| &&
    (cs == [] ||
     (Replays(w, db, Last(cs), redoing) && RowOf(w, db, Last(cs), redoing) == Last(refs)
      && Reaches(w, Replayed(w, db, Last(cs), redoing), Rest(cs), Rest(refs), redoing)))
  }

  ghost predicate OnTheirRows(w: World, s: System, rows: Rows) {
    Unique(w, s.db) && Reaches(w, s.db, s.page.undo, rows.undo, false) && Reaches(w, s.db, s.page.redo, rows.redo, true)
  }

  lemma {:induction false} ReachesIsChain(w: World, db: Db, cs: seq<Change>, refs: seq<Ref>, redoing: bool)
    requires Reaches(w, db, cs, refs, redoing)
    ensures Chain(w, db, cs, redoing)
    decreases |cs|
  {
    if cs != [] {
      hide Replays, Replayed, RowOf;
      ReachesIsChain(w, Replayed(w, db, Last(cs), redoing), Rest(cs), Rest(refs), redoing);
    }
  }

  /** Reversing a change reaches the row it was replayed on. */
  lemma ReversedOnItsRow(w: World, db: Db, c: Change, redoing: bool)
    requires Unique(w, db) && Replays(w, db, c, redoing)
    ensures var after := Replayed(w, db, c, redoing);
      var c' := c.(id := KeyAfter(w, db, c, redoing));
      Replays(w, after, c', !redoing) && RowOf(w, after, c', !redoing) == RowOf(w, db, c, redoing)
      && Replayed(w, after, c', !redoing) == db
  {
    var saved := Patch(w, db, c.table, c.id, c.column, Target(c, redoing)).value;
    PatchBack(w, db, c.table, c.id, c.column, Target(c, redoing), Target(c, !redoing));
  }

  /** Moving the top change across keeps both stacks on their rows. */
  lemma MoveAcross(w: World, s: System, from: seq<Change>, fromRows: seq<Ref>, to: seq<Change>, toRows: seq<Ref>, redoing: bool)
    requires Unique(w, s.db) && from != [] && Reaches(w, s.db, from, fromRows, redoing) && Reaches(w, s.db, to, toRows, !redoing)
    requires Tracks(w, s.page, Last(from), redoing)
    ensures var c := Last(from);
      var after := Replayed(w, s.db, c, redoing);
      var c' := Rekeyed(s.page, c, KeyAfter(w, s.db, c, redoing));
      && Unique(w, after) && Reaches(w, after, Rest(from), Rest(fromRows), redoing)
      && Reaches(w, after, to + [c'], toRows + [Last(fromRows)], !redoing)
  {
    hide Unique, Replays, Replayed, RowOf, KeyAfter;
    var c := Last(from);
    TracksExactly(w, s, c, redoing);
    ReversedOnItsRow(w, s.db, c, redoing);
    ReplayedIsUnique(w, s.db, c, redoing);
    var c' := Rekeyed(s.page, c, KeyAfter(w, s.db, c, redoing));
    assert c' == c.(id := KeyAfter(w, s.db, c, redoing));
    Ends(to, c');
    Ends(toRows, Last(fromRows));
  }

  /** The filter drops exactly the changes that were made on the deleted row, and keeps the others on theirs. */
  lemma {:induction false} FilterOnItsRows(
    w: World, db: Db, ref: Ref, id: RowId, key: RowId, cs: seq<Change>, refs: seq<Ref>, redoing: bool)
    requires Unique(w, db) && Hits(w, db, ref.table, key, ref) && Reaches(w, db, cs, refs, redoing)
    requires Marked(w, cs, ref.table, id, key, redoing)
    ensures Reaches(w, db - {ref}, Without(cs, ref.table, id), WithoutRows(cs, refs, ref.table, id), redoing)
    ensures WithoutRows(cs, refs, ref.table, id) == Elsewhere(refs, ref)
    decreases |cs|
  {
    hide Replays, Unique, Hits, RowOf, Trail;
    if cs != [] {
      var c := Last(cs);
      var after := Replayed(w, db, c, redoing);
      TrailFollows(w, db, ref, key, c, redoing);
      ReplayedIsUnique(w, db, c, redoing);
      FilterOnItsRows(w, after, ref, id, Trail(w, ref.table, key, c, redoing), Rest(cs), Rest(refs), redoing);
      if Carries(c, ref.table, id) {
        ReplayedElsewhere(w, db, c, redoing);
        assert after - {ref} == db - {ref};
      } else {
        DeleteCommutes(w, db, ref, c, redoing);
        SameRowWithout(w, db, ref, c, redoing);
        Ends(Without(Rest(cs), ref.table, id), c);
        Ends(WithoutRows(Rest(cs), Rest(refs), ref.table, id), Last(refs));
      }
    }
  }

  /** What the trail says is what the rows say. */
  lemma {:induction false} MarkedByRows(
    w: World, db: Db, ref: Ref, id: RowId, key: RowId, cs: seq<Change>, refs: seq<Ref>, redoing: bool)
    requires Unique(w, db) && Hits(w, db, ref.table, key, ref) && Reaches(w, db, cs, refs, redoing)
    ensures Marked(w, cs, ref.table, id, key, redoing) <==>
      forall i | 0 <= i < |cs| :: refs[i] == ref <==> Carries(cs[i], ref.table, id)
    decreases |cs|
  {
    hide Replays, Unique, Hits, RowOf, Trail;
    if cs != [] {
      var c := Last(cs);
      TrailFollows(w, db, ref, key, c, redoing);
      ReplayedIsUnique(w, db, c, redoing);
      MarkedByRows(w, Replayed(w, db, c, redoing), ref, id, Trail(w, ref.table, key, c, redoing), Rest(cs), Rest(refs), redoing);
      assert forall i | 0 <= i < |Rest(cs)| :: Rest(cs)[i] == cs[i] && Rest(refs)[i] == refs[i];
      assert cs[|cs| - 1] == c && refs[|cs| - 1] == Last(refs);
    }
  }

  /** Dropping by key and dropping by row come to the same only if they drop the same. */
  lemma {:induction false} SameRowsDropped(cs: seq<Change>, refs: seq<Ref>, table: TableName, id: RowId, ref: Ref)
    requires |cs| == |refs| && forall i | 0 <= i < |cs| :: refs[i] == ref ==> Carries(cs[i], table, id)
    ensures |WithoutRows(cs, refs, table, id)| <= |Elsewhere(refs, ref)|
    ensures |WithoutRows(cs, refs, table, id)| == |Elsewhere(refs, ref)| ==>
      forall i | 0 <= i < |cs| :: refs[i] == ref <==> Carries(cs[i], table, id)
  {
    if cs != [] {
      assert forall i | 0 <= i < |Rest(cs)| :: Rest(cs)[i] == cs[i] && Rest(refs)[i] == refs[i];
      SameRowsDropped(Rest(cs), Rest(refs), table, id, ref);
    }
  }

  lemma {:induction false} KeptRows(cs: seq<Change>, refs: seq<Ref>, table: TableName, id: RowId, i: nat)
    requires |cs| == |refs| && i < |cs| && !Carries(cs[i], table, id)
    ensures refs[i] in WithoutRows(cs, refs, table, id)
  {
    if i < |cs| - 1 {
      KeptRows(Rest(cs), Rest(refs), table, id, i);
    }
  }

  lemma {:induction false} NotElsewhere(refs: seq<Ref>, ref: Ref)
    ensures ref !in Elsewhere(refs, ref)
  {
    if refs != [] {
      NotElsewhere(Rest(refs), ref);
    }
  }

  /** Deleting a row is right for a stack, that is, the filter drops exactly the deleted row's changes and leaves every
      other one replayable on its row, if and only if the history tells the row from the others. */
  lemma FilterIsRightExactly(w: World, db: Db, ref: Ref, id: RowId, cs: seq<Change>, refs: seq<Ref>, redoing: bool)
    requires Unique(w, db) && Hits(w, db, ref.table, id, ref) && Reaches(w, db, cs, refs, redoing)
    ensures Marked(w, cs, ref.table, id, id, redoing) <==>
      && WithoutRows(cs, refs, ref.table, id) == Elsewhere(refs, ref)
      && Reaches(w, db - {ref}, Without(cs, ref.table, id), WithoutRows(cs, refs, ref.table, id), redoing)
  {
    hide Reaches, Unique, Marked;
    SameLengths(w, db, cs, refs, redoing);
    MarkedByRows(w, db, ref, id, id, cs, refs, redoing);
    if Marked(w, cs, ref.table, id, id, redoing) {
      FilterOnItsRows(w, db, ref, id, id, cs, refs, redoing);
    } else if WithoutRows(cs, refs, ref.table, id) == Elsewhere(refs, ref) {
      NotElsewhere(refs, ref);
      forall i | 0 <= i < |cs| && refs[i] == ref ensures Carries(cs[i], ref.table, id) {
        if !Carries(cs[i], ref.table, id) {
          KeptRows(cs, refs, ref.table, id, i);
        }
      }
      SameRowsDropped(cs, refs, ref.table, id, ref);
    }
  }

  lemma SameLengths(w: World, db: Db, cs: seq<Change>, refs: seq<Ref>, redoing: bool)
    requires Reaches(w, db, cs, refs, redoing)
    ensures |cs| == |refs|
  {
  }

  /** A change made on the deleted row is refused without it. */
  lemma RefusedWithout(w: World, db: Db, ref: Ref, c: Change, redoing: bool)
    requires Unique(w, db) && Replays(w, db, c, redoing) && RowOf(w, db, c, redoing) == ref
    ensures !Replays(w, db - {ref}, c, redoing)
  {
    assert Hits(w, db, c.table, c.id, ref);
    forall other | Hits(w, db - {ref}, c.table, c.id, other) ensures false {
      assert Hits(w, db, c.table, c.id, other);
    }
  }

  /** And a change that survives on the deleted row blocks what is below it: if the filter drops no other row's change,
      the rest replays if and only if every change made on the deleted row carries its key. */
  lemma {:induction false} SurvivorsBlockExactly(
    w: World, db: Db, ref: Ref, id: RowId, cs: seq<Change>, refs: seq<Ref>, redoing: bool)
    requires Unique(w, db) && Reaches(w, db, cs, refs, redoing)
    requires forall i | 0 <= i < |cs| :: refs[i] != ref ==> !Carries(cs[i], ref.table, id)
    ensures Chain(w, db - {ref}, Without(cs, ref.table, id), redoing) <==>
      forall i | 0 <= i < |cs| :: refs[i] == ref ==> Carries(cs[i], ref.table, id)
    decreases |cs|
  {
    hide Replays, Unique, RowOf;
    if cs != [] {
      var c := Last(cs);
      var after := Replayed(w, db, c, redoing);
      ReplayedIsUnique(w, db, c, redoing);
      assert forall i | 0 <= i < |Rest(cs)| :: Rest(cs)[i] == cs[i] && Rest(refs)[i] == refs[i];
      assert cs[|cs| - 1] == c && refs[|cs| - 1] == Last(refs);
      SurvivorsBlockExactly(w, after, ref, id, Rest(cs), Rest(refs), redoing);
      if Last(refs) == ref {
        ReplayedElsewhere(w, db, c, redoing);
        assert after - {ref} == db - {ref};
        if !Carries(c, ref.table, id) {
          RefusedWithout(w, db, ref, c, redoing);
          Ends(Without(Rest(cs), ref.table, id), c);
        }
      } else {
        DeleteCommutes(w, db, ref, c, redoing);
        Ends(Without(Rest(cs), ref.table, id), c);
      }
    }
  }

  lemma SameRowWithout(w: World, db: Db, ref: Ref, c: Change, redoing: bool)
    requires Unique(w, db) && Replays(w, db, c, redoing) && RowOf(w, db, c, redoing) != ref
    requires Replays(w, db - {ref}, c, redoing)
    ensures RowOf(w, db - {ref}, c, redoing) == RowOf(w, db, c, redoing)
  {
    SmallerIsUnique(w, db, ref);
    FindIs(w, db - {ref}, RowOf(w, db, c, redoing), c.id);
  }

  lemma EditOnItsRow(w: World, s: System, rows: Rows, op: Op)
    requires OnTheirRows(w, s, rows) && Applies(w, s, op) && Undoable(w, s, op)
    ensures OnTheirRows(w, Step(w, s, op), StepRows(w, s, rows, op))
  {
    hide Reaches;
    var c := Made(w, s, op).value;
    var saved := Patch(w, s.db, c.table, c.id, c.column, c.after).value;
    var c' := c.(id := saved.id);
    assert c.before == s.db[saved.ref][c.column];
    PatchBack(w, s.db, c.table, c.id, c.column, c.after, c.before);
    assert Replays(w, saved.db, c', false) && RowOf(w, saved.db, c', false) == saved.ref;
    assert Replayed(w, saved.db, c', false) == s.db;
    Pushed(w, s.db, saved.db, s.page.undo, rows.undo, c', saved.ref);
    NothingToRedo(w, saved.db);
  }

  lemma NothingToRedo(w: World, db: Db)
    ensures Reaches(w, db, [], [], true)
  {
  }

  lemma Pushed(w: World, db: Db, after: Db, cs: seq<Change>, refs: seq<Ref>, c: Change, ref: Ref)
    requires Reaches(w, db, cs, refs, false)
    requires Replays(w, after, c, false) && RowOf(w, after, c, false) == ref && Replayed(w, after, c, false) == db
    ensures Reaches(w, after, cs + [c], refs + [ref], false)
  {
    hide Replays, Replayed, RowOf;
    Ends(cs, c);
    Ends(refs, ref);
  }

  lemma DeletionStaysOnRows(w: World, s: System, rows: Rows, op: Op)
    requires OnTheirRows(w, s, rows) && Careful(w, s, op) && op.Delete? && op.reaches
    requires s.page.open.Some? && Find(w, s.db, s.page.open.value, op.id).Some?
    ensures OnTheirRows(w, Step(w, s, op), StepRows(w, s, rows, op))
  {
    hide Reaches, Unique, Marked;
    SameLength(w, s, rows);
    var ref := Find(w, s.db, s.page.open.value, op.id).value;
    SmallerIsUnique(w, s.db, ref);
    FilterOnItsRows(w, s.db, ref, op.id, op.id, s.page.undo, rows.undo, false);
    FilterOnItsRows(w, s.db, ref, op.id, op.id, s.page.redo, rows.redo, true);
  }

  /** Every careful operation keeps every change on the row it was made on. */
  lemma StepStaysOnRows(w: World, s: System, rows: Rows, op: Op)
    requires OnTheirRows(w, s, rows) && Careful(w, s, op)
    ensures OnTheirRows(w, Step(w, s, op), StepRows(w, s, rows, op))
  {
    hide Reaches, Unique, Marked;
    ReachesIsChain(w, s.db, s.page.undo, rows.undo, false);
    ReachesIsChain(w, s.db, s.page.redo, rows.redo, true);
    SameLength(w, s, rows);
    match op
    case Undo(reaches) =>
      FailureChangesNothing(w, s, reaches);
      if Step(w, s, op) != s {
        TopReplays(w, s.db, s.page.undo, false);
        UndoStep(w, s);
        MoveAcross(w, s, s.page.undo, rows.undo, s.page.redo, rows.redo, false);
      }
    case Redo(reaches) =>
      FailureChangesNothing(w, s, reaches);
      if Step(w, s, op) != s {
        TopReplays(w, s.db, s.page.redo, true);
        RedoStep(w, s);
        MoveAcross(w, s, s.page.redo, rows.redo, s.page.undo, rows.undo, true);
      }
    case Delete(id, reaches) =>
      if reaches && s.page.open.Some? && Find(w, s.db, s.page.open.value, id).Some? {
        DeletionStaysOnRows(w, s, rows, op);
      }
    case Open(_) =>
    case _ =>
      if Applies(w, s, op) {
        EditOnItsRow(w, s, rows, op);
      } else {
        EditWithoutEffect(w, s, op);
      }
  }

  lemma SameLength(w: World, s: System, rows: Rows)
    requires OnTheirRows(w, s, rows)
    ensures |rows.undo| == |s.page.undo| && |rows.redo| == |s.page.redo|
  {
  }

  /** The rows noted over a run. */
  ghost function ExecRows(w: World, s: System, rows: Rows, ops: seq<Op>): Rows
    requires OnTheirRows(w, s, rows) && CarefulRun(w, s, ops)
    decreases |ops|
  {
    if ops == [] then rows
    else
      StepStaysOnRows(w, s, rows, ops[0]);
      ExecRows(w, Step(w, s, ops[0]), StepRows(w, s, rows, ops[0]), ops[1..])
  }

  lemma {:induction false} RunStaysOnRows(w: World, s: System, rows: Rows, ops: seq<Op>)
    requires OnTheirRows(w, s, rows) && CarefulRun(w, s, ops)
    ensures OnTheirRows(w, Exec(w, s, ops), ExecRows(w, s, rows, ops))
    decreases |ops|
  {
    if ops != [] {
      hide OnTheirRows, Careful, Step, StepRows;
      StepStaysOnRows(w, s, rows, ops[0]);
      RunStaysOnRows(w, Step(w, s, ops[0]), StepRows(w, s, rows, ops[0]), ops[1..]);
    }
  }

  /** The next change of a stack, as its key has it now, names the row it was made on. */
  lemma NextNamesItsRow(w: World, s: System, rows: Rows)
    requires OnTheirRows(w, s, rows)
    ensures s.page.undo != [] ==> Find(w, s.db, Last(s.page.undo).table, Last(s.page.undo).id) == Some(Last(rows.undo))
    ensures s.page.redo != [] ==> Find(w, s.db, Last(s.page.redo).table, Last(s.page.redo).id) == Some(Last(rows.redo))
  {
  }

  /** From an empty history, after every careful run, the next change of either stack names the row it was made on, and
      so does each below it when its turn comes. */
  lemma KeysNameTheirRows(w: World, db: Db, open: Option<TableName>, ops: seq<Op>)
    requires Unique(w, db) && CarefulRun(w, System(db, Page(open, [], [])), ops)
    ensures var s := Exec(w, System(db, Page(open, [], [])), ops);
      var rows := ExecRows(w, System(db, Page(open, [], [])), Rows([], []), ops);
      && OnTheirRows(w, s, rows)
      && (s.page.undo != [] ==> Find(w, s.db, Last(s.page.undo).table, Last(s.page.undo).id) == Some(Last(rows.undo)))
      && (s.page.redo != [] ==> Find(w, s.db, Last(s.page.redo).table, Last(s.page.redo).id) == Some(Last(rows.redo)))
  {
    hide Careful, Step, StepRows, Exec, Find;
    RunStaysOnRows(w, System(db, Page(open, [], [])), Rows([], []), ops);
    NextNamesItsRow(w, Exec(w, System(db, Page(open, [], [])), ops),
                    ExecRows(w, System(db, Page(open, [], [])), Rows([], []), ops));
  }
}
