/** The undo and redo history of the tables page, on values: what each operation does to the two stacks and to the
    database, and the law that they are inverses. */
module EditHistory {
  import opened Options
  import opened TableEdits

  /** One edit in the history. Its `id` follows the row's key. */
  datatype Change = Change(table: TableName, id: RowId, column: Column, before: Value, after: Value)

  /** `open` is the table whose rows are on the page. */
  datatype Page = Page(open: Option<TableName>, undo: seq<Change>, redo: seq<Change>)

  datatype System = System(db: Db, page: Page)

  /** `reaches` is false when the call to the server does not get through. */
  datatype Op =
    | Edit(id: RowId, column: Column, text: string, reaches: bool)
    | Toggle(id: RowId, column: Column, reaches: bool)
    | Undo(reaches: bool)
    | Redo(reaches: bool)
    | Delete(id: RowId, reaches: bool)
    | Open(table: Option<TableName>)

  // ---- the page ----

  function Last<T>(s: seq<T>): T
    requires s != []
  {
    s[|s| - 1]
  }

  function Rest<T>(s: seq<T>): seq<T>
    requires s != []
  {
    s[..|s| - 1]
  }

  /** The reply to a change is the row's key as the server stored it, or nothing when the change failed. The key is
      only taken over while the change's table is open. */
  function Rekeyed(page: Page, c: Change, reply: RowId): Change {
    if page.open == Some(c.table) then c.(id := reply) else c
  }

  function Edited(page: Page, c: Change, reply: Option<RowId>): Page {
    if reply.None? then page else page.(undo := page.undo + [Rekeyed(page, c, reply.value)], redo := [])
  }

  function Undone(page: Page, reply: Option<RowId>): Page {
    if page.undo == [] || reply.None? then page
    else page.(undo := Rest(page.undo), redo := page.redo + [Rekeyed(page, Last(page.undo), reply.value)])
  }

  function Redone(page: Page, reply: Option<RowId>): Page {
    if page.redo == [] || reply.None? then page
    else page.(redo := Rest(page.redo), undo := page.undo + [Rekeyed(page, Last(page.redo), reply.value)])
  }

  function Without(cs: seq<Change>, table: TableName, id: RowId): seq<Change> {
    if cs == [] then []
    else if Last(cs).table == table && Last(cs).id == id then Without(Rest(cs), table, id)
    else Without(Rest(cs), table, id) + [Last(cs)]
  }

  /** The page once a row is deleted. */
  function Dropped(page: Page, table: TableName, id: RowId): Page {
    page.(undo := Without(page.undo, table, id), redo := Without(page.redo, table, id))
  }

  /** What a typed text means for a cell that holds `was`. */
  function Normalized(w: World, text: string, was: Value): Result<Value> {
    if Lower(text) == "null" then Ok(Null)
    else
      match was
      case Number(_) =>
        if w.parse(text).Some? && !Blank(text) then Ok(Number(w.parse(text).value)) else Refused
      case Bool(_) =>
        if Lower(text) == "true" then Ok(Bool(true))
        else if Lower(text) == "false" then Ok(Bool(false))
        else Refused
      case Document(_, _) => if w.parseJson(text).Some? then Ok(w.parseJson(text).value) else Refused
      case _ => Ok(Text(text))
  }

  function Lower(s: string): string {
    seq(|s|, i requires 0 <= i < |s| => if 'A' <= s[i] <= 'Z' then s[i] - 'A' + 'a' else s[i])
  }

  /** JavaScript's `!value`. */
  function Negated(v: Value): Value {
    match v
    case Null => Bool(true)
    case Bool(b) => Bool(!b)
    case Number(n) => Bool(n == 0.0)
    case Text(s) => Bool(s == "")
    case Document(_, _) => Bool(false)
  }

  predicate Editable(w: World, page: Page, column: Column) {
    page.open.Some? && page.open.value in w.tables && column in w.tables[page.open.value].editable
  }

  /** The change for a typed text: the column must be editable, the text readable and the shown value different. */
  function Typed(w: World, page: Page, id: RowId, column: Column, text: string, was: Value): Option<Change> {
    var v := Normalized(w, text, was);
    if !Editable(w, page, column) || v.Refused? || Shown(w, v.value) == Shown(w, was) then None
    else Some(Change(page.open.value, id, column, was, v.value))
  }

  /** Different numbers are shown differently. */
  ghost predicate Distinguishes(w: World) {
    forall a, b | w.show(a) == w.show(b) :: a == b
  }

  /** What an object is shown as, whatever it holds. */
  const ANY_OBJECT := "[object Object]"

  /** Two different values that the page takes for one: no value and the empty text, either way round; an object and any
      other object, or whatever is shown as objects are; a list and whatever is shown as its elements, joined. */
  ghost predicate TakenForEqual(w: World, was: Value, v: Value) {
    match was
    case Null => v == Text("")
    case Text(s) => s == "" && v == Null
    case Document(list, _) =>
      var face := if list then w.joined(JsonText(was)) else ANY_OBJECT;
      (match v
       case Null => face == ""
       case Bool(b) => face == if b then "true" else "false"
       case Number(n) => face == w.show(n)
       case Text(s) => face == s
       case Document(list', _) => if list' then w.joined(JsonText(v)) == face else face == ANY_OBJECT)
    case _ => false
  }

  /** An edit of an editable cell to a different, readable value is not sent exactly when the page takes the two for
      equal. */
  lemma EditsDroppedExactly(w: World, page: Page, id: RowId, column: Column, text: string, was: Value)
    requires Legible(w) && Distinguishes(w) && Editable(w, page, column)
    requires Normalized(w, text, was).Ok? && Normalized(w, text, was).value != was
    ensures Typed(w, page, id, column, text, was) == None <==> TakenForEqual(w, was, Normalized(w, text, was).value)
  {
    var v := Normalized(w, text, was).value;
    assert Blank("");
    if was.Number? && v.Null? {
      assert !Blank(w.show(was.n));
    }
  }

  /** In particular no edit of an object to another object is ever sent, and none of an empty cell to the empty text. */
  lemma DroppedEdits(w: World, page: Page, id: RowId, column: Column, text: string, was: Value)
    requires Legible(w) && Distinguishes(w)
    requires
      || (was == Null && text == "")
      || (was.Document? && !was.list && Lower(text) != "null"
          && w.parseJson(text).Some? && w.parseJson(text).value.Document? && !w.parseJson(text).value.list)
    ensures Typed(w, page, id, column, text, was) == None
  {
    assert |Lower("")| == 0;
    var v := Normalized(w, text, was).value;
    if Editable(w, page, column) && v != was {
      EditsDroppedExactly(w, page, id, column, text, was);
    }
  }

  function Toggled(w: World, page: Page, id: RowId, column: Column, was: Value): Option<Change> {
    if Editable(w, page, column) then Some(Change(page.open.value, id, column, was, Negated(was))) else None
  }

  // ---- the page and the server together ----

  /** One change sent to the server: the database afterwards, and the reply. */
  ghost function Send(w: World, db: Db, c: Change, v: Value, reaches: bool): (Db, Option<RowId>) {
    var r := Patch(w, db, c.table, c.id, c.column, v);
    if reaches && r.Ok? then (r.value.db, Some(r.value.id)) else (db, None)
  }

  /** The change an edit or a toggle makes, if it makes one: the row must be on the page, and the page must agree. */
  ghost function Made(w: World, s: System, op: Op): Option<Change> {
    if s.page.open.None? || !(op.Edit? || op.Toggle?) then None
    else
      var found := Find(w, s.db, s.page.open.value, op.id);
      if found.None? then None
      else
        var was := Cell(s.db[found.value], op.column);
        if op.Toggle? then Toggled(w, s.page, op.id, op.column, was) else Typed(w, s.page, op.id, op.column, op.text, was)
  }

  ghost function Step(w: World, s: System, op: Op): System {
    match op
    case Open(table) => s.(page := s.page.(open := table))
    case Undo(reaches) =>
      if s.page.undo == [] then s
      else
        var (db, reply) := Send(w, s.db, Last(s.page.undo), Last(s.page.undo).before, reaches);
        System(db, Undone(s.page, reply))
    case Redo(reaches) =>
      if s.page.redo == [] then s
      else
        var (db, reply) := Send(w, s.db, Last(s.page.redo), Last(s.page.redo).after, reaches);
        System(db, Redone(s.page, reply))
    case Delete(id, reaches) =>
      if s.page.open.None? then s
      else
        var table := s.page.open.value;
        var found := Find(w, s.db, table, id);
        if !reaches || found.None? then s
        else
          System(s.db - {found.value}, Dropped(s.page, table, id))
    case _ =>
      var made := Made(w, s, op);
      if made.None? then s
      else
        var (db, reply) := Send(w, s.db, made.value, made.value.after, op.reaches);
        System(db, Edited(s.page, made.value, reply))
  }

  ghost function Exec(w: World, s: System, ops: seq<Op>): System
    decreases |ops|
  {
    if ops == [] then s else Exec(w, Step(w, s, ops[0]), ops[1..])
  }

  // ---- the invariant ----

  function Target(c: Change, redoing: bool): Value {
    if redoing then c.after else c.before
  }

  /** Replaying `c` now reaches its row, is accepted, leaves the row with a key, and could be reversed. */
  ghost predicate Replays(w: World, db: Db, c: Change, redoing: bool) {
    var r := Patch(w, db, c.table, c.id, c.column, Target(c, redoing));
    && r.Ok?
    && Null !in r.value.id
    && Written(w, c.table, c.column, Target(c, !redoing)) == Ok(db[r.value.ref][c.column])
  }

  ghost function Replayed(w: World, db: Db, c: Change, redoing: bool): Db
    requires Replays(w, db, c, redoing)
  {
    Patch(w, db, c.table, c.id, c.column, Target(c, redoing)).value.db
  }

  /** The whole stack replays, from its top down. */
  ghost predicate Chain(w: World, db: Db, cs: seq<Change>, redoing: bool)
    decreases |cs|
  {
    cs == [] ||
    (Replays(w, db, Last(cs), redoing) && Chain(w, Replayed(w, db, Last(cs), redoing), Rest(cs), redoing))
  }

  ghost predicate Inv(w: World, s: System) {
    Unique(w, s.db) && Chain(w, s.db, s.page.undo, false) && Chain(w, s.db, s.page.redo, true)
  }

  /** The row that replaying `c` writes. */
  ghost function RowOf(w: World, db: Db, c: Change, redoing: bool): Ref
    requires Replays(w, db, c, redoing)
  {
    Patch(w, db, c.table, c.id, c.column, Target(c, redoing)).value.ref
  }

  /** The key the row has after replaying `c`. */
  ghost function KeyAfter(w: World, db: Db, c: Change, redoing: bool): RowId
    requires Replays(w, db, c, redoing)
  {
    Patch(w, db, c.table, c.id, c.column, Target(c, redoing)).value.id
  }

  lemma Ends<T>(s: seq<T>, x: T)
    ensures Last(s + [x]) == x && Rest(s + [x]) == s
  {
  }

  /** After a change that moved the row to another key, the key it had finds nothing. */
  lemma StaleKeyFindsNothing(w: World, db: Db, c: Change, redoing: bool)
    requires Unique(w, db) && Replays(w, db, c, redoing) && c.id != KeyAfter(w, db, c, redoing)
    ensures Find(w, Replayed(w, db, c, redoing), c.table, c.id) == None
  {
    var saved := Patch(w, db, c.table, c.id, c.column, Target(c, redoing)).value;
    forall ref | Hits(w, saved.db, c.table, c.id, ref) ensures false {
      assert Hits(w, db, c.table, c.id, saved.ref);
      if ref != saved.ref {
        assert Hits(w, db, c.table, c.id, ref);
      }
    }
  }

  /** Replaying a change and then reversing it gives the old database and the old key back, exactly when the change
      took over the row's new key. */
  lemma ReverseReplays(w: World, db: Db, c: Change, id: RowId, redoing: bool)
    requires Unique(w, db) && Replays(w, db, c, redoing)
    requires id == KeyAfter(w, db, c, redoing) || id == c.id
    ensures Unique(w, Replayed(w, db, c, redoing))
    ensures var after := Replayed(w, db, c, redoing);
      var c' := c.(id := id);
      && (Replays(w, after, c', !redoing) <==> id == KeyAfter(w, db, c, redoing))
      && (id == KeyAfter(w, db, c, redoing) ==>
            Replayed(w, after, c', !redoing) == db && KeyAfter(w, after, c', !redoing) == c.id)
  {
    var saved := Patch(w, db, c.table, c.id, c.column, Target(c, redoing)).value;
    if id == saved.id {
      PatchBack(w, db, c.table, c.id, c.column, Target(c, redoing), Target(c, !redoing));
    } else {
      StaleKeyFindsNothing(w, db, c, redoing);
    }
  }

  // ---- one undo, one redo ----

  /** Whether the change will know the row's key after being replayed: its table is open, or the key stays. */
  ghost predicate KeepsTrack(w: World, s: System, c: Change, redoing: bool)
    requires Replays(w, s.db, c, redoing)
  {
    s.page.open == Some(c.table) || KeyAfter(w, s.db, c, redoing) == c.id
  }

  /** An undo that reaches the server succeeds, moves the top change across and goes down its chain. What was on the
      undo stack can still be undone; the redo stack can be redone from its new top exactly when the change kept
      track of its row. */
  lemma UndoStep(w: World, s: System)
    requires Inv(w, s) && s.page.undo != []
    ensures var c := Last(s.page.undo);
      var s' := Step(w, s, Undo(true));
      && s'.db == Replayed(w, s.db, c, false)
      && s'.page.open == s.page.open && s'.page.undo == Rest(s.page.undo)
      && s'.page.redo == s.page.redo + [Rekeyed(s.page, c, KeyAfter(w, s.db, c, false))]
      && (Inv(w, s') <==> KeepsTrack(w, s, c, false))
      && (KeepsTrack(w, s, c, false) ==> Step(w, s', Redo(true)) == s)
  {
    hide Patch, Unique;
    var c := Last(s.page.undo);
    var c' := Rekeyed(s.page, c, KeyAfter(w, s.db, c, false));
    ReverseReplays(w, s.db, c, c'.id, false);
    Ends(s.page.redo, c');
    assert s.page.undo == Rest(s.page.undo) + [c];
  }

  lemma RedoStep(w: World, s: System)
    requires Inv(w, s) && s.page.redo != []
    ensures var c := Last(s.page.redo);
      var s' := Step(w, s, Redo(true));
      && s'.db == Replayed(w, s.db, c, true)
      && s'.page.open == s.page.open && s'.page.redo == Rest(s.page.redo)
      && s'.page.undo == s.page.undo + [Rekeyed(s.page, c, KeyAfter(w, s.db, c, true))]
      && (Inv(w, s') <==> KeepsTrack(w, s, c, true))
      && (KeepsTrack(w, s, c, true) ==> Step(w, s', Undo(true)) == s)
  {
    hide Patch, Unique;
    var c := Last(s.page.redo);
    var c' := Rekeyed(s.page, c, KeyAfter(w, s.db, c, true));
    ReverseReplays(w, s.db, c, c'.id, true);
    Ends(s.page.undo, c');
    assert s.page.redo == Rest(s.page.redo) + [c];
  }

  /** An undo or a redo changes something exactly when its call gets through and the server accepts it; otherwise the
      database and both stacks stay as they were. */
  lemma FailureChangesNothing(w: World, s: System, reaches: bool)
    ensures Step(w, s, Undo(reaches)) != s <==>
      s.page.undo != [] && reaches
      && var c := Last(s.page.undo); Patch(w, s.db, c.table, c.id, c.column, c.before).Ok?
    ensures Step(w, s, Redo(reaches)) != s <==>
      s.page.redo != [] && reaches
      && var c := Last(s.page.redo); Patch(w, s.db, c.table, c.id, c.column, c.after).Ok?
  {
  }

  // ---- one edit ----

  /** The edit or toggle `op` changes the database. */
  ghost predicate Applies(w: World, s: System, op: Op) {
    var made := Made(w, s, op);
    && made.Some? && op.reaches
    && Patch(w, s.db, made.value.table, made.value.id, made.value.column, made.value.after).Ok?
  }

  /** The old value is one the server would write, and the row still has a whole key. */
  ghost predicate Undoable(w: World, s: System, op: Op)
    requires Applies(w, s, op)
  {
    var c := Made(w, s, op).value;
    && Written(w, c.table, c.column, c.before) == Ok(c.before)
    && Null !in Patch(w, s.db, c.table, c.id, c.column, c.after).value.id
  }

  /** An edit pushes one change and clears the redo stack; undoing it gives the old database and undo stack back
      exactly when the old value can be written again and no key column was set to NULL. */
  lemma EditStep(w: World, s: System, op: Op)
    requires Inv(w, s) && Applies(w, s, op)
    ensures var s' := Step(w, s, op);
      && s'.page.redo == [] && s'.page.open == s.page.open
      && s'.page.undo != [] && Rest(s'.page.undo) == s.page.undo
      && var back := Step(w, s', Undo(true));
      && (Undoable(w, s, op) <==> back.db == s.db && back.page.undo == s.page.undo)
      && (Undoable(w, s, op) ==> Inv(w, s'))
  {
    var c := Made(w, s, op).value;
    var saved := Patch(w, s.db, c.table, c.id, c.column, c.after).value;
    var c' := c.(id := saved.id);
    var s' := Step(w, s, op);
    Ends(s.page.undo, c');
    assert c.before == s.db[saved.ref][c.column];
    if Undoable(w, s, op) {
      PatchBack(w, s.db, c.table, c.id, c.column, c.after, c.before);
    } else if Patch(w, s'.db, c.table, c'.id, c.column, c.before).Ok? {
      FindIs(w, s'.db, saved.ref, saved.id);
    }
  }
}
