/** The tables page as a program: its stacks hold change objects whose `id` is rewritten in place. Each operation takes
    the server's reply as a parameter, and is proved to do what the history's specification says. */
module EditHistoryPage {
  import opened Options
  import opened TableEdits
  import History = EditHistory

  class Change {
    const table: TableName
    const column: Column
    const before: Value
    const after: Value
    var id: RowId

    constructor (c: History.Change)
      ensures Record() == c
    {
      table, column, before, after, id := c.table, c.column, c.before, c.after, c.id;
    }

    function Record(): History.Change
      reads this
    {
      History.Change(table, id, column, before, after)
    }
  }

  /** The objects of a stack hold these changes, in this order. */
  ghost predicate Holds(stack: seq<Change>, cs: seq<History.Change>)
    reads stack
  {
    |stack| == |cs| && forall i | 0 <= i < |stack| :: stack[i].Record() == cs[i]
  }

  predicate Distinct(s: seq<Change>) {
    forall i, j | 0 <= i < j < |s| :: s[i] != s[j]
  }

  class TablesPage {
    var open: Option<TableName>
    var undoStack: seq<Change>
    var redoStack: seq<Change>
    var actionError: bool
    ghost var view: History.Page

    /** The stacks hold what `view` says, and no change object is in the history twice. */
    ghost predicate Valid()
      reads this, undoStack, redoStack
    {
      && view.open == open && Holds(undoStack, view.undo) && Holds(redoStack, view.redo)
      && Distinct(undoStack) && Distinct(redoStack) && (forall c <- undoStack :: c !in redoStack)
    }

    constructor ()
      ensures Valid() && view == History.Page(None, [], [])
    {
      open, undoStack, redoStack, actionError := None, [], [], false;
      view := History.Page(None, [], []);
    }

    /** Shows another table, or none. */
    method OpenTable(table: Option<TableName>)
      requires Valid()
      modifies this`open, this`view
      ensures Valid() && view == old(view).(open := table)
    {
      open, view := table, view.(open := table);
    }

    /** `reply` is the row's key as the server stored it, or nothing when the call failed. */
    method ApplyChange(change: Change, reply: Option<RowId>)
      modifies this`actionError, change`id
      ensures actionError == reply.None?
      ensures change.id == if reply.Some? && open == Some(change.table) then reply.value else old(change.id)
    {
      actionError := false;
      if reply.None? {
        actionError := true;
      } else if open == Some(change.table) {
        change.id := reply.value;
      }
    }

    /** Sends a new change and, once it is saved, puts it on the undo stack. */
    method Make(c: History.Change, reply: Option<RowId>)
      requires Valid()
      modifies this`actionError, this`undoStack, this`redoStack, this`view
      ensures Valid() && view == History.Edited(old(view), c, reply)
    {
      var change := new Change(c);
      ApplyChange(change, reply);
      if actionError { return; }
      undoStack, redoStack := undoStack + [change], [];
      view := History.Edited(view, c, reply);
    }

    /** Edits one cell that holds `was`. `sent` is the change that went to the server, if one did. */
    method EditCell(w: World, id: RowId, column: Column, was: Value, rawText: string, reply: Option<RowId>)
      returns (sent: Option<History.Change>)
      requires Valid()
      modifies this`actionError, this`undoStack, this`redoStack, this`view
      ensures Valid() && sent == History.Typed(w, old(view), id, column, rawText, was)
      ensures view == if sent.None? then old(view) else History.Edited(old(view), sent.value, reply)
    {
      sent := None;
      if open.None? || open.value !in w.tables || column !in w.tables[open.value].editable { return; }
      var normalized := History.Normalized(w, rawText, was);
      if normalized.Refused? { return; }
      if Shown(w, was) == Shown(w, normalized.value) { return; }
      sent := Some(History.Change(open.value, id, column, was, normalized.value));
      Make(sent.value, reply);
    }

    method ToggleBool(w: World, id: RowId, column: Column, was: Value, reply: Option<RowId>)
      returns (sent: Option<History.Change>)
      requires Valid()
      modifies this`actionError, this`undoStack, this`redoStack, this`view
      ensures Valid() && sent == History.Toggled(w, old(view), id, column, was)
      ensures view == if sent.None? then old(view) else History.Edited(old(view), sent.value, reply)
    {
      sent := None;
      if open.None? || open.value !in w.tables || column !in w.tables[open.value].editable { return; }
      sent := Some(History.Change(open.value, id, column, was, History.Negated(was)));
      Make(sent.value, reply);
    }

    method Undo(reply: Option<RowId>)
      requires Valid()
      modifies this`actionError, this`undoStack, this`redoStack, this`view, undoStack
      ensures Valid() && view == History.Undone(old(view), reply)
    {
      hide Distinct;
      if |undoStack| == 0 { return; }
      LastIsElsewhere(undoStack, redoStack);
      var change := undoStack[|undoStack| - 1];
      undoStack := undoStack[..|undoStack| - 1];
      ApplyChange(change, reply);
      if actionError {
        undoStack := undoStack + [change];
        assert undoStack == old(undoStack);
        return;
      }
      assert change.Record() == History.Rekeyed(view, History.Last(view.undo), reply.value);
      redoStack := redoStack + [change];
      view := History.Undone(view, reply);
    }

    method Redo(reply: Option<RowId>)
      requires Valid()
      modifies this`actionError, this`undoStack, this`redoStack, this`view, redoStack
      ensures Valid() && view == History.Redone(old(view), reply)
    {
      hide Distinct;
      if |redoStack| == 0 { return; }
      LastIsElsewhere(redoStack, undoStack);
      var change := redoStack[|redoStack| - 1];
      redoStack := redoStack[..|redoStack| - 1];
      ApplyChange(change, reply);
      if actionError {
        redoStack := redoStack + [change];
        assert redoStack == old(redoStack);
        return;
      }
      assert change.Record() == History.Rekeyed(view, History.Last(view.redo), reply.value);
      undoStack := undoStack + [change];
      view := History.Redone(view, reply);
    }

    /** The change on top of one stack is nowhere else, and can move to the other. */
    static lemma LastIsElsewhere(from: seq<Change>, to: seq<Change>)
      requires from != [] && Distinct(from) && Distinct(to) && forall c <- from :: c !in to
      ensures var c := from[|from| - 1];
        && c !in from[..|from| - 1] && c !in to && Distinct(from[..|from| - 1]) && Distinct(to + [c])
    {
    }

    /** Keeps the changes of every other row; `cs` are the changes that `stack` holds. */
    static method Others(stack: seq<Change>, ghost cs: seq<History.Change>, table: TableName, id: RowId)
      returns (kept: seq<Change>)
      requires Distinct(stack) && Holds(stack, cs)
      ensures Holds(kept, History.Without(cs, table, id))
      ensures Distinct(kept) && forall c <- kept :: c in stack
    {
      kept := [];
      var i := 0;
      while i < |stack|
        invariant i <= |stack|
        invariant Holds(kept, History.Without(cs[..i], table, id))
        invariant Distinct(kept) && forall c <- kept :: c in stack[..i]
      {
        WithoutNext(cs, i, table, id);
        assert stack[i] !in stack[..i];
        if !(stack[i].table == table && stack[i].id == id) {
          kept := kept + [stack[i]];
        }
        i := i + 1;
      }
      assert cs[..i] == cs;
    }

    static lemma WithoutNext(cs: seq<History.Change>, i: nat, table: TableName, id: RowId)
      requires i < |cs|
      ensures History.Without(cs[..i + 1], table, id) ==
        History.Without(cs[..i], table, id) + if cs[i].table == table && cs[i].id == id then [] else [cs[i]]
    {
      History.Ends(cs[..i], cs[i]);
      assert cs[..i + 1] == cs[..i] + [cs[i]];
    }

    /** Deletes a row of the open table: its changes leave both stacks once the server has deleted it. */
    method ConfirmDeleteRow(id: RowId, deleted: bool)
      requires Valid() && open.Some?
      modifies this`actionError, this`undoStack, this`redoStack, this`view
      ensures Valid() && actionError == !deleted
      ensures view == if deleted then History.Dropped(old(view), open.value, id) else old(view)
    {
      actionError := !deleted;
      if deleted {
        var undo := Others(undoStack, view.undo, open.value, id);
        var redo := Others(redoStack, view.redo, open.value, id);
        view := History.Dropped(view, open.value, id);
        undoStack, redoStack := undo, redo;
      }
    }
  }
}
