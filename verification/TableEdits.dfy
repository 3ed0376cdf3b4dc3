/** The server's half of a table edit: a value is fitted to its column's type, the row is found by its key, and one
    cell is written. The database is a map from row identities to rows, so a row keeps its identity when its key
    changes. */
module TableEdits {
  import opened Options

  datatype Result<T> = Ok(value: T) | Refused

  /** A cell. A JSON list or object is held by its compact JSON text, less the opening bracket. */
  datatype Value = Null | Bool(b: bool) | Number(n: real) | Text(s: string) | Document(list: bool, rest: string)

  type TableName = string

  type Column = string

  type Row = map<Column, Value>

  /** A decoded row key: the values of the key columns. */
  type RowId = seq<Value>

  datatype Kind = Unknown | Integer | Decimal | Boolean | Json | List | Textual | Other

  datatype Table = Table(kinds: map<Column, Kind>, key: seq<Column>, required: set<Column>, editable: set<Column>)

  /** The tables, and JavaScript's conversions: `parse` of a text to a number gives nothing for NaN and the infinities,
      `parseJson` nothing for a text that is not JSON, and `joined` is a list, given by its JSON, as a text. */
  datatype World = World(
    tables: map<TableName, Table>,
    parse: string -> Option<real>,
    show: real -> string,
    parseJson: string -> Option<Value>,
    joined: string -> string
  )

  /** Which row, whatever its key says. */
  datatype Ref = Ref(table: TableName, number: nat)

  type Db = map<Ref, Row>

  // ---- values ----

  /** What JavaScript's `trim` takes away. */
  predicate WhiteSpace(c: char) {
    '\t' <= c <= '\r' || c == ' ' || c in {'\U{A0}', '\U{1680}', '\U{2028}', '\U{2029}', '\U{202F}', '\U{205F}', '\U{3000}', '\U{FEFF}'}
    || '\U{2000}' <= c <= '\U{200A}'
  }

  predicate Blank(s: string) {
    forall c <- s :: WhiteSpace(c)
  }

  function Shown(w: World, v: Value): string {
    match v
    case Null => ""
    case Bool(b) => if b then "true" else "false"
    case Number(n) => w.show(n)
    case Text(s) => s
    case Document(list, rest) => if list then w.joined(JsonText(v)) else "[object Object]"
  }

  /** `JSON.stringify` of a list or an object. */
  function JsonText(v: Value): string
    requires v.Document?
  {
    (if v.list then "[" else "{") + v.rest
  }

  predicate SafeInteger(n: real) {
    n == n.Floor as real && -9007199254740991.0 <= n <= 9007199254740991.0
  }

  function ToNumber(w: World, v: Value): Option<real> {
    if v.Number? then Some(v.n) else w.parse(Shown(w, v))
  }

  predicate Empty(v: Value) {
    v.Null? || (v.Text? && Blank(v.s))
  }

  /** The value that is written for `v`, or a refusal. */
  function Coerce(w: World, kind: Kind, v: Value): Result<Value> {
    if kind.Unknown? then
      Ok(v)
    else if Empty(v) then
      Ok(if kind.Textual? && v == Text("") then v else Null)
    else
      match kind
      case Integer =>
        var n := ToNumber(w, v);
        if n.Some? && SafeInteger(n.value) then Ok(Number(n.value)) else Refused
      case Decimal =>
        var n := ToNumber(w, v);
        if n.Some? then Ok(Number(n.value)) else Refused
      case Boolean =>
        if v == Bool(true) || v == Text("true") then Ok(Bool(true))
        else if v == Bool(false) || v == Text("false") then Ok(Bool(false))
        else Refused
      case Json =>
        if !v.Text? then Ok(v)
        else if w.parseJson(v.s).Some? then Ok(w.parseJson(v.s).value)
        else Refused
      case List =>
        var list := if v.Text? then w.parseJson(v.s) else Some(v);
        if list.Some? && list.value.Document? && list.value.list then Ok(list.value) else Refused
      case _ => Ok(Text(if v.Document? then JsonText(v) else Shown(w, v)))
  }

  /** A number is never shown as white space, and a JSON text is never its own content: a text in JSON is quoted. */
  ghost predicate Legible(w: World) {
    (forall n :: !Blank(w.show(n))) && forall s :: w.parseJson(s) != Some(Text(s))
  }

  /** What the server stored, it would store again, so that writing a stored value back changes nothing: in every column
      but one, a JSON column that holds a text. There the text comes back without its quotes. */
  lemma CoerceIsIdempotent(w: World, kind: Kind, v: Value)
    requires Legible(w) && Coerce(w, kind, v).Ok?
    ensures var stored := Coerce(w, kind, v).value;
      Coerce(w, kind, stored) == Ok(stored) <==> !(kind.Json? && stored.Text?)
  {
    assert 't' in Shown(w, Bool(true)) && 'f' in Shown(w, Bool(false));
    if v.Document? {
      assert JsonText(v)[0] in JsonText(v);
    }
  }

  /** Exactly the values that a column stores as they are. */
  lemma StoredAsIs(w: World, kind: Kind, v: Value)
    requires Legible(w)
    ensures Coerce(w, kind, v) == Ok(v) <==>
      match kind
      case Unknown => true
      case Integer => v.Null? || (v.Number? && SafeInteger(v.n))
      case Decimal => v.Null? || v.Number?
      case Boolean => v.Null? || v.Bool?
      case Json => !v.Text?
      case List => v.Null? || (v.Document? && v.list)
      case Textual => v.Null? || v == Text("") || (v.Text? && !Blank(v.s))
      case Other => v.Null? || (v.Text? && !Blank(v.s))
  {
    assert Blank("");
  }

  predicate Equals(n: real, i: int) {
    n == i as real
  }

  /** The whole numbers that JavaScript counts exactly. */
  lemma SafeIntegersExactly(n: real)
    ensures SafeInteger(n) <==> exists i :: Equals(n, i) && -0x1F_FFFF_FFFF_FFFF <= i <= 0x1F_FFFF_FFFF_FFFF
  {
    if SafeInteger(n) {
      assert Equals(n, n.Floor);
    }
  }

  /** The JSON text tells which list or object it is of. */
  lemma JsonTextTells(v: Value, u: Value)
    requires v.Document? && u.Document?
    ensures JsonText(v) == JsonText(u) <==> v == u
    ensures JsonText(v)[0] == if v.list then '[' else '{'
  {
    assert JsonText(v)[1..] == v.rest && JsonText(u)[1..] == u.rest;
  }

  /** A value reads as a number: it is one, or what it is shown as is one. */
  predicate Reads(w: World, v: Value, n: real) {
    if v.Number? then v.n == n else w.parse(Shown(w, v)) == Some(n)
  }

  /** The stored value `u` is what `v` says to a column of this kind. No value and white space mean no value, except that
      text may be empty. */
  predicate Says(w: World, kind: Kind, v: Value, u: Value) {
    if kind.Unknown? then u == v
    else if Empty(v) then u == if kind.Textual? && v == Text("") then v else Null
    else
      match u
      case Null => kind.Json? && (if v.Text? then w.parseJson(v.s) == Some(u) else v == u)
      case Number(n) =>
        || ((kind.Integer? || kind.Decimal?) && Reads(w, v, n) && (kind.Integer? ==> SafeInteger(n)))
        || (kind.Json? && (if v.Text? then w.parseJson(v.s) == Some(u) else v == u))
      case Bool(_) =>
        || (kind.Boolean? && (v == u || v == Text(Shown(w, u))))
        || (kind.Json? && (if v.Text? then w.parseJson(v.s) == Some(u) else v == u))
      case Text(s) =>
        || ((kind.Textual? || kind.Other?) && s == if v.Document? then JsonText(v) else Shown(w, v))
        || (kind.Json? && v.Text? && w.parseJson(v.s) == Some(u))
      case Document(list, _) =>
        (kind.Json? || (kind.List? && list)) && (if v.Text? then w.parseJson(v.s) == Some(u) else v == u)
  }

  /** A column stores exactly what the value says to it, and refuses a value that says nothing. */
  lemma CoerceExactly(w: World, kind: Kind, v: Value, u: Value)
    ensures Coerce(w, kind, v) == Ok(u) <==> Says(w, kind, v, u)
  {
  }

  // ---- rows ----

  function Cell(row: Row, c: Column): Value {
    if c in row then row[c] else Null
  }

  function Key(table: Table, row: Row): RowId {
    seq(|table.key|, i requires 0 <= i < |table.key| => Cell(row, table.key[i]))
  }

  /** The row a key finds: SQL equality never holds of NULL. */
  ghost predicate Hits(w: World, db: Db, table: TableName, id: RowId, ref: Ref) {
    ref in db && ref.table == table && table in w.tables && Key(w.tables[table], db[ref]) == id && Null !in id
  }

  ghost predicate Unique(w: World, db: Db) {
    forall a: Ref, b: Ref, id: RowId | Hits(w, db, a.table, id, a) && Hits(w, db, a.table, id, b) :: a == b
  }

  ghost function Find(w: World, db: Db, table: TableName, id: RowId): Option<Ref> {
    if exists ref :: Hits(w, db, table, id, ref) then
      var ref :| Hits(w, db, table, id, ref);
      Some(ref)
    else
      None
  }

  /** A key has a NULL exactly when the row has none or no value in a key column. */
  lemma KeyOfMissing(table: Table, row: Row)
    ensures Null in Key(table, row) <==> exists c <- table.key :: c !in row || row[c] == Null
  {
    var key := Key(table, row);
    if c :| c in table.key && (c !in row || row[c] == Null) {
      var i :| 0 <= i < |table.key| && table.key[i] == c;
      assert key[i] == Null;
    }
    if Null in key {
      var i :| 0 <= i < |key| && key[i] == Null;
      assert table.key[i] in table.key;
    }
  }

  lemma FindIs(w: World, db: Db, ref: Ref, id: RowId)
    requires Unique(w, db) && Hits(w, db, ref.table, id, ref)
    ensures Find(w, db, ref.table, id) == Some(ref)
  {
  }

  /** The key sent back for a row finds that row again, unless one of its key columns is NULL. */
  lemma KeyFindsItsRow(w: World, db: Db, ref: Ref)
    requires Unique(w, db) && ref in db && ref.table in w.tables
    ensures var key := Key(w.tables[ref.table], db[ref]);
      Find(w, db, ref.table, key) == (if Null in key then None else Some(ref))
  {
    var key := Key(w.tables[ref.table], db[ref]);
    if Null !in key {
      FindIs(w, db, ref, key);
    }
  }

  // ---- one edit ----

  datatype Saved = Saved(db: Db, ref: Ref, id: RowId)

  /** What is written for `v` in a column, or a refusal: NULL is refused where a value is required. */
  function Written(w: World, table: TableName, column: Column, v: Value): Result<Value> {
    if table !in w.tables || column !in w.tables[table].editable then Refused
    else
      var r := Coerce(w, ColumnKind(w, table, column), v);
      if r == Ok(Null) && column in w.tables[table].required then Refused else r
  }

  function ColumnKind(w: World, table: TableName, column: Column): Kind
    requires table in w.tables
  {
    var kinds := w.tables[table].kinds;
    if column in kinds then kinds[column] else Unknown
  }

  function Put(db: Db, ref: Ref, column: Column, v: Value): Db
    requires ref in db
  {
    db[ref := db[ref][column := v]]
  }

  /** One PATCH of one cell: the database afterwards, the row it reached, and the row's key as stored. */
  ghost function Patch(w: World, db: Db, table: TableName, id: RowId, column: Column, v: Value): Result<Saved> {
    var written := Written(w, table, column, v);
    var found := Find(w, db, table, id);
    if written.Refused? || found.None? || column !in db[found.value] then Refused
    else
      var after := Put(db, found.value, column, written.value);
      if !Unique(w, after) then Refused
      else Ok(Saved(after, found.value, Key(w.tables[table], after[found.value])))
  }

  /** The edit of a row's cell is accepted, and stores `u`, exactly when the column may be edited, the value says `u` to
      it, `u` is not missing where a value is required, and no other row has the key the row then has. Then that one cell
      is changed and the reply is the row's new key. A key that finds no row is refused. */
  lemma PatchExactly(w: World, db: Db, ref: Ref, id: RowId, column: Column, v: Value, u: Value)
    requires Unique(w, db) && Hits(w, db, ref.table, id, ref)
    ensures var table := w.tables[ref.table];
      Patch(w, db, ref.table, id, column, v).Ok? && Patch(w, db, ref.table, id, column, v).value.db == Put(db, ref, column, u)
      <==>
      && column in table.editable && column in db[ref]
      && Says(w, if column in table.kinds then table.kinds[column] else Unknown, v, u)
      && (column in table.required ==> u != Null)
      && Unique(w, Put(db, ref, column, u))
    ensures var table := w.tables[ref.table];
      var patched := Patch(w, db, ref.table, id, column, v);
      patched.Ok? ==> exists u ::
        Says(w, ColumnKind(w, ref.table, column), v, u)
        && patched.value == Saved(Put(db, ref, column, u), ref, Key(table, db[ref][column := u]))
  {
    hide Says, Coerce;
    FindIs(w, db, ref, id);
    var kind := ColumnKind(w, ref.table, column);
    CoerceExactly(w, kind, v, u);
    if Coerce(w, kind, v).Ok? {
      var stored := Coerce(w, kind, v).value;
      CoerceExactly(w, kind, v, stored);
      assert Put(db, ref, column, stored)[ref][column] == stored && Put(db, ref, column, u)[ref][column] == u;
    }
  }

  lemma NoRowNoPatch(w: World, db: Db, table: TableName, id: RowId, column: Column, v: Value)
    requires forall ref :: !Hits(w, db, table, id, ref)
    ensures Patch(w, db, table, id, column, v) == Refused
  {
  }

  /** Putting the old value back under the row's new key gives the old database, under the old key: the inverse of
      one edit, whether or not it changed the key. */
  lemma PatchBack(w: World, db: Db, table: TableName, id: RowId, column: Column, v: Value, was: Value)
    requires Unique(w, db)
    requires Patch(w, db, table, id, column, v).Ok?
    requires var saved := Patch(w, db, table, id, column, v).value;
      Null !in saved.id && Written(w, table, column, was) == Ok(db[saved.ref][column])
    ensures var saved := Patch(w, db, table, id, column, v).value;
      Patch(w, saved.db, table, saved.id, column, was) == Ok(Saved(db, saved.ref, id))
  {
    var saved := Patch(w, db, table, id, column, v).value;
    FindIs(w, saved.db, saved.ref, saved.id);
    assert saved.db[saved.ref][column := db[saved.ref][column]] == db[saved.ref];
    assert Put(saved.db, saved.ref, column, db[saved.ref][column]) == db;
  }

  /** A column outside the key leaves the key alone. */
  lemma KeyKept(table: Table, row: Row, column: Column, v: Value)
    requires column !in table.key
    ensures Key(table, row[column := v]) == Key(table, row)
  {
    forall i | 0 <= i < |table.key| ensures Key(table, row[column := v])[i] == Key(table, row)[i] {
      assert table.key[i] in table.key;
    }
  }

  /** A database whose every editable cell holds what the server would write for it. */
  ghost predicate Settled(w: World, db: Db) {
    forall ref, column | ref in db && ref.table in w.tables && column in w.tables[ref.table].editable && column in db[ref]
      :: Written(w, ref.table, column, db[ref][column]) == Ok(db[ref][column])
  }

  /** The write stores a text in a JSON column. */
  predicate StoresJsonText(w: World, table: TableName, column: Column, v: Value) {
    var written := Written(w, table, column, v);
    written.Ok? && ColumnKind(w, table, column).Json? && written.value.Text?
  }

  /** An edit keeps the database settled, unless it stores a text in a JSON column. */
  lemma PatchSettles(w: World, db: Db, table: TableName, id: RowId, column: Column, v: Value)
    requires Legible(w) && Settled(w, db)
    requires Patch(w, db, table, id, column, v).Ok?
    ensures Settled(w, Patch(w, db, table, id, column, v).value.db) <==> !StoresJsonText(w, table, column, v)
  {
    var saved := Patch(w, db, table, id, column, v).value;
    CoerceIsIdempotent(w, ColumnKind(w, table, column), v);
    assert saved.db[saved.ref][column] == Written(w, table, column, v).value;
    WrittenAgain(w, table, column, v);
  }

  lemma WrittenAgain(w: World, table: TableName, column: Column, v: Value)
    requires Legible(w) && Written(w, table, column, v).Ok?
    ensures var stored := Written(w, table, column, v).value;
      Written(w, table, column, stored) == Ok(stored) <==> !StoresJsonText(w, table, column, v)
  {
    CoerceIsIdempotent(w, ColumnKind(w, table, column), v);
  }
}
