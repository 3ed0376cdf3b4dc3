/** What an edit and a toggle do to the cell: the value that was typed, or the other boolean, and nothing else. */
module EditHistoryEffects {
  import opened Options
  import opened TableEdits
  import opened EditHistory

  // ---- toggles ----

  /** What JavaScript takes for false. */
  predicate Falsy(v: Value) {
    v in {Null, Bool(false), Number(0.0), Text("")}
  }

  /** A toggle of an editable cell always makes a change, to a boolean the cell does not hold: true exactly for
      what is taken for false. */
  lemma TogglesExactly(w: World, page: Page, id: RowId, column: Column, was: Value)
    requires Editable(w, page, column)
    ensures var made := Toggled(w, page, id, column, was);
      && made.Some? && made.value.table == page.open.value && made.value.id == id && made.value.column == column
      && made.value.before == was && made.value.after.Bool? && made.value.after != was
      && (made.value.after == Bool(true) <==> Falsy(was))
  {
  }

  /** The cell of a row, by the row's key. */
  ghost predicate At(w: World, s: System, id: RowId, column: Column, ref: Ref) {
    && Unique(w, s.db) && s.page.open == Some(ref.table) && Hits(w, s.db, ref.table, id, ref)
    && Editable(w, s.page, column) && column in s.db[ref]
  }

  /** A toggle in a boolean column writes the other boolean into the cell, changes no other, and is the next to be undone.
      A second one, by the row's key as it is then, puts a boolean back. */
  lemma ToggleSwitches(w: World, s: System, id: RowId, column: Column, ref: Ref)
    requires At(w, s, id, column, ref) && ColumnKind(w, ref.table, column).Boolean?
    requires Unique(w, Put(s.db, ref, column, Bool(Falsy(s.db[ref][column]))))
    ensures var t := Step(w, s, Toggle(id, column, true));
      var was := s.db[ref][column];
      var now := Bool(Falsy(was));
      && now != was && t.db == Put(s.db, ref, column, now)
      && t.page == Page(s.page.open, s.page.undo + [Change(ref.table, Key(w.tables[ref.table], t.db[ref]), column, was, now)], [])
      && (was.Bool? ==> Step(w, t, Toggle(Key(w.tables[ref.table], t.db[ref]), column, true)).db == s.db)
  {
    FindIs(w, s.db, ref, id);
    var was := s.db[ref][column];
    TogglesExactly(w, s.page, id, column, was);
    var t := Step(w, s, Toggle(id, column, true));
    assert t.db == Put(s.db, ref, column, Bool(Falsy(was)));
    if was.Bool? {
      var key := Key(w.tables[ref.table], t.db[ref]);
      KeyHasNoNull(w.tables[ref.table], s.db[ref], column, t.db[ref][column]);
      FindIs(w, t.db, ref, key);
      TogglesExactly(w, t.page, key, column, t.db[ref][column]);
      PutBack(s.db, ref, column, t.db[ref][column]);
    }
  }

  lemma KeyHasNoNull(table: Table, row: Row, column: Column, v: Value)
    requires Null !in Key(table, row) && v != Null
    ensures Null !in Key(table, row[column := v])
  {
    var key, after := Key(table, row), Key(table, row[column := v]);
    forall i | 0 <= i < |after| ensures after[i] != Null {
      assert key[i] in key;
    }
  }

  lemma PutBack(db: Db, ref: Ref, column: Column, v: Value)
    requires ref in db && column in db[ref]
    ensures Put(Put(db, ref, column, v), ref, column, db[ref][column]) == db
  {
    assert db[ref][column := v][column := db[ref][column]] == db[ref];
  }

  // ---- typed values ----

  /** The text is the word, in capital or small letters. */
  predicate SpelledAs(text: string, word: string) {
    |text| == |word| && forall i | 0 <= i < |word| ::
      text[i] == word[i] || ('a' <= word[i] <= 'z' && text[i] as int + 32 == word[i] as int)
  }

  predicate Small(word: string) {
    forall c <- word :: 'a' <= c <= 'z'
  }

  lemma LowerIs(text: string, word: string)
    requires Small(word)
    ensures Lower(text) == word <==> SpelledAs(text, word)
  {
    if SpelledAs(text, word) {
      forall i | 0 <= i < |word| ensures Lower(text)[i] == word[i] {
        assert word[i] in word;
        SmallLetter(text[i], word[i]);
      }
    } else if Lower(text) == word {
      forall i | 0 <= i < |word| ensures text[i] == word[i] || ('a' <= word[i] <= 'z' && text[i] as int + 32 == word[i] as int) {
        assert Lower(text)[i] == word[i] && word[i] in word;
        SmallLetter(text[i], word[i]);
      }
    }
  }

  lemma SmallLetter(c: char, d: char)
    requires 'a' <= d <= 'z'
    ensures (if 'A' <= c <= 'Z' then c - 'A' + 'a' else c) == d <==> c == d || c as int + 32 == d as int
  {
  }

  /** What a typed text means for a cell: the word null no value, and otherwise a value of the sort the cell holds. */
  predicate Means(w: World, text: string, was: Value, v: Value) {
    if SpelledAs(text, "null") then v == Null
    else
      match was
      case Number(_) => v.Number? && !Blank(text) && w.parse(text) == Some(v.n)
      case Bool(_) => v.Bool? && SpelledAs(text, if v.b then "true" else "false")
      case Document(_, _) => w.parseJson(text) == Some(v)
      case _ => v == Text(text)
  }

  /** A text is taken for exactly what it means, and refused when it means nothing. */
  lemma MeantExactly(w: World, text: string, was: Value, v: Value)
    ensures Normalized(w, text, was) == Ok(v) <==> Means(w, text, was, v)
  {
    LowerIs(text, "null");
    LowerIs(text, "true");
    LowerIs(text, "false");
    hide Lower;
    assert "true"[0] != "false"[0];
  }

  /** Numbers and texts go through JavaScript unchanged, and a number is shown in digits. */
  ghost predicate Faithful(w: World) {
    Legible(w) && forall n :: w.parse(w.show(n)) == Some(n) && Lower(w.show(n)) != "null"
  }

  predicate SameSort(a: Value, b: Value) {
    (a.Bool? && b.Bool?) || (a.Number? && b.Number?) || ((a.Text? || a.Null?) && b.Text?)
  }

  lemma LowerWords()
    ensures Lower("true") == "true" && Lower("false") == "false"
  {
  }

  /** In a cell that holds a boolean, a number, a text or nothing, what a value of its sort is shown as means that value,
      but for the word null, which means no value in every cell. */
  lemma ShownIsMeant(w: World, was: Value, v: Value)
    requires Faithful(w) && SameSort(was, v)
    ensures Normalized(w, Shown(w, v), was) == if Lower(Shown(w, v)) == "null" then Ok(Null) else Ok(v)
  {
    LowerWords();
  }

  /** Typing a value that the column stores, of the cell's own sort and not shown as the cell already is, sets the cell to
      it and changes nothing else; the history has one more change, from the old value to the new, under the row's new
      key. */
  lemma EditSets(w: World, s: System, id: RowId, column: Column, ref: Ref, v: Value)
    requires Faithful(w) && At(w, s, id, column, ref)
    requires var was := s.db[ref][column];
      SameSort(was, v) && Lower(Shown(w, v)) != "null" && Shown(w, was) != Shown(w, v)
    requires Written(w, ref.table, column, v) == Ok(v) && Unique(w, Put(s.db, ref, column, v))
    ensures var t := Step(w, s, Edit(id, column, Shown(w, v), true));
      && t.db == Put(s.db, ref, column, v)
      && t.page == Page(s.page.open,
           s.page.undo + [Change(ref.table, Key(w.tables[ref.table], t.db[ref]), column, s.db[ref][column], v)], [])
  {
    hide Written, Unique, Lower;
    FindIs(w, s.db, ref, id);
    ShownIsMeant(w, s.db[ref][column], v);
  }

  /** Typing null empties the cell, whatever it holds, unless the column must have a value. */
  lemma NullEmpties(w: World, s: System, id: RowId, column: Column, ref: Ref)
    requires At(w, s, id, column, ref) && Shown(w, s.db[ref][column]) != ""
    requires Unique(w, Put(s.db, ref, column, Null))
    ensures Step(w, s, Edit(id, column, "null", true)).db
         == if column in w.tables[ref.table].required then s.db else Put(s.db, ref, column, Null)
  {
    FindIs(w, s.db, ref, id);
    assert Lower("null") == "null";
  }

  /** What the server stores of a value's shown text is the value, except that a textual column keeps the empty text that
      no value is shown as. */
  lemma ShownIsStored(w: World, kind: Kind, v: Value)
    requires Faithful(w) && Coerce(w, kind, v) == Ok(v) && !v.Document? && !kind.Unknown? && !kind.Json?
    ensures Coerce(w, kind, Text(Shown(w, v))) == Ok(v) <==> !(v.Null? && kind.Textual?)
  {
    assert Blank("");
    assert 't' in Shown(w, Bool(true)) && 'f' in Shown(w, Bool(false));
  }
}
