/** The secret rotation in every interleaving with other writers: it changes no plaintext and loses no write, and what
    a run without unreadable values leaves behind. */
module RotationSafety {
  import opened Options
  import opened SecretRotation

  // ---- the rotation cannot be seen in the plaintexts ----

  /** `blob` is `was` re-encrypted under the current secret. */
  ghost predicate Renews(secrets: Secrets, blob: Blob, was: Blob) {
    && IsCurrent(secrets, blob) && blob.sealed.key == secrets.current
    && Decrypt(secrets, secrets.Known(), was) == Some(blob.sealed.plain)
  }

  ghost predicate Shadows(secrets: Secrets, table: Table, was: Table) {
    table.Keys == was.Keys && forall id <- table :: table[id] == was[id] || Renews(secrets, table[id], was[id])
  }

  lemma {:induction false} WritesShadow(secrets: Secrets, table: Table, was: Table, writes: seq<Write>)
    requires Shadows(secrets, table, was)
    ensures Shadows(secrets, Written(table, writes), Written(was, writes))
    decreases |writes|
  {
    if writes != [] {
      WritesShadow(secrets, WrittenOne(table, writes[0]), WrittenOne(was, writes[0]), writes[1..]);
    }
  }

  lemma RowShadows(secrets: Secrets, dryRun: bool, p: Progress, was: Table, row: Row, nonce: nat)
    requires Shadows(secrets, p.table, was)
    ensures Shadows(secrets, RotateRow(secrets, dryRun, p, row, nonce).table, was)
  {
  }

  lemma {:induction false} RunShadows(
    secrets: Secrets, dryRun: bool, p: Progress, was: Table, rows: seq<Row>, batches: seq<seq<Write>>, nonces: seq<nat>)
    requires |rows| == |batches| == |nonces| && Shadows(secrets, p.table, was)
    ensures Shadows(secrets, Rotate(secrets, dryRun, p, rows, batches, nonces).table, Erased(was, batches))
    decreases |rows|
  {
    if rows != [] {
      var written := p.(table := Written(p.table, batches[0]));
      WritesShadow(secrets, p.table, was, batches[0]);
      RowShadows(secrets, dryRun, written, Written(was, batches[0]), rows[0], nonces[0]);
      RunShadows(secrets, dryRun, RotateRow(secrets, dryRun, written, rows[0], nonces[0]), Written(was, batches[0]),
                 rows[1..], batches[1..], nonces[1..]);
    }
  }

  /** In every interleaving the table ends with the rows, and every row with the readable plaintext, that the other
      writers alone would have left; values that no known secret opens are left exactly so. Neither the snapshot nor
      the other writers are restricted. */
  lemma RotationIsInvisible(
    secrets: Secrets, dryRun: bool, table: Table, rows: seq<Row>, batches: seq<seq<Write>>, nonces: seq<nat>)
    requires |rows| == |batches| == |nonces|
    ensures var after := Rotate(secrets, dryRun, Progress(table, START), rows, batches, nonces).table;
      var alone := Erased(table, batches);
      && after.Keys == alone.Keys
      && forall id <- after ::
           Decrypt(secrets, secrets.Known(), after[id]) == Decrypt(secrets, secrets.Known(), alone[id])
           && (Decrypt(secrets, secrets.Known(), alone[id]).None? ==> after[id] == alone[id])
  {
    RunShadows(secrets, dryRun, Progress(table, START), table, rows, batches, nonces);
  }

  // ---- the counts ----

  predicate Opens(secrets: Secrets, blob: Blob) {
    IsCurrent(secrets, blob) || Decrypt(secrets, secrets.Known(), blob).Some?
  }

  /** The counts depend on the snapshot alone, except how many replacements found their value unchanged: every value
      is counted once, and none is unreadable exactly when every value opens. */
  lemma {:induction false} CountsAddUp(
    secrets: Secrets, dryRun: bool, p: Progress, rows: seq<Row>, batches: seq<seq<Write>>, nonces: seq<nat>)
    requires |rows| == |batches| == |nonces|
    ensures var tally := Rotate(secrets, dryRun, p, rows, batches, nonces).tally;
      && tally.alreadyCurrent + tally.unreadable + |tally.byOldKey|
         == p.tally.alreadyCurrent + p.tally.unreadable + |p.tally.byOldKey| + |rows|
      && tally.rotated - p.tally.rotated <= |tally.byOldKey| - |p.tally.byOldKey|
      && p.tally.unreadable <= tally.unreadable
      && (tally.unreadable == p.tally.unreadable <==> forall row <- rows :: Opens(secrets, row.blob))
    decreases |rows|
  {
    if rows != [] {
      var next := RotateRow(secrets, dryRun, p.(table := Written(p.table, batches[0])), rows[0], nonces[0]);
      CountsAddUp(secrets, dryRun, next, rows[1..], batches[1..], nonces[1..]);
      assert rows == [rows[0]] + rows[1..];
    }
  }

  lemma {:induction false} SameCounts(
    secrets: Secrets, p: Progress, q: Progress, rows: seq<Row>,
    batches: seq<seq<Write>>, others: seq<seq<Write>>, nonces: seq<nat>)
    requires |rows| == |batches| == |others| == |nonces| && p.tally.(rotated := 0) == q.tally.(rotated := 0)
    ensures var dry := Rotate(secrets, true, p, rows, batches, nonces);
      var live := Rotate(secrets, false, q, rows, others, nonces);
      && dry.table == Erased(p.table, batches)
      && dry.tally == live.tally.(rotated := p.tally.rotated)
    decreases |rows|
  {
    if rows != [] {
      SameCounts(secrets,
                 RotateRow(secrets, true, p.(table := Written(p.table, batches[0])), rows[0], nonces[0]),
                 RotateRow(secrets, false, q.(table := Written(q.table, others[0])), rows[0], nonces[0]),
                 rows[1..], batches[1..], others[1..], nonces[1..]);
    }
  }

  /** A dry run changes nothing, and reports every count of a real run on the same snapshot except the replacements. */
  lemma DryRunForetells(
    secrets: Secrets, table: Table, rows: seq<Row>, batches: seq<seq<Write>>, others: seq<seq<Write>>, nonces: seq<nat>)
    requires |rows| == |batches| == |others| == |nonces|
    ensures var dry := Rotate(secrets, true, Progress(table, START), rows, batches, nonces);
      var live := Rotate(secrets, false, Progress(table, START), rows, others, nonces);
      dry.table == Erased(table, batches) && dry.tally == live.tally.(rotated := 0)
  {
    SameCounts(secrets, Progress(table, START), Progress(table, START), rows, batches, others, nonces);
  }

  // ---- what a run leaves behind ----

  /** The rows are what one query finds in the table. */
  ghost predicate Snapshot(rows: seq<Row>, table: Table) {
    && (forall row <- rows :: row.id in table && table[row.id] == row.blob)
    && (forall id <- table :: Row(id, table[id]) in rows)
    && (forall i, j | 0 <= i < j < |rows| :: rows[i].id != rows[j].id)
  }

  /** The other writers encrypt under the current secret. */
  ghost predicate WritersCurrent(secrets: Secrets, batches: seq<seq<Write>>) {
    forall batch <- batches, write <- batch :: write.Put? ==> IsCurrent(secrets, write.blob) && Honest(secrets, write.blob)
  }

  /** What names the current secret's fingerprint was made with the current secret. */
  predicate Honest(secrets: Secrets, blob: Blob) {
    IsCurrent(secrets, blob) ==> blob.sealed.key == secrets.current
  }

  ghost predicate AllHonest(secrets: Secrets, table: Table) {
    forall id <- table :: Honest(secrets, table[id])
  }

  /** Every value is under the current fingerprint, or is still to come. */
  ghost predicate Pending(secrets: Secrets, table: Table, rows: seq<Row>) {
    forall id <- table :: IsCurrent(secrets, table[id]) || Row(id, table[id]) in rows
  }

  lemma {:induction false} WritesKeepPending(secrets: Secrets, table: Table, rows: seq<Row>, writes: seq<Write>)
    requires Pending(secrets, table, rows) && WritersCurrent(secrets, [writes])
    ensures Pending(secrets, Written(table, writes), rows)
    ensures AllHonest(secrets, table) ==> AllHonest(secrets, Written(table, writes))
    decreases |writes|
  {
    if writes != [] {
      assert writes in [writes] && writes[0] in writes;
      WritesKeepPending(secrets, WrittenOne(table, writes[0]), rows, writes[1..]);
    }
  }

  lemma RowKeepsPending(secrets: Secrets, p: Progress, rows: seq<Row>, nonce: nat)
    requires rows != [] && Pending(secrets, p.table, rows) && Opens(secrets, rows[0].blob)
    ensures Pending(secrets, RotateRow(secrets, false, p, rows[0], nonce).table, rows[1..])
    ensures AllHonest(secrets, p.table) ==> AllHonest(secrets, RotateRow(secrets, false, p, rows[0], nonce).table)
  {
    assert rows == [rows[0]] + rows[1..];
  }

  lemma {:induction false} RunCompletes(
    secrets: Secrets, p: Progress, rows: seq<Row>, batches: seq<seq<Write>>, nonces: seq<nat>)
    requires |rows| == |batches| == |nonces|
    requires Pending(secrets, p.table, rows) && WritersCurrent(secrets, batches)
    requires forall row <- rows :: Opens(secrets, row.blob)
    ensures var after := Rotate(secrets, false, p, rows, batches, nonces).table;
      Pending(secrets, after, []) && (AllHonest(secrets, p.table) ==> AllHonest(secrets, after))
    decreases |rows|
  {
    if rows != [] {
      var written := p.(table := Written(p.table, batches[0]));
      assert batches[0] in batches;
      WritesKeepPending(secrets, p.table, rows, batches[0]);
      RowKeepsPending(secrets, written, rows, nonces[0]);
      RunCompletes(secrets, RotateRow(secrets, false, written, rows[0], nonces[0]), rows[1..], batches[1..], nonces[1..]);
    }
  }

  lemma SnapshotIsPending(secrets: Secrets, table: Table, rows: seq<Row>)
    requires Snapshot(rows, table)
    ensures Pending(secrets, table, rows)
  {
  }

  /** With nothing to come, every value is under the current fingerprint; if they are all honest, they all open. */
  lemma NonePending(secrets: Secrets, table: Table)
    requires Pending(secrets, table, [])
    ensures forall id <- table :: IsCurrent(secrets, table[id])
    ensures AllHonest(secrets, table) ==> forall id <- table :: Decrypt(secrets, [secrets.current], table[id]).Some?
  {
    assert secrets.current == [secrets.current][0];
  }

  /** After a real run without unreadable values, beside any writers that use the current secret, every row is under
      the current fingerprint, and the current secret alone opens it, provided no value carried that fingerprint under
      another key. */
  lemma OldSecretCanGo(secrets: Secrets, table: Table, rows: seq<Row>, batches: seq<seq<Write>>, nonces: seq<nat>)
    requires |rows| == |batches| == |nonces| && Snapshot(rows, table) && WritersCurrent(secrets, batches)
    requires Rotate(secrets, false, Progress(table, START), rows, batches, nonces).tally.unreadable == 0
    ensures var after := Rotate(secrets, false, Progress(table, START), rows, batches, nonces).table;
      && (forall id <- after :: IsCurrent(secrets, after[id]))
      && (AllHonest(secrets, table) ==> forall id <- after :: Decrypt(secrets, [secrets.current], after[id]).Some?)
  {
    hide Rotate, Pending, AllHonest, Decrypt, Snapshot, Opens, IsCurrent, WritersCurrent;
    var start := Progress(table, START);
    CountsAddUp(secrets, false, start, rows, batches, nonces);
    SnapshotIsPending(secrets, table, rows);
    RunCompletes(secrets, start, rows, batches, nonces);
    NonePending(secrets, Rotate(secrets, false, start, rows, batches, nonces).table);
  }

  /** A run on a table that is all under the current fingerprint, as every run without unreadable values leaves it,
      rotates nothing, beside any writers at all. */
  lemma SecondRunRotatesNothing(secrets: Secrets, table: Table, rows: seq<Row>, batches: seq<seq<Write>>, nonces: seq<nat>)
    requires |rows| == |batches| == |nonces| && Snapshot(rows, table)
    requires forall id <- table :: IsCurrent(secrets, table[id])
    ensures Rotate(secrets, false, Progress(table, START), rows, batches, nonces)
            == Progress(Erased(table, batches), START.(alreadyCurrent := |rows|))
  {
    hide Rotate, Erased, IsCurrent;
    NothingToRotate(secrets, Progress(table, START), rows, batches, nonces);
  }

  lemma {:induction false} NothingToRotate(
    secrets: Secrets, p: Progress, rows: seq<Row>, batches: seq<seq<Write>>, nonces: seq<nat>)
    requires |rows| == |batches| == |nonces|
    requires forall row <- rows :: IsCurrent(secrets, row.blob)
    ensures Rotate(secrets, false, p, rows, batches, nonces)
            == Progress(Erased(p.table, batches), p.tally.(alreadyCurrent := p.tally.alreadyCurrent + |rows|))
    decreases |rows|
  {
    if rows != [] {
      assert rows[0] in rows;
      NothingToRotate(secrets, RotateRow(secrets, false, p.(table := Written(p.table, batches[0])), rows[0], nonces[0]),
                      rows[1..], batches[1..], nonces[1..]);
    }
  }

  // ---- exactly when, without other writers ----

  predicate Quiet(batches: seq<seq<Write>>) {
    forall batch <- batches :: batch == []
  }

  /** A value that is under the current fingerprint or does not open stays as it is. */
  lemma {:induction false} OthersStay(
    secrets: Secrets, p: Progress, id: Id, rows: seq<Row>, batches: seq<seq<Write>>, nonces: seq<nat>)
    requires |rows| == |batches| == |nonces| && Quiet(batches) && id in p.table
    requires IsCurrent(secrets, p.table[id]) || !Opens(secrets, p.table[id])
    ensures var after := Rotate(secrets, false, p, rows, batches, nonces).table;
      id in after && after[id] == p.table[id]
    decreases |rows|
  {
    if rows != [] {
      assert batches[0] in batches && forall batch <- batches[1..] :: batch in batches;
      OthersStay(secrets, RotateRow(secrets, false, p, rows[0], nonces[0]), id, rows[1..], batches[1..], nonces[1..]);
    }
  }

  /** Without other writers, the current secret alone opens every row afterwards if and only if no value was unreadable
      and none carried the current fingerprint under another key. */
  lemma OldSecretCanGoExactly(secrets: Secrets, table: Table, rows: seq<Row>, batches: seq<seq<Write>>, nonces: seq<nat>)
    requires |rows| == |batches| == |nonces| && Snapshot(rows, table) && Quiet(batches)
    ensures var done := Rotate(secrets, false, Progress(table, START), rows, batches, nonces);
      (forall id <- done.table :: Decrypt(secrets, [secrets.current], done.table[id]).Some?)
      <==> done.tally.unreadable == 0 && AllHonest(secrets, table)
  {
    hide Rotate, Pending, AllHonest, Decrypt, Opens, Honest;
    var start := Progress(table, START);
    var done := Rotate(secrets, false, start, rows, batches, nonces);
    CountsAddUp(secrets, false, start, rows, batches, nonces);
    SnapshotIsPending(secrets, table, rows);
    if done.tally.unreadable == 0 && AllHonest(secrets, table) {
      QuietWritersCurrent(secrets, batches);
      RunCompletes(secrets, start, rows, batches, nonces);
      NonePending(secrets, done.table);
    } else if done.tally.unreadable != 0 {
      var row :| row in rows && !Opens(secrets, row.blob);
      UnreadableIsLost(secrets, row.blob);
      OthersStay(secrets, start, row.id, rows, batches, nonces);
    } else {
      var id := Dishonest(secrets, table);
      OthersStay(secrets, start, id, rows, batches, nonces);
    }
  }

  lemma UnreadableIsLost(secrets: Secrets, blob: Blob)
    requires !Opens(secrets, blob)
    ensures Decrypt(secrets, [secrets.current], blob) == None
  {
    assert secrets.current == secrets.Known()[0];
    assert forall key <- [secrets.current] :: key == secrets.current;
    assert FirstWith(secrets, [], 0) == None;
    if blob.V2? {
      assert FirstWith(secrets, [secrets.current], blob.kid) == None;
    }
  }

  lemma Dishonest(secrets: Secrets, table: Table) returns (id: Id)
    requires !AllHonest(secrets, table)
    ensures id in table && IsCurrent(secrets, table[id]) && Decrypt(secrets, [secrets.current], table[id]) == None
  {
    id :| id in table && !Honest(secrets, table[id]);
  }

  lemma QuietWritersCurrent(secrets: Secrets, batches: seq<seq<Write>>)
    requires Quiet(batches)
    ensures WritersCurrent(secrets, batches)
  {
  }

  /** Two secrets with one fingerprint: the run reports success, and dropping the old secret loses the value. */
  lemma FingerprintCollision()
    ensures var secrets := Secrets(_ => 0, 1, [2]);
      var table: Table := map[7 := V2(0, Sealed(2, "key", 0))];
      var done := Rotate(secrets, false, Progress(table, START), [Row(7, table[7])], [[]], [0]);
      && done == Progress(table, START.(alreadyCurrent := 1))
      && Decrypt(secrets, [secrets.current], done.table[7]) == None
  {
  }
}
