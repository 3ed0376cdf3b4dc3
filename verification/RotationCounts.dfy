/** What the rotation's counts say of the rows, one by one, and which rows it is sure to replace. */
module RotationCounts {
  import opened Options
  import opened SecretRotation
  import opened RotationSafety

  function Count(rows: seq<Row>, p: Row -> bool): nat {
    if rows == [] then 0 else (if p(rows[0]) then 1 else 0) + Count(rows[1..], p)
  }

  /** The value opens and is not under the current fingerprint. */
  predicate Due(secrets: Secrets, row: Row) {
    !IsCurrent(secrets, row.blob) && Decrypt(secrets, secrets.Known(), row.blob).Some?
  }

  predicate Lost(secrets: Secrets, row: Row) {
    !IsCurrent(secrets, row.blob) && Decrypt(secrets, secrets.Known(), row.blob).None?
  }

  /** Beside any writers, each count is the number of the snapshot's values of its sort; those that have to be rotated
      are counted under their fingerprint, or under none in the older format. */
  lemma {:induction false} CountsExactly(
    secrets: Secrets, dryRun: bool, p: Progress, rows: seq<Row>, batches: seq<seq<Write>>, nonces: seq<nat>, kid: Option<Fingerprint>)
    requires |rows| == |batches| == |nonces|
    ensures var tally := Rotate(secrets, dryRun, p, rows, batches, nonces).tally;
      && tally.alreadyCurrent == p.tally.alreadyCurrent + Count(rows, (row: Row) => IsCurrent(secrets, row.blob))
      && tally.unreadable == p.tally.unreadable + Count(rows, (row: Row) => Lost(secrets, row))
      && tally.byOldKey[kid] == p.tally.byOldKey[kid] + Count(rows, (row: Row) => Due(secrets, row) && KeyId(row.blob) == kid)
      && |tally.byOldKey| == |p.tally.byOldKey| + Count(rows, (row: Row) => Due(secrets, row))
      && (dryRun ==> tally.rotated == p.tally.rotated)
      && tally.rotated <= p.tally.rotated + Count(rows, (row: Row) => Due(secrets, row))
    decreases |rows|
  {
    if rows != [] {
      var next := RotateRow(secrets, dryRun, p.(table := Written(p.table, batches[0])), rows[0], nonces[0]);
      CountsExactly(secrets, dryRun, next, rows[1..], batches[1..], nonces[1..], kid);
    }
  }

  predicate OneEach(rows: seq<Row>) {
    forall i, j | 0 <= i < j < |rows| :: rows[i].id != rows[j].id
  }

  /** None of the batches writes or removes any of these rows. */
  predicate LeaveAlone(batches: seq<seq<Write>>, ids: set<Id>) {
    forall batch <- batches :: forall write <- batch :: write.id !in ids
  }

  lemma {:induction false} WritesLeaveAlone(table: Table, writes: seq<Write>, ids: set<Id>)
    requires forall write <- writes :: write.id !in ids
    ensures forall id <- ids :: (id in Written(table, writes) <==> id in table) && (id in table ==> Written(table, writes)[id] == table[id])
    decreases |writes|
  {
    if writes != [] {
      assert writes[0] in writes && forall write <- writes[1..] :: write in writes;
      WritesLeaveAlone(WrittenOne(table, writes[0]), writes[1..], ids);
    }
  }

  /** The rows still to come, of these ids, are as the snapshot has them. */
  predicate Unchanged(table: Table, rows: seq<Row>, ids: set<Id>) {
    forall row <- rows :: row.id in ids ==> row.id in table && table[row.id] == row.blob
  }

  lemma UnchangedStep(secrets: Secrets, p: Progress, rows: seq<Row>, batches: seq<seq<Write>>, nonce: nat, ids: set<Id>)
    requires rows != [] && batches != [] && OneEach(rows) && LeaveAlone(batches, ids) && Unchanged(p.table, rows, ids)
    ensures var written := p.(table := Written(p.table, batches[0]));
      && Unchanged(written.table, rows, ids)
      && Unchanged(RotateRow(secrets, false, written, rows[0], nonce).table, rows[1..], ids)
      && OneEach(rows[1..]) && LeaveAlone(batches[1..], ids)
  {
    assert batches[0] in batches && forall batch <- batches[1..] :: batch in batches;
    WritesLeaveAlone(p.table, batches[0], ids);
    forall row <- rows[1..] ensures row in rows && row.id != rows[0].id {
      var j :| 0 <= j < |rows[1..]| && rows[1..][j] == row;
      assert rows[j + 1] == row;
    }
    hide Written, Decrypt;
  }

  /** Every row that has to be rotated and that nobody else touches is rotated, and counted. */
  lemma {:induction false} UntouchedAreCounted(
    secrets: Secrets, p: Progress, rows: seq<Row>, batches: seq<seq<Write>>, nonces: seq<nat>, ids: set<Id>)
    requires |rows| == |batches| == |nonces| && OneEach(rows) && LeaveAlone(batches, ids) && Unchanged(p.table, rows, ids)
    ensures Rotate(secrets, false, p, rows, batches, nonces).tally.rotated
         >= p.tally.rotated + Count(rows, (row: Row) => Due(secrets, row) && row.id in ids)
    decreases |rows|
  {
    if rows != [] {
      var written := p.(table := Written(p.table, batches[0]));
      assert rows[0] in rows;
      UnchangedStep(secrets, p, rows, batches, nonces[0], ids);
      UntouchedAreCounted(secrets, RotateRow(secrets, false, written, rows[0], nonces[0]), rows[1..], batches[1..], nonces[1..], ids);
    }
  }

  /** ... and afterwards it is sealed with the current secret, with the plaintext it had. */
  lemma {:induction false} UntouchedAreRotated(
    secrets: Secrets, p: Progress, rows: seq<Row>, batches: seq<seq<Write>>, nonces: seq<nat>, row: Row)
    requires |rows| == |batches| == |nonces| && OneEach(rows) && LeaveAlone(batches, {row.id}) && Unchanged(p.table, rows, {row.id})
    requires row in rows && Due(secrets, row)
    ensures var after := Rotate(secrets, false, p, rows, batches, nonces).table;
      row.id in after && Renews(secrets, after[row.id], row.blob)
    decreases |rows|
  {
    var written := p.(table := Written(p.table, batches[0]));
    var next := RotateRow(secrets, false, written, rows[0], nonces[0]);
    UnchangedStep(secrets, p, rows, batches, nonces[0], {row.id});
    assert rows == [rows[0]] + rows[1..];
    if row == rows[0] {
      forall later <- rows[1..] ensures later.id != row.id {
        var j :| 0 <= j < |rows[1..]| && rows[1..][j] == later;
        assert rows[j + 1] == later;
      }
      DoneStays(secrets, next, rows[1..], batches[1..], nonces[1..], row.id);
    } else {
      UntouchedAreRotated(secrets, next, rows[1..], batches[1..], nonces[1..], row);
    }
  }

  lemma {:induction false} DoneStays(
    secrets: Secrets, p: Progress, rows: seq<Row>, batches: seq<seq<Write>>, nonces: seq<nat>, id: Id)
    requires |rows| == |batches| == |nonces| && LeaveAlone(batches, {id}) && id in p.table && forall row <- rows :: row.id != id
    ensures var after := Rotate(secrets, false, p, rows, batches, nonces).table;
      id in after && after[id] == p.table[id]
    decreases |rows|
  {
    if rows != [] {
      assert batches[0] in batches && forall batch <- batches[1..] :: batch in batches;
      WritesLeaveAlone(p.table, batches[0], {id});
      assert rows[0] in rows && forall row <- rows[1..] :: row in rows;
      DoneStays(secrets, RotateRow(secrets, false, p.(table := Written(p.table, batches[0])), rows[0], nonces[0]),
                rows[1..], batches[1..], nonces[1..], id);
    }
  }

  lemma {:induction false} LastOfBatch(table: Table, writes: seq<Write>)
    requires writes != []
    ensures var last := writes[|writes| - 1];
      var after := Written(table, writes);
      if last.Put? then last.id in after && after[last.id] == last.blob else last.id !in after
    decreases |writes|
  {
    if |writes| == 1 {
      assert writes[1..] == [];
    } else {
      LastOfBatch(WrittenOne(table, writes[0]), writes[1..]);
    }
  }

  lemma {:induction false} ErasedLeavesAlone(table: Table, batches: seq<seq<Write>>, id: Id)
    requires LeaveAlone(batches, {id})
    ensures id in Erased(table, batches) <==> id in table
    ensures id in table ==> Erased(table, batches)[id] == table[id]
    decreases |batches|
  {
    if batches != [] {
      assert batches[0] in batches && forall batch <- batches[1..] :: batch in batches;
      WritesLeaveAlone(table, batches[0], {id});
      ErasedLeavesAlone(Written(table, batches[0]), batches[1..], id);
    }
  }

  lemma {:induction false} ErasedKeepsLast(table: Table, batches: seq<seq<Write>>, k: nat)
    requires k < |batches| && batches[k] != []
    requires LeaveAlone(batches[k + 1..], {batches[k][|batches[k]| - 1].id})
    ensures var last := batches[k][|batches[k]| - 1];
      var after := Erased(table, batches);
      if last.Put? then last.id in after && after[last.id] == last.blob else last.id !in after
    decreases |batches|
  {
    if k > 0 {
      assert batches[1..][k - 1] == batches[k] && batches[1..][k - 1 + 1..] == batches[k + 1..];
      ErasedKeepsLast(Written(table, batches[0]), batches[1..], k - 1);
    } else {
      LastOfBatch(table, batches[0]);
      ErasedLeavesAlone(Written(table, batches[0]), batches[1..], batches[0][|batches[0]| - 1].id);
    }
  }

  /** No write of another is lost: the last one on a row stands at the end. A row it removed stays away, and a value it
      put is there, at most re-encrypted under the current secret. */
  lemma LastWriteStands(
    secrets: Secrets, dryRun: bool, table: Table, rows: seq<Row>, batches: seq<seq<Write>>, nonces: seq<nat>, k: nat)
    requires |rows| == |batches| == |nonces| && k < |batches| && batches[k] != []
    requires LeaveAlone(batches[k + 1..], {batches[k][|batches[k]| - 1].id})
    ensures var last := batches[k][|batches[k]| - 1];
      var after := Rotate(secrets, dryRun, Progress(table, START), rows, batches, nonces).table;
      if last.Put? then last.id in after && (after[last.id] == last.blob || Renews(secrets, after[last.id], last.blob))
      else last.id !in after
  {
    RunShadows(secrets, dryRun, Progress(table, START), table, rows, batches, nonces);
    ErasedKeepsLast(table, batches, k);
  }

  lemma {:induction false} CountGrows(rows: seq<Row>, p: Row -> bool, q: Row -> bool)
    requires forall row <- rows :: p(row) ==> q(row)
    ensures Count(rows, p) <= Count(rows, q)
  {
    if rows != [] {
      assert rows[0] in rows && forall row <- rows[1..] :: row in rows;
      CountGrows(rows[1..], p, q);
    }
  }

  /** So a run on a snapshot, beside writers that leave these rows alone, counts as rotated every one of them that had to
      be rotated, and nothing that had not to be; without other writers, exactly those. */
  lemma RotatedExactly(
    secrets: Secrets, table: Table, rows: seq<Row>, batches: seq<seq<Write>>, nonces: seq<nat>, ids: set<Id>)
    requires |rows| == |batches| == |nonces| && Snapshot(rows, table) && LeaveAlone(batches, ids)
    ensures var tally := Rotate(secrets, false, Progress(table, START), rows, batches, nonces).tally;
      && Count(rows, (row: Row) => Due(secrets, row) && row.id in ids) <= tally.rotated <= Count(rows, (row: Row) => Due(secrets, row))
      && (table.Keys <= ids ==> tally.rotated == Count(rows, (row: Row) => Due(secrets, row)) == |tally.byOldKey|)
  {
    CountsExactly(secrets, false, Progress(table, START), rows, batches, nonces, None);
    UntouchedAreCounted(secrets, Progress(table, START), rows, batches, nonces, ids);
    if table.Keys <= ids {
      CountGrows(rows, (row: Row) => Due(secrets, row), (row: Row) => Due(secrets, row) && row.id in ids);
    }
  }
}
