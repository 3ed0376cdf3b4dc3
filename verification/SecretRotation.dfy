/** Re-encrypting the stored backend keys under the current secret while the service is live. Other writers may write
    between any two database calls of the rotation: their writes are given as one batch before each row, and all
    batches are considered. */
module SecretRotation {
  import opened Options

  type Key = nat

  type Fingerprint = nat

  type Id = nat

  /** What one encryption made. It opens under its own key and no other, and the nonce tells it from every other. */
  datatype Sealed = Sealed(key: Key, plain: string, nonce: nat)

  /** A stored value. `V2` names the fingerprint of its key, `V1` does not, and anything else cannot be read. */
  datatype Blob = V2(kid: Fingerprint, sealed: Sealed) | V1(sealed: Sealed) | Junk(text: string)

  type Table = map<Id, Blob>

  datatype Row = Row(id: Id, blob: Blob)

  datatype Secrets = Secrets(fingerprint: Key -> Fingerprint, current: Key, previous: seq<Key>) {
    function Known(): seq<Key> {
      [current] + previous
    }
  }

  function KeyId(blob: Blob): Option<Fingerprint> {
    if blob.V2? then Some(blob.kid) else None
  }

  function FirstWith(secrets: Secrets, keys: seq<Key>, kid: Fingerprint): Option<Key>
    decreases |keys|
  {
    if keys == [] then None
    else if secrets.fingerprint(keys[0]) == kid then Some(keys[0])
    else FirstWith(secrets, keys[1..], kid)
  }

  /** A V2 value is tried with the first key of its fingerprint only, a V1 value with every key. */
  function Decrypt(secrets: Secrets, keys: seq<Key>, blob: Blob): Option<string> {
    match blob
    case V2(kid, sealed) => if FirstWith(secrets, keys, kid) == Some(sealed.key) then Some(sealed.plain) else None
    case V1(sealed) => if sealed.key in keys then Some(sealed.plain) else None
    case Junk(_) => None
  }

  function Encrypt(secrets: Secrets, plain: string, nonce: nat): Blob {
    V2(secrets.fingerprint(secrets.current), Sealed(secrets.current, plain, nonce))
  }

  /** What is encrypted under the current secret opens with the current secret alone and with all known secrets. */
  lemma DecryptEncrypt(secrets: Secrets, plain: string, nonce: nat)
    ensures Decrypt(secrets, [secrets.current], Encrypt(secrets, plain, nonce)) == Some(plain)
    ensures Decrypt(secrets, secrets.Known(), Encrypt(secrets, plain, nonce)) == Some(plain)
    ensures forall other, text :: Encrypt(secrets, plain, nonce) == Encrypt(secrets, text, other) <==> plain == text && nonce == other
  {
  }

  /** With which keys a value opens: one that names a fingerprint when its key is the first of that fingerprint, an older
      one when its key is among them at all, and what is neither never. */
  lemma {:induction false} OpensExactly(secrets: Secrets, keys: seq<Key>, blob: Blob, plain: string)
    ensures Decrypt(secrets, keys, blob) == Some(plain) <==>
      match blob
      case V2(kid, sealed) =>
        sealed.plain == plain && exists i | 0 <= i < |keys| ::
          keys[i] == sealed.key && secrets.fingerprint(keys[i]) == kid && forall j | 0 <= j < i :: secrets.fingerprint(keys[j]) != kid
      case V1(sealed) => sealed.plain == plain && exists i | 0 <= i < |keys| :: keys[i] == sealed.key
      case Junk(_) => false
    decreases |keys|
  {
    if blob.V2? && keys != [] && secrets.fingerprint(keys[0]) != blob.kid {
      OpensExactly(secrets, keys[1..], blob, plain);
      assert forall i | 0 <= i < |keys[1..]| :: keys[1..][i] == keys[i + 1];
    }
  }

  /** So the rotation opens what any of the previous secrets sealed, unless another secret of its fingerprint is tried
      first. */
  lemma PreviousOpen(secrets: Secrets, i: nat, plain: string, nonce: nat)
    requires i < |secrets.previous|
    ensures var sealed := Sealed(secrets.previous[i], plain, nonce);
      var kid := secrets.fingerprint(secrets.previous[i]);
      && Decrypt(secrets, secrets.Known(), V1(sealed)) == Some(plain)
      && (secrets.fingerprint(secrets.current) != kid && (forall j | 0 <= j < i :: secrets.fingerprint(secrets.previous[j]) != kid) ==>
            Decrypt(secrets, secrets.Known(), V2(kid, sealed)) == Some(plain))
  {
    var sealed := Sealed(secrets.previous[i], plain, nonce);
    assert secrets.Known()[i + 1] == secrets.previous[i];
    OpensExactly(secrets, secrets.Known(), V1(sealed), plain);
    OpensExactly(secrets, secrets.Known(), V2(secrets.fingerprint(secrets.previous[i]), sealed), plain);
  }

  // ---- other writers ----

  datatype Write = Put(id: Id, blob: Blob) | Remove(id: Id)

  function WrittenOne(table: Table, write: Write): Table {
    match write
    case Put(id, blob) => table[id := blob]
    case Remove(id) => table - {id}
  }

  function Written(table: Table, writes: seq<Write>): Table
    decreases |writes|
  {
    if writes == [] then table else Written(WrittenOne(table, writes[0]), writes[1..])
  }

  // ---- the rotation ----

  /** The counts it prints. `byOldKey` holds one fingerprint, or none for V1, per value that has to be rotated. */
  datatype Tally = Tally(alreadyCurrent: nat, rotated: nat, unreadable: nat, byOldKey: multiset<Option<Fingerprint>>)

  datatype Progress = Progress(table: Table, tally: Tally)

  function IsCurrent(secrets: Secrets, blob: Blob): bool {
    KeyId(blob) == Some(secrets.fingerprint(secrets.current))
  }

  /** One row of the snapshot: only a value that is unchanged in the table is replaced. */
  function RotateRow(secrets: Secrets, dryRun: bool, p: Progress, row: Row, nonce: nat): Progress {
    var plain := Decrypt(secrets, secrets.Known(), row.blob);
    if IsCurrent(secrets, row.blob) then p.(tally := p.tally.(alreadyCurrent := p.tally.alreadyCurrent + 1))
    else if plain.None? then p.(tally := p.tally.(unreadable := p.tally.unreadable + 1))
    else
      var counted := p.tally.(byOldKey := p.tally.byOldKey + multiset{KeyId(row.blob)});
      if !dryRun && row.id in p.table && p.table[row.id] == row.blob then
        Progress(p.table[row.id := Encrypt(secrets, plain.value, nonce)], counted.(rotated := counted.rotated + 1))
      else
        p.(tally := counted)
  }

  /** The rows of the snapshot in turn, each after its batch of other writes. */
  function Rotate(secrets: Secrets, dryRun: bool, p: Progress, rows: seq<Row>, batches: seq<seq<Write>>, nonces: seq<nat>): Progress
    requires |rows| == |batches| == |nonces|
    decreases |rows|
  {
    if rows == [] then p
    else
      var written := p.(table := Written(p.table, batches[0]));
      Rotate(secrets, dryRun, RotateRow(secrets, dryRun, written, rows[0], nonces[0]), rows[1..], batches[1..], nonces[1..])
  }

  const START := Tally(0, 0, 0, multiset{})

  /** The table without the rotation: the same writes, in the same order. */
  function Erased(table: Table, batches: seq<seq<Write>>): Table
    decreases |batches|
  {
    if batches == [] then table else Erased(Written(table, batches[0]), batches[1..])
  }

  // ---- the program ----

  class Database {
    var rows: Table

    /** UPDATE … WHERE the stored value is still the expected one; gives the number of rows changed. */
    method CompareAndSwap(id: Id, expected: Blob, blob: Blob) returns (rowCount: nat)
      modifies this
      ensures rows == if id in old(rows) && old(rows)[id] == expected then old(rows)[id := blob] else old(rows)
      ensures rowCount == if id in old(rows) && old(rows)[id] == expected then 1 else 0
    {
      if id in rows && rows[id] == expected {
        rows := rows[id := blob];
        rowCount := 1;
      } else {
        rowCount := 0;
      }
    }

    /** The writes of others that happen to fall here. */
    method Receive(writes: seq<Write>)
      modifies this
      ensures rows == Written(old(rows), writes)
    {
      for i := 0 to |writes|
        invariant Written(rows, writes[i..]) == Written(old(rows), writes)
      {
        rows := WrittenOne(rows, writes[i]);
      }
    }
  }

  method RotateAll(
    secrets: Secrets, dryRun: bool, db: Database, snapshot: seq<Row>, batches: seq<seq<Write>>, nonces: seq<nat>)
    returns (tally: Tally, exitCode: nat)
    requires |snapshot| == |batches| == |nonces|
    modifies db
    ensures Progress(db.rows, tally) == Rotate(secrets, dryRun, Progress(old(db.rows), START), snapshot, batches, nonces)
    ensures exitCode == if tally.unreadable > 0 then 2 else 0
  {
    var alreadyCurrent, rotated, unreadable, byOldKey := 0, 0, 0, multiset{};
    var i := 0;
    while i < |snapshot|
      invariant i <= |snapshot|
      invariant
        Rotate(secrets, dryRun, Progress(db.rows, Tally(alreadyCurrent, rotated, unreadable, byOldKey)),
               snapshot[i..], batches[i..], nonces[i..])
        == Rotate(secrets, dryRun, Progress(old(db.rows), START), snapshot, batches, nonces)
    {
      var row := snapshot[i];
      db.Receive(batches[i]);
      i := i + 1;
      if KeyId(row.blob) == Some(secrets.fingerprint(secrets.current)) {
        alreadyCurrent := alreadyCurrent + 1;
        continue;
      }
      var plain := Decrypt(secrets, secrets.Known(), row.blob);
      if plain.None? {
        unreadable := unreadable + 1;
        continue;
      }
      byOldKey := byOldKey + multiset{KeyId(row.blob)};
      if dryRun { continue; }
      var rowCount := db.CompareAndSwap(row.id, row.blob, Encrypt(secrets, plain.value, nonces[i - 1]));
      if rowCount > 0 { rotated := rotated + 1; }
    }
    tally := Tally(alreadyCurrent, rotated, unreadable, byOldKey);
    exitCode := if unreadable > 0 then 2 else 0;
  }
}
