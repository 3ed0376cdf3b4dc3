/** The migration runner: every pending file is applied and recorded in one transaction, so a run may be cut off
    anywhere and started again. What a file does to the data is any function that may fail. */
module Migrations {
  import opened Options

  type File = string

  /** `recorded` is the content of schema_migrations, once that table exists. */
  datatype Database<D> = Database(data: D, recorded: Option<set<File>>)

  function Recorded<D>(db: Database<D>): set<File> {
    if db.recorded.Some? then db.recorded.value else {}
  }

  function Bootstrapped<D>(db: Database<D>): Database<D> {
    db.(recorded := Some(Recorded(db)))
  }

  function Pending(files: seq<File>, recorded: set<File>): (pending: seq<File>)
    ensures |pending| <= |files|
  {
    if files == [] then []
    else (if files[0] in recorded then [] else [files[0]]) + Pending(files[1..], recorded)
  }

  /** One file's transaction: its effect and its record, or nothing. */
  function Committed<D>(effect: (File, D) -> Option<D>, db: Database<D>, file: File): Option<Database<D>> {
    var data := effect(file, db.data);
    if data.None? then None else Some(Database(data.value, Some(Recorded(db) + {file})))
  }

  /** The pending files in turn, until one fails or the run is cut off after `steps` commits. A transaction that is cut
      off leaves nothing. */
  function Applied<D>(effect: (File, D) -> Option<D>, db: Database<D>, pending: seq<File>, steps: nat): Database<D>
    decreases |pending|
  {
    if pending == [] || steps == 0 then db
    else
      var next := Committed(effect, db, pending[0]);
      if next.None? then db else Applied(effect, next.value, pending[1..], steps - 1)
  }

  /** A run that is cut off after `steps` steps, the first of which makes the table of records. */
  function CutRun<D>(effect: (File, D) -> Option<D>, files: seq<File>, db: Database<D>, steps: nat): Database<D> {
    if steps == 0 then db
    else
      var ready := Bootstrapped(db);
      Applied(effect, ready, Pending(files, Recorded(ready)), steps - 1)
  }

  /** A run that nothing cuts off. It ends at the last file or at the first that fails. */
  function FullRun<D>(effect: (File, D) -> Option<D>, files: seq<File>, db: Database<D>): Database<D> {
    CutRun(effect, files, db, |files| + 1)
  }

  function CutRuns<D>(effect: (File, D) -> Option<D>, files: seq<File>, db: Database<D>, cuts: seq<nat>): Database<D>
    decreases |cuts|
  {
    if cuts == [] then db else CutRuns(effect, files, CutRun(effect, files, db, cuts[0]), cuts[1..])
  }

  // ---- file names ----

  predicate Distinct(files: seq<File>) {
    forall i, j | 0 <= i < j < |files| :: files[i] != files[j]
  }

  lemma {:induction false} PendingIs(files: seq<File>, recorded: set<File>)
    ensures forall file :: file in Pending(files, recorded) <==> file in files && file !in recorded
    ensures Distinct(files) ==> Distinct(Pending(files, recorded))
  {
    if files != [] {
      PendingIs(files[1..], recorded);
      assert files == [files[0]] + files[1..];
      if Distinct(files) {
        assert Distinct(files[1..]);
      }
    }
  }

  function Set(files: seq<File>): set<File> {
    set file <- files
  }

  lemma SetSnoc(files: seq<File>, n: nat)
    requires n < |files|
    ensures Set(files[..n + 1]) == Set(files[..n]) + {files[n]}
  {
    assert files[..n + 1] == files[..n] + [files[n]];
  }

  /** The files are all recorded exactly when the pending ones have all been. */
  lemma AllRecorded(files: seq<File>, recorded: set<File>, n: nat)
    requires Distinct(files) && n <= |Pending(files, recorded)|
    ensures (forall file <- files :: file in recorded + Set(Pending(files, recorded)[..n]))
            <==> n == |Pending(files, recorded)|
  {
    var pending := Pending(files, recorded);
    PendingIs(files, recorded);
    if n == |pending| {
      assert pending[..n] == pending;
    } else {
      assert pending[n] in pending && pending[n] !in pending[..n];
    }
  }

  // ---- the program ----

  class Client<D> {
    var data: D
    var recorded: Option<set<File>>

    function State(): Database<D>
      reads this
    {
      Database(data, recorded)
    }

    constructor (db: Database<D>)
      ensures State() == db
    {
      data, recorded := db.data, db.recorded;
    }

    method Bootstrap()
      modifies this
      ensures State() == Bootstrapped(old(State()))
    {
      if recorded.None? { recorded := Some({}); }
    }

    /** BEGIN, the file, its record, COMMIT; or ROLLBACK when the file fails. */
    method Transact(effect: (File, D) -> Option<D>, file: File) returns (ok: bool)
      requires recorded.Some?
      modifies this
      ensures ok == Committed(effect, old(State()), file).Some?
      ensures State() == if ok then Committed(effect, old(State()), file).value else old(State())
    {
      var result := effect(file, data);
      if result.None? { return false; }
      data := result.value;
      recorded := Some(recorded.value + {file});
      ok := true;
    }

    /** One run, cut off after `steps` steps. `listed` is what a dry run prints. */
    method Migrate(effect: (File, D) -> Option<D>, files: seq<File>, dryRun: bool, steps: nat)
      returns (listed: seq<File>, failed: Option<File>)
      requires Distinct(files)
      modifies this
      ensures State() == if dryRun then old(State()) else CutRun(effect, files, old(State()), steps)
      ensures listed == if dryRun then Pending(files, Recorded(old(State()))) else []
      ensures failed.Some? ==> !dryRun && Committed(effect, State(), failed.value) == None
      ensures !dryRun && steps > |files| ==> (failed.None? <==> forall file <- files :: file in Recorded(State()))
    {
      hide Distinct, Pending;
      listed, failed := [], None;
      var left := steps;
      if !dryRun {
        if left == 0 { return; }
        Bootstrap();
        left := left - 1;
      }
      var applied := if recorded.Some? then recorded.value else {};
      var pending := Pending(files, applied);
      assert Set(pending[..0]) == {};
      if dryRun { return pending, None; }
      var i := 0;
      while i < |pending| && left > 0
        invariant i <= |pending| && recorded.Some? && 0 <= left == steps - 1 - i
        invariant recorded.value == applied + Set(pending[..i])
        invariant Applied(effect, State(), pending[i..], left)
                  == Applied(effect, Bootstrapped(old(State())), pending, steps - 1)
      {
        var ok := Transact(effect, pending[i]);
        if !ok {
          AllRecorded(files, applied, i);
          return [], Some(pending[i]);
        }
        SetSnoc(pending, i);
        i := i + 1;
        left := left - 1;
      }
      AllRecorded(files, applied, i);
    }
  }

  // ---- at every point ----

  /** The effects of some files, one after the other. */
  function Effects<D>(effect: (File, D) -> Option<D>, data: D, files: seq<File>): Option<D>
    decreases |files|
  {
    if files == [] then Some(data)
    else
      var next := effect(files[0], data);
      if next.None? then None else Effects(effect, next.value, files[1..])
  }

  lemma {:induction false} AppliedIsAPrefix<D>(effect: (File, D) -> Option<D>, db: Database<D>, pending: seq<File>, steps: nat)
    returns (done: nat)
    requires db.recorded.Some?
    ensures done <= |pending| && done <= steps
    ensures var after := Applied(effect, db, pending, steps);
      && Effects(effect, db.data, pending[..done]) == Some(after.data)
      && after.recorded == Some(Recorded(db) + Set(pending[..done]))
      && (done == |pending| || done == steps || effect(pending[done], after.data) == None)
    decreases |pending|
  {
    done := 0;
    assert pending[..0] == [] && Recorded(db) + Set([]) == Recorded(db);
    if pending != [] && steps > 0 && Committed(effect, db, pending[0]).Some? {
      var next := Committed(effect, db, pending[0]).value;
      var rest := AppliedIsAPrefix(effect, next, pending[1..], steps - 1);
      done := rest + 1;
      assert pending[..done][1..] == pending[1..][..rest];
      assert pending[..done] == [pending[0]] + pending[1..][..rest];
      assert Set(pending[..done]) == {pending[0]} + Set(pending[1..][..rest]);
      assert Recorded(db) + {pending[0]} + Set(pending[1..][..rest]) == Recorded(db) + Set(pending[..done]);
    }
  }

  /** Wherever a run is cut off, the data has the effects of the first so many pending files, each once, and exactly
      those files have been recorded besides the ones that were; a run that is not cut off goes on to the last pending
      file or to the first that fails. */
  lemma RecordedExactlyWhenCommitted<D>(effect: (File, D) -> Option<D>, files: seq<File>, db: Database<D>, steps: nat)
    returns (done: nat)
    requires Distinct(files)
    ensures var pending := Pending(files, Recorded(db));
      var after := CutRun(effect, files, db, steps);
      && done <= |pending|
      && Effects(effect, db.data, pending[..done]) == Some(after.data)
      && Recorded(after) == Recorded(db) + Set(pending[..done])
      && Distinct(pending) && Set(pending) !! Recorded(db)
      && (steps > |files| ==> done == |pending| || effect(pending[done], after.data) == None)
  {
    PendingIs(files, Recorded(db));
    done := 0;
    if steps > 0 {
      done := AppliedIsAPrefix(effect, Bootstrapped(db), Pending(files, Recorded(db)), steps - 1);
    }
  }

  // ---- resuming ----

  /** The same run, as one walk over all files that skips what is recorded. */
  function Walk<D>(effect: (File, D) -> Option<D>, db: Database<D>, files: seq<File>, steps: nat): Database<D>
    decreases |files|
  {
    if files == [] then db
    else if files[0] in Recorded(db) then Walk(effect, db, files[1..], steps)
    else if steps == 0 then db
    else
      var next := Committed(effect, db, files[0]);
      if next.None? then db else Walk(effect, next.value, files[1..], steps - 1)
  }

  /** Looking the recorded files up once, before the first transaction, is as good as before each. */
  lemma {:induction false} AppliedWalks<D>(
    effect: (File, D) -> Option<D>, db: Database<D>, files: seq<File>, recorded: set<File>, steps: nat)
    requires Distinct(files) && forall file <- files :: file in recorded <==> file in Recorded(db)
    ensures Applied(effect, db, Pending(files, recorded), steps) == Walk(effect, db, files, steps)
    decreases |files|
  {
    if files != [] {
      var pending := Pending(files, recorded);
      assert Distinct(files[1..]) && files[0] !in files[1..];
      if files[0] in recorded {
        assert pending == Pending(files[1..], recorded);
        AppliedWalks(effect, db, files[1..], recorded, steps);
      } else {
        assert pending[1..] == Pending(files[1..], recorded);
        if steps > 0 && Committed(effect, db, files[0]).Some? {
          AppliedWalks(effect, Committed(effect, db, files[0]).value, files[1..], recorded, steps - 1);
        }
      }
    }
  }

  lemma {:induction false} WalkRecords<D>(effect: (File, D) -> Option<D>, db: Database<D>, files: seq<File>, steps: nat)
    ensures Recorded(db) <= Recorded(Walk(effect, db, files, steps))
    decreases |files|
  {
    if files != [] {
      if files[0] in Recorded(db) {
        WalkRecords(effect, db, files[1..], steps);
      } else if steps > 0 && Committed(effect, db, files[0]).Some? {
        WalkRecords(effect, Committed(effect, db, files[0]).value, files[1..], steps - 1);
      }
    }
  }

  lemma {:induction false} WalkResumes<D>(
    effect: (File, D) -> Option<D>, db: Database<D>, files: seq<File>, steps: nat, m: nat, n: nat)
    requires m >= |files| && n >= |files|
    ensures Walk(effect, Walk(effect, db, files, steps), files, m) == Walk(effect, db, files, n)
    decreases |files|
  {
    if files != [] {
      if files[0] in Recorded(db) {
        WalkRecords(effect, db, files[1..], steps);
        WalkResumes(effect, db, files[1..], steps, m, n);
      } else if Committed(effect, db, files[0]).Some? {
        var next := Committed(effect, db, files[0]).value;
        if steps == 0 {
          WalkResumes(effect, next, files[1..], 0, m - 1, n - 1);
          WalkResumes(effect, next, files[1..], 0, m - 1, m - 1);
        } else {
          WalkRecords(effect, next, files[1..], steps - 1);
          WalkResumes(effect, next, files[1..], steps - 1, m, n - 1);
        }
      }
    }
  }

  lemma OneCutResumes<D>(effect: (File, D) -> Option<D>, files: seq<File>, db: Database<D>, steps: nat)
    requires Distinct(files)
    ensures FullRun(effect, files, CutRun(effect, files, db, steps)) == FullRun(effect, files, db)
  {
    hide Applied, Walk, Distinct;
    var ready := Bootstrapped(db);
    AppliedWalks(effect, ready, files, Recorded(ready), |files|);
    if steps > 0 {
      AppliedWalks(effect, ready, files, Recorded(ready), steps - 1);
      WalkRecords(effect, ready, files, steps - 1);
      WalkResumes(effect, ready, files, steps - 1, |files|, |files|);
      var cut := CutRun(effect, files, db, steps);
      var _ := AppliedIsAPrefix(effect, ready, Pending(files, Recorded(ready)), steps - 1);
      assert Bootstrapped(cut) == cut;
      AppliedWalks(effect, cut, files, Recorded(cut), |files|);
    } else {
      assert Bootstrapped(db) == ready;
    }
  }

  /** Any number of runs cut off anywhere, and then one that is not, leave the database that one uninterrupted run
      leaves, from any database and whether or not a file fails. */
  lemma {:induction false} CutRunsResume<D>(effect: (File, D) -> Option<D>, files: seq<File>, db: Database<D>, cuts: seq<nat>)
    requires Distinct(files)
    ensures FullRun(effect, files, CutRuns(effect, files, db, cuts)) == FullRun(effect, files, db)
    decreases |cuts|
  {
    if cuts != [] {
      CutRunsResume(effect, files, CutRun(effect, files, db, cuts[0]), cuts[1..]);
      OneCutResumes(effect, files, db, cuts[0]);
    }
  }

  /** A file whose effect is to be noted once more. */
  function Noted(file: File, log: seq<File>): Option<seq<File>> {
    Some(log + [file])
  }

  lemma OneFile(db: Database<seq<File>>, file: File)
    requires db.recorded.Some?
    ensures Applied(Noted, db, [file], 1) == Database(db.data + [file], Some(db.recorded.value + {file}))
  {
    assert Applied(Noted, Committed(Noted, db, file).value, [file][1..], 0) == Committed(Noted, db, file).value;
  }

  /** One runner at a time is needed: two that looked before either committed apply a file twice. */
  lemma TwoRunnersApplyTwice(file: File)
    ensures var db: Database<seq<File>> := Database([], Some({}));
      var pending := Pending([file], Recorded(db));
      Applied(Noted, Applied(Noted, db, pending, 1), pending, 1) == Database([file, file], Some({file}))
  {
    var db: Database<seq<File>> := Database([], Some({}));
    assert Recorded(db) == {} && Pending([file], {}) == [file];
    OneFile(db, file);
    var once := Applied(Noted, db, [file], 1);
    assert db.data + [file] == [file] && db.recorded.value + {file} == {file};
    OneFile(once, file);
    assert [file] + [file] == [file, file] && {file} + {file} == {file};
  }
}
