/**
 The migration runner and its ledger.  Schema statements commit as they run, so
 a call may stop anywhere: each database operation succeeds, fails without
 effect, or fails after its effect; running out of outcomes is a crash.  Calls
 are serialized by the advisory lock.
 */
module Migrations {
  import SqlSplitter

  /** `body` holds the statements that the splitter found in the file. */
  datatype Migration = Migration(version: string, checksum: string, body: seq<string>)

  datatype File = File(version: string, checksum: string, text: string)

  function Loaded(f: File): Migration {
    Migration(f.version, f.checksum, SqlSplitter.Split(f.text))
  }

  function LoadedAll(fs: seq<File>): seq<Migration> {
    seq(|fs|, i requires 0 <= i < |fs| => Loaded(fs[i]))
  }

  datatype Entry = Entry(checksum: string, dirty: bool)

  /** The `k`-th statement of a migration, as executed. */
  datatype Executed = Executed(version: string, k: nat, sql: string)

  datatype Database = Database(hasLedger: bool, ledger: map<string, Entry>, log: seq<Executed>)

  datatype Outcome = Ok | FailsBefore | FailsAfter

  /** What one operation sequence leaves: the database, the unused outcomes, and whether it went on. */
  datatype Progress = Progress(db: Database, rest: seq<Outcome>, ok: bool)

  function Stopped(db: Database): Progress {
    Progress(db, [], false)
  }

  /** A statement with effect: skipped, done, or done and then reported as failed. */
  function Op(db: Database, after: Database, os: seq<Outcome>): Progress {
    if |os| == 0 || os[0] == FailsBefore then Stopped(db)
    else if os[0] == FailsAfter then Stopped(after)
    else Progress(after, os[1..], true)
  }

  // ----- history check --------------------------------------------------------------------

  function Versions(ms: seq<Migration>, n: nat): set<string>
    requires n <= |ms|
  {
    set i | 0 <= i < n :: ms[i].version
  }

  predicate DistinctVersions(ms: seq<Migration>) {
    forall i, j :: 0 <= i < |ms| && 0 <= j < |ms| && ms[i].version == ms[j].version ==> i == j
  }

  /** The applied versions are the first ones of the list, for some count. */
  predicate IsPrefix(ms: seq<Migration>, applied: set<string>) {
    exists n :: 0 <= n <= |ms| && applied == Versions(ms, n)
  }

  method ValidateVersions(ms: seq<Migration>, applied: seq<string>) returns (ok: bool)
    requires DistinctVersions(ms)
    ensures ok <==> IsPrefix(ms, set v | v in applied)
  {
    var known: map<string, int> := map[];
    for i := 0 to |ms|
      invariant forall v :: v in known <==> v in Versions(ms, i)
      invariant forall j :: 0 <= j < i ==> ms[j].version in known && known[ms[j].version] == j
    {
      assert Versions(ms, i + 1) == Versions(ms, i) + {ms[i].version};
      known := known[ms[i].version := i];
    }
    ghost var all := set v | v in applied;
    var present: set<string> := {};
    var highest := -1;
    for k := 0 to |applied|
      invariant present == set v | v in applied[..k]
      invariant -1 <= highest < |ms| && (highest >= 0 ==> ms[highest].version in present)
      invariant present <= Versions(ms, highest + 1)
    {
      assert applied[..k + 1] == applied[..k] + [applied[k]];
      if applied[k] !in known {
        assert applied[k] in all;
        assert forall n :: 0 <= n <= |ms| ==> Versions(ms, n) <= Versions(ms, |ms|);
        return false;
      }
      var index := known[applied[k]];
      present := present + {applied[k]};
      assert applied[k] in Versions(ms, |ms|);
      assert 0 <= index < |ms| && ms[index].version == applied[k];
      assert Versions(ms, highest + 1) <= Versions(ms, if index > highest then index + 1 else highest + 1);
      if index > highest { highest := index; }
    }
    assert applied[..|applied|] == applied && present == all;
    for index := 0 to highest + 1
      invariant Versions(ms, index) <= present
    {
      assert Versions(ms, index + 1) == Versions(ms, index) + {ms[index].version};
      if ms[index].version !in present {
        GapIsNotPrefix(ms, all, index, highest);
        return false;
      }
    }
    assert all == Versions(ms, highest + 1);
    return true;
  }

  lemma GapIsNotPrefix(ms: seq<Migration>, applied: set<string>, gap: nat, top: nat)
    requires DistinctVersions(ms) && gap < top < |ms| && ms[gap].version !in applied && ms[top].version in applied
    ensures !IsPrefix(ms, applied)
  {
    forall n | 0 <= n <= |ms| ensures applied != Versions(ms, n) {
      if n <= gap {
        assert ms[top].version !in Versions(ms, n);
      } else {
        assert ms[gap].version in Versions(ms, n);
      }
    }
  }

  /** validateBootstrapCounts: nothing may be stamped onto tables that have no history. */
  predicate BootstrapOk(ledgerExists: bool, migrations: int, tables: int) {
    if migrations < 0 || tables < 0 then false
    else if !ledgerExists && migrations != 0 then false
    else !(migrations == 0 && tables != 0)
  }

  // ----- one call ---------------------------------------------------------------------------------

  function RunBody(db: Database, m: Migration, k: nat, os: seq<Outcome>): Progress
    requires k <= |m.body|
    decreases |m.body| - k
  {
    if k == |m.body| then Progress(db, os, true)
    else
      var p := Op(db, db.(log := db.log + [Executed(m.version, k, m.body[k])]), os);
      if p.ok then RunBody(p.db, m, k + 1, p.rest) else p
  }

  function MarkDirty(db: Database, m: Migration): Database {
    db.(ledger := db.ledger[m.version := Entry(m.checksum, true)])
  }

  /** UPDATE ... SET dirty = FALSE WHERE version AND checksum AND dirty; anything but one row is an error. */
  function MarkClean(db: Database, m: Migration): Database {
    if m.version in db.ledger && db.ledger[m.version] == Entry(m.checksum, true)
    then db.(ledger := db.ledger[m.version := Entry(m.checksum, false)]) else db
  }

  function ApplyOne(db: Database, m: Migration, os: seq<Outcome>): Progress {
    var read := Op(db, db, os);
    if !read.ok then read
    else if m.version in db.ledger then
      if db.ledger[m.version] == Entry(m.checksum, false) then read else Stopped(db)
    else
      var marked := Op(db, MarkDirty(db, m), read.rest);
      if !marked.ok then marked else
      var ran := RunBody(marked.db, m, 0, marked.rest);
      if !ran.ok then ran else Op(ran.db, MarkClean(ran.db, m), ran.rest)
  }

  function ApplyAll(db: Database, ms: seq<Migration>, i: nat, os: seq<Outcome>): Progress
    requires i <= |ms|
    decreases |ms| - i
  {
    if i == |ms| then Progress(db, os, true)
    else
      var p := ApplyOne(db, ms[i], os);
      if p.ok then ApplyAll(p.db, ms, i + 1, p.rest) else p
  }

  /** Lock, look, create the ledger, check the history, apply. */
  function Migrate(db: Database, ms: seq<Migration>, tables: nat, os: seq<Outcome>): Progress {
    var looked := Op(db, db, os);
    if !looked.ok || !BootstrapOk(db.hasLedger, |db.ledger|, tables) then Stopped(db) else
    var created := Op(db, db.(hasLedger := true), looked.rest);
    if !created.ok then created else
    var checked := Op(created.db, created.db, created.rest);
    if !checked.ok || !IsPrefix(ms, created.db.ledger.Keys) then Stopped(created.db)
    else ApplyAll(created.db, ms, 0, checked.rest)
  }

  // ----- a nil return ------------------------------------------------------------------------------

  predicate CleanEntry(db: Database, m: Migration) {
    m.version in db.ledger && db.ledger[m.version] == Entry(m.checksum, false)
  }

  lemma {:induction false} RunBodyKeepsLedger(db: Database, m: Migration, k: nat, os: seq<Outcome>)
    requires k <= |m.body|
    ensures RunBody(db, m, k, os).db.ledger == db.ledger && RunBody(db, m, k, os).db.hasLedger == db.hasLedger
    decreases |m.body| - k
  {
    if k < |m.body| {
      var p := Op(db, db.(log := db.log + [Executed(m.version, k, m.body[k])]), os);
      if p.ok { RunBodyKeepsLedger(p.db, m, k + 1, p.rest); }
    }
  }

  lemma ApplyOneLedger(db: Database, m: Migration, os: seq<Outcome>)
    ensures var p := ApplyOne(db, m, os); p.ok ==> CleanEntry(p.db, m)
    ensures forall v :: v in db.ledger ==> v in ApplyOne(db, m, os).db.ledger && ApplyOne(db, m, os).db.ledger[v] == db.ledger[v]
  {
    var read := Op(db, db, os);
    if read.ok && m.version !in db.ledger {
      var marked := Op(db, MarkDirty(db, m), read.rest);
      if marked.ok { RunBodyKeepsLedger(marked.db, m, 0, marked.rest); }
    }
  }

  /** Whatever the database held before: a nil return means every migration is clean with its checksum. */
  lemma {:induction false} NilMeansClean(db: Database, ms: seq<Migration>, i: nat, os: seq<Outcome>)
    requires i <= |ms|
    ensures var p := ApplyAll(db, ms, i, os); p.ok ==> forall j :: i <= j < |ms| ==> CleanEntry(p.db, ms[j])
    ensures forall v :: v in db.ledger ==> v in ApplyAll(db, ms, i, os).db.ledger && ApplyAll(db, ms, i, os).db.ledger[v] == db.ledger[v]
    decreases |ms| - i
  {
    if i < |ms| {
      ApplyOneLedger(db, ms[i], os);
      var p := ApplyOne(db, ms[i], os);
      if p.ok { NilMeansClean(p.db, ms, i + 1, p.rest); }
    }
  }
}
