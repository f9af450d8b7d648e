/** When a migration call succeeds. */
module MigrationSuccess {
  import opened Migrations
  import opened MigrationRuns

  /** The first `n` operations go well. */
  predicate AllOk(os: seq<Outcome>, n: nat) {
    n <= |os| && forall i :: 0 <= i < n ==> os[i] == Ok
  }

  /** The outcomes after the first `n`. */
  function Past(os: seq<Outcome>, n: nat): seq<Outcome> {
    if n <= |os| then os[n..] else []
  }

  lemma AllOkSplit(os: seq<Outcome>, a: nat, b: nat)
    ensures AllOk(os, a + b) <==> AllOk(os, a) && AllOk(Past(os, a), b)
    ensures Past(Past(os, a), b) == Past(os, a + b)
  {
    if AllOk(os, a) && AllOk(Past(os, a), b) {
      forall i | 0 <= i < a + b ensures os[i] == Ok { if i >= a { assert os[i] == Past(os, a)[i - a]; } }
    }
  }

  /** Operations for a migration that is not in the ledger: look, mark, each statement, mark clean. */
  function Work(m: Migration): nat {
    3 + |m.body|
  }

  function WorkFrom(ms: seq<Migration>, i: nat): nat
    requires i <= |ms|
    decreases |ms| - i
  {
    if i == |ms| then 0 else Work(ms[i]) + WorkFrom(ms, i + 1)
  }

  lemma OpExactly(db: Database, after: Database, os: seq<Outcome>)
    ensures Op(db, after, os).ok <==> AllOk(os, 1)
    ensures AllOk(os, 1) ==> Op(db, after, os) == Progress(after, Past(os, 1), true)
  {
  }

  lemma {:induction false} BodyExactly(db: Database, m: Migration, k: nat, os: seq<Outcome>)
    requires k <= |m.body|
    ensures var p := RunBody(db, m, k, os); var n := |m.body| - k;
      (p.ok <==> AllOk(os, n)) && (p.ok ==> p.rest == Past(os, n))
    decreases |m.body| - k
  {
    if k < |m.body| {
      var after := db.(log := db.log + [Executed(m.version, k, m.body[k])]);
      OpExactly(db, after, os);
      AllOkSplit(os, 1, |m.body| - k - 1);
      if AllOk(os, 1) {
        BodyExactly(after, m, k + 1, Past(os, 1));
      }
    } else {
      assert Past(os, 0) == os;
    }
  }

  /** A migration in the ledger costs one look, and goes on exactly when it is clean with this checksum. */
  lemma KnownExactly(db: Database, m: Migration, os: seq<Outcome>)
    requires m.version in db.ledger
    ensures ApplyOne(db, m, os).ok <==> CleanEntry(db, m) && AllOk(os, 1)
    ensures ApplyOne(db, m, os).ok ==> ApplyOne(db, m, os) == Progress(db, Past(os, 1), true)
  {
  }

  /** A new migration goes through exactly when each of its operations does. */
  lemma NewExactly(db: Database, m: Migration, os: seq<Outcome>)
    requires m.version !in db.ledger
    ensures var p := ApplyOne(db, m, os);
      && (p.ok <==> AllOk(os, Work(m)))
      && (p.ok ==> p.rest == Past(os, Work(m)) && p.db.ledger == db.ledger[m.version := Entry(m.checksum, false)])
  {
    var dirty, n := MarkDirty(db, m), |m.body|;
    OpExactly(db, db, os);
    AllOkSplit(os, 1, n + 2);
    if AllOk(os, 1) {
      var os1 := Past(os, 1);
      OpExactly(db, dirty, os1);
      AllOkSplit(os1, 1, n + 1);
      if AllOk(os1, 1) { MarkedExactly(dirty, m, Past(os1, 1)); }
    }
  }

  lemma MarkedExactly(db: Database, m: Migration, os: seq<Outcome>)
    requires m.version in db.ledger && db.ledger[m.version] == Entry(m.checksum, true)
    ensures
      var ran := RunBody(db, m, 0, os);
      var p := if ran.ok then Op(ran.db, MarkClean(ran.db, m), ran.rest) else ran;
      && (p.ok <==> AllOk(os, |m.body| + 1))
      && (p.ok ==> p.rest == Past(os, |m.body| + 1) && p.db.ledger == db.ledger[m.version := Entry(m.checksum, false)])
  {
    var n, ran := |m.body|, RunBody(db, m, 0, os);
    BodyExactly(db, m, 0, os);
    RunBodyKeepsLedger(db, m, 0, os);
    AllOkSplit(os, n, 1);
    if ran.ok {
      OpExactly(ran.db, MarkClean(ran.db, m), ran.rest);
    }
  }

  /** Migrations that are all new. */
  lemma {:induction false} NewOnesExactly(db: Database, ms: seq<Migration>, i: nat, os: seq<Outcome>)
    requires i <= |ms| && DistinctVersions(ms) && forall j :: i <= j < |ms| ==> ms[j].version !in db.ledger
    ensures ApplyAll(db, ms, i, os).ok <==> AllOk(os, WorkFrom(ms, i))
    decreases |ms| - i
  {
    if i < |ms| {
      var p := ApplyOne(db, ms[i], os);
      NewExactly(db, ms[i], os);
      AllOkSplit(os, Work(ms[i]), WorkFrom(ms, i + 1));
      if p.ok {
        forall j | i + 1 <= j < |ms| ensures ms[j].version !in p.db.ledger { assert ms[j].version != ms[i].version; }
        NewOnesExactly(p.db, ms, i + 1, p.rest);
      }
    }
  }

  /** Migrations of which the first `n` are done. */
  lemma {:induction false} KnownThenNew(db: Database, ms: seq<Migration>, i: nat, n: nat, os: seq<Outcome>)
    requires i <= n && CleanPrefix(db, ms, n) && DistinctVersions(ms)
    ensures ApplyAll(db, ms, i, os).ok <==> AllOk(os, n - i + WorkFrom(ms, n))
    ensures n == |ms| && ApplyAll(db, ms, i, os).ok ==> ApplyAll(db, ms, i, os).db == db
    decreases n - i
  {
    if i == n {
      forall j | n <= j < |ms| ensures ms[j].version !in db.ledger { assert ms[j].version !in Versions(ms, n); }
      NewOnesExactly(db, ms, n, os);
    } else {
      assert CleanEntry(db, ms[i]);
      KnownExactly(db, ms[i], os);
      AllOkSplit(os, 1, n - i - 1 + WorkFrom(ms, n));
      if AllOk(os, 1) { KnownThenNew(db, ms, i + 1, n, Past(os, 1)); }
    }
  }

  /** The ledger holds exactly the first `n` migrations, clean and with these checksums. */
  predicate CleanPrefix(db: Database, ms: seq<Migration>, n: nat) {
    n <= |ms| && db.ledger.Keys == Versions(ms, n) && forall i :: 0 <= i < n ==> CleanEntry(db, ms[i])
  }

  /** The three preliminary operations of a call. */
  lemma PreliminariesExactly(db: Database, ms: seq<Migration>, tables: nat, os: seq<Outcome>)
    ensures
      var p, ready := Migrate(db, ms, tables, os), db.(hasLedger := true);
      if BootstrapOk(db.hasLedger, |db.ledger|, tables) && IsPrefix(ms, db.ledger.Keys) && AllOk(os, 3)
      then p == ApplyAll(ready, ms, 0, Past(os, 3)) else !p.ok
  {
    var ready := db.(hasLedger := true);
    OpExactly(db, db, os);
    AllOkSplit(os, 1, 2);
    if AllOk(os, 1) {
      var os1 := Past(os, 1);
      OpExactly(db, ready, os1);
      AllOkSplit(os1, 1, 1);
      if AllOk(os1, 1) { OpExactly(ready, ready, Past(os1, 1)); }
    }
  }

  /** What a call is asked to do can be done, and every operation it needs goes well. */
  predicate WillSucceed(db: Database, ms: seq<Migration>, tables: nat, os: seq<Outcome>, n: nat) {
    && CleanPrefix(db, ms, n) && BootstrapOk(db.hasLedger, |db.ledger|, tables)
    && AllOk(os, 3 + n + WorkFrom(ms, n))
  }

  /**
   For every database: a call succeeds exactly when the ledger holds a clean prefix of
   the build's list with the same checksums, no tables stand there without a history,
   and no operation fails.
   */
  lemma SucceedsExactly(db: Database, ms: seq<Migration>, tables: nat, os: seq<Outcome>)
    requires DistinctVersions(ms)
    ensures Migrate(db, ms, tables, os).ok <==> exists n :: 0 <= n <= |ms| && WillSucceed(db, ms, tables, os, n)
  {
    if Migrate(db, ms, tables, os).ok {
      var n := SuccessWasClean(db, ms, tables, os);
      CleanSucceeds(db, ms, tables, os, n);
      assert WillSucceed(db, ms, tables, os, n);
    } else {
      forall n | 0 <= n <= |ms| ensures !WillSucceed(db, ms, tables, os, n) {
        if CleanPrefix(db, ms, n) && BootstrapOk(db.hasLedger, |db.ledger|, tables) { CleanSucceeds(db, ms, tables, os, n); }
      }
    }
  }

  lemma CleanSucceeds(db: Database, ms: seq<Migration>, tables: nat, os: seq<Outcome>, n: nat)
    requires DistinctVersions(ms) && CleanPrefix(db, ms, n) && BootstrapOk(db.hasLedger, |db.ledger|, tables)
    ensures Migrate(db, ms, tables, os).ok <==> AllOk(os, 3 + n + WorkFrom(ms, n))
    ensures n == |ms| && Migrate(db, ms, tables, os).ok ==> Migrate(db, ms, tables, os).db == db.(hasLedger := true)
  {
    var ready := db.(hasLedger := true);
    PreliminariesExactly(db, ms, tables, os);
    AllOkSplit(os, 3, n + WorkFrom(ms, n));
    assert IsPrefix(ms, db.ledger.Keys) && 3 + (n + WorkFrom(ms, n)) == 3 + n + WorkFrom(ms, n);
    if AllOk(os, 3) {
      assert CleanPrefix(ready, ms, n);
      KnownThenNew(ready, ms, 0, n, Past(os, 3));
    }
  }

  lemma SuccessWasClean(db: Database, ms: seq<Migration>, tables: nat, os: seq<Outcome>) returns (n: nat)
    requires Migrate(db, ms, tables, os).ok
    ensures CleanPrefix(db, ms, n) && BootstrapOk(db.hasLedger, |db.ledger|, tables)
  {
    var ready := db.(hasLedger := true);
    PreliminariesExactly(db, ms, tables, os);
    n :| 0 <= n <= |ms| && db.ledger.Keys == Versions(ms, n);
    NilMeansClean(ready, ms, 0, Past(os, 3));
    forall i | 0 <= i < n ensures CleanEntry(db, ms[i]) {
      assert ms[i].version in db.ledger;
      assert CleanEntry(Migrate(db, ms, tables, os).db, ms[i]);
    }
  }

  /** A restart on an up-to-date database: one look at each migration, success, and nothing changed. */
  lemma RestartSucceeds(db: Database, ms: seq<Migration>, tables: nat, os: seq<Outcome>)
    requires DistinctVersions(ms) && ms != [] && CleanPrefix(db, ms, |ms|) && db.hasLedger && AllOk(os, 3 + |ms|)
    ensures Migrate(db, ms, tables, os).ok && Migrate(db, ms, tables, os).db == db
  {
    assert ms[0].version in db.ledger;
    CleanSucceeds(db, ms, tables, os, |ms|);
  }

  /** A build that knows `k` migrations brings a database with the first `n` of them done to exactly `k`, if nothing fails. */
  lemma CallCompletes(db: Database, ms: seq<Migration>, n: nat, k: nat, tables: nat, os: seq<Outcome>)
    requires DistinctVersions(ms) && n <= k <= |ms| && Done(db, ms, n)
    requires BootstrapOk(db.hasLedger, |db.ledger|, tables) && AllOk(os, 3 + n + WorkFrom(ms[..k], n))
    ensures Migrate(db, ms[..k], tables, os).ok && Done(Migrate(db, ms[..k], tables, os).db, ms, k)
  {
    DoneSucceeds(db, ms, n, k, tables, os);
    var st := CallProgress(db, ms, AllDone(n), k, tables, os);
  }

  lemma DoneSucceeds(db: Database, ms: seq<Migration>, n: nat, k: nat, tables: nat, os: seq<Outcome>)
    requires DistinctVersions(ms) && n <= k <= |ms| && Done(db, ms, n)
    requires BootstrapOk(db.hasLedger, |db.ledger|, tables) && AllOk(os, 3 + n + WorkFrom(ms[..k], n))
    ensures Migrate(db, ms[..k], tables, os).ok
  {
    DoneIsClean(db, ms, n, k);
    CleanSucceeds(db, ms[..k], tables, os, n);
  }

  lemma DoneIsClean(db: Database, ms: seq<Migration>, n: nat, k: nat)
    requires DistinctVersions(ms) && n <= k <= |ms| && Done(db, ms, n)
    ensures DistinctVersions(ms[..k]) && CleanPrefix(db, ms[..k], n)
  {
    assert Versions(ms[..k], n) == Versions(ms, n);
  }
}
