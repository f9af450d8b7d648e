/** Any sequence of migration calls, each stopped anywhere, by any build whose list is a prefix of one history. */
module MigrationRuns {
  import opened Migrations
  import opened Strings
  import SqlSplitter
  import opened SqlRoundTrip

  /** The first `k` statements of a body. */
  function PartLog(m: Migration, k: nat): seq<Executed>
    requires k <= |m.body|
  {
    seq(k, i requires 0 <= i < k => Executed(m.version, i, m.body[i]))
  }

  /** The first `n` bodies, whole and in order. */
  function FullLog(ms: seq<Migration>, n: nat): seq<Executed>
    requires n <= |ms|
  {
    if n == 0 then [] else FullLog(ms, n - 1) + PartLog(ms[n - 1], |ms[n - 1].body|)
  }

  /** The first `n` migrations are done, in order, each statement once. */
  predicate Done(db: Database, ms: seq<Migration>, n: nat) {
    && n <= |ms| && db.ledger.Keys == Versions(ms, n)
    && (forall i :: 0 <= i < n ==> CleanEntry(db, ms[i]))
    && db.log == FullLog(ms, n)
  }

  /** ... and migration `n` was begun: its row is dirty and the first `k` of its statements have run. */
  predicate Begun(db: Database, ms: seq<Migration>, n: nat, k: nat) {
    && n < |ms| && k <= |ms[n].body| && db.ledger.Keys == Versions(ms, n + 1)
    && (forall i :: 0 <= i < n ==> CleanEntry(db, ms[i]))
    && ms[n].version in db.ledger && db.ledger[ms[n].version] == Entry(ms[n].checksum, true)
    && db.log == FullLog(ms, n) + PartLog(ms[n], k)
  }

  datatype Stage = AllDone(n: nat) | Stuck(n: nat, k: nat)

  predicate At(db: Database, ms: seq<Migration>, st: Stage) {
    match st
    case AllDone(n) => Done(db, ms, n)
    case Stuck(n, k) => Begun(db, ms, n, k)
  }

  /** The ledger is a prefix of the history and only its last row may be dirty. */
  ghost predicate Sound(db: Database, ms: seq<Migration>) {
    exists st :: At(db, ms, st)
  }

  lemma VersionsNext(ms: seq<Migration>, n: nat)
    requires n < |ms|
    ensures Versions(ms, n + 1) == Versions(ms, n) + {ms[n].version}
    ensures DistinctVersions(ms) ==> ms[n].version !in Versions(ms, n)
  {
  }

  lemma {:induction false} BodyProgress(db: Database, ms: seq<Migration>, n: nat, k: nat, os: seq<Outcome>) returns (j: nat)
    requires Begun(db, ms, n, k)
    ensures
      var p := RunBody(db, ms[n], k, os);
      Begun(p.db, ms, n, j) && (p.ok ==> j == |ms[n].body|)
    decreases |ms[n].body| - k
  {
    j := k;
    if k < |ms[n].body| {
      var after := db.(log := db.log + [Executed(ms[n].version, k, ms[n].body[k])]);
      assert PartLog(ms[n], k + 1) == PartLog(ms[n], k) + [Executed(ms[n].version, k, ms[n].body[k])];
      assert after.log == FullLog(ms, n) + PartLog(ms[n], k + 1);
      var p := Op(db, after, os);
      if p.ok { j := BodyProgress(after, ms, n, k + 1, p.rest); }
      else if p.db == after { j := k + 1; }
    }
  }

  lemma FinishBody(db: Database, ms: seq<Migration>, n: nat)
    requires n < |ms| && Begun(db, ms, n, |ms[n].body|) && DistinctVersions(ms)
    ensures Done(MarkClean(db, ms[n]), ms, n + 1)
  {
    var after := MarkClean(db, ms[n]);
    assert after.ledger.Keys == db.ledger.Keys;
    forall i | 0 <= i < n + 1 ensures CleanEntry(after, ms[i]) {
      if i < n { assert ms[i].version != ms[n].version; }
    }
  }

  lemma StartBody(db: Database, ms: seq<Migration>, n: nat)
    requires Done(db, ms, n) && n < |ms| && DistinctVersions(ms)
    ensures Begun(MarkDirty(db, ms[n]), ms, n, 0)
  {
    VersionsNext(ms, n);
    assert PartLog(ms[n], 0) == [];
    assert MarkDirty(db, ms[n]).log == FullLog(ms, n) + PartLog(ms[n], 0);
    forall i | 0 <= i < n ensures CleanEntry(MarkDirty(db, ms[n]), ms[i]) {
      assert ms[i].version != ms[n].version;
    }
  }

  /** From the dirty mark on: finished, or begun and stuck. */
  lemma MarkedMigration(db: Database, ms: seq<Migration>, n: nat, os: seq<Outcome>) returns (st: Stage)
    requires Begun(db, ms, n, 0) && DistinctVersions(ms)
    ensures
      var ran := RunBody(db, ms[n], 0, os);
      var p := if ran.ok then Op(ran.db, MarkClean(ran.db, ms[n]), ran.rest) else ran;
      At(p.db, ms, st) && (p.ok ==> st == AllDone(n + 1))
  {
    var j := BodyProgress(db, ms, n, 0, os);
    var ran := RunBody(db, ms[n], 0, os);
    st := Stuck(n, j);
    if ran.ok {
      FinishBody(ran.db, ms, n);
      var p := Op(ran.db, MarkClean(ran.db, ms[n]), ran.rest);
      if p.db == MarkClean(ran.db, ms[n]) { st := AllDone(n + 1); }
    }
  }

  /** The next migration of the history: done, begun and stuck, or not begun. */
  lemma NextMigration(db: Database, ms: seq<Migration>, n: nat, os: seq<Outcome>) returns (st: Stage)
    requires Done(db, ms, n) && n < |ms| && DistinctVersions(ms)
    ensures var p := ApplyOne(db, ms[n], os); At(p.db, ms, st) && (p.ok ==> st == AllDone(n + 1))
  {
    assert ms[n].version !in db.ledger by { VersionsNext(ms, n); }
    st := AllDone(n);
    var dirty := MarkDirty(db, ms[n]);
    var read := Op(db, db, os);
    if read.ok {
      var marked := Op(db, dirty, read.rest);
      StartBody(db, ms, n);
      if marked.ok { st := MarkedMigration(dirty, ms, n, marked.rest); }
      else if marked.db == dirty { st := Stuck(n, 0); }
    }
  }

  lemma SkipClean(db: Database, m: Migration, os: seq<Outcome>)
    requires CleanEntry(db, m)
    ensures ApplyOne(db, m, os).db == db
  {
  }

  /** Migrations already done are skipped. */
  lemma {:induction false} SkipDone(db: Database, ms: seq<Migration>, i: nat, n: nat, os: seq<Outcome>) returns (os': seq<Outcome>)
    requires i <= n <= |ms| && forall j :: 0 <= j < n ==> CleanEntry(db, ms[j])
    ensures
      var p := ApplyAll(db, ms, i, os);
      p == Stopped(db) || p == ApplyAll(db, ms, n, os')
    decreases n - i
  {
    os' := os;
    if i < n {
      var p := ApplyOne(db, ms[i], os);
      SkipClean(db, ms[i], os);
      if p.ok { os' := SkipDone(db, ms, i + 1, n, p.rest); }
    }
  }

  /** The rest are applied in order. */
  lemma {:induction false} ApplyRest(db: Database, ms: seq<Migration>, k: nat, n: nat, os: seq<Outcome>) returns (st: Stage)
    requires Done(db, ms, n) && n <= k <= |ms| && DistinctVersions(ms)
    ensures var p := ApplyAll(db, ms[..k], n, os); At(p.db, ms, st) && (p.ok ==> st == AllDone(k))
    decreases k - n
  {
    st := AllDone(n);
    if n < k {
      assert ms[..k][n] == ms[n];
      st := NextMigration(db, ms, n, os);
      var p := ApplyOne(db, ms[n], os);
      if p.ok { st := ApplyRest(p.db, ms, k, n + 1, p.rest); }
    }
  }

  /** A build that knows the first `k` migrations, on a database where the first `n` are done. */
  lemma ApplyProgress(db: Database, ms: seq<Migration>, k: nat, n: nat, os: seq<Outcome>) returns (st: Stage)
    requires Done(db, ms, n) && n <= k <= |ms| && DistinctVersions(ms)
    ensures var p := ApplyAll(db, ms[..k], 0, os); At(p.db, ms, st) && (p.ok ==> st == AllDone(k))
  {
    var os' := SkipDone(db, ms[..k], 0, n, os);
    st := AllDone(n);
    if ApplyAll(db, ms[..k], 0, os) != Stopped(db) { st := ApplyRest(db, ms, k, n, os'); }
  }

  /** A dirty last row stops every build before it runs anything. */
  lemma {:induction false} DirtyStops(db: Database, ms: seq<Migration>, k: nat, i: nat, n: nat, j: nat, os: seq<Outcome>)
    requires Begun(db, ms, n, j) && i <= n < k <= |ms|
    ensures ApplyAll(db, ms[..k], i, os).db == db && !ApplyAll(db, ms[..k], i, os).ok
    decreases n - i
  {
    assert ms[..k][i] == ms[i];
    if i < n {
      assert CleanEntry(db, ms[i]);
      var p := ApplyOne(db, ms[i], os);
      if p.ok { DirtyStops(db, ms, k, i + 1, n, j, p.rest); }
    }
  }

  lemma PrefixCount(ms: seq<Migration>, k: nat, n: nat)
    requires DistinctVersions(ms) && k <= |ms| && n <= |ms|
    ensures IsPrefix(ms[..k], Versions(ms, n)) <==> n <= k
  {
    forall j | 0 <= j <= k ensures Versions(ms[..k], j) == Versions(ms, j) {
    }
    if n <= k {
      assert Versions(ms, n) == Versions(ms[..k], n);
    } else {
      forall j | 0 <= j <= k ensures Versions(ms, n) != Versions(ms[..k], j) {
        assert ms[k].version in Versions(ms, n) && ms[k].version !in Versions(ms, j);
      }
    }
  }

  /** The outcomes left for the migrations themselves, once the three preliminary operations went well. */
  function Remaining(os: seq<Outcome>): seq<Outcome> {
    if |os| >= 3 then os[3..] else []
  }

  /** A call either stops with the tables untouched or goes on to the migrations. */
  lemma CallShape(db: Database, ms: seq<Migration>, tables: nat, os: seq<Outcome>)
    ensures
      var p := Migrate(db, ms, tables, os);
      var ready := db.(hasLedger := true);
      || (!p.ok && (p.db == db || p.db == ready))
      || (IsPrefix(ms, db.ledger.Keys) && BootstrapOk(db.hasLedger, |db.ledger|, tables) && p == ApplyAll(ready, ms, 0, Remaining(os)))
  {
    var ready := db.(hasLedger := true);
    var looked := Op(db, db, os);
    if looked.ok {
      var created := Op(db, ready, looked.rest);
      if created.ok {
        assert os[1..][1..] == os[2..];
        var checked := Op(ready, ready, created.rest);
        if checked.ok { assert os[2..][1..] == os[3..]; }
      }
    }
  }

  /** One call by a build that knows the first `k` migrations. */
  lemma CallProgress(db: Database, ms: seq<Migration>, st: Stage, k: nat, tables: nat, os: seq<Outcome>) returns (st': Stage)
    requires At(db, ms, st) && DistinctVersions(ms) && k <= |ms|
    ensures var p := Migrate(db, ms[..k], tables, os); At(p.db, ms, st') && (p.ok ==> st' == AllDone(k))
  {
    st' := st;
    var ready := db.(hasLedger := true);
    CallShape(db, ms[..k], tables, os);
    match st
    case AllDone(n) =>
      PrefixCount(ms, k, n);
      var p := Migrate(db, ms[..k], tables, os);
      if n <= k && p == ApplyAll(ready, ms[..k], 0, Remaining(os)) { st' := ApplyProgress(ready, ms, k, n, Remaining(os)); }
    case Stuck(n, j) =>
      DirtyForever(db, ms, n, j, k, tables, os);
  }

  /** Fails closed: once a migration is left dirty, no later call runs a statement or succeeds. */
  lemma DirtyForever(db: Database, ms: seq<Migration>, n: nat, j: nat, k: nat, tables: nat, os: seq<Outcome>)
    requires Begun(db, ms, n, j) && DistinctVersions(ms) && k <= |ms|
    ensures
      var p := Migrate(db, ms[..k], tables, os);
      !p.ok && p.db.ledger == db.ledger && p.db.log == db.log
  {
    var ready := db.(hasLedger := true);
    assert Begun(ready, ms, n, j);
    CallShape(db, ms[..k], tables, os);
    PrefixCount(ms, k, n + 1);
    if n < k { DirtyStops(ready, ms, k, 0, n, j, Remaining(os)); }
  }

  // ----- any sequence of calls ----------------------------------------------------------------------

  /** `known`: how much of the history the calling build knows. */
  datatype Call = Call(known: nat, tables: nat, outcomes: seq<Outcome>)

  const Fresh := Database(false, map[], [])

  function Exec(ms: seq<Migration>, calls: seq<Call>): Database {
    if |calls| == 0 then Fresh
    else
      var db := Exec(ms, calls[..|calls| - 1]);
      var c := calls[|calls| - 1];
      if c.known <= |ms| then Migrate(db, ms[..c.known], c.tables, c.outcomes).db else db
  }

  lemma {:induction false} RunStage(ms: seq<Migration>, calls: seq<Call>) returns (st: Stage)
    requires DistinctVersions(ms)
    ensures At(Exec(ms, calls), ms, st)
    decreases |calls|
  {
    if |calls| == 0 {
      st := AllDone(0);
    } else {
      var c := calls[|calls| - 1];
      st := RunStage(ms, calls[..|calls| - 1]);
      if c.known <= |ms| { st := CallProgress(Exec(ms, calls[..|calls| - 1]), ms, st, c.known, c.tables, c.outcomes); }
    }
  }

  // ----- tables without a history --------------------------------------------------------------------

  /** Once there is a history, how many tables there are makes no difference. */
  lemma HistoryAllowsTables(db: Database, ms: seq<Migration>, t: nat, u: nat, os: seq<Outcome>)
    requires db.hasLedger && db.ledger != map[]
    ensures Migrate(db, ms, t, os) == Migrate(db, ms, u, os)
  {
    assert |db.ledger| > 0;
  }

  /** The first call with an effect: whoever made it found no tables. */
  lemma {:induction false} FirstTouch(ms: seq<Migration>, calls: seq<Call>) returns (i: nat)
    requires Exec(ms, calls) != Fresh
    ensures i < |calls| && Exec(ms, calls[..i]) == Fresh && Exec(ms, calls[..i + 1]) != Fresh && calls[i].tables == 0
    decreases |calls|
  {
    var n := |calls| - 1;
    if Exec(ms, calls[..n]) == Fresh {
      i := n;
      assert calls[..n + 1] == calls;
      assert |Fresh.ledger| == 0;
    } else {
      i := FirstTouch(ms, calls[..n]);
      assert calls[..n][..i] == calls[..i] && calls[..n][..i + 1] == calls[..i + 1];
    }
  }

  /** A schema with tables and no history stays as it is, however often and by whatever build migration is tried. */
  lemma UnmanagedSchemaUntouched(ms: seq<Migration>, calls: seq<Call>)
    requires forall i :: 0 <= i < |calls| ==> calls[i].tables > 0
    ensures Exec(ms, calls) == Fresh
  {
    if Exec(ms, calls) != Fresh { var i := FirstTouch(ms, calls); }
  }

  /** Where looking and creating the ledger succeed, a first call has an effect exactly when there are no tables. */
  lemma FirstCallExactly(ms: seq<Migration>, tables: nat, os: seq<Outcome>)
    requires |os| >= 2 && os[0] == Ok && os[1] != FailsBefore
    ensures Migrate(Fresh, ms, tables, os).db != Fresh <==> tables == 0
  {
    var ready := Fresh.(hasLedger := true);
    assert |Fresh.ledger| == 0;
    if tables == 0 {
      CallShape(Fresh, ms, 0, os);
      LedgerKept(ready, ms, 0, Remaining(os));
    }
  }

  lemma {:induction false} LedgerKept(db: Database, ms: seq<Migration>, i: nat, os: seq<Outcome>)
    requires i <= |ms| && db.hasLedger
    ensures ApplyAll(db, ms, i, os).db.hasLedger
    decreases |ms| - i
  {
    if i < |ms| {
      var p := ApplyOne(db, ms[i], os);
      ApplyOneKeepsLedger(db, ms[i], os);
      if p.ok { LedgerKept(p.db, ms, i + 1, p.rest); }
    }
  }

  lemma ApplyOneKeepsLedger(db: Database, m: Migration, os: seq<Outcome>)
    requires db.hasLedger
    ensures ApplyOne(db, m, os).db.hasLedger
  {
    var read := Op(db, db, os);
    if read.ok && m.version !in db.ledger {
      var marked := Op(db, MarkDirty(db, m), read.rest);
      if marked.ok { RunBodyKeepsLedger(marked.db, m, 0, marked.rest); }
    }
  }

  /**
   After any calls, each stopped anywhere: the ledger holds the first versions of
   the history, only the last may be dirty, and the statements executed are the
   clean bodies in order followed by a prefix of the dirty one.
   */
  lemma EveryRunSound(ms: seq<Migration>, calls: seq<Call>)
    requires DistinctVersions(ms)
    ensures Sound(Exec(ms, calls), ms)
  {
    var st := RunStage(ms, calls);
  }

  /** A call that returns nil leaves exactly the migrations it knows, all clean with their checksums. */
  lemma NilMeansCurrent(ms: seq<Migration>, calls: seq<Call>, c: Call)
    requires DistinctVersions(ms) && c.known <= |ms|
    requires Migrate(Exec(ms, calls), ms[..c.known], c.tables, c.outcomes).ok
    ensures Done(Migrate(Exec(ms, calls), ms[..c.known], c.tables, c.outcomes).db, ms, c.known)
  {
    var st := RunStage(ms, calls);
    var st' := CallProgress(Exec(ms, calls), ms, st, c.known, c.tables, c.outcomes);
  }

  predicate SameStatement(a: Executed, b: Executed) {
    a.version == b.version && a.k == b.k
  }

  /** No statement of a migration's text ever runs twice, in any run. */
  lemma NoStatementTwice(ms: seq<Migration>, calls: seq<Call>, i: nat, j: nat)
    requires DistinctVersions(ms) && i < j < |Exec(ms, calls).log|
    ensures !SameStatement(Exec(ms, calls).log[i], Exec(ms, calls).log[j])
  {
    var st := RunStage(ms, calls);
    match st
    case AllDone(n) => FullLogDistinct(ms, n, i, j);
    case Stuck(n, k) => BegunLogDistinct(ms, n, k, i, j);
  }

  lemma {:induction false} BegunLogDistinct(ms: seq<Migration>, n: nat, k: nat, i: nat, j: nat)
    requires n < |ms| && k <= |ms[n].body| && DistinctVersions(ms) && i < j < |FullLog(ms, n) + PartLog(ms[n], k)|
    ensures !SameStatement((FullLog(ms, n) + PartLog(ms[n], k))[i], (FullLog(ms, n) + PartLog(ms[n], k))[j])
    decreases n, 1
  {
    if j < |FullLog(ms, n)| {
      FullLogDistinct(ms, n, i, j);
    } else {
      assert PartLog(ms[n], k)[j - |FullLog(ms, n)|].version == ms[n].version;
      if i < |FullLog(ms, n)| {
        FullLogOrdered(ms, n, i);
        VersionsNext(ms, n);
      }
    }
  }

  lemma {:induction false} FullLogOrdered(ms: seq<Migration>, n: nat, i: nat)
    requires n <= |ms| && i < |FullLog(ms, n)|
    ensures FullLog(ms, n)[i].version in Versions(ms, n)
  {
    VersionsNext(ms, n - 1);
    if i < |FullLog(ms, n - 1)| { FullLogOrdered(ms, n - 1, i); }
  }

  lemma {:induction false} FullLogDistinct(ms: seq<Migration>, n: nat, i: nat, j: nat)
    requires n <= |ms| && DistinctVersions(ms) && i < j < |FullLog(ms, n)|
    ensures !SameStatement(FullLog(ms, n)[i], FullLog(ms, n)[j])
    decreases n, 0
  {
    BegunLogDistinct(ms, n - 1, |ms[n - 1].body|, i, j);
  }

  // ----- what is executed ------------------------------------------------------------------------------

  /** The entry is statement `k` of migration `m`. */
  predicate FromBody(ms: seq<Migration>, x: Executed, m: nat) {
    m < |ms| && x.version == ms[m].version && x.k < |ms[m].body| && x.sql == ms[m].body[x.k]
  }

  lemma {:induction false} FullLogFromBodies(ms: seq<Migration>, n: nat, i: nat) returns (m: nat)
    requires n <= |ms| && i < |FullLog(ms, n)|
    ensures FromBody(ms, FullLog(ms, n)[i], m)
  {
    if i < |FullLog(ms, n - 1)| { m := FullLogFromBodies(ms, n - 1, i); } else { m := n - 1; }
  }

  /** In every run, whatever reaches the database is a statement of some migration's body. */
  lemma ExecutesBodies(ms: seq<Migration>, calls: seq<Call>, i: nat) returns (m: nat)
    requires DistinctVersions(ms) && i < |Exec(ms, calls).log|
    ensures FromBody(ms, Exec(ms, calls).log[i], m)
  {
    var st := RunStage(ms, calls);
    if i < |FullLog(ms, st.n)| { m := FullLogFromBodies(ms, st.n, i); } else { m := st.n; }
  }

  /**
   For migrations loaded from files: whatever reaches the database, in any run, is one
   whole statement that the splitter found in a file's text, not blank, and no text that
   would split again.
   */
  lemma ExecutesWholeStatements(fs: seq<File>, calls: seq<Call>, i: nat) returns (m: nat)
    requires DistinctVersions(LoadedAll(fs)) && i < |Exec(LoadedAll(fs), calls).log|
    ensures
      var x := Exec(LoadedAll(fs), calls).log[i];
      && m < |fs| && x.version == fs[m].version && x.k < |SqlSplitter.Split(fs[m].text)|
      && x.sql == SqlSplitter.Split(fs[m].text)[x.k]
      && SqlSplitter.Split(x.sql) == [x.sql] && Trim(x.sql) != ""
  {
    m := ExecutesBodies(LoadedAll(fs), calls, i);
    var x := Exec(LoadedAll(fs), calls).log[i];
    assert LoadedAll(fs)[m] == Loaded(fs[m]);
    EachStatementAlone(fs[m].text, x.k);
  }
}
