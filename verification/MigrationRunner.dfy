/** The runner itself: loops over migrations and statements, one database operation at a time. */
module MigrationRunner {
  import opened Migrations
  import SqlSplitter

  /** Each file, split into its statements; when it is split makes no difference. */
  method LoadMigrations(fs: seq<File>) returns (ms: seq<Migration>)
    ensures ms == LoadedAll(fs)
  {
    ms := [];
    for i := 0 to |fs|
      invariant ms == LoadedAll(fs[..i])
    {
      var body := SqlSplitter.SplitStatements(fs[i].text);
      LoadedNext(fs, i);
      ms := ms + [Migration(fs[i].version, fs[i].checksum, body)];
    }
    assert fs[..|fs|] == fs;
  }

  lemma LoadedNext(fs: seq<File>, i: nat)
    requires i < |fs|
    ensures LoadedAll(fs[..i + 1]) == LoadedAll(fs[..i]) + [Loaded(fs[i])]
  {
  }

  class Runner {
    var db: Database
    /** How the coming operations turn out. */
    var script: seq<Outcome>

    ghost function At(ok: bool): Progress
      reads this
    {
      Progress(db, script, ok)
    }

    constructor (db: Database, script: seq<Outcome>)
      ensures this.db == db && this.script == script
    {
      this.db, this.script := db, script;
    }

    /** One operation whose effect would be `after`. */
    method Do(after: Database) returns (ok: bool)
      modifies this
      ensures At(ok) == Op(old(db), after, old(script))
    {
      if |script| == 0 || script[0] == FailsBefore {
        script := [];
        return false;
      }
      ok := script[0] == Ok;
      db, script := after, if ok then script[1..] else [];
    }

    method RunStatements(m: Migration) returns (ok: bool)
      modifies this
      ensures At(ok) == RunBody(old(db), m, 0, old(script))
    {
      for k := 0 to |m.body|
        invariant RunBody(db, m, k, script) == RunBody(old(db), m, 0, old(script))
      {
        ok := Do(db.(log := db.log + [Executed(m.version, k, m.body[k])]));
        if !ok { return; }
      }
      ok := true;
    }

    method Apply(m: Migration) returns (ok: bool)
      modifies this
      ensures At(ok) == ApplyOne(old(db), m, old(script))
    {
      ok := Do(db);
      if !ok { return; }
      if m.version in db.ledger {
        var entry := db.ledger[m.version];
        if entry.dirty || entry.checksum != m.checksum { script, ok := [], false; }
        return;
      }
      ok := Do(MarkDirty(db, m));
      if !ok { return; }
      ghost var marked := At(true);
      ok := RunStatements(m);
      if !ok { return; }
      RunBodyKeepsLedger(marked.db, m, 0, marked.rest);
      ok := Do(MarkClean(db, m));
    }

    /** SELECT version: every row of the ledger, in some order. */
    method AppliedVersions() returns (applied: seq<string>)
      ensures (set v | v in applied) == db.ledger.Keys
    {
      applied := [];
      var rest := db.ledger.Keys;
      while rest != {}
        invariant rest <= db.ledger.Keys && forall v :: v in applied <==> v in db.ledger.Keys && v !in rest
        decreases rest
      {
        var v :| v in rest;
        applied, rest := applied + [v], rest - {v};
      }
    }

    /** The versions are the names of files in one directory, so they are distinct. */
    method Migrate(ms: seq<Migration>, tables: nat) returns (ok: bool)
      requires DistinctVersions(ms)
      modifies this
      ensures At(ok) == Migrations.Migrate(old(db), ms, tables, old(script))
      ensures ok ==> forall i :: 0 <= i < |ms| ==> CleanEntry(db, ms[i])
    {
      ok := Do(db);
      if !ok || !BootstrapOk(db.hasLedger, |db.ledger|, tables) { script, ok := [], false; return; }
      ok := Do(db.(hasLedger := true));
      if !ok { return; }
      ok := Do(db);
      if !ok { return; }
      var applied := AppliedVersions();
      ok := ValidateVersions(ms, applied);
      if !ok { script := []; return; }
      ghost var ready := At(true);
      NilMeansClean(ready.db, ms, 0, ready.rest);
      for i := 0 to |ms|
        invariant ApplyAll(db, ms, i, script) == ApplyAll(ready.db, ms, 0, ready.rest)
      {
        ok := Apply(ms[i]);
        if !ok { return; }
      }
      ok := true;
    }
  }
}
