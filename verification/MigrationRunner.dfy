/** c_orm_migrate_all and c_orm_migrate_rollback as they run against a database that may refuse
    any call. */
module MigrationRunner {
  import opened Migrations
  import opened Optional
  import opened Sequences

  datatype DriverName = Sqlite | MemoryDriver | Postgres | Mysql | Unknown

  datatype Options = Options(dryRun: bool, preMigrate: bool, postMigrate: bool)

  /** What the driver is asked for: whether a version is logged, or anything else. */
  datatype Asked = Lookup | Work

  class Db<S(!new)> {
    const driver: DriverName
    const refuses: (Asked, nat) -> bool
    var clock: nat
    var schema: S
    /** The versions in _c_orm_migrations, in the order of their ids. */
    var log: seq<string>

    constructor (driver: DriverName, refuses: (Asked, nat) -> bool, schema: S, log: seq<string>)
      ensures this.driver == driver && this.refuses == refuses && this.schema == schema && this.log == log
    {
      this.driver, this.refuses, clock, this.schema, this.log := driver, refuses, 0, schema, log;
    }

    /** Every lookup is answered. */
    ghost predicate Answers() {
      forall n :: !refuses(Lookup, n)
    }

    /** No lookup is. */
    ghost predicate Blind() {
      forall n :: refuses(Lookup, n)
    }

    /** Everything else is granted. */
    ghost predicate Works() {
      forall n :: !refuses(Work, n)
    }

    ghost predicate Willing() {
      Answers() && Works()
    }

    method Call(asked: Asked) returns (ok: bool)
      modifies this`clock
      ensures (if asked.Work? then Works() else Answers()) ==> ok
      ensures asked.Lookup? && Blind() ==> !ok
    {
      ok := !refuses(asked, clock);
      clock := clock + 1;
    }

    /** Three ways to take the lock, in turn. */
    method Lock() returns (ok: bool)
      modifies this`clock
      ensures Works() ==> ok
    {
      ok := Call(Work);
      if ok {
        return;
      }
      ok := Call(Work);
      if ok {
        return;
      }
      ok := Call(Work);
    }

    method Unlock() returns (rc: Rc)
      modifies this`clock
      ensures rc != NotFound
      ensures Works() && driver != Unknown ==> rc == Ok
    {
      if driver == Unknown {
        return NotImplemented;
      }
      var ok := Call(Work);
      return if ok then Ok else Refused;
    }

    /** Runs a script; one that fails, or is refused, may have changed the schema already. */
    method Run(script: Option<Script<S>>) returns (ok: bool)
      modifies this`clock, this`schema
      ensures schema == Execute(script, old(schema)).0
      ensures ok ==> Execute(script, old(schema)).1 && Ran(script, old(schema), schema)
      ensures Works() && Execute(script, old(schema)).1 ==> ok
    {
      if script.None? {
        return true;
      }
      var called := Call(Work);
      var r := script.value(schema);
      schema := r.0;
      ok := called && r.1;
    }

    /** The version column is unique: a version already logged is refused. */
    method Record(version: string) returns (ok: bool)
      modifies this`clock, this`log
      ensures ok ==> version !in old(log) && log == old(log) + [version]
      ensures !ok ==> log == old(log)
      ensures Works() && version !in old(log) ==> ok
    {
      ok := Call(Work);
      ok := ok && version !in log;
      if ok {
        log := log + [version];
      }
    }

    method Forget(version: string) returns (ok: bool)
      modifies this`clock, this`log
      ensures ok ==> log == Removed(old(log), version)
      ensures !ok ==> log == old(log)
      ensures Works() ==> ok
    {
      ok := Call(Work);
      if ok {
        log := Removed(log, version);
      }
    }

    /** Whether the version is logged; a refused prepare or step reads as "no". */
    method IsApplied(version: string) returns (hasRow: bool)
      modifies this`clock
      ensures hasRow ==> version in log
      ensures Answers() ==> (hasRow <==> version in log)
      ensures Blind() ==> !hasRow
    {
      hasRow := false;
      var ok := Call(Lookup);
      if ok {
        ok := Call(Lookup);
        if ok {
          hasRow := version in log;
        }
      }
    }

    /** c_orm_migration_get_applied: every logged version, oldest first. */
    method GetApplied() returns (ok: bool, applied: seq<string>)
      modifies this`clock
      ensures ok ==> applied == log
      ensures Works() ==> ok
    {
      applied := [];
      ok := Call(Work);
      if !ok {
        return;
      }
      var i := 0;
      while i < |log|
        invariant ok && 0 <= i <= |log| && applied == log[..i]
      {
        ok := Call(Work);
        if !ok {
          return;
        }
        applied := applied + [log[i]];
        i := i + 1;
      }
      ok := Call(Work);
    }
  }

  /** DELETE .. WHERE version = v. */
  function Removed(log: seq<string>, version: string): seq<string> {
    if log == [] then [] else (if log[0] == version then [] else [log[0]]) + Removed(log[1..], version)
  }

  lemma {:induction false} RemovedAbsent(log: seq<string>, version: string)
    requires version !in log
    ensures Removed(log, version) == log
  {
    if log != [] { RemovedAbsent(log[1..], version); }
  }

  lemma {:induction false} RemovedLast(log: seq<string>)
    requires log != [] && NoRepeats(log)
    ensures Removed(log, log[|log| - 1]) == log[..|log| - 1]
  {
    var last := |log| - 1;
    if last > 0 {
      RemovedLast(log[1..]);
      assert log[1..][|log[1..]| - 1] == log[last];
      assert log[..last] == [log[0]] + log[1..][..last - 1];
    }
  }

  /** Where a run over the pending migrations stands after the first k of them. */
  ghost predicate After<S(!new)>(s0: S, log0: seq<string>, pending: seq<Migration<S>>, k: nat, s: S, log: seq<string>) {
    k <= |pending| && log == log0 + Versions(pending[..k]) && RunUps(s0, pending[..k]) == Some(s)
  }

  /** After the first k of them this script was run as well, and not logged. */
  ghost predicate OnTop<S(!new)>(s0: S, log0: seq<string>, pending: seq<Migration<S>>, k: nat, up: Option<Script<S>>,
                                 s: S, log: seq<string>)
  {
    && k <= |pending| && log == log0 + Versions(pending[..k])
    && RunUps(s0, pending[..k]).Some? && s == Execute(up, RunUps(s0, pending[..k]).value).0
  }

  /** A run stopped after some of the pending migrations, or within the next one. */
  ghost predicate Stopped<S(!new)>(s0: S, log0: seq<string>, pending: seq<Migration<S>>, s: S, log: seq<string>) {
    || (exists k :: After(s0, log0, pending, k, s, log))
    || (exists k :: 0 <= k < |pending| && OnTop(s0, log0, pending, k, pending[k].up, s, log))
  }

  /** A run stopped after running this script of a migration that is logged already. */
  ghost predicate RanAgain<S(!new)>(s0: S, log0: seq<string>, pending: seq<Migration<S>>, mig: Migration<S>, s: S,
                                    log: seq<string>)
  {
    mig.version in log && exists k :: OnTop(s0, log0, pending, k, mig.up, s, log)
  }

  lemma PrefixLogged<S>(log0: seq<string>, pending: seq<Migration<S>>, k: nat)
    requires k <= |pending|
    ensures log0 <= log0 + Versions(pending[..k]) <= log0 + Versions(pending)
  {
    assert Versions(pending[..k]) == Versions(pending)[..k];
  }

  lemma StoppedLogged<S(!new)>(s0: S, log0: seq<string>, pending: seq<Migration<S>>, s: S, log: seq<string>)
    requires Stopped(s0, log0, pending, s, log)
    ensures log0 <= log <= log0 + Versions(pending)
  {
    var k :| 0 <= k <= |pending| && log == log0 + Versions(pending[..k]);
    PrefixLogged(log0, pending, k);
  }

  lemma AllDone<S(!new)>(s0: S, log0: seq<string>, pending: seq<Migration<S>>, s: S, log: seq<string>)
    requires After(s0, log0, pending, |pending|, s, log)
    ensures log == log0 + Versions(pending) && RunUps(s0, pending) == Some(s)
    ensures Stopped(s0, log0, pending, s, log)
  {
    assert pending[..|pending|] == pending;
  }

  /** One pending migration further. */
  lemma AfterNext<S(!new)>(s0: S, log0: seq<string>, pending: seq<Migration<S>>, k: nat, s: S, log: seq<string>)
    requires After(s0, log0, pending, k, s, log) && k < |pending|
    ensures OnTop(s0, log0, pending, k, pending[k].up, Execute(pending[k].up, s).0, log)
    ensures Execute(pending[k].up, s).1 ==>
              After(s0, log0, pending, k + 1, Execute(pending[k].up, s).0, log + [pending[k].version])
    ensures !Execute(pending[k].up, s).1 ==> RunUps(s0, pending).None?
  {
    var m := pending[k];
    assert pending[..k + 1] == pending[..k] + [m] && [m][1..] == [];
    UpsSplit(s0, pending[..k], [m]);
    assert Versions(pending[..k + 1]) == Versions(pending[..k]) + [m.version];
    Assoc(log0, Versions(pending[..k]), [m.version]);
    assert pending == pending[..k] + pending[k..];
    UpsSplit(s0, pending[..k], pending[k..]);
  }

  /** One migration: hooks, savepoint, script, record, release. */
  method ApplyOne<S(!new)>(db: Db<S>, mig: Migration<S>, options: Options) returns (rc: Rc)
    modifies db
    ensures rc == Ok || rc == Refused
    ensures db.log == old(db.log) || (mig.version !in old(db.log) && db.log == old(db.log) + [mig.version])
    ensures db.log != old(db.log) ==> Execute(mig.up, old(db.schema)) == (db.schema, true)
    ensures db.schema == old(db.schema) || db.schema == Execute(mig.up, old(db.schema)).0
    ensures rc == Ok ==> db.log != old(db.log)
    ensures db.Works() ==> db.schema == Execute(mig.up, old(db.schema)).0
    ensures db.Works() && mig.version !in old(db.log) && Execute(mig.up, old(db.schema)).1 ==> rc == Ok
  {
    var ok;
    if options.preMigrate {
      ok := db.Call(Work);
      if !ok {
        return Refused;
      }
    }
    ok := db.Call(Work);
    if !ok {
      return Refused;
    }
    ok := db.Run(mig.up);
    if !ok {
      return Refused;
    }
    ok := db.Record(mig.version);
    if !ok {
      return Refused;
    }
    ok := db.Call(Work);
    if !ok {
      return Refused;
    }
    if options.postMigrate {
      ok := db.Call(Work);
      if !ok {
        return Refused;
      }
    }
    return Ok;
  }

  /** One round of the loop of migrate_all. The first k pending migrations are applied; this one
      is the next of them if it is not logged. `again`: its lookup missed the log's entry. */
  method ApplyNext<S(!new)>(db: Db<S>, mig: Migration<S>, options: Options,
                            ghost s0: S, ghost log0: seq<string>, ghost pending: seq<Migration<S>>, ghost k: nat)
    returns (rc: Rc, ghost again: bool)
    requires !options.dryRun && After(s0, log0, pending, k, db.schema, db.log)
    requires mig.version !in db.log ==> k < |pending| && pending[k] == mig
    modifies db
    ensures rc == Ok || rc == Refused
    ensures again ==> rc == Refused && mig.version in db.log && db.log == old(db.log)
    ensures again && db.Works() ==> OnTop(s0, log0, pending, k, mig.up, db.schema, db.log)
    ensures !again ==> Stopped(s0, log0, pending, db.schema, db.log)
    ensures rc == Ok ==>
              After(s0, log0, pending, if mig.version in old(db.log) then k else k + 1, db.schema, db.log)
    ensures rc == Ok && mig.version in old(db.log) ==> db.log == old(db.log)
    ensures rc == Ok && mig.version !in old(db.log) ==> db.log == old(db.log) + [mig.version]
    ensures db.Answers() ==> !again
    ensures db.Blind() && mig.version in old(db.log) ==> again
    ensures db.Works() && !again && RunUps(s0, pending).Some? ==> rc == Ok
  {
    again := false;
    rc := Ok;
    var hasRow := db.IsApplied(mig.version);
    if !hasRow {
      again := mig.version in db.log;
      if !again {
        AfterNext(s0, log0, pending, k, db.schema, db.log);
      }
      rc := ApplyOne(db, mig, options);
    }
  }

  /** The loop of migrate_all. `again`: the migration whose log entry its lookup missed. */
  method ApplyPending<S(!new)>(db: Db<S>, ms: seq<Migration<S>>, options: Options, ghost pending: seq<Migration<S>>)
    returns (rc: Rc, ghost again: Option<Migration<S>>)
    requires !options.dryRun && pending == Pending(db.log, ms)
    modifies db
    ensures rc == Ok || rc == Refused
    ensures old(db.log) <= db.log <= old(db.log) + Versions(pending)
    ensures rc == Ok ==> After(old(db.schema), old(db.log), pending, |pending|, db.schema, db.log)
    ensures again.None? ==> Stopped(old(db.schema), old(db.log), pending, db.schema, db.log)
    ensures again.Some? ==> rc == Refused && again.value in ms && again.value.version in db.log
    ensures again.Some? && db.Works() ==>
              RanAgain(old(db.schema), old(db.log), pending, again.value, db.schema, db.log)
    ensures db.Answers() ==> again.None?
    ensures db.Blind() && ms != [] && ms[0].version in old(db.log) ==> again == Some(ms[0])
    ensures db.Works() && again.None? && RunUps(old(db.schema), pending).Some? ==> rc == Ok
  {
    ghost var s0, log0 := db.schema, db.log;
    ghost var k: nat := 0;
    assert ms[0..] == ms && pending[0..] == pending && pending[..0] == [];
    var i := 0;
    while i < |ms|
      invariant 0 <= i <= |ms| && k <= |pending|
      invariant After(s0, log0, pending, k, db.schema, db.log)
      invariant pending[k..] == Pending(db.log, ms[i..])
      invariant i > 0 && db.Blind() ==> ms[0].version !in log0
    {
      ghost var isNew := ms[i].version !in db.log;
      NextPending(ms, i, db.log, pending, k);
      PrefixLogged(log0, pending, k);
      ghost var missed;
      rc, missed := ApplyNext(db, ms[i], options, s0, log0, pending, k);
      if rc != Ok {
        again := if missed then Some(ms[i]) else None;
        if !missed {
          StoppedLogged(s0, log0, pending, db.schema, db.log);
        }
        return;
      }
      k := if isNew then k + 1 else k;
      i := i + 1;
    }
    AllDone(s0, log0, pending, db.schema, db.log);
    rc, again := Ok, None;
  }

  /** The next migration of the array is the next one pending, or logged already. */
  lemma NextPending<S>(ms: seq<Migration<S>>, i: nat, log: seq<string>, pending: seq<Migration<S>>, k: nat)
    requires i < |ms| && k <= |pending| && pending[k..] == Pending(log, ms[i..])
    ensures if ms[i].version in log then pending[k..] == Pending(log, ms[i + 1..])
            else && k < |pending| && pending[k] == ms[i]
                 && pending[k + 1..] == Pending(log + [ms[i].version], ms[i + 1..])
  {
    var left := ms[i..];
    assert left[0] == ms[i] && left[1..] == ms[i + 1..];
    if ms[i].version !in log {
      assert pending[k] == pending[k..][0] && pending[k + 1..] == pending[k..][1..];
    }
  }

  /** c_orm_migrate_all. `again`: a migration that is logged and whose lookup was refused, so that
      it was started once more. */
  method MigrateAll<S(!new)>(db: Db<S>, ms: seq<Migration<S>>, options: Options)
    returns (rc: Rc, ghost again: Option<Migration<S>>)
    requires NoRepeats(db.log)
    modifies db
    // whatever happens: the old log and then a prefix of what was pending, nothing twice
    ensures old(db.log) <= db.log <= old(db.log) + Versions(Pending(old(db.log), ms))
    ensures NoRepeats(db.log)
    ensures options.dryRun ==> db.log == old(db.log) && db.schema == old(db.schema) && again.None?
    // success: all of it, in order, on the schema too, and nothing is left for a second call
    ensures rc == Ok && !options.dryRun ==>
              && db.log == old(db.log) + Versions(Pending(old(db.log), ms))
              && RunUps(old(db.schema), Pending(old(db.log), ms)) == Some(db.schema)
              && Pending(db.log, ms) == []
    // .. that is, the migrations at the new places of the array, whose scripts' own results follow one
    // another up to the schema at the end
    ensures rc == Ok && !options.dryRun ==> AllApplied(ms, old(db.log), old(db.schema), db.log, db.schema)
    ensures Pending(old(db.log), ms) == [] ==> db.log == old(db.log)
    // no script of a logged migration is run, unless its lookup was refused: then the run fails,
    // and its script has been run on top of the others
    ensures again.None? ==> Stopped(old(db.schema), old(db.log), Pending(old(db.log), ms), db.schema, db.log)
    ensures again.Some? ==> rc != Ok && again.value in ms && again.value.version in db.log
    ensures again.Some? && db.Works() && db.driver != Unknown ==> rc == Refused
    ensures again.Some? && db.Works() ==>
              RanAgain(old(db.schema), old(db.log), Pending(old(db.log), ms), again.value, db.schema, db.log)
    ensures db.Answers() ==> again.None?
    ensures db.Blind() && db.Works() && !options.dryRun && ms != [] && ms[0].version in old(db.log) ==>
            again == Some(ms[0])
    // no failure without a cause
    ensures db.Works() && db.driver != Unknown && again.None? && RunUps(old(db.schema), Pending(old(db.log), ms)).Some?
            ==> rc == Ok
  {
    PendingIsNew(db.log, ms);
    NothingPendingAfter(db.log, ms);
    again := None;
    ghost var pending := Pending(db.log, ms);
    assert pending[..0] == [] && After(db.schema, db.log, pending, 0, db.schema, db.log);
    var ok := db.Lock();
    if !ok {
      return Refused, None;
    }
    ok := db.Call(Work);
    if !ok {
      rc := db.Unlock();
      return if rc != Ok then rc else Refused, None;
    }
    if options.dryRun {
      DryRun(db, ms);
      rc := Ok;
    } else {
      rc, again := ApplyPending(db, ms, options, pending);
      if rc == Ok {
        AllDone(old(db.schema), old(db.log), pending, db.schema, db.log);
        PendingApplied(ms, old(db.log), old(db.schema), db.schema);
      }
    }
    var unlocked := db.Unlock();
    if unlocked != Ok {
      rc := unlocked;
    }
  }

  /** With dry_run the loop only looks. */
  method DryRun<S(!new)>(db: Db<S>, ms: seq<Migration<S>>)
    modifies db`clock
  {
    for i := 0 to |ms| {
      var _ := db.IsApplied(ms[i].version);
    }
  }

  /** A database that answers no lookup but does everything else: the script of a logged migration
      runs a second time, and only then is the call refused. */
  method LookupRefused<S(!new)>(schema: S, mig: Migration<S>) returns (rc: Rc, db: Db<S>)
    ensures rc == Refused && db.log == [mig.version] && db.schema == Execute(mig.up, schema).0
  {
    db := new Db(Sqlite, (asked: Asked, n: nat) => asked.Lookup?, schema, [mig.version]);
    assert Pending([mig.version], [mig]) == [];
    ghost var again;
    rc, again := MigrateAll(db, [mig], Options(false, false, false));
  }

  /** One step back: savepoint, script, forget, release. */
  method RollBackOne<S(!new)>(db: Db<S>, mig: Migration<S>) returns (rc: Rc)
    requires db.log != [] && NoRepeats(db.log) && db.log[|db.log| - 1] == mig.version
    modifies db
    ensures rc == Ok || rc == Refused
    ensures db.log == old(db.log) || db.log == old(db.log)[..|old(db.log)| - 1]
    ensures rc == Ok ==> db.log == old(db.log)[..|old(db.log)| - 1]
    ensures rc == Ok ==> Execute(mig.down, old(db.schema)) == (db.schema, true)
    ensures db.Works() && Execute(mig.down, old(db.schema)).1 ==> rc == Ok
  {
    RemovedLast(db.log);
    var ok := db.Call(Work);
    if !ok {
      return Refused;
    }
    ok := db.Run(mig.down);
    if !ok {
      return Refused;
    }
    ok := db.Forget(mig.version);
    if !ok {
      return Refused;
    }
    ok := db.Call(Work);
    return if ok then Ok else Refused;
  }

  method FindMigration<S(!new)>(ms: seq<Migration<S>>, version: string) returns (r: Option<Migration<S>>)
    ensures r == Find(ms, version)
  {
    var j := 0;
    while j < |ms|
      invariant 0 <= j <= |ms| && Find(ms, version) == Find(ms[j..], version)
    {
      if ms[j].version == version {
        return Some(ms[j]);
      }
      j := j + 1;
    }
    return None;
  }

  /** What a rollback of k steps leaves to do when `i` entries are left in the log. */
  ghost predicate Halfway<S(!new)>(s0: S, s: S, ms: seq<Migration<S>>, applied: seq<string>, k: nat, i: nat) {
    && k <= |applied| && |applied| - k <= i <= |applied|
    && RunDowns(s0, ms, applied[|applied| - k..]) == RunDowns(s, ms, applied[|applied| - k..i])
  }

  lemma StepBack<S(!new)>(s0: S, s: S, ms: seq<Migration<S>>, applied: seq<string>, k: nat, i: nat)
    requires Halfway(s0, s, ms, applied, k, i) && i > |applied| - k
    ensures Find(ms, applied[i - 1]).None? ==> RunDowns(s0, ms, applied[|applied| - k..]).None?
    ensures Find(ms, applied[i - 1]).Some? ==>
              var (s', ok) := Execute(Find(ms, applied[i - 1]).value.down, s);
              if ok then Halfway(s0, s', ms, applied, k, i - 1) else RunDowns(s0, ms, applied[|applied| - k..]).None?
  {
    var left := applied[|applied| - k..i];
    assert left[..|left| - 1] == applied[|applied| - k..i - 1];
  }

  /** The loop of rollback over the applied versions, last first. */
  method RollBackLoop<S(!new)>(db: Db<S>, ms: seq<Migration<S>>, applied: seq<string>, wanted: nat, options: Options)
    returns (rc: Rc)
    requires NoRepeats(db.log) && db.log == applied
    modifies db
    ensures rc != NotImplemented
    ensures db.log <= applied && |db.log| >= |applied| - (if wanted > |applied| then |applied| else wanted)
    ensures rc == Ok && !options.dryRun ==>
              var n := |applied|;
              var k := if wanted > n then n else wanted;
              db.log == applied[..n - k] && RunDowns(old(db.schema), ms, applied[n - k..]) == Some(db.schema)
    ensures options.dryRun ==> db.log == applied && db.schema == old(db.schema)
    ensures rc == NotFound ==> exists i :: 0 <= i < |applied| && Find(ms, applied[i]).None?
    ensures db.Works() && !options.dryRun
            && RunDowns(old(db.schema), ms,
                        applied[|applied| - (if wanted > |applied| then |applied| else wanted)..]).Some?
            ==> rc == Ok
  {
    var n := |applied|;
    ghost var k := if wanted > n then n else wanted;
    ghost var s0 := db.schema;
    var i, rolledBack := n, 0;
    rc := Ok;
    assert applied[..n] == applied && applied[n - k..n] == applied[n - k..];
    while i > 0 && rolledBack < wanted
      invariant 0 <= i <= n && rolledBack == n - i <= k && rc == Ok
      invariant options.dryRun ==> db.log == applied && db.schema == s0
      invariant !options.dryRun ==> db.log == applied[..i] && Halfway(s0, db.schema, ms, applied, k, i)
    {
      rc := RollBackNext(db, ms, applied, k, i, s0, options);
      if rc != Ok {
        return;
      }
      i := i - 1;
      rolledBack := rolledBack + 1;
    }
    assert applied[n - k..n - k] == [];
  }

  /** Entry i - 1 of the log is the last one left, and goes. */
  method RollBackNext<S(!new)>(db: Db<S>, ms: seq<Migration<S>>, applied: seq<string>, ghost k: nat, i: nat,
                               ghost s0: S, options: Options) returns (rc: Rc)
    requires NoRepeats(applied) && 0 < i <= |applied| && |applied| - k < i
    requires options.dryRun ==> db.log == applied
    requires !options.dryRun ==> db.log == applied[..i] && Halfway(s0, db.schema, ms, applied, k, i)
    modifies db
    ensures rc != NotImplemented
    ensures rc == NotFound ==> Find(ms, applied[i - 1]).None?
    ensures options.dryRun ==> db.log == old(db.log) && db.schema == old(db.schema)
    ensures !options.dryRun ==> db.log == applied[..i] || db.log == applied[..i - 1]
    ensures !options.dryRun && rc == Ok ==> db.log == applied[..i - 1] && Halfway(s0, db.schema, ms, applied, k, i - 1)
    ensures db.Works() && !options.dryRun && RunDowns(s0, ms, applied[|applied| - k..]).Some? ==> rc == Ok
  {
    var mig := FindMigration(ms, applied[i - 1]);
    if !options.dryRun {
      StepBack(s0, db.schema, ms, applied, k, i);
    }
    if mig.None? {
      return NotFound;
    }
    if options.dryRun {
      return Ok;
    }
    FindsVersion(ms, applied[i - 1]);
    assert applied[..i][..i - 1] == applied[..i - 1];
    rc := RollBackOne(db, mig.value);
  }

  method RollBackSteps<S(!new)>(db: Db<S>, ms: seq<Migration<S>>, steps: nat, options: Options) returns (rc: Rc)
    requires NoRepeats(db.log)
    modifies db
    ensures rc != NotImplemented
    ensures |db.log| >= |old(db.log)| - Steps(steps, |old(db.log)|) && db.log <= old(db.log)
    ensures rc == Ok && !options.dryRun ==>
              var n, k := |old(db.log)|, Steps(steps, |old(db.log)|);
              && db.log == old(db.log)[..n - k]
              && RunDowns(old(db.schema), ms, old(db.log)[n - k..]) == Some(db.schema)
    ensures options.dryRun ==> db.log == old(db.log) && db.schema == old(db.schema)
    ensures rc == NotFound ==> exists i :: 0 <= i < |old(db.log)| && Find(ms, old(db.log)[i]).None?
    ensures db.Works() && !options.dryRun
            && RunDowns(old(db.schema), ms, old(db.log)[|old(db.log)| - Steps(steps, |old(db.log)|)..]).Some?
            ==> rc == Ok
  {
    var applied, ok;
    ok, applied := db.GetApplied();
    if !ok {
      return Refused;
    }
    var wanted := if steps == 0 then |applied| else steps;
    rc := RollBackLoop(db, ms, applied, wanted, options);
  }

  lemma {:induction false} FindsVersion<S>(ms: seq<Migration<S>>, version: string)
    ensures Find(ms, version).Some? ==> Find(ms, version).value.version == version
  {
    if ms != [] { FindsVersion(ms[1..], version); }
  }

  /** c_orm_migrate_rollback. */
  method Rollback<S(!new)>(db: Db<S>, ms: seq<Migration<S>>, steps: nat, options: Options) returns (rc: Rc)
    requires NoRepeats(db.log)
    modifies db
    // whatever happens: at most the last entries asked for are gone, the others stay in order
    ensures db.log <= old(db.log) && |db.log| >= |old(db.log)| - Steps(steps, |old(db.log)|)
    ensures options.dryRun ==> db.log == old(db.log) && db.schema == old(db.schema)
    ensures rc == NotFound ==> exists i :: 0 <= i < |old(db.log)| && Find(ms, old(db.log)[i]).None?
    // success: exactly those, with their down scripts run from the last one back
    ensures rc == Ok && !options.dryRun ==>
              var n, k := |old(db.log)|, Steps(steps, |old(db.log)|);
              && db.log == old(db.log)[..n - k]
              && RunDowns(old(db.schema), ms, old(db.log)[n - k..]) == Some(db.schema)
              && RolledBack(ms, old(db.log)[n - k..], old(db.schema), db.schema)
    ensures db.Works() && db.driver != Unknown && !options.dryRun
            && RunDowns(old(db.schema), ms, old(db.log)[|old(db.log)| - Steps(steps, |old(db.log)|)..]).Some?
            ==> rc == Ok
  {
    var ok := db.Lock();
    if !ok {
      return Refused;
    }
    rc := RollBackSteps(db, ms, steps, options);
    if rc == Ok && !options.dryRun {
      ghost var n, k := |old(db.log)|, Steps(steps, |old(db.log)|);
      RunDownsTrace(old(db.schema), ms, old(db.log)[n - k..], db.schema);
    }
    var unlocked := db.Unlock();
    if unlocked != Ok {
      return unlocked;
    }
  }
}
