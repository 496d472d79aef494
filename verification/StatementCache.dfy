/** The statement cache of src/c_orm_cache.c as a state machine on values, and what every run
    of it keeps. StatementCacheList.dfy holds the linked list that implements it. */
module StatementCache {
  import opened Optional

  datatype Rc = Ok | Memory | DriverError

  /** A prepared statement. Every successful call of the driver's prepare makes a new one. */
  type Handle = nat

  datatype Entry = Entry(sql: string, query: Handle, inUse: bool)

  /** `entries` from head (most recently prepared) to tail. */
  datatype Cache = Cache(capacity: nat, entries: seq<Entry>)

  /** `compiled[h]` is the SQL handle h was prepared from; `finalized` lists the handles given
      to the driver's finalize, in call order. `broken` marks a cache that a failed disable left
      behind: its list still holds handles given to finalize, in entries freed already but for
      the one whose finalize was refused. */
  datatype Db = Db(cache: Option<Cache>, compiled: seq<string>, finalized: seq<Handle>, broken: bool)

  /** How the calls below a prepare turn out: the driver's prepare, finalize and reset, and the
      two allocations of a cache entry. */
  datatype Env = Env(prepareOk: bool, entryOk: bool, sqlOk: bool, finalizeOk: bool, resetOk: bool)

  const DEFAULT_CAPACITY := 128

  // ----- the operations

  /** The first free entry for exactly this SQL, searching from the head. */
  function FindFree(entries: seq<Entry>, sql: string): (r: Option<nat>)
    ensures r.Some? ==> r.value < |entries| && !entries[r.value].inUse && entries[r.value].sql == sql
    ensures r.Some? ==> forall i | 0 <= i < r.value :: entries[i].inUse || entries[i].sql != sql
    ensures r.None? ==> forall i | 0 <= i < |entries| :: entries[i].inUse || entries[i].sql != sql
  {
    if entries == [] then None
    else if !entries[0].inUse && entries[0].sql == sql then Some(0)
    else
      var r := FindFree(entries[1..], sql);
      if r.Some? then Some(r.value + 1) else None
  }

  /** The free entry nearest the tail. */
  function LastFree(entries: seq<Entry>): (r: Option<nat>)
    ensures r.Some? ==> r.value < |entries| && !entries[r.value].inUse
    ensures r.Some? ==> forall i | r.value < i < |entries| :: entries[i].inUse
    ensures r.None? ==> forall i | 0 <= i < |entries| :: entries[i].inUse
  {
    if entries == [] then None
    else if !entries[|entries| - 1].inUse then Some(|entries| - 1)
    else LastFree(entries[..|entries| - 1])
  }

  function Without<T>(s: seq<T>, i: nat): seq<T>
    requires i < |s|
  {
    s[..i] + s[i + 1..]
  }

  function MoveToFront(entries: seq<Entry>, i: nat): seq<Entry>
    requires i < |entries|
  {
    [entries[i].(inUse := true)] + Without(entries, i)
  }

  datatype Prepared = Prepared(db: Db, rc: Rc, query: Option<Handle>)

  /** Insertion at the head and, over capacity, removal of the free entry nearest the tail. */
  function InsertAndEvict(db: Db, c: Cache, entry: Entry, finalizeOk: bool): Prepared {
    var entries := [entry] + c.entries;
    var victim := if |entries| > c.capacity then LastFree(entries) else None;
    if victim.None? then Prepared(db.(cache := Some(c.(entries := entries))), Ok, Some(entry.query))
    else
      Prepared(
        db.(cache := Some(c.(entries := Without(entries, victim.value))),
        finalized := db.finalized + [entries[victim.value].query]),
        if finalizeOk then Ok else DriverError,
        if finalizeOk then Some(entry.query) else None)
  }

  /** c_orm_prepare_cached. `query` is what a caller who checks the result code may use. */
  function PrepareCached(db: Db, sql: string, env: Env): Prepared {
    var hit := if db.cache.Some? then FindFree(db.cache.value.entries, sql) else None;
    if hit.Some? then
      var c := db.cache.value;
      Prepared(
        db.(cache := Some(c.(entries := MoveToFront(c.entries, hit.value)))),
        if env.resetOk then Ok else DriverError,
        if env.resetOk then Some(c.entries[hit.value].query) else None)
    else if !env.prepareOk then Prepared(db, DriverError, None)
    else
      var q := |db.compiled|;
      var db' := db.(compiled := db.compiled + [sql]);
      if db.cache.None? || !env.entryOk || !env.sqlOk then Prepared(db', Ok, Some(q))
      else InsertAndEvict(db', db.cache.value, Entry(sql, q, true), env.finalizeOk)
  }

  function FindQuery(entries: seq<Entry>, q: Handle): (r: Option<nat>)
    ensures r.Some? ==> r.value < |entries| && entries[r.value].query == q
    ensures r.Some? ==> forall i | 0 <= i < r.value :: entries[i].query != q
    ensures r.None? ==> forall i | 0 <= i < |entries| :: entries[i].query != q
  {
    if entries == [] then None
    else if entries[0].query == q then Some(0)
    else
      var r := FindQuery(entries[1..], q);
      if r.Some? then Some(r.value + 1) else None
  }

  /** c_orm_finalize_cached: a cached statement goes back to the pool, any other to the driver. */
  function FinalizeCached(db: Db, q: Handle, finalizeOk: bool): (Db, Rc) {
    var at := if db.cache.Some? then FindQuery(db.cache.value.entries, q) else None;
    if at.Some? then
      var c := db.cache.value;
      (db.(cache := Some(c.(entries := c.entries[at.value := c.entries[at.value].(inUse := false)]))), Ok)
    else
      (db.(finalized := db.finalized + [q]), if finalizeOk then Ok else DriverError)
  }

  /** c_orm_enable_statement_caching. */
  function Enable(db: Db, size: nat, cacheOk: bool, lockOk: bool): (Db, Rc) {
    if db.cache.Some? then (db, Ok)
    else if !cacheOk || !lockOk then (db, Memory)
    else (db.(cache := Some(Cache(if size == 0 then DEFAULT_CAPACITY else size, []))), Ok)
  }

  function Queries(entries: seq<Entry>): (qs: seq<Handle>)
    ensures |qs| == |entries| && forall i | 0 <= i < |qs| :: qs[i] == entries[i].query
  {
    seq(|entries|, i requires 0 <= i < |entries| => entries[i].query)
  }

  /** c_orm_disable_statement_caching. `failAt` is the first entry, from the head, whose driver
      finalize fails: the walk stops there with the entries before it freed but still linked. */
  function Disable(db: Db, failAt: Option<nat>): (Db, Rc) {
    if db.cache.None? then (db, Ok)
    else
      var qs := Queries(db.cache.value.entries);
      if failAt.Some? && failAt.value < |qs| then
        (db.(finalized := db.finalized + qs[..failAt.value + 1], broken := true), DriverError)
      else
        (db.(cache := None, finalized := db.finalized + qs), Ok)
  }

  // ----- what one call does, whatever the list looks like

  function Entries(db: Db): seq<Entry> {
    if db.cache.Some? then db.cache.value.entries else []
  }

  predicate Reusable(db: Db, sql: string) {
    exists i :: 0 <= i < |Entries(db)| && !Entries(db)[i].inUse && Entries(db)[i].sql == sql
  }

  predicate SomeFree(db: Db) {
    exists i :: 0 <= i < |Entries(db)| && !Entries(db)[i].inUse
  }

  /** A free entry for the SQL is given out again, the driver is not asked for another, and only its reset
      can fail. */
  lemma ReuseMeans(db: Db, sql: string, env: Env)
    requires Reusable(db, sql)
    ensures var p := PrepareCached(db, sql, env);
            && p.rc == (if env.resetOk then Ok else DriverError) && (p.rc == Ok <==> p.query.Some?)
            && p.db.compiled == db.compiled && p.db.finalized == db.finalized && |Entries(p.db)| == |Entries(db)|
            && Entries(p.db)[0].inUse && Entries(p.db)[0].sql == sql
            && (p.rc == Ok ==> p.query == Some(Entries(p.db)[0].query))
            && exists i :: && 0 <= i < |Entries(db)| && !Entries(db)[i].inUse && Entries(db)[i].sql == sql
                           && Entries(p.db)[0].query == Entries(db)[i].query
  {
    var hit := FindFree(db.cache.value.entries, sql);
    assert hit.Some?;
  }

  /** Otherwise the driver makes a new one. A cache entry that gets no memory is no failure; one that does
      goes to the head, and over capacity a free entry is finalized, which may be refused. */
  lemma MissMeans(db: Db, sql: string, env: Env)
    requires !Reusable(db, sql)
    ensures var p := PrepareCached(db, sql, env);
            var kept := db.cache.Some? && env.prepareOk && env.entryOk && env.sqlOk;
            var evicts := kept && |Entries(db)| >= db.cache.value.capacity && SomeFree(db);
            && (p.rc == Ok <==> env.prepareOk && (evicts ==> env.finalizeOk)) && (p.rc == Ok <==> p.query.Some?)
            && p.rc != Memory && (p.rc == Ok ==> p.query == Some(|db.compiled|))
            && p.db.compiled == (if env.prepareOk then db.compiled + [sql] else db.compiled)
            && (!kept ==> p.db.cache == db.cache && p.db.finalized == db.finalized)
            && (kept ==> Entries(p.db)[0] == Entry(sql, |db.compiled|, true))
            && (kept && !evicts ==> Entries(p.db)[1..] == Entries(db) && p.db.finalized == db.finalized)
            && (evicts ==> |Entries(p.db)| == |Entries(db)| && |p.db.finalized| == |db.finalized| + 1)
  {
    var hit := FindFree(Entries(db), sql);
    assert hit.Some? ==> Reusable(db, sql);
    if db.cache.Some? && env.prepareOk && env.entryOk && env.sqlOk {
      MissKept(db, sql, env.finalizeOk);
    }
  }

  lemma MissKept(db: Db, sql: string, finalizeOk: bool)
    requires db.cache.Some?
    ensures var c, entry := db.cache.value, Entry(sql, |db.compiled|, true);
            var p := InsertAndEvict(db.(compiled := db.compiled + [sql]), c, entry, finalizeOk);
            var evicts := |c.entries| >= c.capacity && SomeFree(db);
            && (p.rc == Ok <==> (evicts ==> finalizeOk)) && (p.rc == Ok <==> p.query.Some?) && p.rc != Memory
            && (p.rc == Ok ==> p.query == Some(entry.query)) && Entries(p.db)[0] == entry
            && (!evicts ==> Entries(p.db)[1..] == c.entries && p.db.finalized == db.finalized)
            && (evicts ==> |Entries(p.db)| == |c.entries| && |p.db.finalized| == |db.finalized| + 1)
  {
    var c, entry := db.cache.value, Entry(sql, |db.compiled|, true);
    var all := [entry] + c.entries;
    var free := LastFree(all);
    assert all[1..] == c.entries;
    if SomeFree(db) {
      var i :| 0 <= i < |c.entries| && !c.entries[i].inUse;
      assert !all[i + 1].inUse;
    }
    if free.Some? {
      assert all[0].inUse && free.value > 0 && all[free.value] == c.entries[free.value - 1];
      assert !Entries(db)[free.value - 1].inUse;
      assert Without(all, free.value)[0] == all[..free.value][0];
    }
  }

  /** Giving back a cached statement never fails and makes its entry free; any other goes to the driver. */
  lemma GiveBackMeans(db: Db, q: Handle, finalizeOk: bool)
    ensures var (db', rc) := FinalizeCached(db, q, finalizeOk);
            if exists i :: 0 <= i < |Entries(db)| && Entries(db)[i].query == q then
              && rc == Ok && db'.finalized == db.finalized && db'.compiled == db.compiled
              && exists i :: && 0 <= i < |Entries(db)| && Entries(db)[i].query == q
                             && (forall j | 0 <= j < i :: Entries(db)[j].query != q)
                             && Entries(db') == Entries(db)[i := Entries(db)[i].(inUse := false)]
            else
              && rc == (if finalizeOk then Ok else DriverError) && db' == db.(finalized := db.finalized + [q])
  {
    var at := FindQuery(Entries(db), q);
  }

  /** Enabling makes an empty cache, of 128 entries where none is asked for, unless there is one already or
      memory is refused. */
  lemma EnableMeans(db: Db, size: nat, cacheOk: bool, lockOk: bool)
    ensures var (db', rc) := Enable(db, size, cacheOk, lockOk);
            && (rc == Ok <==> db.cache.Some? || (cacheOk && lockOk)) && (rc == Ok || rc == Memory)
            && (db' != db ==> rc == Ok && db.cache.None?)
            && (rc == Ok && db.cache.None? ==>
                  && db'.cache.Some? && db'.cache.value.entries == [] && db'.(cache := None) == db
                  && db'.cache.value.capacity == (if size > 0 then size else 128))
  {
  }

  /** Disabling finalizes every handle, from the head, up to the first refusal. */
  lemma DisableMeans(db: Db, failAt: Option<nat>)
    ensures var (db', rc) := Disable(db, failAt);
            var refused := failAt.Some? && failAt.value < |Entries(db)|;
            && rc == (if refused then DriverError else Ok) && db'.compiled == db.compiled
            && (if refused then db'.cache == db.cache && db'.broken else db'.cache.None? && db'.broken == db.broken)
            && |db'.finalized| == |db.finalized| + (if refused then failAt.value + 1 else |Entries(db)|)
            && db.finalized <= db'.finalized
            && forall i | |db.finalized| <= i < |db'.finalized| ::
                 db'.finalized[i] == Entries(db)[i - |db.finalized|].query
  {
  }

  // ----- runs

  datatype Event =
    | EnableCaching(size: nat, cacheOk: bool, lockOk: bool)
    | DisableCaching(failAt: Option<nat>)
    | Prepare(sql: string, env: Env)
    | Finalize(query: Handle, finalizeOk: bool)

  datatype Loan = Loan(query: Handle, sql: string)

  /** The database with what callers hold. Since the cache was enabled: `peak` is the largest
      number of entries out on loan at once, `flagged` the largest number marked in use at once,
      and `stranded` says whether a hit's reset or an eviction's finalize was refused. `served`
      lists the cached handles in the order in which prepare put them at the head. */
  datatype Run = Run(db: Db, held: seq<Loan>, peak: nat, flagged: nat, stranded: bool, served: seq<Handle>)

  const START := Run(Db(None, [], [], false), [], 0, 0, false, [])

  function InUse(entries: seq<Entry>): nat {
    if entries == [] then 0 else (if entries[0].inUse then 1 else 0) + InUse(entries[1..])
  }

  function Held(loans: seq<Loan>, q: Handle): (r: Option<nat>)
    ensures r.Some? ==> r.value < |loans| && loans[r.value].query == q
    ensures r.None? ==> forall i | 0 <= i < |loans| :: loans[i].query != q
  {
    if loans == [] then None
    else if loans[0].query == q then Some(0)
    else
      var r := Held(loans[1..], q);
      if r.Some? then Some(r.value + 1) else None
  }

  /** How many entries a caller holds. */
  function Borrowed(entries: seq<Entry>, held: seq<Loan>): nat {
    if entries == [] then 0 else (if Held(held, entries[0].query).Some? then 1 else 0) + Borrowed(entries[1..], held)
  }

  /** A prepare that fails after it marked an entry in use: the reset of a hit or the finalize of
      an evicted handle is refused, and the caller never learns of the entry. */
  predicate Strands(db: Db, sql: string, env: Env) {
    && db.cache.Some?
    && var c := db.cache.value;
       if FindFree(c.entries, sql).Some? then !env.resetOk
       else
         var entries := [Entry(sql, |db.compiled|, true)] + c.entries;
         env.prepareOk && env.entryOk && env.sqlOk && !env.finalizeOk && |entries| > c.capacity
           && LastFree(entries).Some?
  }

  /** What callers must respect: return only what they hold, and disable the cache only when no
      cached statement is out on loan. */
  predicate Legal(s: Run, e: Event) {
    && !s.db.broken
    && match e
       case Finalize(q, _) => Held(s.held, q).Some?
       case DisableCaching(_) => forall i | 0 <= i < |s.held| :: FindQuery(Entries(s.db), s.held[i].query).None?
       case _ => true
  }

  function Max(a: nat, b: nat): nat { if a < b then b else a }

  function Step(s: Run, e: Event): Run
    requires Legal(s, e)
  {
    match e
    case EnableCaching(size, cacheOk, lockOk) =>
      var (db', _) := Enable(s.db, size, cacheOk, lockOk);
      if s.db.cache.None? then s.(db := db', peak := 0, flagged := 0, stranded := false) else s.(db := db')
    case DisableCaching(failAt) =>
      s.(db := Disable(s.db, failAt).0)
    case Prepare(sql, env) =>
      var p := PrepareCached(s.db, sql, env);
      var now := Entries(p.db);
      var held := if p.query.Some? then s.held + [Loan(p.query.value, sql)] else s.held;
      Run(p.db, held,
          Max(s.peak, Borrowed(now, held)),
          Max(s.flagged, InUse(now)),
          s.stranded || Strands(s.db, sql, env),
          if now != Entries(s.db) then s.served + [now[0].query] else s.served)
    case Finalize(q, finalizeOk) =>
      s.(db := FinalizeCached(s.db, q, finalizeOk).0, held := Without(s.held, Held(s.held, q).value))
  }
}
