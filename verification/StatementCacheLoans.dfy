/** How many entries the statement cache holds, measured by what its callers borrow. An entry can
    be marked in use with no borrower; here is exactly when, and what follows. */
module StatementCacheLoans {
  import opened Optional
  import opened StatementCache
  import opened StatementCacheRuns

  /** Every entry marked in use is in a caller's hands. */
  ghost predicate AllLent(entries: seq<Entry>, held: seq<Loan>) {
    forall e | e in entries && e.inUse :: e.query in LoanQueries(held)
  }

  /** An entry marked in use that nobody holds: nobody can return it, and nothing evicts it. */
  ghost predicate HasStranded(entries: seq<Entry>, held: seq<Loan>) {
    exists e :: e in entries && e.inUse && e.query !in LoanQueries(held)
  }

  ghost predicate LoanInv(s: Run) {
    !s.db.broken && s.db.cache.Some? ==>
      if s.stranded then HasStranded(Entries(s.db), s.held) else AllLent(Entries(s.db), s.held) && s.flagged <= s.peak
  }

  // ----- counting

  lemma {:induction false} LentIsBorrowed(entries: seq<Entry>, held: seq<Loan>)
    requires AllLent(entries, held)
    ensures InUse(entries) <= Borrowed(entries, held)
  {
    if entries != [] {
      assert forall e | e in entries[1..] :: e in entries;
      LentIsBorrowed(entries[1..], held);
      if entries[0].inUse {
        HeldIffListed(held, entries[0].query);
      }
    }
  }

  lemma HeldIffListed(held: seq<Loan>, q: Handle)
    ensures Held(held, q).Some? <==> q in LoanQueries(held)
  {
    var r := Held(held, q);
    if r.Some? {
      assert LoanQueries(held)[r.value] == q;
    }
  }

  lemma OneMoreLoan(held: seq<Loan>, loan: Loan)
    ensures forall q :: q in LoanQueries(held + [loan]) <==> q in LoanQueries(held) || q == loan.query
  {
    assert LoanQueries(held + [loan]) == LoanQueries(held) + [loan.query];
  }

  /** The peaks keep step while every entry in use is lent. */
  lemma PeaksAgree(entries: seq<Entry>, held: seq<Loan>, peak: nat, flagged: nat)
    requires AllLent(entries, held) && flagged <= peak
    ensures Max(flagged, InUse(entries)) <= Max(peak, Borrowed(entries, held))
  {
    LentIsBorrowed(entries, held);
  }

  // ----- each kind of step

  lemma MovedMembers(entries: seq<Entry>, i: nat)
    requires i < |entries|
    ensures var now, head := MoveToFront(entries, i), entries[i].(inUse := true);
            && head in now && (forall e | e in now :: e == head || e in entries)
            && forall e | e in entries && e != entries[i] :: e in now
  {
    WithoutIn(entries, i);
    var now := MoveToFront(entries, i);
    assert now[0] == entries[i].(inUse := true);
    assert forall k | 1 <= k < |now| :: now[k] == Without(entries, i)[k - 1];
    forall e | e in Without(entries, i)
      ensures e in now
    {
      var k :| 0 <= k < |Without(entries, i)| && Without(entries, i)[k] == e;
      assert now[k + 1] == e;
    }
  }

  lemma HitKeepsLoans(s: Run, sql: string, env: Env)
    requires Good(s) && LoanInv(s) && s.db.cache.Some? && FindFree(Entries(s.db), sql).Some?
    ensures LoanInv(Step(s, Prepare(sql, env)))
  {
    var s' := Step(s, Prepare(sql, env));
    var entries, i := Entries(s.db), FindFree(Entries(s.db), sql).value;
    HitShape(s, sql, env);
    MovedMembers(entries, i);
    FreeIsNotLent(s, i);
    var q := entries[i].query;
    if env.resetOk {
      OneMoreLoan(s.held, Loan(q, sql));
      if s.stranded {
        var e :| e in entries && e.inUse && e.query !in LoanQueries(s.held);
        Distinguish(entries, e, i);
        assert e in Entries(s'.db);
      } else {
        PeaksAgree(Entries(s'.db), s'.held, s.peak, s.flagged);
      }
    } else {
      assert entries[i].(inUse := true) in Entries(s'.db);
    }
  }

  /** Entries differ in their handles. */
  lemma Distinguish(entries: seq<Entry>, e: Entry, i: nat)
    requires Distinct(Queries(entries)) && e in entries && i < |entries| && e != entries[i]
    ensures e.query != entries[i].query
  {
    var k :| 0 <= k < |entries| && entries[k] == e;
    assert Queries(entries)[k] == e.query && Queries(entries)[i] == entries[i].query;
  }

  lemma InsertKeepsLoans(s: Run, sql: string, env: Env)
    requires Good(s) && LoanInv(s) && s.db.cache.Some? && FindFree(Entries(s.db), sql).None?
    requires env.prepareOk && env.entryOk && env.sqlOk
    ensures LoanInv(Step(s, Prepare(sql, env)))
  {
    var s' := Step(s, Prepare(sql, env));
    InsertShape(s, sql, env);
    FreshHandle(s, sql);
    var entry := Entry(sql, |s.db.compiled|, true);
    var entries := [entry] + Entries(s.db);
    var victim := if |entries| > s.db.cache.value.capacity then LastFree(entries) else None;
    InsertedMembers(Entries(s.db), entry, victim);
    var now := Entries(s'.db);
    if victim.Some? && !env.finalizeOk {
      assert entry in now;
    } else {
      OneMoreLoan(s.held, Loan(entry.query, sql));
      if s.stranded {
        var e :| e in Entries(s.db) && e.inUse && e.query !in LoanQueries(s.held);
        KnownHandle(s, e);
        assert e in now;
      } else {
        PeaksAgree(now, s'.held, s.peak, s.flagged);
      }
    }
  }

  lemma KnownHandle(s: Run, e: Entry)
    requires Good(s) && e in Entries(s.db)
    ensures e.query < |s.db.compiled|
  {
  }

  /** An insertion keeps every entry in use: what it drops is free. */
  lemma InsertedMembers(entries: seq<Entry>, entry: Entry, victim: Option<nat>)
    requires entry.inUse && (victim.Some? ==> victim.value < |entries| + 1 && !([entry] + entries)[victim.value].inUse)
    ensures var now := if victim.Some? then Without([entry] + entries, victim.value) else [entry] + entries;
            && entry in now && (forall e | e in now :: e == entry || e in entries)
            && forall e | e in entries && e.inUse :: e in now
  {
    var all := [entry] + entries;
    assert all[0] == entry;
    assert forall e :: e in all <==> e == entry || e in entries;
    if victim.Some? {
      WithoutIn(all, victim.value);
    }
  }

  lemma UncachedKeepsLoans(s: Run, sql: string, env: Env)
    requires Good(s) && LoanInv(s) && (s.db.cache.Some? ==> FindFree(s.db.cache.value.entries, sql).None?)
    requires !env.prepareOk || s.db.cache.None? || !env.entryOk || !env.sqlOk
    ensures LoanInv(Step(s, Prepare(sql, env)))
  {
    var s' := Step(s, Prepare(sql, env));
    if s.db.cache.Some? {
      var q := |s.db.compiled|;
      OneMoreLoan(s.held, Loan(q, sql));
      if s.stranded {
        var e :| e in Entries(s.db) && e.inUse && e.query !in LoanQueries(s.held);
        KnownHandle(s, e);
        assert e in Entries(s'.db) && e.query !in LoanQueries(s'.held);
      } else {
        PeaksAgree(Entries(s'.db), s'.held, s.peak, s.flagged);
      }
    }
  }

  lemma ReturnKeepsLoans(s: Run, q: Handle, finalizeOk: bool)
    requires Good(s) && LoanInv(s) && Held(s.held, q).Some?
    ensures LoanInv(Step(s, Finalize(q, finalizeOk)))
  {
    var s' := Step(s, Finalize(q, finalizeOk));
    var k := Held(s.held, q).value;
    ReturnShape(s, q, finalizeOk);
    OneLoanLess(s.held, k);
    var entries, now := Entries(s.db), Entries(s'.db);
    ReturnFrees(s, q, finalizeOk);
    if s.db.cache.Some? {
      if s.stranded {
        var e :| e in entries && e.inUse && e.query !in LoanQueries(s.held);
        var j :| 0 <= j < |entries| && entries[j] == e;
        assert now[j] == e && e in now;
        FewerLoans(s.held, k, e.query);
      } else {
        forall e | e in now && e.inUse
          ensures e.query in LoanQueries(s'.held)
        {
          var j :| 0 <= j < |now| && now[j] == e;
          assert now[j] == entries[j] && entries[j] in entries && e.query != q;
        }
      }
    }
  }

  lemma FewerLoans(held: seq<Loan>, k: nat, q: Handle)
    requires k < |held| && q !in LoanQueries(held)
    ensures q !in LoanQueries(Without(held, k))
  {
    LoanQueriesWithout(held, k);
    WithoutIn(LoanQueries(held), k);
  }

  /** The entry of the returned handle is free afterwards. */
  lemma ReturnFrees(s: Run, q: Handle, finalizeOk: bool)
    requires Good(s) && Held(s.held, q).Some?
    ensures forall e | e in Entries(Step(s, Finalize(q, finalizeOk)).db) && e.query == q :: !e.inUse
  {
    var entries, now := Entries(s.db), Entries(Step(s, Finalize(q, finalizeOk)).db);
    forall j | 0 <= j < |now| && now[j].query == q
      ensures !now[j].inUse
    {
      assert entries[j].query == q;
      var k := FindQuery(entries, q).value;
      assert Queries(entries)[j] == q && Queries(entries)[k] == q;
    }
  }

  lemma StepKeepsLoans(s: Run, e: Event)
    requires Inv(s) && LoanInv(s) && Legal(s, e)
    ensures LoanInv(Step(s, e))
  {
    match e
    case EnableCaching(size, cacheOk, lockOk) =>
    case DisableCaching(failAt) =>
    case Prepare(sql, env) =>
      if s.db.cache.Some? && FindFree(Entries(s.db), sql).Some? {
        HitKeepsLoans(s, sql, env);
      } else if !env.prepareOk || s.db.cache.None? || !env.entryOk || !env.sqlOk {
        UncachedKeepsLoans(s, sql, env);
      } else {
        InsertKeepsLoans(s, sql, env);
      }
    case Finalize(q, finalizeOk) => ReturnKeepsLoans(s, q, finalizeOk);
  }

  lemma {:induction false} RunKeepsLoans(s: Run, events: seq<Event>)
    requires Inv(s) && LoanInv(s) && LegalRun(s, events)
    ensures LoanInv(After(s, events))
    decreases |events|
  {
    if events != [] {
      StepKeeps(s, events[0]);
      StepKeepsLoans(s, events[0]);
      RunKeepsLoans(Step(s, events[0]), events[1..]);
    }
  }

  // ----- the theorems, over every run

  /** Every entry in use is lent if and only if, since the cache was enabled, no hit's reset and no
      eviction's finalize was refused. */
  lemma InUseMeansLentIff(events: seq<Event>)
    requires LegalRun(START, events) && !After(START, events).db.broken && After(START, events).db.cache.Some?
    ensures var s := After(START, events);
            AllLent(Entries(s.db), s.held) <==> !s.stranded
  {
    RunKeepsLoans(START, events);
  }

  /** Then the cache holds no more entries than its capacity or, at its peak, callers held. */
  lemma CountStaysBounded(events: seq<Event>)
    requires LegalRun(START, events) && !After(START, events).db.broken && After(START, events).db.cache.Some?
    requires !After(START, events).stranded
    ensures var s := After(START, events);
            |Entries(s.db)| <= Max(s.db.cache.value.capacity, s.peak)
  {
    RunKeepsLoans(START, events);
    CountWithinFlagged(events);
  }

  const FINE := Env(true, true, true, true, true)

  /** Capacity 1, never more than one loan, and two entries: a refused reset strands the first. */
  const STRANDING: seq<Event> := [
    EnableCaching(1, true, true), Prepare("A", FINE), Finalize(0, true),
    Prepare("A", FINE.(resetOk := false)), Prepare("B", FINE)]

  const A := Entry("A", 0, true)
  const A_FREE := Entry("A", 0, false)
  const B := Entry("B", 1, true)

  /** The run after each of its events. */
  const ENABLED := Run(Db(Some(Cache(1, [])), [], [], false), [], 0, 0, false, [])
  const LENT := Run(Db(Some(Cache(1, [A])), ["A"], [], false), [Loan(0, "A")], 1, 1, false, [0])
  const RETURNED := Run(Db(Some(Cache(1, [A_FREE])), ["A"], [], false), [], 1, 1, false, [0])
  const STRANDED := Run(Db(Some(Cache(1, [A])), ["A"], [], false), [], 1, 1, true, [0, 0])
  const OUTGROWN := Run(Db(Some(Cache(1, [B, A])), ["A", "B"], [], false), [Loan(1, "B")], 1, 2, true, [0, 0, 1])

  lemma Counts()
    ensures InUse([A]) == 1 && Borrowed([A], [Loan(0, "A")]) == 1 && Borrowed([A], []) == 0
    ensures InUse([B, A]) == 2 && Borrowed([B, A], [Loan(1, "B")]) == 1
  {
    assert [A][1..] == [] && [B, A][1..] == [A];
    assert InUse([A]) == 1 && Borrowed([A], [Loan(1, "B")]) == 0;
    assert Held([Loan(0, "A")], 0).Some? && Held([Loan(1, "B")], 1).Some?;
  }

  lemma ThenLent()
    ensures Step(ENABLED, Prepare("A", FINE)) == LENT
  {
    InsertShape(ENABLED, "A", FINE);
    Counts();
    assert [A] + [] == [A] && [] + ["A"] == ["A"];
  }

  lemma ThenReturned()
    ensures Legal(LENT, Finalize(0, true)) && Step(LENT, Finalize(0, true)) == RETURNED
  {
    assert FindQuery([A], 0) == Some(0) && [A][0 := A_FREE] == [A_FREE];
    assert Without([Loan(0, "A")], 0) == [];
  }

  lemma ThenStranded()
    ensures Step(RETURNED, Prepare("A", FINE.(resetOk := false))) == STRANDED
  {
    assert FindFree([A_FREE], "A") == Some(0) && MoveToFront([A_FREE], 0) == [A];
    HitShape(RETURNED, "A", FINE.(resetOk := false));
    Counts();
  }

  lemma ThenOutgrown()
    ensures Step(STRANDED, Prepare("B", FINE)) == OUTGROWN
  {
    assert FindFree([A], "B") == None;
    assert LastFree([B, A]) == None && [B] + [A] == [B, A];
    InsertShape(STRANDED, "B", FINE);
    Counts();
    assert ["A"] + ["B"] == ["A", "B"];
  }

  lemma StrandedOutgrows()
    ensures LegalRun(START, STRANDING) && After(START, STRANDING) == OUTGROWN
    ensures OUTGROWN.peak == 1 == OUTGROWN.db.cache.value.capacity && |Entries(OUTGROWN.db)| == 2
  {
    ThenLent();
    ThenReturned();
    ThenStranded();
    ThenOutgrown();
    AfterFive(START, ENABLED, LENT, RETURNED, STRANDED, OUTGROWN, STRANDING);
  }

  lemma AfterFive(s: Run, s0: Run, s1: Run, s2: Run, s3: Run, s4: Run, events: seq<Event>)
    requires |events| == 5 && Legal(s, events[0]) && s0 == Step(s, events[0])
    requires Legal(s0, events[1]) && s1 == Step(s0, events[1])
    requires Legal(s1, events[2]) && s2 == Step(s1, events[2])
    requires Legal(s2, events[3]) && s3 == Step(s2, events[3])
    requires Legal(s3, events[4]) && s4 == Step(s3, events[4])
    ensures LegalRun(s, events) && After(s, events) == s4
  {
    var tail := events[1..][1..][1..][1..];
    assert tail[1..] == [] && tail[0] == events[4];
    assert LegalRun(s3, tail) && After(s3, tail) == s4;
    assert LegalRun(s2, events[1..][1..][1..]) && After(s2, events[1..][1..][1..]) == s4;
    assert LegalRun(s1, events[1..][1..]) && After(s1, events[1..][1..]) == s4;
  }
}
