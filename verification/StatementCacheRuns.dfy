/** What every run of the statement cache keeps, whatever the driver and the allocator do. */
module StatementCacheRuns {
  import opened Optional
  import opened StatementCache

  ghost predicate Distinct<T(!new)>(s: seq<T>) {
    forall i, j | 0 <= i < j < |s| :: s[i] != s[j]
  }

  /** The last time prepare put this handle at the head. */
  ghost function LastServed(served: seq<Handle>, q: Handle): (t: nat)
    requires q in served
    ensures t < |served| && served[t] == q && q !in served[t + 1..]
  {
    if served[|served| - 1] == q then |served| - 1
    else
      var init := served[..|served| - 1];
      assert served == init + [served[|served| - 1]];
      var t := LastServed(init, q);
      assert served[t + 1..] == init[t + 1..] + [served[|served| - 1]];
      t
  }

  /** From head to tail, each entry was served later than the next. */
  ghost predicate RecentFirst(qs: seq<Handle>, served: seq<Handle>) {
    && (forall i | 0 <= i < |qs| :: qs[i] in served)
    && forall i, j | 0 <= i < j < |qs| :: LastServed(served, qs[j]) < LastServed(served, qs[i])
  }

  /** Every entry is compiled from the SQL it is filed under and has not been finalized. */
  ghost predicate CacheOk(entries: seq<Entry>, compiled: seq<string>, finalized: seq<Handle>) {
    && Distinct(Queries(entries))
    && forall i | 0 <= i < |entries| ::
         && entries[i].query < |compiled| && compiled[entries[i].query] == entries[i].sql
         && entries[i].query !in finalized
  }

  ghost predicate FinalizedOnce(db: Db) {
    && Distinct(db.finalized)
    && forall i | 0 <= i < |db.finalized| :: db.finalized[i] < |db.compiled|
  }

  function LoanQueries(held: seq<Loan>): (qs: seq<Handle>)
    ensures |qs| == |held| && forall i | 0 <= i < |qs| :: qs[i] == held[i].query
  {
    seq(|held|, i requires 0 <= i < |held| => held[i].query)
  }

  /** No handle is lent twice, each was compiled from the SQL its borrower asked for, none has
      been finalized, and a lent cache entry is marked in use. */
  ghost predicate LoansOk(s: Run) {
    && Distinct(LoanQueries(s.held))
    && (forall i | 0 <= i < |s.held| ::
          && s.held[i].query < |s.db.compiled| && s.db.compiled[s.held[i].query] == s.held[i].sql
          && s.held[i].query !in s.db.finalized)
    && forall i, j | 0 <= i < |s.held| && 0 <= j < |Entries(s.db)| && Entries(s.db)[j].query == s.held[i].query ::
         Entries(s.db)[j].inUse
  }

  /** No prepared handle is lost: it is finalized, in the cache, or in a caller's hands. */
  ghost predicate AllAccounted(s: Run) {
    forall q: Handle | q < |s.db.compiled| ::
      q in s.db.finalized || q in Queries(Entries(s.db)) || q in LoanQueries(s.held)
  }

  ghost predicate CountBounded(s: Run) {
    s.db.cache.Some? ==>
      && InUse(Entries(s.db)) <= s.flagged
      && |Entries(s.db)| <= Max(s.db.cache.value.capacity, s.flagged)
  }

  ghost predicate Inv(s: Run) {
    && FinalizedOnce(s.db)
    && (!s.db.broken ==>
          && CacheOk(Entries(s.db), s.db.compiled, s.db.finalized)
          && LoansOk(s)
          && AllAccounted(s)
          && CountBounded(s)
          && RecentFirst(Queries(Entries(s.db)), s.served))
  }

  // ----- list surgery

  lemma {:induction false} InUseSplit(a: seq<Entry>, b: seq<Entry>)
    ensures InUse(a + b) == InUse(a) + InUse(b)
  {
    if a == [] {
      assert a + b == b;
    } else {
      assert (a + b)[1..] == a[1..] + b;
      InUseSplit(a[1..], b);
    }
  }

  lemma SplitAround<T>(s: seq<T>, i: nat)
    requires i < |s|
    ensures s[..i] + [s[i]] + s[i + 1..] == s
  {}

  lemma InUseAround(a: seq<Entry>, x: Entry, b: seq<Entry>)
    ensures InUse(a + [x] + b) == InUse(a + b) + (if x.inUse then 1 else 0)
  {
    InUseSplit(a + [x], b);
    InUseSplit(a, [x]);
    InUseSplit(a, b);
    assert [x][1..] == [];
  }

  lemma InUseAt(s: seq<Entry>, i: nat)
    requires i < |s|
    ensures InUse(s) == InUse(Without(s, i)) + (if s[i].inUse then 1 else 0)
  {
    SplitAround(s, i);
    InUseAround(s[..i], s[i], s[i + 1..]);
  }

  lemma {:induction false} InUseAll(s: seq<Entry>)
    ensures InUse(s) <= |s|
    ensures (forall i | 0 <= i < |s| :: s[i].inUse) ==> InUse(s) == |s|
  {
    if s != [] {
      InUseAll(s[1..]);
    }
  }

  lemma WithoutIn<T(!new)>(s: seq<T>, i: nat)
    requires i < |s|
    ensures forall x :: x in Without(s, i) ==> x in s
    ensures forall x :: x in s && x != s[i] ==> x in Without(s, i)
    ensures Distinct(s) ==> Distinct(Without(s, i)) && s[i] !in Without(s, i)
  {
    forall x | x in s && x != s[i] ensures x in Without(s, i) {
      var k :| 0 <= k < |s| && s[k] == x;
      assert Without(s, i)[if k < i then k else k - 1] == x;
    }
  }

  lemma QueriesWithout(entries: seq<Entry>, i: nat)
    requires i < |entries|
    ensures Queries(Without(entries, i)) == Without(Queries(entries), i)
  {
  }

  lemma LoanQueriesWithout(held: seq<Loan>, i: nat)
    requires i < |held|
    ensures LoanQueries(Without(held, i)) == Without(LoanQueries(held), i)
  {
  }

  // ----- recency

  lemma ServeAgain(served: seq<Handle>, q: Handle, r: Handle)
    ensures LastServed(served + [q], q) == |served|
    ensures r in served && r != q ==> LastServed(served + [q], r) == LastServed(served, r)
  {
    assert (served + [q])[..|served|] == served;
  }

  lemma HeadMostRecent(qs: seq<Handle>, q: Handle, served: seq<Handle>)
    requires RecentFirst(qs, served) && q !in qs
    ensures RecentFirst([q] + qs, served + [q])
  {
    var qs' := [q] + qs;
    var served' := served + [q];
    assert forall i | 0 < i < |qs'| :: qs'[i] == qs[i - 1];
    forall i, j | 0 <= i < j < |qs'|
      ensures LastServed(served', qs'[j]) < LastServed(served', qs'[i])
    {
      assert qs[j - 1] in qs;
      ServeAgain(served, q, qs'[j]);
      if i > 0 {
        assert qs[i - 1] in qs;
        ServeAgain(served, q, qs'[i]);
      }
    }
  }

  lemma WithoutRecent(qs: seq<Handle>, i: nat, served: seq<Handle>)
    requires RecentFirst(qs, served) && i < |qs|
    ensures RecentFirst(Without(qs, i), served)
  {
    var w := Without(qs, i);
    assert forall k | 0 <= k < |w| :: w[k] == qs[if k < i then k else k + 1];
    Subsequence(qs, w, i, served);
  }

  lemma Subsequence(qs: seq<Handle>, w: seq<Handle>, i: nat, served: seq<Handle>)
    requires RecentFirst(qs, served) && i < |qs| == |w| + 1
    requires forall k | 0 <= k < |w| :: w[k] == qs[if k < i then k else k + 1]
    ensures RecentFirst(w, served)
  {
  }

  // ----- each kind of step keeps the invariant

  ghost predicate Good(s: Run) { Inv(s) && !s.db.broken }

  lemma NewLoan(s: Run, s': Run, loan: Loan)
    requires LoansOk(s) && s'.held == s.held + [loan]
    requires forall q | q in s'.db.finalized :: q in s.db.finalized || (q !in LoanQueries(s.held) && q != loan.query)
    requires s.db.compiled <= s'.db.compiled && loan.query < |s'.db.compiled| && s'.db.compiled[loan.query] == loan.sql
    requires loan.query !in s.db.finalized && loan.query !in LoanQueries(s.held)
    requires forall e | e in Entries(s'.db) :: e in Entries(s.db) || e.inUse
    requires forall e | e in Entries(s'.db) && e.query == loan.query :: e.inUse
    ensures LoansOk(s')
  {
    assert LoanQueries(s'.held) == LoanQueries(s.held) + [loan.query];
    forall i | 0 <= i < |s.held| ensures s.held[i].query !in s'.db.finalized {
      assert s.held[i].query == LoanQueries(s.held)[i];
    }
    forall i, j | 0 <= i < |s'.held| && 0 <= j < |Entries(s'.db)| && Entries(s'.db)[j].query == s'.held[i].query
      ensures Entries(s'.db)[j].inUse
    {
      var e := Entries(s'.db)[j];
      if i < |s.held| && e in Entries(s.db) {
        assert s'.held[i] == s.held[i];
      }
    }
  }

  lemma SameLoans(s: Run, s': Run)
    requires LoansOk(s) && s'.held == s.held && s.db.compiled <= s'.db.compiled
    requires forall q | q in s'.db.finalized :: q in s.db.finalized || q !in LoanQueries(s.held)
    requires forall e | e in Entries(s'.db) :: e in Entries(s.db) || e.inUse
    ensures LoansOk(s')
  {
    forall i | 0 <= i < |s.held| ensures s.held[i].query !in s'.db.finalized {
      assert s.held[i].query == LoanQueries(s.held)[i];
    }
    forall i, j | 0 <= i < |s'.held| && 0 <= j < |Entries(s'.db)| && Entries(s'.db)[j].query == s'.held[i].query
      ensures Entries(s'.db)[j].inUse
    {
      assert Entries(s'.db)[j] in Entries(s'.db);
    }
  }

  lemma FreeIsNotLent(s: Run, i: nat)
    requires LoansOk(s) && i < |Entries(s.db)| && !Entries(s.db)[i].inUse
    ensures Entries(s.db)[i].query !in LoanQueries(s.held)
  {
  }

  lemma MovedQueries(entries: seq<Entry>, i: nat)
    requires i < |entries|
    ensures Queries(MoveToFront(entries, i)) == [entries[i].query] + Without(Queries(entries), i)
    ensures forall q :: q in Queries(entries) ==> q in Queries(MoveToFront(entries, i))
  {
    var qs, now := Queries(entries), Queries(MoveToFront(entries, i));
    QueriesWithout(entries, i);
    WithoutIn(qs, i);
    assert now == [qs[i]] + Without(qs, i);
    assert now[0] == qs[i];
    assert forall k | 0 <= k < |qs| - 1 :: now[k + 1] == Without(qs, i)[k];
  }

  /** Moving an entry to the head keeps the handles and makes it the most recent. */
  lemma MovedHandles(entries: seq<Entry>, i: nat, served: seq<Handle>, compiled: seq<string>, finalized: seq<Handle>)
    requires i < |entries| && CacheOk(entries, compiled, finalized) && RecentFirst(Queries(entries), served)
    ensures CacheOk(MoveToFront(entries, i), compiled, finalized)
    ensures RecentFirst(Queries(MoveToFront(entries, i)), served + [entries[i].query])
  {
    var now, qs, q := MoveToFront(entries, i), Queries(entries), entries[i].query;
    WithoutIn(qs, i);
    MovedQueries(entries, i);
    WithoutRecent(qs, i, served);
    HeadMostRecent(Without(qs, i), q, served);
    forall k | 0 <= k < |now|
      ensures now[k].query < |compiled| && compiled[now[k].query] == now[k].sql && now[k].query !in finalized
    {
      if k > 0 { assert now[k] == Without(entries, i)[k - 1] == entries[if k - 1 < i then k - 1 else k]; }
    }
  }

  /** What a hit does to the run. */
  lemma HitShape(s: Run, sql: string, env: Env)
    requires !s.db.broken && s.db.cache.Some? && FindFree(s.db.cache.value.entries, sql).Some?
    ensures var s' := Step(s, Prepare(sql, env));
            var i := FindFree(s.db.cache.value.entries, sql).value;
            var now := MoveToFront(s.db.cache.value.entries, i);
            var q := s.db.cache.value.entries[i].query;
            && s'.db == s.db.(cache := Some(s.db.cache.value.(entries := now)))
            && s'.held == (if env.resetOk then s.held + [Loan(q, sql)] else s.held)
            && s'.flagged == Max(s.flagged, InUse(now)) && s'.peak == Max(s.peak, Borrowed(now, s'.held))
            && s'.stranded == (s.stranded || !env.resetOk) && s'.served == s.served + [q]
  {
    MovedDiffers(s.db.cache.value.entries, FindFree(s.db.cache.value.entries, sql).value);
  }

  lemma HitKeeps(s: Run, sql: string, env: Env)
    requires Good(s) && s.db.cache.Some? && FindFree(s.db.cache.value.entries, sql).Some?
    ensures Good(Step(s, Prepare(sql, env)))
  {
    HitShape(s, sql, env);
    Moved(s, Step(s, Prepare(sql, env)), FindFree(s.db.cache.value.entries, sql).value, sql, env.resetOk);
  }

  /** s' is s after the free entry i went to the head, lent unless its reset was refused. */
  ghost predicate Moving(s: Run, s': Run, i: nat, sql: string, resetOk: bool) {
    && s.db.cache.Some? && i < |Entries(s.db)| && !Entries(s.db)[i].inUse && Entries(s.db)[i].sql == sql
    && s'.db == s.db.(cache := Some(s.db.cache.value.(entries := MoveToFront(Entries(s.db), i))))
    && s'.held == (if resetOk then s.held + [Loan(Entries(s.db)[i].query, sql)] else s.held)
  }

  lemma Moved(s: Run, s': Run, i: nat, sql: string, resetOk: bool)
    requires Good(s) && Moving(s, s', i, sql, resetOk)
    requires s'.flagged == Max(s.flagged, InUse(Entries(s'.db))) && s'.served == s.served + [Entries(s.db)[i].query]
    ensures Good(s')
  {
    MovedCache(s, s', i, sql, resetOk);
    MovedLoans(s, s', i, sql, resetOk);
    MovedAccounted(s, s', i, sql, resetOk);
    MovedCount(s, s', i, sql, resetOk);
  }

  lemma MovedCache(s: Run, s': Run, i: nat, sql: string, resetOk: bool)
    requires CacheOk(Entries(s.db), s.db.compiled, s.db.finalized) && RecentFirst(Queries(Entries(s.db)), s.served)
    requires Moving(s, s', i, sql, resetOk) && s'.served == s.served + [Entries(s.db)[i].query]
    ensures CacheOk(Entries(s'.db), s'.db.compiled, s'.db.finalized)
    ensures RecentFirst(Queries(Entries(s'.db)), s'.served)
  {
    MovedHandles(Entries(s.db), i, s.served, s.db.compiled, s.db.finalized);
  }

  lemma MovedLoans(s: Run, s': Run, i: nat, sql: string, resetOk: bool)
    requires LoansOk(s) && CacheOk(Entries(s.db), s.db.compiled, s.db.finalized) && Moving(s, s', i, sql, resetOk)
    ensures LoansOk(s')
  {
    var entries := Entries(s.db);
    MovedEntries(entries, i);
    FreeIsNotLent(s, i);
    if resetOk { NewLoan(s, s', Loan(entries[i].query, sql)); } else { SameLoans(s, s'); }
  }

  lemma MovedAccounted(s: Run, s': Run, i: nat, sql: string, resetOk: bool)
    requires AllAccounted(s) && Moving(s, s', i, sql, resetOk)
    ensures AllAccounted(s')
  {
    MovedQueries(Entries(s.db), i);
    LoansGrow(s.held, s'.held);
  }

  lemma MovedCount(s: Run, s': Run, i: nat, sql: string, resetOk: bool)
    requires CountBounded(s) && Moving(s, s', i, sql, resetOk)
    requires s'.flagged == Max(s.flagged, InUse(Entries(s'.db)))
    ensures CountBounded(s')
  {
    assert |Entries(s'.db)| == |Entries(s.db)|;
  }

  lemma LoansGrow(held: seq<Loan>, held': seq<Loan>)
    requires held <= held'
    ensures forall q | q in LoanQueries(held) :: q in LoanQueries(held')
  {
    forall i | 0 <= i < |held|
      ensures LoanQueries(held)[i] in LoanQueries(held')
    {
      assert LoanQueries(held')[i] == LoanQueries(held)[i];
    }
  }

  lemma MovedEntries(entries: seq<Entry>, i: nat)
    requires i < |entries|
    ensures forall e | e in MoveToFront(entries, i) :: e in entries || e.inUse
    ensures |MoveToFront(entries, i)| == |entries|
    ensures Distinct(Queries(entries)) ==>
              forall e | e in MoveToFront(entries, i) && e.query == entries[i].query :: e.inUse
  {
    var now := MoveToFront(entries, i);
    forall k | 0 <= k < |now|
      ensures now[k] in entries || now[k].inUse
      ensures Distinct(Queries(entries)) && now[k].query == entries[i].query ==> now[k].inUse
    {
      if k > 0 {
        var m := if k - 1 < i then k - 1 else k;
        assert now[k] == entries[m];
        assert Queries(entries)[m] == entries[m].query && Queries(entries)[i] == entries[i].query;
      }
    }
  }

  lemma MovedDiffers(entries: seq<Entry>, i: nat)
    requires i < |entries| && !entries[i].inUse
    ensures MoveToFront(entries, i) != entries
  {
    InUseAt(entries, i);
    assert MoveToFront(entries, i) == [entries[i].(inUse := true)] + Without(entries, i);
    InUseSplit([entries[i].(inUse := true)], Without(entries, i));
  }

  lemma UncachedKeeps(s: Run, sql: string, env: Env)
    requires Good(s) && (s.db.cache.Some? ==> FindFree(s.db.cache.value.entries, sql).None?)
    requires !env.prepareOk || s.db.cache.None? || !env.entryOk || !env.sqlOk
    ensures Good(Step(s, Prepare(sql, env)))
  {
    var s' := Step(s, Prepare(sql, env));
    if env.prepareOk {
      var q := |s.db.compiled|;
      assert s'.held == s.held + [Loan(q, sql)];
      assert q !in LoanQueries(s.held) && q !in s.db.finalized;
      NewLoan(s, s', Loan(q, sql));
      assert LoanQueries(s'.held) == LoanQueries(s.held) + [q];
      assert LoanQueries(s'.held)[|s.held|] == q;
    }
  }

  /** The list after an insertion at the head, before any eviction. */
  lemma InsertedHandles(entries: seq<Entry>, entry: Entry, served: seq<Handle>, compiled: seq<string>,
                        finalized: seq<Handle>)
    requires CacheOk(entries, compiled, finalized) && RecentFirst(Queries(entries), served)
    requires entry.query == |compiled| && entry.inUse
    requires forall i | 0 <= i < |finalized| :: finalized[i] < |compiled|
    ensures CacheOk([entry] + entries, compiled + [entry.sql], finalized)
    ensures RecentFirst(Queries([entry] + entries), served + [entry.query])
    ensures Queries([entry] + entries) == [entry.query] + Queries(entries)
  {
    assert Queries([entry] + entries) == [entry.query] + Queries(entries);
    HeadMostRecent(Queries(entries), entry.query, served);
    var now := [entry] + entries;
    forall k | 0 <= k < |now|
      ensures now[k].query < |compiled| + 1 && (compiled + [entry.sql])[now[k].query] == now[k].sql
      ensures now[k].query !in finalized
    {
      if k > 0 { assert now[k] == entries[k - 1]; }
    }
  }

  /** Removing a free entry and finalizing its handle. */
  lemma EvictedHandles(entries: seq<Entry>, v: nat, served: seq<Handle>, compiled: seq<string>, finalized: seq<Handle>)
    requires v < |entries| && CacheOk(entries, compiled, finalized) && RecentFirst(Queries(entries), served)
    requires Distinct(finalized)
    ensures CacheOk(Without(entries, v), compiled, finalized + [entries[v].query])
    ensures RecentFirst(Queries(Without(entries, v)), served)
    ensures Distinct(finalized + [entries[v].query])
    ensures forall q :: q in Queries(entries) && q != entries[v].query ==> q in Queries(Without(entries, v))
    ensures forall e :: e in Without(entries, v) ==> e in entries
  {
    QueriesWithout(entries, v);
    WithoutRecent(Queries(entries), v, served);
    WithoutIn(Queries(entries), v);
    WithoutIn(entries, v);
    var now := Without(entries, v);
    forall k | 0 <= k < |now|
      ensures now[k].query < |compiled| && compiled[now[k].query] == now[k].sql
      ensures now[k].query !in finalized + [entries[v].query]
    {
      assert now[k] == entries[if k < v then k else k + 1];
      assert Queries(now)[k] == now[k].query;
    }
  }

  /** What a miss that reaches the cache does to the run. */
  lemma InsertShape(s: Run, sql: string, env: Env)
    requires !s.db.broken && s.db.cache.Some? && FindFree(s.db.cache.value.entries, sql).None?
    requires env.prepareOk && env.entryOk && env.sqlOk
    ensures var s' := Step(s, Prepare(sql, env));
            var q := |s.db.compiled|;
            var entries := [Entry(sql, q, true)] + s.db.cache.value.entries;
            var victim := if |entries| > s.db.cache.value.capacity then LastFree(entries) else None;
            var now := if victim.Some? then Without(entries, victim.value) else entries;
            && s'.db == s.db.(compiled := s.db.compiled + [sql],
                              cache := Some(s.db.cache.value.(entries := now)),
                              finalized := if victim.Some? then s.db.finalized + [entries[victim.value].query]
                                           else s.db.finalized)
            && s'.held == (if victim.None? || env.finalizeOk then s.held + [Loan(q, sql)] else s.held)
            && s'.flagged == Max(s.flagged, InUse(now)) && s'.peak == Max(s.peak, Borrowed(now, s'.held))
            && s'.stranded == (s.stranded || (victim.Some? && !env.finalizeOk))
            && (now != s.db.cache.value.entries ==> s'.served == s.served + [q])
  {
    var entries := [Entry(sql, |s.db.compiled|, true)] + s.db.cache.value.entries;
    var victim := LastFree(entries);
    if victim.Some? {
      assert entries[0].inUse && victim.value > 0;
      assert Without(entries, victim.value)[0] == entries[0];
    }
  }

  lemma FreshHandle(s: Run, sql: string)
    requires Good(s)
    ensures |s.db.compiled| !in LoanQueries(s.held) && |s.db.compiled| !in s.db.finalized
    ensures |s.db.compiled| !in Queries(Entries(s.db))
  {
  }

  /** The new entry stays at the head, so the list has changed. */
  lemma NewAtHead(before: seq<Entry>, entry: Entry, victim: Option<nat>)
    requires entry.inUse && entry.query !in Queries(before)
    requires victim.Some? ==> victim == LastFree([entry] + before)
    ensures (if victim.Some? then Without([entry] + before, victim.value) else [entry] + before) != before
  {
    var entries := [entry] + before;
    assert entries[0] == entry;
    if victim.Some? {
      assert victim.value > 0 && Without(entries, victim.value)[0] == entry;
    }
    assert before != [] ==> before[0].query == Queries(before)[0];
  }

  lemma InsertKeeps(s: Run, sql: string, env: Env)
    requires Good(s) && s.db.cache.Some? && FindFree(s.db.cache.value.entries, sql).None?
    requires env.prepareOk && env.entryOk && env.sqlOk
    ensures Good(Step(s, Prepare(sql, env)))
  {
    var s' := Step(s, Prepare(sql, env));
    var loan := Loan(|s.db.compiled|, sql);
    var entry := Entry(sql, loan.query, true);
    var entries := [entry] + s.db.cache.value.entries;
    InsertShape(s, sql, env);
    FreshHandle(s, sql);
    InsertedHandles(s.db.cache.value.entries, entry, s.served, s.db.compiled, s.db.finalized);
    var victim := if |entries| > s.db.cache.value.capacity then LastFree(entries) else None;
    var now := if victim.Some? then Without(entries, victim.value) else entries;
    NewAtHead(s.db.cache.value.entries, entry, victim);
    if victim.None? {
      InsertStays(s, s', entries, loan);
    } else {
      InsertEvicts(s, s', entries, victim.value, env.finalizeOk, loan);
    }
  }

  lemma InsertStays(s: Run, s': Run, entries: seq<Entry>, loan: Loan)
    requires Good(s) && s.db.cache.Some? && entries == [Entry(loan.sql, loan.query, true)] + Entries(s.db)
    requires loan.query == |s.db.compiled| && loan.query !in LoanQueries(s.held) && loan.query !in s.db.finalized
    requires |entries| > s.db.cache.value.capacity ==> LastFree(entries).None?
    requires CacheOk(entries, s.db.compiled + [loan.sql], s.db.finalized)
    requires RecentFirst(Queries(entries), s.served + [loan.query])
    requires s'.db == s.db.(compiled := s.db.compiled + [loan.sql],
                            cache := Some(s.db.cache.value.(entries := entries)))
    requires s'.held == s.held + [loan]
    requires s'.served == s.served + [loan.query] && s'.flagged == Max(s.flagged, InUse(entries))
    ensures Good(s')
  {
    assert FinalizedOnce(s'.db);
    assert LoansOk(s') by { NewLoan(s, s', loan); }
    assert AllAccounted(s') by { InsertAccounts(s, s', entries, loan); }
    assert CountBounded(s') by { StaysBounded(entries, s.db.cache.value.capacity, s.flagged); }
  }

  lemma StaysBounded(entries: seq<Entry>, capacity: nat, peak: nat)
    requires |entries| > capacity ==> LastFree(entries).None?
    ensures InUse(entries) <= Max(peak, InUse(entries))
    ensures |entries| <= Max(capacity, Max(peak, InUse(entries)))
  {
    InUseAll(entries);
  }

  lemma InsertAccounts(s: Run, s': Run, entries: seq<Entry>, loan: Loan)
    requires Good(s) && entries == [Entry(loan.sql, loan.query, true)] + Entries(s.db)
    requires s'.db.compiled == s.db.compiled + [loan.sql] && loan.query == |s.db.compiled|
    requires s.db.finalized <= s'.db.finalized && s.held <= s'.held
    requires forall h | h in Queries(entries) :: h in Queries(Entries(s'.db)) || h in s'.db.finalized
    ensures AllAccounted(s')
  {
    assert Queries(entries) == [loan.query] + Queries(Entries(s.db));
    assert LoanQueries(s.held) <= LoanQueries(s'.held);
    assert Queries(entries)[0] == loan.query;
  }

  ghost predicate Evicting(s: Run, s': Run, entries: seq<Entry>, v: nat, finalizeOk: bool, loan: Loan) {
    && s.db.cache.Some? && entries == [Entry(loan.sql, loan.query, true)] + Entries(s.db)
    && loan.query == |s.db.compiled| && loan.query !in LoanQueries(s.held) && loan.query !in s.db.finalized
    && v < |entries| && !entries[v].inUse
    && CacheOk(entries, s.db.compiled + [loan.sql], s.db.finalized)
    && s'.db == s.db.(compiled := s.db.compiled + [loan.sql],
                      cache := Some(s.db.cache.value.(entries := Without(entries, v))),
                      finalized := s.db.finalized + [entries[v].query])
    && s'.held == if finalizeOk then s.held + [loan] else s.held
  }

  lemma EvictLoans(s: Run, s': Run, entries: seq<Entry>, v: nat, finalizeOk: bool, loan: Loan)
    requires Good(s) && Evicting(s, s', entries, v, finalizeOk, loan)
    ensures LoansOk(s') && AllAccounted(s') && entries[v].query < |s.db.compiled|
  {
    VictimIsFree(s, s', entries, v, finalizeOk, loan);
    EvictHeld(s, s', entries, v, finalizeOk, loan);
    EvictAccounts(s, s', entries, v, finalizeOk, loan);
  }

  lemma EvictHeld(s: Run, s': Run, entries: seq<Entry>, v: nat, finalizeOk: bool, loan: Loan)
    requires LoansOk(s) && Evicting(s, s', entries, v, finalizeOk, loan)
    requires entries[v].query !in LoanQueries(s.held) && entries[v].query < |s.db.compiled|
    ensures LoansOk(s')
  {
    EvictedEntries(entries, v, Entries(s.db), loan);
    OneMoreFinalized(s.db.finalized, entries[v].query, LoanQueries(s.held));
    if finalizeOk { NewLoan(s, s', loan); } else { SameLoans(s, s'); }
  }

  lemma OneMoreFinalized(finalized: seq<Handle>, victim: Handle, lent: seq<Handle>)
    requires victim !in lent
    ensures forall q | q in finalized + [victim] :: q in finalized || (q !in lent && q == victim)
  {}

  lemma EvictedEntries(entries: seq<Entry>, v: nat, before: seq<Entry>, loan: Loan)
    requires entries == [Entry(loan.sql, loan.query, true)] + before && v < |entries|
    requires Distinct(Queries(entries))
    ensures forall e | e in Without(entries, v) :: e in before || e.inUse
    ensures forall e | e in Without(entries, v) && e.query == loan.query :: e.inUse
  {
    WithoutIn(entries, v);
    forall e | e in entries && e.query == loan.query
      ensures e.inUse
    {
      var i :| 0 <= i < |entries| && entries[i] == e;
      assert Queries(entries)[i] == Queries(entries)[0];
    }
  }

  lemma VictimIsFree(s: Run, s': Run, entries: seq<Entry>, v: nat, finalizeOk: bool, loan: Loan)
    requires Good(s) && Evicting(s, s', entries, v, finalizeOk, loan)
    ensures entries[v].query < |s.db.compiled| && entries[v].query !in LoanQueries(s.held)
  {
    assert entries[v] == Entries(s.db)[v - 1];
    FreeIsNotLent(s, v - 1);
  }

  lemma EvictedStays(entries: seq<Entry>, v: nat)
    requires v < |entries|
    ensures forall h | h in Queries(entries) :: h in Queries(Without(entries, v)) || h == entries[v].query
  {
    WithoutIn(entries, v);
    QueriesWithout(entries, v);
    WithoutIn(Queries(entries), v);
  }

  lemma EvictAccounts(s: Run, s': Run, entries: seq<Entry>, v: nat, finalizeOk: bool, loan: Loan)
    requires Good(s) && Evicting(s, s', entries, v, finalizeOk, loan)
    ensures AllAccounted(s')
  {
    EvictedStays(entries, v);
    InsertAccounts(s, s', entries, loan);
  }

  lemma InsertEvicts(s: Run, s': Run, entries: seq<Entry>, v: nat, finalizeOk: bool, loan: Loan)
    requires Good(s) && Evicting(s, s', entries, v, finalizeOk, loan)
    requires RecentFirst(Queries(entries), s.served + [loan.query])
    requires s'.served == s.served + [loan.query] && s'.flagged == Max(s.flagged, InUse(Without(entries, v)))
    ensures Good(s')
  {
    EvictLoans(s, s', entries, v, finalizeOk, loan);
    EvictCache(s, s', entries, v, finalizeOk, loan);
    EvictCount(s, s', entries, v, finalizeOk, loan);
  }

  lemma EvictCache(s: Run, s': Run, entries: seq<Entry>, v: nat, finalizeOk: bool, loan: Loan)
    requires FinalizedOnce(s.db) && Evicting(s, s', entries, v, finalizeOk, loan)
    requires RecentFirst(Queries(entries), s'.served) && entries[v].query < |s.db.compiled|
    ensures CacheOk(Entries(s'.db), s'.db.compiled, s'.db.finalized)
    ensures RecentFirst(Queries(Entries(s'.db)), s'.served) && FinalizedOnce(s'.db)
  {
    EvictedHandles(entries, v, s'.served, s'.db.compiled, s.db.finalized);
  }

  lemma EvictCount(s: Run, s': Run, entries: seq<Entry>, v: nat, finalizeOk: bool, loan: Loan)
    requires CountBounded(s) && Evicting(s, s', entries, v, finalizeOk, loan)
    requires s'.flagged == Max(s.flagged, InUse(Without(entries, v)))
    ensures CountBounded(s')
  {
    assert |Entries(s'.db)| == |Entries(s.db)|;
  }

  lemma PrepareKeeps(s: Run, sql: string, env: Env)
    requires Good(s)
    ensures Good(Step(s, Prepare(sql, env)))
  {
    if s.db.cache.Some? && FindFree(s.db.cache.value.entries, sql).Some? {
      HitKeeps(s, sql, env);
    } else if !env.prepareOk || s.db.cache.None? || !env.entryOk || !env.sqlOk {
      UncachedKeeps(s, sql, env);
    } else {
      InsertKeeps(s, sql, env);
    }
  }

  /** What a return does to the run: a cached entry becomes free, anything else is finalized. */
  lemma ReturnShape(s: Run, q: Handle, finalizeOk: bool)
    requires !s.db.broken && Held(s.held, q).Some?
    ensures var s' := Step(s, Finalize(q, finalizeOk));
            var now := Entries(s'.db);
            && s'.held == Without(s.held, Held(s.held, q).value) && s'.served == s.served
            && s'.flagged == s.flagged && s'.peak == s.peak && s'.stranded == s.stranded
            && s'.db.compiled == s.db.compiled && !s'.db.broken && s'.db.cache.Some? == s.db.cache.Some?
            && (s.db.cache.Some? ==> s'.db.cache.value.capacity == s.db.cache.value.capacity)
            && |now| == |Entries(s.db)|
            && (forall i | 0 <= i < |now| ::
                  now[i] == Entries(s.db)[i] ||
                  (Entries(s.db)[i].query == q && now[i] == Entries(s.db)[i].(inUse := false)))
            && s'.db.finalized == if q in Queries(Entries(s.db)) then s.db.finalized else s.db.finalized + [q]
  {
    var entries := Entries(s.db);
    if s.db.cache.Some? && FindQuery(entries, q).Some? {
      assert Queries(entries)[FindQuery(entries, q).value] == q;
    }
  }

  lemma ReturnKeeps(s: Run, q: Handle, finalizeOk: bool)
    requires Good(s) && Held(s.held, q).Some?
    ensures Good(Step(s, Finalize(q, finalizeOk)))
  {
    ReturnShape(s, q, finalizeOk);
    Returned(s, Step(s, Finalize(q, finalizeOk)), Held(s.held, q).value);
  }

  /** s' is s after the k-th loan came back: its entry is free, or its handle finalized. */
  ghost predicate Returning(s: Run, s': Run, k: nat) {
    && k < |s.held| && s'.held == Without(s.held, k) && s'.flagged == s.flagged
    && s'.db.compiled == s.db.compiled && !s'.db.broken && s'.db.cache.Some? == s.db.cache.Some?
    && (s.db.cache.Some? ==> s'.db.cache.value.capacity == s.db.cache.value.capacity)
    && |Entries(s'.db)| == |Entries(s.db)|
    && (forall i | 0 <= i < |Entries(s'.db)| ::
          Entries(s'.db)[i] == Entries(s.db)[i] ||
          (Entries(s.db)[i].query == s.held[k].query && Entries(s'.db)[i] == Entries(s.db)[i].(inUse := false)))
    && s'.db.finalized == if s.held[k].query in Queries(Entries(s.db)) then s.db.finalized
                          else s.db.finalized + [s.held[k].query]
  }

  lemma Returned(s: Run, s': Run, k: nat)
    requires Good(s) && Returning(s, s', k) && s'.served == s.served
    ensures Good(s')
  {
    SameQueries(Entries(s.db), Entries(s'.db));
    ReturnedHandles(s, s', k);
    ReturnLoans(s, s', k);
    ReturnedAccounted(s, s', k);
    ReturnedCount(s, s', k);
  }

  lemma SameQueries(entries: seq<Entry>, now: seq<Entry>)
    requires |now| == |entries| && forall i | 0 <= i < |now| :: now[i].query == entries[i].query
    ensures Queries(now) == Queries(entries)
  {
  }

  lemma ReturnedHandles(s: Run, s': Run, k: nat)
    requires FinalizedOnce(s.db) && CacheOk(Entries(s.db), s.db.compiled, s.db.finalized)
    requires LoansOk(s) && Returning(s, s', k) && Queries(Entries(s'.db)) == Queries(Entries(s.db))
    ensures CacheOk(Entries(s'.db), s'.db.compiled, s'.db.finalized) && FinalizedOnce(s'.db)
  {
    ReturnedCache(Entries(s.db), Entries(s'.db), s.db.compiled, s.db.finalized, s.held[k].query);
  }

  lemma ReturnedAccounted(s: Run, s': Run, k: nat)
    requires AllAccounted(s) && Distinct(LoanQueries(s.held)) && Returning(s, s', k)
    requires Queries(Entries(s'.db)) == Queries(Entries(s.db))
    ensures AllAccounted(s')
  {
    OneLoanLess(s.held, k);
    var q := s.held[k].query;
    assert q in s'.db.finalized || q in Queries(Entries(s'.db)) by {
      if q !in Queries(Entries(s.db)) { assert s'.db.finalized[|s.db.finalized|] == q; }
    }
    assert forall h | h in s.db.finalized :: h in s'.db.finalized;
  }

  lemma ReturnedCount(s: Run, s': Run, k: nat)
    requires CountBounded(s) && Returning(s, s', k)
    ensures CountBounded(s')
  {
    ReleasedInUse(Entries(s.db), Entries(s'.db));
  }

  lemma ReturnedCache(entries: seq<Entry>, now: seq<Entry>, compiled: seq<string>, finalized: seq<Handle>, q: Handle)
    requires CacheOk(entries, compiled, finalized) && Queries(now) == Queries(entries)
    requires forall i | 0 <= i < |now| :: now[i].sql == entries[i].sql
    ensures CacheOk(now, compiled, if q in Queries(entries) then finalized else finalized + [q])
  {
    forall i | 0 <= i < |now|
      ensures now[i].query == entries[i].query && (now[i].query == q ==> q in Queries(entries))
    {
      assert Queries(now)[i] == Queries(entries)[i] == now[i].query;
    }
  }

  lemma ReturnLoans(s: Run, s': Run, k: nat)
    requires LoansOk(s) && Returning(s, s', k)
    ensures LoansOk(s')
  {
    OneLoanLess(s.held, k);
    forall i, j | 0 <= i < |s'.held| && 0 <= j < |Entries(s'.db)| && Entries(s'.db)[j].query == s'.held[i].query
      ensures Entries(s'.db)[j].inUse
    {
      assert s'.held[i] in s.held && s'.held[i].query != s.held[k].query;
      assert Entries(s'.db)[j] == Entries(s.db)[j];
    }
  }

  lemma OneLoanLess(held: seq<Loan>, k: nat)
    requires k < |held| && Distinct(LoanQueries(held))
    ensures Distinct(LoanQueries(Without(held, k)))
    ensures forall h | h in LoanQueries(held) && h != held[k].query :: h in LoanQueries(Without(held, k))
    ensures held[k].query in LoanQueries(held)
    ensures forall i | 0 <= i < |Without(held, k)| ::
              Without(held, k)[i] in held && Without(held, k)[i].query != held[k].query
  {
    var qs := LoanQueries(held);
    assert qs[k] == held[k].query;
    WithoutIn(qs, k);
    WithoutIn(held, k);
    LoanQueriesWithout(held, k);
    forall i | 0 <= i < |Without(held, k)|
      ensures Without(held, k)[i].query != held[k].query
    {
      assert LoanQueries(Without(held, k))[i] == Without(held, k)[i].query;
    }
  }

  /** Marking entries free leaves the list as long as it was and no more of it in use. */
  lemma {:induction false} ReleasedInUse(entries: seq<Entry>, now: seq<Entry>)
    requires |entries| == |now|
    requires forall i | 0 <= i < |now| :: now[i] == entries[i] || !now[i].inUse
    ensures InUse(now) <= InUse(entries)
  {
    if now != [] {
      ReleasedInUse(entries[1..], now[1..]);
    }
  }

  lemma EnableKeeps(s: Run, size: nat, cacheOk: bool, lockOk: bool)
    requires Good(s)
    ensures Good(Step(s, EnableCaching(size, cacheOk, lockOk)))
  {
  }

  lemma DisableKeeps(s: Run, failAt: Option<nat>)
    requires Good(s) && Legal(s, DisableCaching(failAt))
    ensures Inv(Step(s, DisableCaching(failAt)))
  {
    var s' := Step(s, DisableCaching(failAt));
    if s.db.cache.Some? {
      var qs := Queries(Entries(s.db));
      var n := if failAt.Some? && failAt.value < |qs| then failAt.value + 1 else |qs|;
      assert s'.db.finalized == s.db.finalized + qs[..n];
      forall i | 0 <= i < |s.held| ensures s.held[i].query !in qs {
      }
    }
  }

  // ----- the theorems, over every run

  /** Every event of the run is legal when it happens. */
  predicate LegalRun(s: Run, events: seq<Event>)
    decreases |events|
  {
    events == [] || (Legal(s, events[0]) && LegalRun(Step(s, events[0]), events[1..]))
  }

  function After(s: Run, events: seq<Event>): Run
    requires LegalRun(s, events)
    decreases |events|
  {
    if events == [] then s else After(Step(s, events[0]), events[1..])
  }

  lemma StepKeeps(s: Run, e: Event)
    requires Inv(s) && Legal(s, e)
    ensures Inv(Step(s, e))
  {
    match e
    case EnableCaching(size, cacheOk, lockOk) => EnableKeeps(s, size, cacheOk, lockOk);
    case DisableCaching(failAt) => DisableKeeps(s, failAt);
    case Prepare(sql, env) => PrepareKeeps(s, sql, env);
    case Finalize(q, finalizeOk) => ReturnKeeps(s, q, finalizeOk);
  }

  lemma {:induction false} RunKeeps(s: Run, events: seq<Event>)
    requires Inv(s) && LegalRun(s, events)
    ensures Inv(After(s, events))
    decreases |events|
  {
    if events != [] {
      StepKeeps(s, events[0]);
      RunKeeps(Step(s, events[0]), events[1..]);
    }
  }

  /** From a fresh connection, whatever is lent is lent to one caller only, is not finalized,
      and was compiled from exactly the SQL that caller asked for. */
  lemma LentOnceAndExactly(events: seq<Event>)
    requires LegalRun(START, events) && !After(START, events).db.broken
    ensures var s := After(START, events);
            && (forall i, j | 0 <= i < j < |s.held| :: s.held[i].query != s.held[j].query)
            && forall i | 0 <= i < |s.held| ::
                 && s.held[i].query < |s.db.compiled|
                 && s.db.compiled[s.held[i].query] == s.held[i].sql
                 && s.held[i].query !in s.db.finalized
  {
    RunKeeps(START, events);
    var s := After(START, events);
    forall i, j | 0 <= i < j < |s.held| ensures s.held[i].query != s.held[j].query {
      assert LoanQueries(s.held)[i] != LoanQueries(s.held)[j];
    }
  }

  /** The cache outgrows its capacity only to hold entries that were marked in use at once. */
  lemma CountWithinFlagged(events: seq<Event>)
    requires LegalRun(START, events)
    ensures var s := After(START, events);
            !s.db.broken && s.db.cache.Some? ==> |s.db.cache.value.entries| <= Max(s.db.cache.value.capacity, s.flagged)
  {
    RunKeeps(START, events);
  }

  /** No handle is finalized twice; and once the cache has been disabled successfully with
      nothing out on loan, every handle the driver ever prepared has been finalized. */
  lemma FinalizedExactlyOnce(events: seq<Event>)
    requires LegalRun(START, events)
    ensures var s := After(START, events);
            && (forall i, j | 0 <= i < j < |s.db.finalized| :: s.db.finalized[i] != s.db.finalized[j])
            && (s.db.cache.None? && s.held == [] && !s.db.broken ==>
                  forall q: Handle :: q in s.db.finalized <==> q < |s.db.compiled|)
  {
    RunKeeps(START, events);
    var s := After(START, events);
    if s.db.cache.None? && s.held == [] && !s.db.broken {
      forall q: Handle | q < |s.db.compiled| ensures q in s.db.finalized {
        assert q in s.db.finalized || q in Queries(Entries(s.db)) || q in LoanQueries(s.held);
      }
    }
  }

  /** When a prepare evicts, the victim is free, is not the head, and of all free entries is the
      one that was prepared longest ago. */
  lemma VictimIsLeastRecent(events: seq<Event>, sql: string, env: Env)
    requires LegalRun(START, events) && !After(START, events).db.broken
    requires After(START, events).db.cache.Some?
    ensures var s := After(START, events);
            var s' := Step(s, Prepare(sql, env));
            forall q: Handle | q in Queries(Entries(s.db)) && q !in Queries(Entries(s'.db)) ::
              && FindQuery(Entries(s.db), q).Some? && !Entries(s.db)[FindQuery(Entries(s.db), q).value].inUse
              && s'.db.finalized == s.db.finalized + [q]
              && forall i | 0 <= i < |Entries(s.db)| && !Entries(s.db)[i].inUse && Entries(s.db)[i].query != q ::
                   LastServedOr0(s.served, q) < LastServedOr0(s.served, Entries(s.db)[i].query)
  {
    RunKeeps(START, events);
    var s := After(START, events);
    var entries := Entries(s.db);
    forall q: Handle | q in Queries(entries) && q !in Queries(Entries(Step(s, Prepare(sql, env)).db))
      ensures FindQuery(entries, q).Some? && !entries[FindQuery(entries, q).value].inUse
      ensures Step(s, Prepare(sql, env)).db.finalized == s.db.finalized + [q]
      ensures forall i | 0 <= i < |entries| && !entries[i].inUse && entries[i].query != q ::
                LastServedOr0(s.served, q) < LastServedOr0(s.served, entries[i].query)
    {
      OnlyEvictionForgets(s, sql, env, q);
      FreeIsMoreRecent(entries, s.served, FindQuery(entries, q).value);
    }
  }

  ghost function LastServedOr0(served: seq<Handle>, q: Handle): nat {
    if q in served then LastServed(served, q) else 0
  }

  lemma FreeIsMoreRecent(entries: seq<Entry>, served: seq<Handle>, k: nat)
    requires RecentFirst(Queries(entries), served) && k < |entries|
    requires forall i | k < i < |entries| :: entries[i].inUse
    ensures forall i | 0 <= i < |entries| && !entries[i].inUse && entries[i].query != entries[k].query ::
              LastServedOr0(served, entries[k].query) < LastServedOr0(served, entries[i].query)
  {
    var qs := Queries(entries);
    forall i | 0 <= i < |entries| && !entries[i].inUse && entries[i].query != entries[k].query
      ensures LastServedOr0(served, entries[k].query) < LastServedOr0(served, entries[i].query)
    {
      assert i < k && qs[i] == entries[i].query && qs[k] == entries[k].query;
      assert LastServed(served, qs[k]) < LastServed(served, qs[i]);
    }
  }

  /** The handle was that of the free entry nearest to the end of the list, and is finalized. */
  ghost predicate Evicted(before: Db, after: Db, q: Handle) {
    var entries := Entries(before);
    && FindQuery(entries, q).Some? && !entries[FindQuery(entries, q).value].inUse
    && (forall i | FindQuery(entries, q).value < i < |entries| :: entries[i].inUse)
    && after.finalized == before.finalized + [q]
  }

  lemma OnlyEvictionForgets(s: Run, sql: string, env: Env, q: Handle)
    requires !s.db.broken && s.db.cache.Some? && Distinct(Queries(Entries(s.db)))
    requires q in Queries(Entries(s.db)) && q !in Queries(Entries(Step(s, Prepare(sql, env)).db))
    ensures Evicted(s.db, Step(s, Prepare(sql, env)).db, q)
  {
    var entries := Entries(s.db);
    if FindFree(entries, sql).Some? {
      HitShape(s, sql, env);
      MovedQueries(entries, FindFree(entries, sql).value);
      assert false;
    } else if env.prepareOk && env.entryOk && env.sqlOk {
      InsertionForgets(s, sql, env, q);
    }
  }

  lemma InsertionForgets(s: Run, sql: string, env: Env, q: Handle)
    requires !s.db.broken && s.db.cache.Some? && Distinct(Queries(Entries(s.db)))
    requires FindFree(Entries(s.db), sql).None? && env.prepareOk && env.entryOk && env.sqlOk
    requires q in Queries(Entries(s.db)) && q !in Queries(Entries(Step(s, Prepare(sql, env)).db))
    ensures Evicted(s.db, Step(s, Prepare(sql, env)).db, q)
  {
    InsertShape(s, sql, env);
    InsertForgets(Entries(s.db), Entry(sql, |s.db.compiled|, true), s.db.cache.value.capacity, q);
  }

  lemma InsertForgets(entries: seq<Entry>, entry: Entry, capacity: nat, q: Handle)
    requires Distinct(Queries(entries)) && q in Queries(entries) && entry.inUse
    requires var all := [entry] + entries;
             var victim := if |all| > capacity then LastFree(all) else None;
             q !in Queries(if victim.Some? then Without(all, victim.value) else all)
    ensures var all := [entry] + entries;
            |all| > capacity && LastFree(all).Some? && LastFree(all).value > 0
              && entries[LastFree(all).value - 1].query == q
    ensures FindQuery(entries, q).Some? && !entries[FindQuery(entries, q).value].inUse
    ensures forall i | FindQuery(entries, q).value < i < |entries| :: entries[i].inUse
  {
    var all := [entry] + entries;
    InList(entries, q);
    var k := FindQuery(entries, q).value;
    if |all| > capacity && LastFree(all).Some? {
      VictimForgotten(entries, entry, LastFree(all).value, q, k);
    } else {
      BehindNew(entries, entry, k);
      assert false;
    }
  }

  lemma InList(entries: seq<Entry>, q: Handle)
    requires q in Queries(entries)
    ensures FindQuery(entries, q).Some?
  {
    var k :| 0 <= k < |entries| && Queries(entries)[k] == q;
    assert entries[k].query == q;
  }

  lemma VictimForgotten(entries: seq<Entry>, entry: Entry, v: nat, q: Handle, k: nat)
    requires Distinct(Queries(entries)) && entry.inUse && k < |entries| && entries[k].query == q
    requires LastFree([entry] + entries) == Some(v) && q !in Queries(Without([entry] + entries, v))
    ensures v == k + 1 && FindQuery(entries, q) == Some(k) && !entries[k].inUse
    ensures forall i | k < i < |entries| :: entries[i].inUse
  {
    Forgotten(entries, entry, v, q, k);
    BehindVictim(entries, entry, v);
  }

  lemma BehindNew(entries: seq<Entry>, entry: Entry, k: nat)
    requires k < |entries|
    ensures entries[k].query in Queries([entry] + entries)
  {
    assert Queries([entry] + entries)[k + 1] == entries[k].query;
  }

  lemma StaysIn(entries: seq<Entry>, v: nat, k: nat)
    requires v < |entries| && k < |entries| && k != v
    ensures entries[k].query in Queries(Without(entries, v))
  {
    var w := Queries(Without(entries, v));
    assert w[if k < v then k else k - 1] == entries[k].query;
  }

  /** The one handle an eviction drops is the victim's. */
  lemma Forgotten(entries: seq<Entry>, entry: Entry, v: nat, q: Handle, k: nat)
    requires Distinct(Queries(entries)) && k < |entries| && entries[k].query == q
    requires v <= |entries| && entry.inUse && !([entry] + entries)[v].inUse
    requires q !in Queries(Without([entry] + entries, v))
    ensures v == k + 1 && FindQuery(entries, q) == Some(k)
  {
    var all := [entry] + entries;
    var f := FindQuery(entries, q);
    assert f.Some? && Queries(entries)[f.value] == q && Queries(entries)[k] == q;
    if v != k + 1 {
      StaysIn(all, v, k + 1);
      assert false;
    }
  }

  lemma BehindVictim(entries: seq<Entry>, entry: Entry, v: nat)
    requires v > 0 && forall i | v < i < |[entry] + entries| :: ([entry] + entries)[i].inUse
    ensures forall i | v - 1 < i < |entries| :: entries[i].inUse
  {
    var all := [entry] + entries;
    forall i | v - 1 < i < |entries| ensures entries[i].inUse {
      assert all[i + 1] == entries[i];
    }
  }

  /** A statement found in the cache is handed out again only if nobody holds it. */
  lemma ReusedOnlyWhenFree(events: seq<Event>, sql: string, env: Env)
    requires LegalRun(START, events) && !After(START, events).db.broken
    ensures var s := After(START, events);
            var p := PrepareCached(s.db, sql, env);
            p.query.Some? ==>
              && Held(s.held, p.query.value).None? && p.query.value < |p.db.compiled|
              && p.db.compiled[p.query.value] == sql
  {
    var s := After(START, events);
    var p := PrepareCached(s.db, sql, env);
    var s' := Step(s, Prepare(sql, env));
    RunKeeps(START, events);
    PrepareKeeps(s, sql, env);
    if p.query.Some? {
      LastLoanIsNew(s.held, Loan(p.query.value, sql));
      assert s'.held[|s.held|] == Loan(p.query.value, sql);
    }
  }

  lemma LastLoanIsNew(held: seq<Loan>, loan: Loan)
    requires Distinct(LoanQueries(held + [loan]))
    ensures Held(held, loan.query).None?
  {
    var qs := LoanQueries(held + [loan]);
    assert qs[|held|] == loan.query;
    assert forall k | 0 <= k < |held| :: qs[k] == held[k].query;
  }
}
