/** The statement cache as src/c_orm_cache.c stores it: a doubly linked list of entries with
    in-use flags, searched, relinked and trimmed in place. Every operation is proved to do
    exactly what the functions of StatementCache say. */
module StatementCacheList {
  import opened Optional
  import opened StatementCache

  class StmtEntry {
    const sql: string
    const query: Handle
    var next: StmtEntry?
    var prev: StmtEntry?
    var inUse: bool

    constructor (sql: string, query: Handle)
      ensures this.sql == sql && this.query == query && inUse
    {
      this.sql, this.query, inUse := sql, query, true;
      next, prev := null, null;
    }

    ghost predicate Holds(e: Entry)
      reads this`inUse
    {
      e.sql == sql && e.query == query && e.inUse == inUse
    }
  }

  ghost predicate HoldAll(ns: seq<StmtEntry>, es: seq<Entry>)
    reads ns`inUse
  {
    |es| == |ns| && forall i | 0 <= i < |ns| :: ns[i].Holds(es[i])
  }

  lemma HoldWithout(ns: seq<StmtEntry>, es: seq<Entry>, i: nat)
    requires HoldAll(ns, es) && i < |ns|
    ensures HoldAll(Without(ns, i), Without(es, i))
    ensures HoldAll([ns[i]] + Without(ns, i), [es[i]] + Without(es, i))
  {
  }

  lemma HoldFirst(ns: seq<StmtEntry>, es: seq<Entry>, n: StmtEntry, e: Entry)
    requires HoldAll(ns, es) && n.Holds(e)
    ensures HoldAll([n] + ns, [e] + es)
  {
  }

  class StmtCache {
    const capacity: nat
    var count: nat
    var head: StmtEntry?
    var tail: StmtEntry?
    /** The entries on the list from head to tail, and what they hold. */
    ghost var nodes: seq<StmtEntry>
    ghost var values: seq<Entry>
    /** Entries whose memory has been released. */
    ghost var freed: set<StmtEntry>

    constructor (capacity: nat)
      ensures Valid() && this.capacity == capacity && nodes == [] && values == [] && fresh(this)
    {
      this.capacity := capacity;
      count, head, tail := 0, null, null;
      nodes, values, freed := [], [], {};
    }

    /** head, tail and the next and prev pointers all describe the sequence `nodes`. */
    ghost predicate Linked()
      reads this`head, this`tail, this`nodes, nodes`next, nodes`prev
    {
      && (forall i, j | 0 <= i < j < |nodes| :: nodes[i] != nodes[j])
      && head == (if nodes == [] then null else nodes[0])
      && tail == (if nodes == [] then null else nodes[|nodes| - 1])
      && (nodes != [] ==> nodes[0].prev == null && nodes[|nodes| - 1].next == null)
      && (forall i {:trigger nodes[i].prev} | 1 <= i < |nodes| :: nodes[i].prev == nodes[i - 1])
      && (forall i {:trigger nodes[i].next} | 0 <= i < |nodes| - 1 :: nodes[i].next == nodes[i + 1])
    }

    /** `values` says what the entries hold, and none of them has been freed. */
    ghost predicate Filed()
      reads this`nodes, this`values, this`freed, nodes`inUse
    {
      HoldAll(nodes, values) && forall n | n in nodes :: n !in freed
    }

    ghost predicate Valid()
      reads this, nodes
    {
      Linked() && Filed() && count == |nodes|
    }

    ghost function View(): Cache
      reads this
    {
      Cache(capacity, values)
    }

    /** Takes an entry other than the head out of the chain. */
    method Unlink(entry: StmtEntry, ghost i: nat)
      requires Linked() && 0 < i < |nodes| && nodes[i] == entry
      modifies this`tail, this`nodes, nodes`next, nodes`prev
      ensures Linked() && nodes == Without(old(nodes), i)
    {
      entry.prev.next := entry.next;
      if entry.next != null {
        entry.next.prev := entry.prev;
      }
      if entry == tail {
        tail := entry.prev;
      }
      nodes := Without(nodes, i);
    }

    /** Puts an entry that is not in the chain at its head. */
    method LinkFirst(entry: StmtEntry)
      requires Linked() && entry !in nodes
      modifies this`head, this`tail, this`nodes, nodes`next, nodes`prev, entry`next, entry`prev
      ensures Linked() && nodes == [entry] + old(nodes)
    {
      entry.next := head;
      entry.prev := null;
      if head != null {
        head.prev := entry;
      } else {
        tail := entry;
      }
      head := entry;
      nodes := [entry] + nodes;
    }

    /** A hit: mark in use and, unless it is there already, move to the head. */
    method Reuse(entry: StmtEntry, ghost i: nat)
      requires Valid() && i < |nodes| && nodes[i] == entry
      modifies this, nodes
      ensures Valid() && values == MoveToFront(old(values), i)
    {
      MarkInUse(entry, i);
      if entry != head {
        MoveFirst(entry, i);
      }
    }

    method MarkInUse(entry: StmtEntry, ghost i: nat)
      requires Valid() && i < |nodes| && nodes[i] == entry
      modifies this`values, nodes`inUse
      ensures Valid() && values == old(values)[i := old(values)[i].(inUse := true)]
    {
      entry.inUse := true;
      values := values[i := values[i].(inUse := true)];
    }

    method MoveFirst(entry: StmtEntry, ghost i: nat)
      requires Valid() && 0 < i < |nodes| && nodes[i] == entry
      modifies this, nodes
      ensures Valid() && values == [old(values)[i]] + Without(old(values), i)
    {
      ghost var values' := [values[i]] + Without(values, i);
      ghost var nodes' := [nodes[i]] + Without(nodes, i);
      assert HoldAll(nodes', values') && forall n | n in nodes' :: n !in freed by {
        HoldWithout(nodes, values, i);
      }
      Relink(entry, i);
      assert HoldAll(nodes', values') && nodes == nodes';
      values := values';
    }

    method Relink(entry: StmtEntry, ghost i: nat)
      requires Linked() && 0 < i < |nodes| && nodes[i] == entry
      modifies this`head, this`tail, this`nodes, nodes`next, nodes`prev
      ensures Linked() && nodes == [entry] + Without(old(nodes), i)
    {
      Unlink(entry, i);
      LinkFirst(entry);
    }

    /** A miss: a new entry, in use, at the head. */
    method Insert(sql: string, query: Handle)
      requires Valid()
      modifies this, nodes
      ensures Valid() && values == [Entry(sql, query, true)] + old(values)
      ensures nodes != [] && fresh(nodes[0]) && nodes[1..] == old(nodes)
    {
      var entry := new StmtEntry(sql, query);
      InsertFirst(entry, Entry(sql, query, true));
    }

    method InsertFirst(entry: StmtEntry, ghost e: Entry)
      requires Valid() && entry.Holds(e) && entry !in nodes && entry !in freed
      modifies this, nodes, entry`next, entry`prev
      ensures Valid() && values == [e] + old(values) && nodes == [entry] + old(nodes)
    {
      HoldFirst(nodes, values, entry, e);
      LinkFirst(entry);
      count := count + 1;
      values := [e] + values;
    }

    /** An eviction: the entry leaves the list and its memory is released. */
    method Drop(entry: StmtEntry, ghost i: nat)
      requires Valid() && 0 < i < |nodes| && nodes[i] == entry
      modifies this, nodes
      ensures Valid() && values == Without(old(values), i)
      ensures forall n | n in nodes :: n in old(nodes)
    {
      HoldWithout(nodes, values, i);
      Unlink(entry, i);
      values := Without(values, i);
      freed := freed + {entry};
      count := count - 1;
    }

    /** A miss: a new entry at the head and, over capacity, the last free entry out; the
        handle of a dropped entry is for the driver to finalize. */
    method InsertAndTrim(sql: string, query: Handle) returns (evicted: Option<Handle>)
      requires Valid()
      modifies this, nodes
      ensures Valid() && forall n | n in nodes :: n in old(nodes) || fresh(n)
      ensures var entries := [Entry(sql, query, true)] + old(values);
              var victim := if |entries| > capacity then LastFree(entries) else None;
              if victim.None? then evicted == None && values == entries
              else evicted == Some(entries[victim.value].query) && values == Without(entries, victim.value)
    {
      Insert(sql, query);
      assert nodes == [nodes[0]] + nodes[1..];
      evicted := Trim();
    }

    /** Over capacity, drops the last free entry; its handle is for the driver to finalize. */
    method Trim() returns (evicted: Option<Handle>)
      requires Valid() && values != [] && values[0].inUse
      modifies this, nodes
      ensures Valid() && forall n | n in nodes :: n in old(nodes)
      ensures var victim := if |old(values)| > capacity then LastFree(old(values)) else None;
              if victim.None? then evicted == None && values == old(values)
              else evicted == Some(old(values)[victim.value].query) && values == Without(old(values), victim.value)
    {
      evicted := None;
      if count > capacity {
        var evict: StmtEntry?;
        ghost var i;
        evict, i := FindVictim();
        if evict != null {
          assert nodes[i].Holds(values[i]);
          evicted := Some(evict.query);
          Drop(evict, i);
        }
      }
    }

    /** A return: the entry becomes free where it stands. */
    method Release(entry: StmtEntry, ghost i: nat)
      requires Valid() && i < |nodes| && nodes[i] == entry
      modifies this`values, nodes`inUse
      ensures Valid() && values == old(values)[i := old(values)[i].(inUse := false)]
    {
      entry.inUse := false;
      values := values[i := values[i].(inUse := false)];
    }

    /** The search of prepare, from the head. */
    method FindReusable(sql: string) returns (entry: StmtEntry?, ghost i: nat)
      requires Linked() && Filed()
      ensures entry == null <==> FindFree(values, sql).None?
      ensures entry != null ==> FindFree(values, sql) == Some(i) && i < |nodes| && nodes[i] == entry
    {
      entry, i := head, 0;
      ghost var all := values;
      while entry != null
        invariant i <= |nodes|
        invariant entry == if i < |nodes| then nodes[i] else null
        invariant FindFree(all, sql) == Shifted(FindFree(all[i..], sql), i)
        decreases |nodes| - i
      {
        assert nodes[i].Holds(all[i]);
        NextFree(all, sql, i);
        if !entry.inUse && entry.sql == sql {
          return;
        }
        entry := entry.next;
        i := i + 1;
      }
    }

    /** The search of finalize, from the head. */
    method FindOwner(query: Handle) returns (entry: StmtEntry?, ghost i: nat)
      requires Linked() && Filed()
      ensures entry == null <==> FindQuery(values, query).None?
      ensures entry != null ==> FindQuery(values, query) == Some(i) && i < |nodes| && nodes[i] == entry
    {
      entry, i := head, 0;
      ghost var all := values;
      while entry != null
        invariant i <= |nodes|
        invariant entry == if i < |nodes| then nodes[i] else null
        invariant FindQuery(all, query) == Shifted(FindQuery(all[i..], query), i)
        decreases |nodes| - i
      {
        assert nodes[i].Holds(all[i]);
        if entry.query == query {
          return;
        }
        assert all[i..][1..] == all[i + 1..];
        entry := entry.next;
        i := i + 1;
      }
    }

    /** The search for a victim, from the tail. */
    method FindVictim() returns (evict: StmtEntry?, ghost i: nat)
      requires Linked() && Filed()
      ensures evict == null <==> LastFree(values).None?
      ensures evict != null ==> LastFree(values) == Some(i) && i < |nodes| && nodes[i] == evict
    {
      evict := tail;
      ghost var all := values;
      ghost var n := |nodes|;
      assert all[..n] == all;
      i := 0;
      while evict != null
        invariant 0 <= n <= |nodes|
        invariant evict == if n > 0 then nodes[n - 1] else null
        invariant LastFree(all) == LastFree(all[..n])
        decreases n
      {
        assert nodes[n - 1].Holds(all[n - 1]);
        if !evict.inUse {
          i := n - 1;
          return;
        }
        assert all[..n][..n - 1] == all[..n - 1];
        evict := evict.prev;
        n := n - 1;
      }
    }
  }

  /** The search for a free entry goes past entry i, or stops there. */
  lemma NextFree(entries: seq<Entry>, sql: string, i: nat)
    requires i < |entries|
    ensures Shifted(FindFree(entries[i..], sql), i)
            == if !entries[i].inUse && entries[i].sql == sql then Some(i)
            else Shifted(FindFree(entries[i + 1..], sql), i + 1)
  {
    assert entries[i..][1..] == entries[i + 1..];
  }

  ghost function Shifted(r: Option<nat>, k: nat): Option<nat> {
    if r.Some? then Some(r.value + k) else None
  }

  /** A database connection: its cache, and what the driver has been asked to do so far. */
  class Connection {
    var stmtCache: StmtCache?
    var compiled: seq<string>
    var finalized: seq<Handle>
    ghost var broken: bool

    constructor ()
      ensures Valid() && View() == START.db
    {
      stmtCache, compiled, finalized, broken := null, [], [], false;
    }

    ghost predicate Valid()
      reads this, stmtCache, if stmtCache == null then [] else stmtCache.nodes
    {
      !broken && (stmtCache != null ==> stmtCache.Valid())
    }

    ghost function View(): Db
      reads this, stmtCache, if stmtCache == null then [] else stmtCache.nodes
    {
      Db(if stmtCache == null then None else Some(stmtCache.View()), compiled, finalized, broken)
    }

    method DriverPrepare(sql: string, ok: bool) returns (rc: Rc, query: Handle)
      modifies this`compiled
      ensures if ok then rc == Ok && query == |old(compiled)| && compiled == old(compiled) + [sql]
              else rc == DriverError && compiled == old(compiled)
    {
      query := |compiled|;
      if !ok {
        return DriverError, query;
      }
      compiled := compiled + [sql];
      return Ok, query;
    }

    method DriverFinalize(query: Handle, ok: bool) returns (rc: Rc)
      modifies this`finalized
      ensures finalized == old(finalized) + [query] && rc == if ok then Ok else DriverError
    {
      finalized := finalized + [query];
      return if ok then Ok else DriverError;
    }

    /** c_orm_enable_statement_caching. */
    method EnableStatementCaching(size: nat, cacheOk: bool, lockOk: bool) returns (rc: Rc)
      requires Valid()
      modifies this`stmtCache
      ensures Valid() && (View(), rc) == Enable(old(View()), size, cacheOk, lockOk)
    {
      if stmtCache != null {
        return Ok;
      }
      if !cacheOk || !lockOk {
        return Memory;
      }
      var capacity := if size == 0 then DEFAULT_CAPACITY else size;
      stmtCache := new StmtCache(capacity);
      return Ok;
    }

    /** c_orm_prepare_cached. The handle is what the caller may use, and only if rc is Ok. */
    method Prepare(sql: string, env: Env) returns (rc: Rc, query: Handle)
      requires Valid()
      modifies this`compiled, this`finalized, stmtCache, if stmtCache == null then [] else stmtCache.nodes
      ensures Valid() && stmtCache == old(stmtCache)
      ensures var p := PrepareCached(old(View()), sql, env);
              View() == p.db && rc == p.rc && (rc == Ok <==> p.query.Some?) && (rc == Ok ==> Some(query) == p.query)
    {
      if stmtCache == null {
        rc, query := DriverPrepare(sql, env.prepareOk);
        return;
      }
      rc, query := PrepareThroughCache(sql, env);
    }

    method PrepareThroughCache(sql: string, env: Env) returns (rc: Rc, query: Handle)
      requires Valid() && stmtCache != null
      modifies this`compiled, this`finalized, stmtCache, stmtCache.nodes
      ensures Valid()
      ensures var p := PrepareCached(old(View()), sql, env);
              View() == p.db && rc == p.rc && (rc == Ok <==> p.query.Some?) && (rc == Ok ==> Some(query) == p.query)
    {
      var entry: StmtEntry?;
      ghost var i;
      entry, i := stmtCache.FindReusable(sql);
      if entry != null {
        stmtCache.Reuse(entry, i);
        return if env.resetOk then Ok else DriverError, entry.query;
      }
      rc, query := DriverPrepare(sql, env.prepareOk);
      if rc != Ok || !env.entryOk || !env.sqlOk {
        return;
      }
      rc := InsertEntry(sql, query, env.finalizeOk);
    }

    /** A miss: a new entry at the head and, over capacity, the last free entry out. */
    method InsertEntry(sql: string, query: Handle, finalizeOk: bool) returns (rc: Rc)
      requires Valid() && stmtCache != null
      modifies this`finalized, stmtCache, stmtCache.nodes
      ensures Valid()
      ensures var p := InsertAndEvict(old(View()), old(stmtCache.View()), Entry(sql, query, true), finalizeOk);
              View() == p.db && rc == p.rc && (p.query.Some? ==> p.query.value == query)
                && (rc == Ok <==> p.query.Some?)
    {
      var evicted := stmtCache.InsertAndTrim(sql, query);
      if evicted.None? {
        return Ok;
      }
      rc := DriverFinalize(evicted.value, finalizeOk);
    }

    /** c_orm_finalize_cached. */
    method FinalizeQuery(query: Handle, finalizeOk: bool) returns (rc: Rc)
      requires Valid()
      modifies this`finalized, stmtCache, if stmtCache == null then [] else stmtCache.nodes
      ensures Valid() && stmtCache == old(stmtCache)
      ensures (View(), rc) == FinalizeCached(old(View()), query, finalizeOk)
    {
      if stmtCache == null {
        rc := DriverFinalize(query, finalizeOk);
        return;
      }
      var entry: StmtEntry?;
      ghost var i;
      entry, i := stmtCache.FindOwner(query);
      if entry != null {
        stmtCache.Release(entry, i);
        return Ok;
      }
      rc := DriverFinalize(query, finalizeOk);
    }

    /** c_orm_disable_statement_caching. If the driver refuses the entry at position `failAt`,
        the entries before it have been freed but the list still starts with them. */
    method DisableStatementCaching(failAt: Option<nat>) returns (rc: Rc)
      requires Valid()
      modifies this, stmtCache
      ensures (View(), rc) == Disable(old(View()), failAt)
      ensures rc == Ok ==> Valid()
      ensures rc != Ok ==>
                && stmtCache != null && failAt.Some? && failAt.value < |stmtCache.nodes|
                && stmtCache.head == old(stmtCache.head) && stmtCache.nodes == old(stmtCache.nodes)
                && stmtCache.freed == old(stmtCache.freed) + (set n | n in stmtCache.nodes[..failAt.value])
    {
      if stmtCache == null {
        return Ok;
      }
      var entry := stmtCache.head;
      var i := 0;
      ghost var was, nodes := finalized, stmtCache.nodes;
      ghost var qs := Queries(stmtCache.values);
      while entry != null
        invariant stmtCache == old(stmtCache) && compiled == old(compiled) && !broken
        invariant stmtCache.nodes == nodes && stmtCache.head == old(stmtCache.head)
        invariant stmtCache.values == old(stmtCache.values)
        invariant i <= |nodes| == |qs| && entry == if i < |nodes| then nodes[i] else null
        invariant failAt.Some? ==> i <= failAt.value || failAt.value >= |nodes|
        invariant finalized == was + qs[..i]
        invariant stmtCache.freed == old(stmtCache.freed) + (set n | n in nodes[..i])
        decreases |nodes| - i
      {
        var next := entry.next;
        assert nodes[i].Holds(stmtCache.values[i]);
        assert qs[..i + 1] == qs[..i] + [entry.query];
        rc := DriverFinalize(entry.query, failAt != Some(i));
        assert finalized == was + qs[..i + 1];
        if rc != Ok {
          broken := true;
          return rc;
        }
        stmtCache.freed := stmtCache.freed + {entry};
        assert nodes[..i + 1] == nodes[..i] + [entry];
        entry := next;
        i := i + 1;
      }
      assert qs[..i] == qs;
      stmtCache := null;
      return Ok;
    }
  }
}
