/** The dependency sort of src/c_orm_c_to_sql.c: Kahn's algorithm over the foreign keys that
    a column name with the suffix `_id` stands for. */
module TopologicalSort {
  import opened Graph

  datatype Prop = Prop(name: string, ctype: string)
  datatype Schema = Schema(name: string, props: seq<Prop>)

  /** `p` is a foreign key into `table`: its name is the table's name followed by `_id`. */
  predicate NamesKeyOf(p: Prop, table: string) {
    table != "" && p.name == table + "_id"
  }

  /** How the code finds out: it splits the last three characters off. */
  predicate References(p: Prop, table: string) {
    |p.name| > 3 && p.name[|p.name| - 3..] == "_id" && p.name[..|p.name| - 3] == table
  }

  lemma ReferencesIff(p: Prop, table: string)
    ensures References(p, table) <==> NamesKeyOf(p, table)
  {
    if References(p, table) {
      assert p.name == p.name[..|p.name| - 3] + p.name[|p.name| - 3..];
    }
  }

  predicate DistinctNames(s: seq<Schema>) {
    forall i, j | 0 <= i < j < |s| :: s[i].name != s[j].name
  }

  ghost predicate RefersTo(s: seq<Schema>, i: nat, k: nat)
    requires i < |s| && k < |s|
  {
    exists p :: p in s[i].props && NamesKeyOf(p, s[k].name)
  }

  /** The foreign-key graph: schema i points to every schema it references, itself included. */
  ghost function Refs(s: seq<Schema>): Digraph {
    seq(|s|, i requires 0 <= i < |s| => set k: nat | k < |s| && RefersTo(s, i, k))
  }

  /** `sorted` holds exactly the given schemas, each after everything it references. */
  ghost predicate DependencyOrder(s: seq<Schema>, sorted: seq<Schema>) {
    && multiset(sorted) == multiset(s)
    && forall q, p, k | 0 <= q < |sorted| && p in sorted[q].props && 0 <= k < |s| && NamesKeyOf(p, s[k].name)
         :: s[k] in sorted[..q]
  }

  // ----- how many references of a schema are still waiting

  ghost predicate Awaits(s: seq<Schema>, p: Prop, done: set<nat>) {
    exists k: nat :: k < |s| && References(p, s[k].name) && k !in done
  }

  ghost function Pending(s: seq<Schema>, props: seq<Prop>, done: set<nat>): nat {
    if props == [] then 0
    else Pending(s, props[..|props| - 1], done) + (if Awaits(s, props[|props| - 1], done) then 1 else 0)
  }

  lemma AwaitsAfter(s: seq<Schema>, p: Prop, done: set<nat>, curr: nat)
    requires DistinctNames(s) && curr < |s| && curr !in done
    ensures Awaits(s, p, done + {curr}) <==> Awaits(s, p, done) && !References(p, s[curr].name)
    ensures References(p, s[curr].name) ==> Awaits(s, p, done)
  {
    if References(p, s[curr].name) {
      assert Awaits(s, p, done);
      forall k: nat | k < |s| && References(p, s[k].name)
        ensures k == curr
      {
        assert s[k].name == s[curr].name;
      }
    } else if Awaits(s, p, done) {
      var k: nat :| k < |s| && References(p, s[k].name) && k !in done;
      assert k !in done + {curr};
    }
  }

  lemma {:induction false} NonePending(s: seq<Schema>, props: seq<Prop>, done: set<nat>)
    ensures Pending(s, props, done) == 0 <==> forall p | p in props :: !Awaits(s, p, done)
  {
    if props != [] {
      var n := |props| - 1;
      NonePending(s, props[..n], done);
      assert props == props[..n] + [props[n]];
      assert forall p :: p in props <==> p in props[..n] || p == props[n];
    }
  }

  /** The references still pending among the columns from j on, counted as a difference. */
  lemma {:induction false} PendingGrows(s: seq<Schema>, props: seq<Prop>, done: set<nat>, j: nat)
    requires j <= |props|
    ensures Pending(s, props[..j], done) <= Pending(s, props, done)
    decreases |props| - j
  {
    if j == |props| {
      assert props[..j] == props;
    } else {
      PendingGrows(s, props, done, j + 1);
      assert props[..j + 1][..j] == props[..j];
    }
  }

  // ----- the sort

  method CountInDegrees(s: seq<Schema>, inDegree: array<int>)
    requires inDegree.Length == |s|
    requires forall i | 0 <= i < |s| :: inDegree[i] == 0
    modifies inDegree
    ensures forall i | 0 <= i < |s| :: inDegree[i] == Pending(s, s[i].props, {})
  {
    for i := 0 to |s|
      invariant forall i' | 0 <= i' < i :: inDegree[i'] == Pending(s, s[i'].props, {})
      invariant forall i' | i <= i' < |s| :: inDegree[i'] == 0
    {
      var props := s[i].props;
      for j := 0 to |props|
        invariant forall i' | 0 <= i' < i :: inDegree[i'] == Pending(s, s[i'].props, {})
        invariant forall i' | i < i' < |s| :: inDegree[i'] == 0
        invariant inDegree[i] == Pending(s, props[..j], {})
      {
        assert props[..j + 1][..j] == props[..j];
        var found := false;
        for k := 0 to |s|
          invariant !found && forall k' | 0 <= k' < k :: !References(props[j], s[k'].name)
          invariant inDegree[i] == Pending(s, props[..j], {})
          invariant forall i' | 0 <= i' < i :: inDegree[i'] == Pending(s, s[i'].props, {})
          invariant forall i' | i < i' < |s| :: inDegree[i'] == 0
        {
          if References(props[j], s[k].name) {
            inDegree[i] := inDegree[i] + 1;
            found := true;
            break;
          }
        }
        assert found <==> Awaits(s, props[j], {});
      }
      assert props[..|props|] == props;
    }
  }

  /** Which schemas have been enqueued so far, and with what left to wait for. `upto` splits the
      schemas already told that `curr` is done from those not told yet. */
  ghost predicate QueueState(s: seq<Schema>, inDegree: seq<int>, queue: seq<nat>, done: set<nat>, curr: nat,
                             upto: nat)
  {
    && |inDegree| == |s|
    && (forall i | 0 <= i < |s| ::
          inDegree[i] == Pending(s, s[i].props, if i < upto then done + {curr} else done))
    && Enqueued(inDegree, queue)
  }

  /** The queue holds, once each, exactly the indices whose in-degree has reached zero. */
  ghost predicate Enqueued(inDegree: seq<int>, queue: seq<nat>) {
    && (forall q | 0 <= q < |queue| :: queue[q] < |inDegree| && inDegree[queue[q]] == 0)
    && (forall q, r | 0 <= q < r < |queue| :: queue[q] != queue[r])
    && (forall i: nat | i < |inDegree| && inDegree[i] == 0 :: i in queue)
  }

  /** Everything a queued schema references stands earlier in the queue. */
  ghost predicate QueueOrdered(s: seq<Schema>, queue: seq<nat>) {
    forall q, k: nat | 0 <= q < |queue| && queue[q] < |s| && k < |s| && RefersTo(s, queue[q], k) :: k in queue[..q]
  }

  lemma EnqueueKeepsOrder(s: seq<Schema>, queue: seq<nat>, i: nat, done: set<nat>)
    requires QueueOrdered(s, queue) && i < |s|
    requires forall v | v in done :: v in queue
    requires Pending(s, s[i].props, done) == 0
    ensures QueueOrdered(s, queue + [i])
  {
    NonePending(s, s[i].props, done);
    var queue' := queue + [i];
    forall q, k: nat | 0 <= q < |queue'| && queue'[q] < |s| && k < |s| && RefersTo(s, queue'[q], k)
      ensures k in queue'[..q]
    {
      if q < |queue| {
        assert queue'[..q] == queue[..q];
      } else {
        assert queue'[..q] == queue;
        var p :| p in s[i].props && NamesKeyOf(p, s[k].name);
        ReferencesIff(p, s[k].name);
        assert !Awaits(s, p, done);
        assert k in done;
      }
    }
  }

  /** Adding one queue entry needs a free slot: distinct indices below n number at most n. */
  lemma QueueHasRoom(queue: seq<nat>, n: nat, i: nat)
    requires forall q | 0 <= q < |queue| :: queue[q] < n
    requires forall q, r | 0 <= q < r < |queue| :: queue[q] != queue[r]
    requires i < n && i !in queue
    ensures |queue| < n
  {
    DistinctBelow(queue + [i], n);
  }

  /** One reference of schema i is satisfied; at the last one it is enqueued. */
  method CountDown(s: seq<Schema>, i: nat, inDegree: array<int>, queue: array<nat>, tail: nat, ghost done: set<nat>)
    returns (tail': nat)
    requires inDegree.Length == queue.Length == |s| && tail <= |s| && inDegree as object != queue
    requires i < |s| && inDegree[i] > 0 && (inDegree[i] == 1 ==> Pending(s, s[i].props, done) == 0)
    requires Enqueued(inDegree[..], queue[..tail]) && QueueOrdered(s, queue[..tail])
    requires forall v | v in done :: v in queue[..tail]
    modifies inDegree, queue
    ensures inDegree[i] == old(inDegree[i]) - 1
    ensures forall i' | 0 <= i' < |s| && i' != i :: inDegree[i'] == old(inDegree[i'])
    ensures tail <= tail' <= |s| && old(queue[..tail]) <= queue[..tail']
    ensures Enqueued(inDegree[..], queue[..tail']) && QueueOrdered(s, queue[..tail'])
  {
    tail' := tail;
    ghost var before := queue[..tail];
    assert i !in before;
    inDegree[i] := inDegree[i] - 1;
    if inDegree[i] == 0 {
      QueueHasRoom(before, |s|, i);
      EnqueueKeepsOrder(s, before, i, done);
      queue[tail'] := i;
      tail' := tail' + 1;
      assert queue[..tail'] == before + [i];
    }
  }

  /** One schema's share of telling everyone that `curr` is done. */
  method ReleaseOne(s: seq<Schema>, i: nat, curr: nat, inDegree: array<int>, queue: array<nat>, tail: nat,
                    ghost done: set<nat>)
    returns (tail': nat)
    requires DistinctNames(s) && i < |s| && curr < |s| && curr !in done
    requires inDegree.Length == queue.Length == |s| && tail <= |s| && inDegree as object != queue
    requires QueueState(s, inDegree[..], queue[..tail], done, curr, i)
    requires QueueOrdered(s, queue[..tail]) && curr in queue[..tail] && forall v | v in done :: v in queue[..tail]
    modifies inDegree, queue
    ensures tail <= tail' <= |s| && queue[..tail] == old(queue[..tail])
    ensures QueueState(s, inDegree[..], queue[..tail'], done, curr, i + 1)
    ensures QueueOrdered(s, queue[..tail'])
  {
    ghost var done' := done + {curr};
    if inDegree[i] > 0 {
      tail' := CountReferences(s, i, curr, inDegree, queue, tail, done);
    } else {
      tail' := tail;
      NonePending(s, s[i].props, done);
      forall p | p in s[i].props
        ensures !Awaits(s, p, done')
      {
        AwaitsAfter(s, p, done, curr);
      }
      NonePending(s, s[i].props, done');
    }
  }

  /** The columns of schema i that refer to `curr`, one by one. */
  method CountReferences(s: seq<Schema>, i: nat, curr: nat, inDegree: array<int>, queue: array<nat>, tail: nat,
                         ghost done: set<nat>)
    returns (tail': nat)
    requires DistinctNames(s) && i < |s| && curr < |s| && curr !in done
    requires inDegree.Length == queue.Length == |s| && tail <= |s| && inDegree as object != queue
    requires inDegree[i] == Pending(s, s[i].props, done) > 0
    requires Enqueued(inDegree[..], queue[..tail]) && QueueOrdered(s, queue[..tail])
    requires curr in queue[..tail] && forall v | v in done :: v in queue[..tail]
    modifies inDegree, queue
    ensures inDegree[i] == Pending(s, s[i].props, done + {curr})
    ensures forall i' | 0 <= i' < |s| && i' != i :: inDegree[i'] == old(inDegree[i'])
    ensures tail <= tail' <= |s| && queue[..tail] == old(queue[..tail])
    ensures Enqueued(inDegree[..], queue[..tail']) && QueueOrdered(s, queue[..tail'])
  {
    tail' := tail;
    var props := s[i].props;
    ghost var done' := done + {curr};
    ghost var total, q0 := inDegree[i], queue[..tail];
    for j := 0 to |props|
      invariant inDegree[i] == Pending(s, props[..j], done') + total - Pending(s, props[..j], done)
      invariant forall i' | 0 <= i' < |s| && i' != i :: inDegree[i'] == old(inDegree[i'])
      invariant tail <= tail' <= |s| && q0 <= queue[..tail']
      invariant Enqueued(inDegree[..], queue[..tail']) && QueueOrdered(s, queue[..tail'])
    {
      assert props[..j + 1][..j] == props[..j];
      AwaitsAfter(s, props[j], done, curr);
      PendingGrows(s, props, done, j + 1);
      if References(props[j], s[curr].name) {
        if inDegree[i] == 1 {
          PendingDropsTo0(s, props, done, curr, j + 1);
        }
        tail' := CountDown(s, i, inDegree, queue, tail', done');
      }
    }
    assert props[..|props|] == props;
    assert queue[..tail'][..tail] == queue[..tail];
  }

  /** If the columns before j account for every pending reference, none is left after curr. */
  lemma PendingDropsTo0(s: seq<Schema>, props: seq<Prop>, done: set<nat>, curr: nat, j: nat)
    requires DistinctNames(s) && curr < |s| && curr !in done && j <= |props|
    requires Pending(s, props[..j], done + {curr}) + Pending(s, props, done) - Pending(s, props[..j], done) == 0
    ensures Pending(s, props, done + {curr}) == 0
  {
    PendingGrows(s, props, done, j);
    PendingTail(s, props, done, curr, j);
  }

  lemma {:induction false} PendingTail(s: seq<Schema>, props: seq<Prop>, done: set<nat>, curr: nat, j: nat)
    requires DistinctNames(s) && curr < |s| && curr !in done && j <= |props|
    ensures Pending(s, props, done + {curr}) - Pending(s, props[..j], done + {curr})
            <= Pending(s, props, done) - Pending(s, props[..j], done)
    decreases |props| - j
  {
    if j == |props| {
      assert props[..j] == props;
    } else {
      PendingTail(s, props, done, curr, j + 1);
      assert props[..j + 1][..j] == props[..j];
      AwaitsAfter(s, props[j], done, curr);
    }
  }

  /** The first pass over the in-degrees: whoever references nobody may go first. */
  method SeedQueue(s: seq<Schema>, inDegree: array<int>, queue: array<nat>) returns (tail: nat)
    requires inDegree.Length == queue.Length == |s|
    requires forall i | 0 <= i < |s| :: inDegree[i] == Pending(s, s[i].props, {})
    modifies queue
    ensures tail <= |s| && QueueOrdered(s, queue[..tail])
    ensures QueueState(s, inDegree[..], queue[..tail], {}, 0, 0)
  {
    tail := 0;
    for i := 0 to |s|
      invariant tail <= i
      invariant forall q | 0 <= q < tail :: queue[q] < i && inDegree[queue[q]] == 0
      invariant forall q, r | 0 <= q < r < tail :: queue[q] != queue[r]
      invariant forall k: nat | k < i && inDegree[k] == 0 :: k in queue[..tail]
      invariant QueueOrdered(s, queue[..tail])
    {
      if inDegree[i] == 0 {
        EnqueueKeepsOrder(s, queue[..tail], i, {});
        ghost var before := queue[..tail];
        queue[tail] := i;
        tail := tail + 1;
        assert queue[..tail] == before + [i];
      }
    }
  }

  /** The scan over all schemas after `curr` has been output. */
  method TellAll(s: seq<Schema>, curr: nat, inDegree: array<int>, queue: array<nat>, tail: nat, ghost done: set<nat>)
    returns (tail': nat)
    requires DistinctNames(s) && curr < |s| && curr !in done
    requires inDegree.Length == queue.Length == |s| && tail <= |s| && inDegree as object != queue
    requires QueueState(s, inDegree[..], queue[..tail], done, 0, 0)
    requires QueueOrdered(s, queue[..tail]) && curr in queue[..tail] && forall v | v in done :: v in queue[..tail]
    modifies inDegree, queue
    ensures tail <= tail' <= |s| && queue[..tail] == old(queue[..tail])
    ensures QueueState(s, inDegree[..], queue[..tail'], done + {curr}, 0, 0)
    ensures QueueOrdered(s, queue[..tail'])
  {
    tail' := tail;
    for i := 0 to |s|
      invariant tail <= tail' <= |s| && queue[..tail] == old(queue[..tail])
      invariant QueueState(s, inDegree[..], queue[..tail'], done, curr, i)
      invariant QueueOrdered(s, queue[..tail'])
      invariant forall v | v in queue[..tail] :: v in queue[..tail']
    {
      ghost var before := queue[..tail'];
      var t := ReleaseOne(s, i, curr, inDegree, queue, tail', done);
      assert queue[..tail] == before[..tail];
      tail' := t;
      assert queue[..tail'][..tail] == queue[..tail];
    }
  }

  /** The main loop: pop, output, tell everyone, until the queue runs dry. */
  method Drain(s: seq<Schema>, inDegree: array<int>, queue: array<nat>, tail0: nat, out: array<Schema>)
    returns (count: nat, ghost done: set<nat>)
    requires DistinctNames(s) && out.Length >= |s|
    requires inDegree.Length == queue.Length == |s| && tail0 <= |s|
    requires inDegree as object != queue && out as object != queue && out as object != inDegree
    requires QueueState(s, inDegree[..], queue[..tail0], {}, 0, 0)
    requires QueueOrdered(s, queue[..tail0])
    modifies inDegree, queue, out
    ensures count <= |s|
    ensures Draining(s, inDegree[..], queue[..count], done, out[..count])
  {
    var head, tail := 0, tail0;
    count, done := 0, {};
    while head < tail
      invariant head <= tail <= |s| && count == head
      invariant Draining(s, inDegree[..], queue[..tail], done, out[..head])
      decreases |s| - head
    {
      tail, done := Pop(s, head, inDegree, queue, tail, out, done);
      head := head + 1;
      count := count + 1;
    }
  }

  /** What has been output is the front of the queue, and is done. */
  ghost predicate Draining(s: seq<Schema>, inDegree: seq<int>, queue: seq<nat>, done: set<nat>, out: seq<Schema>) {
    && |out| <= |queue|
    && (forall v :: v in done <==> v in queue[..|out|])
    && QueueState(s, inDegree, queue, done, 0, 0) && QueueOrdered(s, queue)
    && forall q | 0 <= q < |out| :: queue[q] < |s| && out[q] == s[queue[q]]
  }

  /** The head of the queue is output and everyone is told; the queue only grows. */
  method Pop(s: seq<Schema>, head: nat, inDegree: array<int>, queue: array<nat>, tail: nat, out: array<Schema>,
             ghost done: set<nat>)
    returns (tail': nat, ghost done': set<nat>)
    requires DistinctNames(s) && head < tail <= |s| && out.Length >= |s|
    requires inDegree.Length == queue.Length == |s|
    requires inDegree as object != queue && out as object != queue && out as object != inDegree
    requires Draining(s, inDegree[..], queue[..tail], done, out[..head])
    modifies inDegree, queue, out
    ensures tail <= tail' <= |s|
    ensures Draining(s, inDegree[..], queue[..tail'], done', out[..head + 1])
  {
    ghost var q0, out0 := queue[..tail], out[..head];
    var curr := queue[head];
    assert q0[head] == curr;
    NotYetDone(q0, head);
    out[head] := s[curr];
    done' := done + {curr};
    tail' := TellAll(s, curr, inDegree, queue, tail, done);
    assert q0 <= queue[..tail'];
    assert out[..head + 1] == out0 + [s[curr]];
    Drained(s, inDegree[..], q0, queue[..tail'], done, out0);
  }

  lemma Drained(s: seq<Schema>, inDegree: seq<int>, q0: seq<nat>, queue: seq<nat>, done: set<nat>, out: seq<Schema>)
    requires |out| < |q0| && q0 <= queue && q0[|out|] < |s|
    requires forall v :: v in done <==> v in q0[..|out|]
    requires forall q | 0 <= q < |out| :: q0[q] < |s| && out[q] == s[q0[q]]
    requires QueueState(s, inDegree, queue, done + {q0[|out|]}, 0, 0) && QueueOrdered(s, queue)
    ensures Draining(s, inDegree, queue, done + {q0[|out|]}, out + [s[q0[|out|]]])
  {
    assert queue[..|out| + 1] == q0[..|out|] + [q0[|out|]];
  }

  lemma NotYetDone(queue: seq<nat>, head: nat)
    requires head < |queue|
    requires forall q, r | 0 <= q < r < |queue| :: queue[q] != queue[r]
    ensures queue[head] !in queue[..head]
  {
  }

  /** cdd_c_meta_topological_sort. 1: nothing to sort; 2: cycle; 0: `out` holds the order. */
  method Sort(s: seq<Schema>, out: array<Schema>) returns (rc: int)
    requires DistinctNames(s) && out.Length >= |s|
    modifies out
    ensures rc == 1 <==> |s| == 0
    ensures rc == 2 <==> Cyclic(Refs(s))
    ensures rc == 0 <==> |s| > 0 && !Cyclic(Refs(s))
    ensures rc == 0 ==> DependencyOrder(s, out[..|s|])
  {
    if |s| == 0 {
      EmptyIsAcyclic(s);
      return 1;
    }
    var n := |s|;
    var inDegree := new int[n](_ => 0);
    var queue := new nat[n](_ => 0);
    CountInDegrees(s, inDegree);
    var tail := SeedQueue(s, inDegree, queue);
    var count;
    ghost var done;
    count, done := Drain(s, inDegree, queue, tail, out);
    DrainedDecides(s, inDegree[..], queue[..count], done, out[..count]);
    return if count < n then 2 else 0;
  }

  /** Everything was output, in order, or some schemas wait for one another. */
  lemma DrainedDecides(s: seq<Schema>, inDegree: seq<int>, queue: seq<nat>, done: set<nat>, out: seq<Schema>)
    requires Draining(s, inDegree, queue, done, out) && |out| == |queue| <= |s|
    ensures |out| < |s| ==> Cyclic(Refs(s))
    ensures |out| == |s| ==> !Cyclic(Refs(s)) && DependencyOrder(s, out)
  {
    assert queue[..|out|] == queue;
    if |out| < |s| {
      StuckWhenShort(s, inDegree, queue, done);
    } else {
      SortedWhenFull(s, queue, out);
    }
  }

  lemma EmptyIsAcyclic(s: seq<Schema>)
    requires s == []
    ensures !Cyclic(Refs(s))
  {
    RankedIsAcyclic(Refs(s), []);
  }

  /** A short output leaves schemas that all wait for one another: a cycle. */
  lemma StuckWhenShort(s: seq<Schema>, inDegree: seq<int>, queue: seq<nat>, done: set<nat>)
    requires QueueState(s, inDegree, queue, done, 0, 0)
    requires forall v :: v in done <==> v in queue
    requires |queue| < |s|
    ensures Cyclic(Refs(s))
  {
    var stuck := set i: nat | i < |s| && i !in done;
    if stuck == {} {
      assert forall i: nat | i < |s| :: i in queue by {
        forall i: nat | i < |s| ensures i in queue { assert i !in stuck; }
      }
      CoverIsLong(queue, |s|);
    }
    forall i | i in stuck
      ensures StepsWithin(Refs(s), stuck, i)
    {
      NonePending(s, s[i].props, done);
      var p :| p in s[i].props && Awaits(s, p, done);
      var k: nat :| k < |s| && References(p, s[k].name) && k !in done;
      ReferencesIff(p, s[k].name);
      assert RefersTo(s, i, k) && k in stuck && k in Refs(s)[i];
    }
    StuckIsCyclic(Refs(s), stuck);
  }

  lemma {:induction false} CoverIsLong(queue: seq<nat>, n: nat)
    requires forall i: nat | i < n :: i in queue
    ensures n <= |queue|
  {
    if n > 0 {
      var k := IndexOf(queue, n - 1);
      var rest := queue[..k] + queue[k + 1..];
      forall i: nat | i < n - 1 ensures i in rest {
        var m := IndexOf(queue, i);
        assert rest[if m < k then m else m - 1] == i;
      }
      CoverIsLong(rest, n - 1);
    }
  }

  lemma SortedWhenFull(s: seq<Schema>, queue: seq<nat>, sorted: seq<Schema>)
    requires |queue| == |s| == |sorted| && QueueOrdered(s, queue)
    requires forall q | 0 <= q < |queue| :: queue[q] < |s| && sorted[q] == s[queue[q]]
    requires forall q, r | 0 <= q < r < |queue| :: queue[q] != queue[r]
    ensures !Cyclic(Refs(s)) && DependencyOrder(s, sorted)
  {
    forall v: nat | v < |s| ensures v in queue {
      if v !in queue { QueueHasRoom(queue, |s|, v); }
    }
    OrderIsAcyclic(Refs(s), queue);
    PermutedMultiset(s, queue, sorted);
    forall q, p, k | 0 <= q < |sorted| && p in sorted[q].props && 0 <= k < |s| && NamesKeyOf(p, s[k].name)
      ensures s[k] in sorted[..q]
    {
      assert RefersTo(s, queue[q], k);
      var r :| 0 <= r < q && queue[r] == k;
      assert sorted[..q][r] == s[k];
    }
  }

  /** Reading a sequence through a duplicate-free list of all its indices permutes it. */
  lemma {:induction false} PermutedMultiset(s: seq<Schema>, index: seq<nat>, sorted: seq<Schema>)
    requires |index| == |s| == |sorted|
    requires forall q | 0 <= q < |index| :: index[q] < |s| && sorted[q] == s[index[q]]
    requires forall q, r | 0 <= q < r < |index| :: index[q] != index[r]
    ensures multiset(sorted) == multiset(s)
  {
    if |s| > 0 {
      var n := |s| - 1;
      if n !in index { QueueHasRoom(index, |s|, n); }
      var k := IndexOf(index, n);
      var index' := index[..k] + index[k + 1..];
      var sorted' := sorted[..k] + sorted[k + 1..];
      WithoutLargest(s, index, sorted, k);
      PermutedMultiset(s[..n], index', sorted');
      OneOut(s, n);
      OneOut(sorted, k);
      assert s[..n] + s[n + 1..] == s[..n];
    }
  }

  lemma OneOut(s: seq<Schema>, k: nat)
    requires k < |s|
    ensures multiset(s) == multiset(s[..k] + s[k + 1..]) + multiset{s[k]}
  {
    assert s == s[..k] + [s[k]] + s[k + 1..];
  }

  /** With its place taken out, the list goes through all but the last. */
  lemma WithoutLargest(s: seq<Schema>, index: seq<nat>, sorted: seq<Schema>, k: nat)
    requires |index| == |s| == |sorted| && k < |s| && index[k] == |s| - 1
    requires forall q | 0 <= q < |index| :: index[q] < |s| && sorted[q] == s[index[q]]
    requires forall q, r | 0 <= q < r < |index| :: index[q] != index[r]
    ensures var n, index', sorted' := |s| - 1, index[..k] + index[k + 1..], sorted[..k] + sorted[k + 1..];
            && |index'| == |sorted'| == n
            && (forall q | 0 <= q < n :: index'[q] < n && sorted'[q] == s[..n][index'[q]])
            && forall q, r | 0 <= q < r < n :: index'[q] != index'[r]
  {
    var n, index', sorted' := |s| - 1, index[..k] + index[k + 1..], sorted[..k] + sorted[k + 1..];
    forall q | 0 <= q < n
      ensures index'[q] == index[if q < k then q else q + 1] && sorted'[q] == sorted[if q < k then q else q + 1]
      ensures index'[q] != n
    {
      assert q < k ==> index[q] != index[k];
      assert q >= k ==> index[k] != index[q + 1];
    }
  }
}
