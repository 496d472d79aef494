/** Relation validation of src/c_orm_api.c: a three-colour depth-first search over table
    metadata, coded in the `visited` array as 0 (new), 1 (on the current path), 2 (finished). */
module RelationCycles {
  import opened Graph
  import opened Optional

  datatype Rc = Ok | Recursion | NotFound | Memory

  /** A pointer to table metadata: its address in the program's memory `metas`. */
  type Ptr = nat
  datatype Relation = Relation(targetTable: Option<string>, targetMeta: Option<Ptr>)
  datatype TableMeta = TableMeta(name: string, relations: seq<Relation>)

  predicate ValidPtrs(metas: seq<TableMeta>, tables: seq<Ptr>) {
    && (forall i | 0 <= i < |tables| :: tables[i] < |metas|)
    && (forall m, r | 0 <= m < |metas| && r in metas[m].relations && r.targetMeta.Some? :: r.targetMeta.value < |metas|)
  }

  /** The first position at which the array holds this very pointer. */
  function Position(tables: seq<Ptr>, p: Ptr): (r: Option<nat>)
    ensures r.Some? <==> p in tables
    ensures r.Some? ==> r.value < |tables| && tables[r.value] == p && p !in tables[..r.value]
  {
    if tables == [] then None
    else if tables[0] == p then Some(0)
    else
      var rest := Position(tables[1..], p);
      assert tables == [tables[0]] + tables[1..];
      if rest.Some? then assert forall k | 0 < k < |tables| :: tables[k] == tables[1..][k - 1]; Some(rest.value + 1)
      else None
  }

  /** The first table of the array that carries this name. */
  function Named(metas: seq<TableMeta>, tables: seq<Ptr>, name: string): (r: Option<Ptr>)
    requires forall i | 0 <= i < |tables| :: tables[i] < |metas|
    ensures r.Some? ==> r.value in tables && metas[r.value].name == name
    ensures r.None? ==> forall i | 0 <= i < |tables| :: metas[tables[i]].name != name
  {
    if tables == [] then None
    else if metas[tables[0]].name == name then Some(tables[0])
    else Named(metas, tables[1..], name)
  }

  /** Where a relation leads: by name within the array, and failing that by its own pointer. */
  function Target(metas: seq<TableMeta>, tables: seq<Ptr>, r: Relation): Option<Ptr>
    requires forall i | 0 <= i < |tables| :: tables[i] < |metas|
  {
    var byName := if r.targetTable.Some? then Named(metas, tables, r.targetTable.value) else None;
    if byName.Some? then byName else r.targetMeta
  }

  /** i is the first table of the array with this name. */
  predicate FirstNamed(metas: seq<TableMeta>, tables: seq<Ptr>, name: string, i: nat)
    requires forall k | 0 <= k < |tables| :: tables[k] < |metas|
  {
    i < |tables| && metas[tables[i]].name == name && forall k | 0 <= k < i :: metas[tables[k]].name != name
  }

  /** The relation names t: the first table of the array with its target's name or, if it gives no name or
      no table of the array has it, what its pointer points to. */
  ghost predicate Names(metas: seq<TableMeta>, tables: seq<Ptr>, r: Relation, t: Ptr)
    requires forall k | 0 <= k < |tables| :: tables[k] < |metas|
  {
    if r.targetTable.Some? && exists i: nat :: FirstNamed(metas, tables, r.targetTable.value, i)
    then exists i: nat :: FirstNamed(metas, tables, r.targetTable.value, i) && tables[i] == t
    else r.targetMeta == Some(t)
  }

  lemma {:induction false} NamedIff(metas: seq<TableMeta>, tables: seq<Ptr>, name: string, i: nat)
    requires forall k | 0 <= k < |tables| :: tables[k] < |metas|
    requires FirstNamed(metas, tables, name, i)
    ensures Named(metas, tables, name) == Some(tables[i])
  {
    if i > 0 {
      NamedIff(metas, tables[1..], name, i - 1);
    }
  }

  lemma {:induction false} SomeNamed(metas: seq<TableMeta>, tables: seq<Ptr>, name: string) returns (i: nat)
    requires forall k | 0 <= k < |tables| :: tables[k] < |metas|
    requires Named(metas, tables, name).Some?
    ensures FirstNamed(metas, tables, name, i)
  {
    i := 0;
    if metas[tables[0]].name != name {
      var n := SomeNamed(metas, tables[1..], name);
      i := n + 1;
      assert forall k | 0 < k < |tables| :: tables[k] == tables[1..][k - 1];
    }
  }

  /** The code's search finds the table the relation names. */
  lemma TargetIff(metas: seq<TableMeta>, tables: seq<Ptr>, r: Relation, t: Ptr)
    requires forall k | 0 <= k < |tables| :: tables[k] < |metas|
    ensures Target(metas, tables, r) == Some(t) <==> Names(metas, tables, r, t)
  {
    if r.targetTable.Some? {
      var name := r.targetTable.value;
      if Named(metas, tables, name).Some? {
        var n := SomeNamed(metas, tables, name);
        NamedIff(metas, tables, name, n);
        forall i: nat | FirstNamed(metas, tables, name, i)
          ensures tables[i] == tables[n]
        {
          NamedIff(metas, tables, name, i);
        }
      }
    }
  }

  ghost predicate LeadsTo(metas: seq<TableMeta>, tables: seq<Ptr>, m: Ptr, t: Ptr)
    requires ValidPtrs(metas, tables) && m < |metas|
  {
    exists r :: r in metas[m].relations && Names(metas, tables, r, t)
  }

  /** Every target a listed table leads to is itself listed. */
  ghost predicate Closed(metas: seq<TableMeta>, tables: seq<Ptr>)
    requires ValidPtrs(metas, tables)
  {
    forall i, t | 0 <= i < |tables| && LeadsTo(metas, tables, tables[i], t) :: t in tables
  }

  /** The relation graph over the positions of the array. */
  ghost function Relations(metas: seq<TableMeta>, tables: seq<Ptr>): Digraph
    requires ValidPtrs(metas, tables)
  {
    seq(|tables|, i requires 0 <= i < |tables| =>
      set k: nat | k < |tables| && Position(tables, tables[k]) == Some(k)
        && LeadsTo(metas, tables, tables[i], tables[k]))
  }

  // ----- the search state

  /** Grey positions are the current path, black ones are listed in the order they finished,
      and a black position leads only to positions that finished before it. */
  ghost predicate Colours(metas: seq<TableMeta>, tables: seq<Ptr>, visited: seq<int>, path: seq<nat>, done: seq<nat>)
    requires ValidPtrs(metas, tables)
  {
    && |visited| == |tables|
    && (forall i | 0 <= i < |visited| :: 0 <= visited[i] <= 2)
    && Marked(visited, path, 1) && Marked(visited, done, 2)
    && Distinct(path) && Distinct(done)
    && (path != [] ==> Walk(Relations(metas, tables), path))
    && Finished(metas, tables, done)
  }

  /** `list` names exactly the positions of this colour. */
  ghost predicate Marked(visited: seq<int>, list: seq<nat>, colour: int) {
    forall i: nat :: i in list <==> i < |visited| && visited[i] == colour
  }

  ghost predicate Distinct(list: seq<nat>) {
    forall i, j | 0 <= i < j < |list| :: list[i] != list[j]
  }

  ghost predicate Finished(metas: seq<TableMeta>, tables: seq<Ptr>, done: seq<nat>)
    requires ValidPtrs(metas, tables)
  {
    forall q | 0 <= q < |done| ::
      && done[q] < |tables| && Position(tables, tables[done[q]]) == Some(done[q])
      && LeadsInto(metas, tables, tables[done[q]], done[..q])
  }

  ghost predicate LeadsInto(metas: seq<TableMeta>, tables: seq<Ptr>, m: Ptr, done: seq<nat>)
    requires ValidPtrs(metas, tables) && m < |metas|
  {
    forall r | r in metas[m].relations :: RelationInto(metas, tables, r, done)
  }

  ghost predicate RelationInto(metas: seq<TableMeta>, tables: seq<Ptr>, r: Relation, done: seq<nat>)
    requires ValidPtrs(metas, tables)
  {
    var t := Target(metas, tables, r);
    t.Some? ==> Position(tables, t.value).Some? && Position(tables, t.value).value in done
  }

  lemma ColouredFit(metas: seq<TableMeta>, tables: seq<Ptr>, visited: seq<int>, path: seq<nat>, done: seq<nat>)
    requires ValidPtrs(metas, tables) && Colours(metas, tables, visited, path, done)
    ensures |path| + |done| <= |tables|
  {
    var all := path + done;
    forall i, j | 0 <= i < j < |all|
      ensures all[i] != all[j]
    {
      if i < |path| <= j {
        assert path[i] in path && done[j - |path|] in done;
      }
    }
    forall i | 0 <= i < |all|
      ensures all[i] < |tables|
    {
      assert if i < |path| then all[i] in path else all[i] in done;
    }
    DistinctBelow(all, |tables|);
  }

  lemma BackEdgeIsCycle(g: Digraph, path: seq<nat>, k: nat)
    requires Walk(g, path) && k in path && k in g[path[|path| - 1]]
    ensures Cyclic(g)
  {
    var i :| 0 <= i < |path| && path[i] == k;
    var c := path[i..] + [k];
    forall j | 0 < j < |c| ensures c[j] in g[c[j - 1]] {
      if j < |c| - 1 { assert path[i + j] in g[path[i + j - 1]]; }
    }
    assert Walk(g, c);
  }

  lemma WalkPrefix(g: Digraph, p: seq<nat>, k: nat)
    requires p != [] && Walk(g, p + [k])
    ensures Walk(g, p)
  {
    forall i | 0 <= i < |p|
      ensures p[i] < |g| && (i > 0 ==> p[i - 1] < |g| && p[i] in g[p[i - 1]])
    {
      assert (p + [k])[i] == p[i];
      assert i > 0 ==> (p + [k])[i - 1] == p[i - 1] && p[i - 1] < |g|;
    }
  }

  /** A new position reached from the top of the path becomes the top of the path. */
  lemma StartTop(metas: seq<TableMeta>, tables: seq<Ptr>, visited: seq<int>, path: seq<nat>, idx: nat, done: seq<nat>)
    requires ValidPtrs(metas, tables) && Colours(metas, tables, visited, path, done)
    requires idx < |tables| && visited[idx] == 0
    requires path != [] ==> idx in Relations(metas, tables)[path[|path| - 1]]
    ensures Colours(metas, tables, visited[idx := 1], path + [idx], done)
    ensures |path| + 1 + |done| <= |tables|
  {
    var visited', path' := visited[idx := 1], path + [idx];
    assert idx !in path && idx !in done;
    MarkGrey(visited, path, done, idx);
    WalkExtends(Relations(metas, tables), path, idx);
    assert Distinct(path') by { NewIsDistinct(path, idx); }
    assert Colours(metas, tables, visited', path', done);
    ColouredFit(metas, tables, visited', path', done);
  }

  lemma MarkGrey(visited: seq<int>, path: seq<nat>, done: seq<nat>, idx: nat)
    requires Marked(visited, path, 1) && Marked(visited, done, 2) && idx < |visited| && visited[idx] == 0
    ensures Marked(visited[idx := 1], path + [idx], 1) && Marked(visited[idx := 1], done, 2)
  {
    assert idx !in done;
    assert forall i: nat :: i in path + [idx] <==> i in path || i == idx;
  }

  lemma WalkExtends(g: Digraph, path: seq<nat>, k: nat)
    requires k < |g| && (path != [] ==> Walk(g, path) && k in g[path[|path| - 1]])
    ensures Walk(g, path + [k])
  {
  }

  lemma NewIsDistinct(list: seq<nat>, x: nat)
    requires Distinct(list) && x !in list
    ensures Distinct(list + [x])
  {
  }

  /** What led into a list of finished positions leads into any longer one. */
  lemma IntoGrows(metas: seq<TableMeta>, tables: seq<Ptr>, rels: seq<Relation>, done: seq<nat>, done': seq<nat>)
    requires ValidPtrs(metas, tables) && done <= done'
    requires forall r | r in rels :: RelationInto(metas, tables, r, done)
    ensures forall r | r in rels :: RelationInto(metas, tables, r, done')
  {
  }

  method FindPosition(tables: seq<Ptr>, p: Ptr) returns (r: Option<nat>)
    ensures r == Position(tables, p)
  {
    for i := 0 to |tables|
      invariant p !in tables[..i]
    {
      if tables[i] == p {
        return Some(i);
      }
    }
    return None;
  }

  method ResolveTarget(metas: seq<TableMeta>, tables: seq<Ptr>, rel: Relation) returns (target: Option<Ptr>)
    requires forall i | 0 <= i < |tables| :: tables[i] < |metas|
    ensures target == Target(metas, tables, rel)
  {
    target := None;
    if rel.targetTable.Some? {
      var name := rel.targetTable.value;
      var j := 0;
      while j < |tables| && target.None?
        invariant 0 <= j <= |tables|
        invariant target.None? ==> Named(metas, tables, name) == Named(metas, tables[j..], name)
        invariant target.Some? ==> Named(metas, tables, name) == target
      {
        if metas[tables[j]].name == name {
          target := Some(tables[j]);
        }
        j := j + 1;
      }
    }
    if target.None? && rel.targetMeta.Some? {
      target := rel.targetMeta;
    }
  }

  /** c_orm_dfs_validate_table. `path` and `done` name the grey and black positions. */
  method DfsValidateTable(metas: seq<TableMeta>, tables: seq<Ptr>, current: Ptr, visited: array<int>,
                          ghost path: seq<nat>, ghost done: seq<nat>)
    returns (rc: Rc, ghost done': seq<nat>)
    requires ValidPtrs(metas, tables) && current < |metas| && visited.Length == |tables|
    requires Colours(metas, tables, visited[..], path, done)
    requires current in tables || !Closed(metas, tables)
    requires path != [] && current in tables ==>
               Position(tables, current).value in Relations(metas, tables)[path[|path| - 1]]
    modifies visited
    ensures rc == Ok ==>
              && Colours(metas, tables, visited[..], path, done') && done <= done'
              && current in tables && Position(tables, current).value in done'
    ensures rc == Recursion ==> Cyclic(Relations(metas, tables))
    ensures rc == NotFound ==> !Closed(metas, tables)
    ensures rc != Memory
    decreases |tables| - |path| - |done|, 0
  {
    done' := done;
    var position := FindPosition(tables, current);
    if position.None? {
      return NotFound, done';
    }
    var idx := position.value;
    if visited[idx] == 1 {
      BackEdgeIsCycle(Relations(metas, tables), path, idx);
      return Recursion, done';
    }
    if visited[idx] == 2 {
      return Ok, done';
    }
    StartTop(metas, tables, visited[..], path, idx, done);
    visited[idx] := 1;
    ghost var path' := path + [idx];
    rc, done' := DfsRelations(metas, tables, idx, visited, path', done);
    if rc == Ok {
      FinishTop(metas, tables, visited[..], path, idx, done');
      visited[idx] := 2;
      done' := done' + [idx];
    }
  }

  /** The loop over the relations of the table at `idx`, the top of the path. */
  method DfsRelations(metas: seq<TableMeta>, tables: seq<Ptr>, idx: nat, visited: array<int>,
                      ghost path: seq<nat>, ghost done: seq<nat>)
    returns (rc: Rc, ghost done': seq<nat>)
    requires ValidPtrs(metas, tables) && visited.Length == |tables|
    requires idx < |tables| && path != [] && path[|path| - 1] == idx
    requires Colours(metas, tables, visited[..], path, done)
    modifies visited
    ensures rc == Ok ==>
              && Colours(metas, tables, visited[..], path, done') && done <= done'
              && LeadsInto(metas, tables, tables[idx], done')
    ensures rc == Recursion ==> Cyclic(Relations(metas, tables))
    ensures rc == NotFound ==> !Closed(metas, tables)
    ensures rc != Memory
    decreases |tables| - |path| - |done|, 2
  {
    rc, done' := Ok, done;
    ColouredFit(metas, tables, visited[..], path, done);
    var rels := metas[tables[idx]].relations;
    for i := 0 to |rels|
      invariant rc == Ok
      invariant Colours(metas, tables, visited[..], path, done') && done <= done'
      invariant forall r | r in rels[..i] :: RelationInto(metas, tables, r, done')
    {
      ghost var before := done';
      rc, done' := DfsFollow(metas, tables, idx, rels[i], visited, path, done');
      if rc != Ok {
        return;
      }
      IntoGrows(metas, tables, rels[..i], before, done');
      assert rels[..i + 1] == rels[..i] + [rels[i]];
    }
    assert rels[..|rels|] == rels;
  }

  /** One relation of the table at `idx`: resolve its target and search from there. */
  method DfsFollow(metas: seq<TableMeta>, tables: seq<Ptr>, idx: nat, rel: Relation, visited: array<int>,
                   ghost path: seq<nat>, ghost done: seq<nat>)
    returns (rc: Rc, ghost done': seq<nat>)
    requires ValidPtrs(metas, tables) && visited.Length == |tables|
    requires idx < |tables| && rel in metas[tables[idx]].relations && path != [] && path[|path| - 1] == idx
    requires Colours(metas, tables, visited[..], path, done)
    modifies visited
    ensures rc == Ok ==>
              && Colours(metas, tables, visited[..], path, done') && done <= done'
              && RelationInto(metas, tables, rel, done')
    ensures rc == Recursion ==> Cyclic(Relations(metas, tables))
    ensures rc == NotFound ==> !Closed(metas, tables)
    ensures rc != Memory
    decreases |tables| - |path| - |done|, 1
  {
    var target := ResolveTarget(metas, tables, rel);
    if target.None? {
      return Ok, done;
    }
    TargetIff(metas, tables, rel, target.value);
    assert LeadsTo(metas, tables, tables[idx], target.value);
    if target.value in tables {
      assert Position(tables, target.value).value in Relations(metas, tables)[idx];
    }
    rc, done' := DfsValidateTable(metas, tables, target.value, visited, path, done);
  }

  /** The top of the path has nothing left to explore: it turns black. */
  lemma FinishTop(metas: seq<TableMeta>, tables: seq<Ptr>, was: seq<int>, path: seq<nat>, idx: nat, done: seq<nat>)
    requires ValidPtrs(metas, tables) && idx < |tables| == |was|
    requires Colours(metas, tables, was, path + [idx], done)
    requires LeadsInto(metas, tables, tables[idx], done) && Position(tables, tables[idx]) == Some(idx)
    ensures Colours(metas, tables, was[idx := 2], path, done + [idx])
  {
    var done': seq<nat> := done + [idx];
    var path': seq<nat> := path + [idx];
    var visited := was[idx := 2];
    assert idx !in path by {
      forall k | 0 <= k < |path| ensures path[k] != idx {
        assert path'[k] != path'[|path|];
      }
    }
    forall q | 0 <= q < |done'|
      ensures done'[q] < |tables| && Position(tables, tables[done'[q]]) == Some(done'[q])
      ensures LeadsInto(metas, tables, tables[done'[q]], done'[..q])
    {
      if q < |done| {
        assert done'[..q] == done[..q] && done[q] in done;
      } else {
        assert done'[..q] == done;
      }
    }
    forall i: nat
      ensures i in path <==> i < |visited| && visited[i] == 1
      ensures i in done' <==> i < |visited| && visited[i] == 2
    {
      assert i in path' <==> i in path || i == idx;
      assert i in path' <==> i < |was| && was[i] == 1;
      assert i in done <==> i < |was| && was[i] == 2;
    }
    if path != [] {
      WalkPrefix(Relations(metas, tables), path, idx);
    }
    forall i, j | 0 <= i < j < |path| ensures path[i] != path[j] {
      assert path'[i] != path'[j];
    }
    assert idx !in done;
    assert Distinct(done') && Distinct(path);
    assert Marked(visited, path, 1) && Marked(visited, done', 2);
    assert Finished(metas, tables, done');
    assert Colours(metas, tables, visited, path, done');
  }

  /** The first copy of each of the first n listed pointers is finished. */
  ghost predicate AllDone(tables: seq<Ptr>, n: nat, done: seq<nat>)
    requires n <= |tables|
  {
    forall k | 0 <= k < n :: Position(tables, tables[k]).value in done
  }

  /** When a position finished; a later copy of a listed pointer comes after all of them. */
  ghost function Rank(done: seq<nat>, v: nat): nat {
    if v in done then IndexOf(done, v) else |done|
  }

  lemma RankFalls(metas: seq<TableMeta>, tables: seq<Ptr>, done: seq<nat>, i: nat, t: Ptr)
    requires ValidPtrs(metas, tables) && Finished(metas, tables, done) && Distinct(done)
    requires i < |tables| && Position(tables, tables[i]).value in done && LeadsTo(metas, tables, tables[i], t)
    ensures t in tables && Rank(done, Position(tables, t).value) < Rank(done, i)
  {
    var p := Position(tables, tables[i]).value;
    var q := IndexOf(done, p);
    var r :| r in metas[tables[i]].relations && Names(metas, tables, r, t);
    TargetIff(metas, tables, r, t);
    assert LeadsInto(metas, tables, tables[done[q]], done[..q]);
    assert RelationInto(metas, tables, r, done[..q]);
    var k := Position(tables, t).value;
    var m :| 0 <= m < q && done[m] == k;
    assert IndexOf(done, k) == m;
    if i in done {
      var j := IndexOf(done, i);
      assert Position(tables, tables[done[j]]) == Some(done[j]);
    }
  }

  /** Once the first copy of every listed pointer is finished, the finishing order is a rank. */
  lemma AllFinished(metas: seq<TableMeta>, tables: seq<Ptr>, done: seq<nat>)
    requires ValidPtrs(metas, tables) && Finished(metas, tables, done)
    requires Distinct(done) && AllDone(tables, |tables|, done)
    ensures Closed(metas, tables) && !Cyclic(Relations(metas, tables))
  {
    var g := Relations(metas, tables);
    var rank: seq<nat> := seq(|tables|, v requires 0 <= v < |tables| => Rank(done, v));
    forall i, t | 0 <= i < |tables| && LeadsTo(metas, tables, tables[i], t)
      ensures t in tables
    {
      RankFalls(metas, tables, done, i, t);
    }
    forall i, j | 0 <= i < |g| && j in g[i]
      ensures j < |g| && rank[j] < rank[i]
    {
      RankFalls(metas, tables, done, i, tables[j]);
    }
    assert Ranked(g, rank);
    RankedIsAcyclic(g, rank);
  }

  /** c_orm_validate_relations. */
  method ValidateRelations(metas: seq<TableMeta>, tables: seq<Ptr>) returns (rc: Rc)
    requires ValidPtrs(metas, tables)
    ensures rc == Memory <==> |tables| == 0
    ensures |tables| > 0 ==> (rc == Ok <==> Closed(metas, tables) && !Cyclic(Relations(metas, tables)))
    ensures |tables| > 0 && Closed(metas, tables) ==> (rc == Recursion <==> Cyclic(Relations(metas, tables)))
    ensures rc == Recursion ==> Cyclic(Relations(metas, tables))
    ensures rc == NotFound ==> !Closed(metas, tables)
  {
    if |tables| == 0 {
      return Memory;
    }
    var visited := new int[|tables|](_ => 0);
    ghost var done: seq<nat> := [];
    rc := Ok;
    for i := 0 to |tables|
      invariant rc == Ok && Colours(metas, tables, visited[..], [], done) && AllDone(tables, i, done)
    {
      if visited[i] == 0 {
        rc, done := StartAt(metas, tables, i, visited, done);
        if rc != Ok {
          return;
        }
      } else {
        OldIsDone(metas, tables, visited[..], i, done);
      }
    }
    AllFinished(metas, tables, done);
  }

  /** A search from the i-th table, with nothing on the path. */
  method StartAt(metas: seq<TableMeta>, tables: seq<Ptr>, i: nat, visited: array<int>, ghost done: seq<nat>)
    returns (rc: Rc, ghost done': seq<nat>)
    requires ValidPtrs(metas, tables) && i < |tables| == visited.Length
    requires Colours(metas, tables, visited[..], [], done) && AllDone(tables, i, done)
    modifies visited
    ensures rc == Ok ==> Colours(metas, tables, visited[..], [], done') && AllDone(tables, i + 1, done')
    ensures rc == Recursion ==> Cyclic(Relations(metas, tables))
    ensures rc == NotFound ==> !Closed(metas, tables)
    ensures rc != Memory
  {
    rc, done' := DfsValidateTable(metas, tables, tables[i], visited, [], done);
    if rc == Ok {
      OneMoreDone(tables, i, done, done');
    }
  }

  lemma OneMoreDone(tables: seq<Ptr>, i: nat, done: seq<nat>, done': seq<nat>)
    requires i < |tables| && AllDone(tables, i, done) && done <= done'
    requires Position(tables, tables[i]).value in done'
    ensures AllDone(tables, i + 1, done')
  {
    forall k | 0 <= k < i
      ensures Position(tables, tables[k]).value in done'
    {
      assert Position(tables, tables[k]).value in done;
    }
  }

  lemma OldIsDone(metas: seq<TableMeta>, tables: seq<Ptr>, visited: seq<int>, i: nat, done: seq<nat>)
    requires ValidPtrs(metas, tables) && i < |tables| == |visited| && visited[i] != 0
    requires Colours(metas, tables, visited, [], done) && AllDone(tables, i, done)
    ensures AllDone(tables, i + 1, done)
  {
    assert i !in [] && i in done;
    var q := IndexOf(done, i);
    assert Position(tables, tables[done[q]]) == Some(done[q]);
  }
}
