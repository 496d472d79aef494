/** What the statements of a delete leave in each table, row by row. */
module CascadeEffects {
  import opened Cascade
  import opened Optional
  import opened Sequences
  import opened Sql

  // ----- before and after, without the statements

  /** Every row is there, in its place and unchanged but for this column, which is NULL where it held the
      value. */
  ghost predicate RowsNulled(before: seq<Record>, after: seq<Record>, col: string, v: Value) {
    |after| == |before| && forall k | 0 <= k < |before| :: RowNulled(before[k], after[k], col, v)
  }

  ghost predicate RowNulled(before: Record, after: Record, col: string, v: Value) {
    && Get(after, col) == (if SqlEq(Get(before, col), v) then Null else Get(before, col))
    && forall c: string | c != col :: (c in after <==> c in before) && (c in before ==> after[c] == before[c])
  }

  /** The rows at these places are left, in order and unchanged, and all others are rows that go. */
  ghost predicate Survive(before: seq<Record>, after: seq<Record>, kept: seq<nat>, goes: Record -> bool) {
    && |kept| == |after| && Rising(kept, |before|)
    && (forall i | 0 <= i < |kept| :: after[i] == before[kept[i]])
    && forall k: nat | k < |before| :: k in kept <==> !goes(before[k])
  }

  ghost predicate OnlyGone(before: seq<Record>, after: seq<Record>, goes: Record -> bool) {
    exists kept: seq<nat> :: Survive(before, after, kept, goes)
  }

  // ----- the statements

  lemma {:induction false} NulledRows(rows: seq<Record>, col: string, v: Value)
    ensures RowsNulled(rows, Nulled(rows, col, v), col, v)
  {
    if rows != [] {
      NulledRows(rows[1..], col, v);
      var rest := Nulled(rows[1..], col, v);
      forall k | 0 <= k < |rows|
        ensures RowNulled(rows[k], Nulled(rows, col, v)[k], col, v)
      {
        if k > 0 {
          assert RowNulled(rows[1..][k - 1], rest[k - 1], col, v);
        }
      }
    }
  }

  /** The places of the rows that stay. */
  function Places(rows: seq<Record>, goes: Record -> bool): seq<nat> {
    if rows == [] then []
    else
      var last := |rows| - 1;
      if goes(rows[last]) then Places(rows[..last], goes) else Places(rows[..last], goes) + [last]
  }

  lemma {:induction false} PlacesRise(rows: seq<Record>, goes: Record -> bool)
    ensures Rising(Places(rows, goes), |rows|)
  {
    if rows != [] {
      PlacesRise(rows[..|rows| - 1], goes);
    }
  }

  lemma {:induction false} PlacesAre(rows: seq<Record>, goes: Record -> bool, k: nat)
    requires k < |rows|
    ensures k in Places(rows, goes) <==> !goes(rows[k])
  {
    var last := |rows| - 1;
    if k < last {
      PlacesAre(rows[..last], goes, k);
    } else {
      PlacesRise(rows[..last], goes);
    }
  }

  lemma SurvivorsAre(rows: seq<Record>, after: seq<Record>, goes: Record -> bool)
    requires Rising(Places(rows, goes), |rows|) ==> after == At(rows, Places(rows, goes))
    ensures OnlyGone(rows, after, goes)
  {
    PlacesRise(rows, goes);
    forall k: nat | k < |rows|
      ensures k in Places(rows, goes) <==> !goes(rows[k])
    {
      PlacesAre(rows, goes, k);
    }
    assert Survive(rows, after, Places(rows, goes), goes);
  }

  lemma PlacesBehind(front: seq<Record>, last: Record, goes: Record -> bool)
    ensures Places(front + [last], goes) == if goes(last) then Places(front, goes) else Places(front, goes) + [|front|]
  {
    assert (front + [last])[..|front|] == front;
  }

  /** The rows that stay, one more row behind the others. */
  lemma RowsAtBehind(front: seq<Record>, last: Record, goes: Record -> bool)
    requires Rising(Places(front, goes), |front|) && Rising(Places(front + [last], goes), |front| + 1)
    ensures At(front + [last], Places(front + [last], goes)) ==
            if goes(last) then At(front, Places(front, goes)) else At(front, Places(front, goes)) + [last]
  {
    PlacesBehind(front, last, goes);
    if goes(last) {
      SamePlaces(front, last, Places(front, goes));
    } else {
      OnePlaceMore(front, last, Places(front, goes));
    }
  }

  lemma {:induction false} WithoutSplit(a: seq<Record>, b: seq<Record>, col: string, vs: seq<Value>)
    ensures Without(a + b, col, vs) == Without(a, col, vs) + Without(b, col, vs)
  {
    if a == [] {
      assert a + b == b;
    } else {
      assert (a + b)[1..] == a[1..] + b;
      WithoutSplit(a[1..], b, col, vs);
    }
  }

  lemma WithoutOne(row: Record, col: string, vs: seq<Value>)
    ensures Without([row], col, vs) == if SqlIn(Get(row, col), vs) then [] else [row]
  {
    assert [row][1..] == [];
  }

  lemma WithoutBehind(rows: seq<Record>, row: Record, col: string, vs: seq<Value>)
    ensures Without(rows + [row], col, vs) ==
            if SqlIn(Get(row, col), vs) then Without(rows, col, vs) else Without(rows, col, vs) + [row]
  {
    WithoutSplit(rows, [row], col, vs);
    WithoutOne(row, col, vs);
  }

  lemma {:induction false} WithoutKeyedSplit(a: seq<Record>, b: seq<Record>, cols: seq<string>, vs: seq<Value>)
    ensures WithoutKeyed(a + b, cols, vs) == WithoutKeyed(a, cols, vs) + WithoutKeyed(b, cols, vs)
  {
    if a == [] {
      assert a + b == b;
    } else {
      assert (a + b)[1..] == a[1..] + b;
      WithoutKeyedSplit(a[1..], b, cols, vs);
    }
  }

  lemma WithoutKeyedOne(row: Record, cols: seq<string>, vs: seq<Value>)
    ensures WithoutKeyed([row], cols, vs) == if Matches(row, cols, vs) then [] else [row]
  {
    assert [row][1..] == [];
  }

  lemma WithoutKeyedBehind(rows: seq<Record>, row: Record, cols: seq<string>, vs: seq<Value>)
    ensures WithoutKeyed(rows + [row], cols, vs) ==
            if Matches(row, cols, vs) then WithoutKeyed(rows, cols, vs) else WithoutKeyed(rows, cols, vs) + [row]
  {
    WithoutKeyedSplit(rows, [row], cols, vs);
    WithoutKeyedOne(row, cols, vs);
  }

  ghost predicate Decides(goes: Record -> bool, col: string, vs: seq<Value>) {
    forall r :: goes(r) <==> SqlIn(Get(r, col), vs)
  }

  lemma {:induction false} WithoutIsAt(rows: seq<Record>, col: string, vs: seq<Value>, goes: Record -> bool)
    requires Decides(goes, col, vs)
    ensures Rising(Places(rows, goes), |rows|) && Without(rows, col, vs) == At(rows, Places(rows, goes))
  {
    PlacesRise(rows, goes);
    if rows != [] {
      var front, last := rows[..|rows| - 1], rows[|rows| - 1];
      assert rows == front + [last];
      WithoutIsAt(front, col, vs, goes);
      WithoutBehind(front, last, col, vs);
      RowsAtBehind(front, last, goes);
    }
  }

  ghost predicate DecidesKeyed(goes: Record -> bool, cols: seq<string>, vs: seq<Value>) {
    forall r :: goes(r) <==> Matches(r, cols, vs)
  }

  lemma {:induction false} WithoutKeyedIsAt(rows: seq<Record>, cols: seq<string>, vs: seq<Value>,
                                            goes: Record -> bool)
    requires DecidesKeyed(goes, cols, vs)
    ensures Rising(Places(rows, goes), |rows|) && WithoutKeyed(rows, cols, vs) == At(rows, Places(rows, goes))
  {
    PlacesRise(rows, goes);
    if rows != [] {
      var front, last := rows[..|rows| - 1], rows[|rows| - 1];
      assert rows == front + [last];
      WithoutKeyedIsAt(front, cols, vs, goes);
      WithoutKeyedBehind(front, last, cols, vs);
      RowsAtBehind(front, last, goes);
    }
  }

  lemma WithoutLeaves(rows: seq<Record>, col: string, vs: seq<Value>, goes: Record -> bool)
    requires Decides(goes, col, vs)
    ensures OnlyGone(rows, Without(rows, col, vs), goes)
  {
    WithoutIsAt(rows, col, vs, goes);
    SurvivorsAre(rows, Without(rows, col, vs), goes);
  }

  lemma WithoutKeyedLeaves(rows: seq<Record>, cols: seq<string>, vs: seq<Value>, goes: Record -> bool)
    requires DecidesKeyed(goes, cols, vs)
    ensures OnlyGone(rows, WithoutKeyed(rows, cols, vs), goes)
  {
    WithoutKeyedIsAt(rows, cols, vs, goes);
    SurvivorsAre(rows, WithoutKeyed(rows, cols, vs), goes);
  }

  /** Deleting the rows whose column has the value. */
  lemma DeleteLeaves(rows: seq<Record>, col: string, v: Value)
    ensures OnlyGone(rows, Without(rows, col, [v]), Having(col, v))
  {
    forall r: Record
      ensures Having(col, v)(r) <==> SqlIn(Get(r, col), [v])
    {
      assert SqlEq(Get(r, col), v) <==> SqlEq(Get(r, col), [v][0]);
    }
    WithoutLeaves(rows, col, [v], Having(col, v));
  }

  function Having(col: string, v: Value): Record -> bool {
    (r: Record) => SqlEq(Get(r, col), v)
  }

  /** Some row of the join table with the key points at the row. */
  ghost function LinkedBy(join: seq<Record>, r: Relation, key: Value): Record -> bool {
    (x: Record) => exists l :: l in join && SqlEq(Get(l, r.joinLocalKey), key)
                               && SqlEq(Get(x, r.foreignKey), Get(l, r.joinForeignKey))
  }

  lemma DeleteLinkedLeaves(rows: seq<Record>, join: seq<Record>, r: Relation, key: Value)
    ensures var links := Links(join, r.joinForeignKey, r.joinLocalKey, key);
            OnlyGone(rows, Without(rows, r.foreignKey, links), LinkedBy(join, r, key))
  {
    var links := Links(join, r.joinForeignKey, r.joinLocalKey, key);
    LinksAre(join, r.joinForeignKey, r.joinLocalKey, key);
    forall x: Record
      ensures LinkedBy(join, r, key)(x) <==> SqlIn(Get(x, r.foreignKey), links)
    {
      if LinkedBy(join, r, key)(x) {
        var l :| l in join && SqlEq(Get(l, r.joinLocalKey), key)
                 && SqlEq(Get(x, r.foreignKey), Get(l, r.joinForeignKey));
        assert Get(l, r.joinForeignKey) in links;
        var i :| 0 <= i < |links| && links[i] == Get(l, r.joinForeignKey);
        assert SqlEq(Get(x, r.foreignKey), links[i]);
      }
      if SqlIn(Get(x, r.foreignKey), links) {
        var i :| 0 <= i < |links| && SqlEq(Get(x, r.foreignKey), links[i]);
        assert links[i] in links;
      }
    }
    WithoutLeaves(rows, r.foreignKey, links, LinkedBy(join, r, key));
  }

  // ----- the cascade

  predicate HasColumn(columns: seq<ColumnMeta>, name: string) {
    exists k | 0 <= k < |columns| :: columns[k].name == name
  }

  /** The relation's cascade may write this table. */
  predicate Writes(m: Meta, i: nat, table: string)
    requires i < |m.relations|
  {
    var r := m.relations[i];
    && r.target.Some? && HasColumn(m.columns, r.localKey)
    && (|| (Direct(r.rtype) && (r.onDelete.Delete? || r.onDelete.SetNull?) && r.target.value == table)
        || (r.rtype.ManyToMany? && r.onDelete.Delete? && r.target.value == table)
        || (r.rtype.ManyToMany? && r.joinTable == table))
  }

  /** No relation but the i-th writes the table. */
  predicate LeftTo(m: Meta, i: nat, table: string) {
    forall j | 0 <= j < |m.relations| && j != i :: !Writes(m, j, table)
  }

  lemma StatementsWrite(m: Meta, obj: seq<Value>, i: nat)
    requires |obj| == |m.columns| && i < |m.relations|
    ensures forall s | s in OwnStatements(m, obj, i) :: Writes(m, i, s.table)
  {
    var k := ColumnIndex(m.columns, m.relations[i].localKey);
    assert k < |m.columns| ==> HasColumn(m.columns, m.relations[i].localKey);
  }

  predicate NoneWrite(m: Meta, from: nat, n: nat, table: string)
    requires n <= |m.relations|
  {
    forall j | from <= j < n :: !Writes(m, j, table)
  }

  /** The table holds these rows after the first n relations. */
  ghost predicate HoldsAfter(db: Tables, m: Meta, obj: seq<Value>, n: nat, table: string, rows: seq<Record>)
    requires |obj| == |m.columns| && n <= |m.relations|
  {
    RowsOf(AfterCascade(db, m, obj, n), table) == rows
  }

  /** Relations that do not write the table leave it. */
  lemma {:induction false} CascadeLeaves(db: Tables, m: Meta, obj: seq<Value>, from: nat, n: nat, table: string,
                                         rows: seq<Record>)
    requires |obj| == |m.columns| && from <= n <= |m.relations| && NoneWrite(m, from, n, table)
    requires HoldsAfter(db, m, obj, from, table, rows)
    ensures HoldsAfter(db, m, obj, n, table, rows)
  {
    if from < n {
      CascadeLeaves(db, m, obj, from, n - 1, table, rows);
      OneLeaves(db, m, obj, n - 1, table, rows);
    }
  }

  lemma OneLeaves(db: Tables, m: Meta, obj: seq<Value>, i: nat, table: string, rows: seq<Record>)
    requires |obj| == |m.columns| && i < |m.relations| && !Writes(m, i, table)
    requires HoldsAfter(db, m, obj, i, table, rows)
    ensures HoldsAfter(db, m, obj, i + 1, table, rows)
  {
    StatementsWrite(m, obj, i);
    OthersUntouched(AfterCascade(db, m, obj, i), OwnStatements(m, obj, i), table);
  }

  /** A table that only the i-th relation writes, when that relation's turn comes. */
  lemma BeforeTurn(db: Tables, m: Meta, obj: seq<Value>, i: nat, table: string)
    requires |obj| == |m.columns| && i < |m.relations| && LeftTo(m, i, table)
    ensures RowsOf(AfterCascade(db, m, obj, i), table) == RowsOf(db, table)
  {
    CascadeLeaves(db, m, obj, 0, i, table, RowsOf(db, table));
  }

  /** What that relation leaves in it is what is left in the end. */
  lemma AfterTurn(db: Tables, m: Meta, obj: seq<Value>, i: nat, table: string)
    requires |obj| == |m.columns| && i < |m.relations| && LeftTo(m, i, table)
    ensures RowsOf(AfterCascade(db, m, obj, |m.relations|), table) ==
            RowsOf(AfterCascade(db, m, obj, i + 1), table)
  {
    CascadeLeaves(db, m, obj, i + 1, |m.relations|, table, RowsOf(AfterCascade(db, m, obj, i + 1), table));
  }

  lemma OneRelation(db: Tables, m: Meta, obj: seq<Value>, i: nat, table: string)
    requires |obj| == |m.columns| && i < |m.relations| && LeftTo(m, i, table)
    ensures RowsOf(AfterCascade(db, m, obj, i), table) == RowsOf(db, table)
    ensures RowsOf(AfterCascade(db, m, obj, |m.relations|), table) ==
            RowsOf(ApplyAll(AfterCascade(db, m, obj, i), OwnStatements(m, obj, i)), table)
  {
    BeforeTurn(db, m, obj, i, table);
    AfterTurn(db, m, obj, i, table);
  }

  /** The key with which the relation's statements are bound. */
  ghost predicate KeyIs(m: Meta, i: nat, obj: seq<Value>, key: Value)
    requires |obj| == |m.columns| && i < |m.relations|
  {
    exists k :: && 0 <= k < |m.columns| && m.columns[k].name == m.relations[i].localKey
                && (forall j | 0 <= j < k :: m.columns[j].name != m.relations[i].localKey)
                && key == if m.columns[k].ctype.Other? then Null else obj[k]
  }

  lemma KeyIsBound(m: Meta, i: nat, obj: seq<Value>, key: Value)
    requires |obj| == |m.columns| && i < |m.relations| && KeyIs(m, i, obj, key)
    ensures KeyOf(m, m.relations[i], obj) == Some(key)
  {
    var k :| && 0 <= k < |m.columns| && m.columns[k].name == m.relations[i].localKey
             && (forall j | 0 <= j < k :: m.columns[j].name != m.relations[i].localKey)
             && key == if m.columns[k].ctype.Other? then Null else obj[k];
    var c := ColumnIndex(m.columns, m.relations[i].localKey);
    assert c == k;
  }

  /** The children of a direct relation: deleted, kept with a NULL key, or left alone. */
  ghost predicate ChildrenAre(r: Relation, key: Value, before: seq<Record>, after: seq<Record>) {
    match r.onDelete
    case Delete => OnlyGone(before, after, Having(r.foreignKey, key))
    case SetNull => RowsNulled(before, after, r.foreignKey, key)
    case _ => after == before
  }

  lemma DirectEffect(db: Tables, m: Meta, obj: seq<Value>, i: nat, key: Value)
    requires |obj| == |m.columns| && i < |m.relations| && KeyIs(m, i, obj, key)
    requires Direct(m.relations[i].rtype) && m.relations[i].target.Some?
    requires LeftTo(m, i, m.relations[i].target.value)
    ensures var t := m.relations[i].target.value;
            ChildrenAre(m.relations[i], key, RowsOf(db, t), RowsOf(AfterCascade(db, m, obj, |m.relations|), t))
  {
    var r := m.relations[i];
    var t := r.target.value;
    var mid := AfterCascade(db, m, obj, i);
    KeyIsBound(m, i, obj, key);
    OneRelation(db, m, obj, i, t);
    if r.onDelete.Delete? {
      ApplyOne(mid, DeleteWhere(t, r.foreignKey, key));
      DeleteLeaves(RowsOf(db, t), r.foreignKey, key);
    } else if r.onDelete.SetNull? {
      ApplyOne(mid, NullWhere(t, r.foreignKey, key));
      NulledRows(RowsOf(db, t), r.foreignKey, key);
    }
  }

  /** A many-to-many relation's own statements. */
  lemma LinkedStatements(db: Tables, r: Relation, key: Value)
    requires r.rtype.ManyToMany? && r.target.Some? && r.target.value != r.joinTable
    ensures var after, join, rows := ApplyAll(db, RelationStatements(r, key)), RowsOf(db, r.joinTable),
                                     RowsOf(db, r.target.value);
            && RowsOf(after, r.joinTable) == Without(join, r.joinLocalKey, [key])
            && RowsOf(after, r.target.value) ==
               if r.onDelete.Delete?
               then Without(rows, r.foreignKey, Links(join, r.joinForeignKey, r.joinLocalKey, key))
               else rows
  {
    var unlink := DeleteWhere(r.joinTable, r.joinLocalKey, key);
    if r.onDelete.Delete? {
      var s := DeleteLinked(r.target.value, r.foreignKey, r.joinTable, r.joinForeignKey, r.joinLocalKey, key);
      ApplyTwo(db, s, unlink);
      assert [s] + [unlink] == [s, unlink];
    } else {
      ApplyOne(db, unlink);
      assert [] + [unlink] == [unlink];
    }
  }

  /** The rows of the join table that hold the key are gone, and no others. */
  lemma JoinEffect(db: Tables, m: Meta, obj: seq<Value>, i: nat, key: Value)
    requires |obj| == |m.columns| && i < |m.relations| && KeyIs(m, i, obj, key)
    requires m.relations[i].rtype.ManyToMany? && m.relations[i].target.Some?
    requires m.relations[i].target.value != m.relations[i].joinTable && LeftTo(m, i, m.relations[i].joinTable)
    ensures var r := m.relations[i];
            OnlyGone(RowsOf(db, r.joinTable), RowsOf(AfterCascade(db, m, obj, |m.relations|), r.joinTable),
                     Having(r.joinLocalKey, key))
  {
    var r := m.relations[i];
    KeyIsBound(m, i, obj, key);
    OneRelation(db, m, obj, i, r.joinTable);
    LinkedStatements(AfterCascade(db, m, obj, i), r, key);
    DeleteLeaves(RowsOf(db, r.joinTable), r.joinLocalKey, key);
  }

  /** The targets linked before the delete are gone under ON DELETE, and no others. */
  lemma TargetEffect(db: Tables, m: Meta, obj: seq<Value>, i: nat, key: Value)
    requires |obj| == |m.columns| && i < |m.relations| && KeyIs(m, i, obj, key)
    requires m.relations[i].rtype.ManyToMany? && m.relations[i].target.Some?
    requires m.relations[i].target.value != m.relations[i].joinTable && LeftTo(m, i, m.relations[i].joinTable)
    requires LeftTo(m, i, m.relations[i].target.value)
    ensures var r := m.relations[i];
            TargetsAre(r, key, RowsOf(db, r.joinTable), RowsOf(db, r.target.value),
                       RowsOf(AfterCascade(db, m, obj, |m.relations|), r.target.value))
  {
    var r := m.relations[i];
    KeyIsBound(m, i, obj, key);
    OneRelation(db, m, obj, i, r.joinTable);
    OneRelation(db, m, obj, i, r.target.value);
    LinkedStatements(AfterCascade(db, m, obj, i), r, key);
    DeleteLinkedLeaves(RowsOf(db, r.target.value), RowsOf(db, r.joinTable), r, key);
  }

  ghost predicate TargetsAre(r: Relation, key: Value, join: seq<Record>, before: seq<Record>, after: seq<Record>) {
    if r.onDelete.Delete? then OnlyGone(before, after, LinkedBy(join, r, key)) else after == before
  }

  // ----- the delete as a whole

  /** Only the i-th relation writes the table, and the final DELETE does not either. */
  predicate Owned(m: Meta, i: nat, table: string) {
    LeftTo(m, i, table) && table != m.name
  }

  /** What the i-th relation's cascade did to the tables that are left to it. */
  ghost predicate RelationEffect(before: Tables, after: Tables, m: Meta, i: nat, key: Value)
    requires i < |m.relations|
  {
    var r := m.relations[i];
    r.target.Some? ==>
      && (Direct(r.rtype) && Owned(m, i, r.target.value) ==>
            ChildrenAre(r, key, RowsOf(before, r.target.value), RowsOf(after, r.target.value)))
      && (r.rtype.ManyToMany? && r.target.value != r.joinTable && Owned(m, i, r.joinTable) ==>
            && OnlyGone(RowsOf(before, r.joinTable), RowsOf(after, r.joinTable), Having(r.joinLocalKey, key))
            && (Owned(m, i, r.target.value) ==>
                  TargetsAre(r, key, RowsOf(before, r.joinTable), RowsOf(before, r.target.value),
                             RowsOf(after, r.target.value))))
  }

  /** The places of the primary key columns, in order. */
  predicate PkPlaces(columns: seq<ColumnMeta>, ks: seq<nat>) {
    && Rising(ks, |columns|) && forall k: nat | k < |columns| :: k in ks <==> columns[k].isPk
  }

  /** The rows with the object's primary key. */
  function Keyed(cols: seq<string>, ks: seq<nat>, obj: seq<Value>): Record -> bool {
    (r: Record) =>
      |cols| <= |ks| && forall k | 0 <= k < |cols| :: ks[k] < |obj| && SqlEq(Get(r, cols[k]), obj[ks[k]])
  }

  ghost predicate OwnRowGone(before: seq<Record>, after: seq<Record>, m: Meta, obj: seq<Value>)
    requires m.deleteByPk.Some?
  {
    exists ks :: PkPlaces(m.columns, ks) && OnlyGone(before, after, Keyed(m.deleteByPk.value, ks, obj))
  }

  /** Tables that no relation writes, the deleted row's own aside. */
  ghost predicate Untouched(before: Tables, after: Tables, m: Meta) {
    forall t: string | NoneWrite(m, 0, |m.relations|, t) && t != m.name :: RowsOf(after, t) == RowsOf(before, t)
  }

  /** Every table after the delete. */
  ghost predicate Effects(before: Tables, after: Tables, m: Meta, obj: seq<Value>)
    requires |obj| == |m.columns| && m.deleteByPk.Some?
  {
    && (forall i, key | 0 <= i < |m.relations| && KeyIs(m, i, obj, key) :: RelationEffect(before, after, m, i, key))
    && Untouched(before, after, m)
    && (NoneWrite(m, 0, |m.relations|, m.name) ==>
          OwnRowGone(RowsOf(before, m.name), RowsOf(after, m.name), m, obj))
  }

  lemma RelationsEffect(db: Tables, after: Tables, m: Meta, obj: seq<Value>, i: nat, key: Value)
    requires |obj| == |m.columns| && i < |m.relations| && KeyIs(m, i, obj, key)
    requires forall t: string | t != m.name :: RowsOf(after, t) == RowsOf(AfterCascade(db, m, obj, |m.relations|), t)
    ensures RelationEffect(db, after, m, i, key)
  {
    var r := m.relations[i];
    if r.target.Some? {
      if Direct(r.rtype) && Owned(m, i, r.target.value) {
        DirectEffect(db, m, obj, i, key);
      }
      if r.rtype.ManyToMany? && r.target.value != r.joinTable && Owned(m, i, r.joinTable) {
        JoinEffect(db, m, obj, i, key);
        if Owned(m, i, r.target.value) {
          TargetEffect(db, m, obj, i, key);
        }
      }
    }
  }

  /** The key values in column order. */
  lemma {:induction false} PkValuesAt(columns: seq<ColumnMeta>, obj: seq<Value>) returns (ks: seq<nat>)
    requires |obj| == |columns|
    ensures PkPlaces(columns, ks) && |PkValues(columns, obj)| == |ks|
    ensures forall k | 0 <= k < |ks| :: PkValues(columns, obj)[k] == obj[ks[k]]
  {
    if columns == [] {
      ks := [];
    } else {
      var last: nat := |columns| - 1;
      ks := PkValuesAt(columns[..last], obj[..last]);
      SameValues(obj, last, ks, PkValues(columns[..last], obj[..last]));
      if columns[last].isPk {
        PlaceBehind(columns, ks);
        ks := ks + [last];
      } else {
        NoPlaceBehind(columns, ks);
      }
    }
  }

  lemma SameValues(obj: seq<Value>, last: nat, ks: seq<nat>, vs: seq<Value>)
    requires last < |obj| && Rising(ks, last) && |vs| == |ks|
    requires forall k | 0 <= k < |ks| :: vs[k] == obj[..last][ks[k]]
    ensures forall k | 0 <= k < |ks| :: vs[k] == obj[ks[k]]
  {}

  lemma NoPlaceBehind(columns: seq<ColumnMeta>, ks: seq<nat>)
    requires columns != [] && PkPlaces(columns[..|columns| - 1], ks) && !columns[|columns| - 1].isPk
    ensures PkPlaces(columns, ks)
  {
    forall k: nat | k < |columns|
      ensures k in ks <==> columns[k].isPk
    {
      if k < |columns| - 1 { assert columns[..|columns| - 1][k] == columns[k]; }
    }
  }

  lemma PlaceBehind(columns: seq<ColumnMeta>, ks: seq<nat>)
    requires columns != [] && PkPlaces(columns[..|columns| - 1], ks) && columns[|columns| - 1].isPk
    ensures PkPlaces(columns, ks + [|columns| - 1])
  {
    var last: nat := |columns| - 1;
    var more: seq<nat> := ks + [last];
    forall k: nat | k < |columns|
      ensures k in more <==> columns[k].isPk
    {
      if k < last { assert columns[..last][k] == columns[k]; }
      assert k in more <==> k in ks || k == last;
    }
  }

  lemma DeletedEffects(db: Tables, m: Meta, obj: seq<Value>)
    requires |obj| == |m.columns| && m.deleteByPk.Some?
    ensures var cascaded := AfterCascade(db, m, obj, |m.relations|);
            Effects(db, Apply(cascaded, DeleteKeyed(m.name, m.deleteByPk.value, PkValues(m.columns, obj))), m, obj)
  {
    var cascaded := AfterCascade(db, m, obj, |m.relations|);
    var after := Apply(cascaded, DeleteKeyed(m.name, m.deleteByPk.value, PkValues(m.columns, obj)));
    forall i, key | 0 <= i < |m.relations| && KeyIs(m, i, obj, key)
      ensures RelationEffect(db, after, m, i, key)
    {
      RelationsEffect(db, after, m, obj, i, key);
    }
    CascadeUntouched(db, cascaded, after, m, obj);
    OwnRowEffect(RowsOf(cascaded, m.name), m, obj);
  }

  lemma CascadeUntouched(db: Tables, cascaded: Tables, after: Tables, m: Meta, obj: seq<Value>)
    requires |obj| == |m.columns| && cascaded == AfterCascade(db, m, obj, |m.relations|)
    requires forall t: string | t != m.name :: RowsOf(after, t) == RowsOf(cascaded, t)
    ensures Untouched(db, after, m)
    ensures NoneWrite(m, 0, |m.relations|, m.name) ==> RowsOf(cascaded, m.name) == RowsOf(db, m.name)
  {
    forall t: string | NoneWrite(m, 0, |m.relations|, t)
      ensures RowsOf(cascaded, t) == RowsOf(db, t)
    {
      CascadeLeaves(db, m, obj, 0, |m.relations|, t, RowsOf(db, t));
    }
  }

  lemma KeyedIff(r: Record, cols: seq<string>, ks: seq<nat>, obj: seq<Value>, vs: seq<Value>)
    requires Rising(ks, |obj|) && |vs| == |ks| && forall k | 0 <= k < |ks| :: vs[k] == obj[ks[k]]
    ensures Keyed(cols, ks, obj)(r) <==> Matches(r, cols, vs)
  {
    if |cols| <= |ks| {
      forall k | 0 <= k < |cols|
        ensures SqlEq(Get(r, cols[k]), vs[k]) <==> ks[k] < |obj| && SqlEq(Get(r, cols[k]), obj[ks[k]])
      {}
    }
  }

  lemma OwnRowEffect(rows: seq<Record>, m: Meta, obj: seq<Value>)
    requires |obj| == |m.columns| && m.deleteByPk.Some?
    ensures OwnRowGone(rows, WithoutKeyed(rows, m.deleteByPk.value, PkValues(m.columns, obj)), m, obj)
  {
    var cols, vs := m.deleteByPk.value, PkValues(m.columns, obj);
    var ks := PkValuesAt(m.columns, obj);
    forall r: Record
      ensures Keyed(cols, ks, obj)(r) <==> Matches(r, cols, vs)
    {
      KeyedIff(r, cols, ks, obj, vs);
    }
    WithoutKeyedLeaves(rows, cols, vs, Keyed(cols, ks, obj));
  }
}
