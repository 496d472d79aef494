/** What c_orm_delete of src/c_orm_api.c does to related tables before it deletes a row: the
    statements its relations call for, and what is left of references to the row afterwards. */
module Cascade {
  import opened Optional
  import opened Sql

  type Record = map<string, Value>

  type Tables = map<string, seq<Record>>

  datatype ColumnType = Int32 | Int64 | String | Other

  datatype ColumnMeta = ColumnMeta(name: string, ctype: ColumnType, isPk: bool)

  datatype RelationType = OneToOne | BelongsTo | OneToMany | ManyToMany | HasManyThrough | Polymorphic

  datatype OnDelete = NoAction | Delete | SetNull | Restrict | UpdateKeys

  /** `target` is missing when the relation's target_meta is NULL. */
  datatype Relation = Relation(rtype: RelationType, target: Option<string>, localKey: string, foreignKey: string,
                               onDelete: OnDelete, joinTable: string, joinLocalKey: string, joinForeignKey: string)

  /** `deleteByPk` are the columns compared in query_delete_by_pk, if there is such a query. */
  datatype Meta = Meta(name: string, isView: bool, columns: seq<ColumnMeta>, relations: seq<Relation>,
                       deleteByPk: Option<seq<string>>)

  datatype Statement =
    | DeleteWhere(table: string, col: string, v: Value)
    | NullWhere(table: string, col: string, v: Value)
    | DeleteLinked(table: string, col: string, joinTable: string, joinCol: string, joinKey: string, v: Value)
    | DeleteKeyed(table: string, cols: seq<string>, vs: seq<Value>)

  function Get(r: Record, col: string): Value {
    if col in r then r[col] else Null
  }

  // ----- what statements do

  function Without(rows: seq<Record>, col: string, vs: seq<Value>): seq<Record> {
    if rows == [] then []
    else (if SqlIn(Get(rows[0], col), vs) then [] else [rows[0]]) + Without(rows[1..], col, vs)
  }

  /** a = v AND b = w AND ..; a column without a value is compared with NULL. */
  predicate Matches(r: Record, cols: seq<string>, vs: seq<Value>) {
    |cols| <= |vs| && forall k | 0 <= k < |cols| :: SqlEq(Get(r, cols[k]), vs[k])
  }

  function WithoutKeyed(rows: seq<Record>, cols: seq<string>, vs: seq<Value>): seq<Record> {
    if rows == [] then []
    else (if Matches(rows[0], cols, vs) then [] else [rows[0]]) + WithoutKeyed(rows[1..], cols, vs)
  }

  function Nulled(rows: seq<Record>, col: string, v: Value): seq<Record> {
    if rows == [] then []
    else [if SqlEq(Get(rows[0], col), v) then rows[0][col := Null] else rows[0]] + Nulled(rows[1..], col, v)
  }

  /** SELECT joinCol FROM join WHERE joinKey = v. */
  function Links(join: seq<Record>, joinCol: string, joinKey: string, v: Value): seq<Value> {
    if join == [] then []
    else
      var first := if SqlEq(Get(join[0], joinKey), v) then [Get(join[0], joinCol)] else [];
      first + Links(join[1..], joinCol, joinKey, v)
  }

  function RowsOf(db: Tables, table: string): seq<Record> {
    if table in db then db[table] else []
  }

  function Apply(db: Tables, s: Statement): Tables {
    match s
    case DeleteWhere(t, c, v) => db[t := Without(RowsOf(db, t), c, [v])]
    case NullWhere(t, c, v) => db[t := Nulled(RowsOf(db, t), c, v)]
    case DeleteLinked(t, c, j, jc, jk, v) => db[t := Without(RowsOf(db, t), c, Links(RowsOf(db, j), jc, jk, v))]
    case DeleteKeyed(t, cs, vs) => db[t := WithoutKeyed(RowsOf(db, t), cs, vs)]
  }

  function ApplyAll(db: Tables, ss: seq<Statement>): Tables
    decreases |ss|
  {
    if ss == [] then db else ApplyAll(Apply(db, ss[0]), ss[1..])
  }

  // ----- which statements a delete runs

  /** The first column of that name. */
  function ColumnIndex(columns: seq<ColumnMeta>, name: string): (i: nat)
    ensures i <= |columns| && (i < |columns| ==> columns[i].name == name)
    ensures forall k | 0 <= k < i :: columns[k].name != name
  {
    if columns == [] || columns[0].name == name then 0 else 1 + ColumnIndex(columns[1..], name)
  }

  /** What reaches the placeholder: nothing, hence NULL, if the column type is not bound. */
  function Bound(c: ColumnMeta, v: Value): Value {
    if c.ctype.Other? then Null else v
  }

  /** The value of the relation's local key in the row being deleted. */
  function OwnKey(m: Meta, r: Relation, obj: seq<Value>): Option<Value>
    requires |obj| == |m.columns|
  {
    var i := ColumnIndex(m.columns, r.localKey);
    if i == |m.columns| then None else Some(obj[i])
  }

  /** What the cascade statements compare with instead. */
  function KeyOf(m: Meta, r: Relation, obj: seq<Value>): Option<Value>
    requires |obj| == |m.columns|
  {
    var i := ColumnIndex(m.columns, r.localKey);
    if i == |m.columns| then None else Some(Bound(m.columns[i], obj[i]))
  }

  predicate Direct(t: RelationType) {
    t.OneToOne? || t.OneToMany? || t.BelongsTo?
  }

  function RelationStatements(r: Relation, key: Value): seq<Statement> {
    if r.target.None? then []
    else if Direct(r.rtype) then
      match r.onDelete
      case Delete => [DeleteWhere(r.target.value, r.foreignKey, key)]
      case SetNull => [NullWhere(r.target.value, r.foreignKey, key)]
      case _ => []
    else if r.rtype.ManyToMany? then
      (if r.onDelete.Delete? then
         [DeleteLinked(r.target.value, r.foreignKey, r.joinTable, r.joinForeignKey, r.joinLocalKey, key)]
       else [])
      + [DeleteWhere(r.joinTable, r.joinLocalKey, key)]
    else []
  }

  /** A relation whose local key is not a column is skipped. */
  function OwnStatements(m: Meta, obj: seq<Value>, i: nat): seq<Statement>
    requires |obj| == |m.columns| && i < |m.relations|
  {
    var key := KeyOf(m, m.relations[i], obj);
    if key.None? then [] else RelationStatements(m.relations[i], key.value)
  }

  /** The tables after the cascades of the first n relations. */
  function AfterCascade(db: Tables, m: Meta, obj: seq<Value>, n: nat): Tables
    requires |obj| == |m.columns| && n <= |m.relations|
  {
    if n == 0 then db else ApplyAll(AfterCascade(db, m, obj, n - 1), OwnStatements(m, obj, n - 1))
  }

  /** The values of the primary key columns, in column order. */
  function PkValues(columns: seq<ColumnMeta>, obj: seq<Value>): seq<Value>
    requires |obj| == |columns|
  {
    if columns == [] then []
    else
      var last := |columns| - 1;
      PkValues(columns[..last], obj[..last]) + (if columns[last].isPk then [obj[last]] else [])
  }

  // ----- rows without a reference

  /** No row of the table has the value in that column. */
  ghost predicate Free(db: Tables, table: string, col: string, v: Value) {
    forall r | r in RowsOf(db, table) :: !SqlEq(Get(r, col), v)
  }

  lemma {:induction false} WithoutIs(rows: seq<Record>, col: string, vs: seq<Value>)
    ensures forall r :: r in Without(rows, col, vs) <==> r in rows && !SqlIn(Get(r, col), vs)
  {
    if rows != [] {
      WithoutIs(rows[1..], col, vs);
      assert forall r :: r in rows <==> r == rows[0] || r in rows[1..];
    }
  }

  lemma {:induction false} WithoutKeyedIs(rows: seq<Record>, cols: seq<string>, vs: seq<Value>)
    ensures forall r :: r in WithoutKeyed(rows, cols, vs) <==> r in rows && !Matches(r, cols, vs)
  {
    if rows != [] {
      WithoutKeyedIs(rows[1..], cols, vs);
      assert forall r :: r in rows <==> r == rows[0] || r in rows[1..];
    }
  }

  lemma {:induction false} NulledIs(rows: seq<Record>, col: string, v: Value)
    ensures forall r | r in Nulled(rows, col, v) ::
              !SqlEq(Get(r, col), v) && exists q :: q in rows && (r == q || r == q[col := Null])
  {
    if rows != [] {
      NulledIs(rows[1..], col, v);
      var head := if SqlEq(Get(rows[0], col), v) then rows[0][col := Null] else rows[0];
      forall r | r in Nulled(rows, col, v)
        ensures !SqlEq(Get(r, col), v) && exists q :: q in rows && (r == q || r == q[col := Null])
      {
        if r == head {
          assert rows[0] in rows;
        } else {
          assert r in Nulled(rows[1..], col, v);
          var q :| q in rows[1..] && (r == q || r == q[col := Null]);
          assert q in rows;
        }
      }
    }
  }

  lemma {:induction false} LinksAre(join: seq<Record>, joinCol: string, joinKey: string, v: Value)
    ensures forall w :: w in Links(join, joinCol, joinKey, v)
              <==> exists r :: r in join && SqlEq(Get(r, joinKey), v) && Get(r, joinCol) == w
  {
    if join != [] {
      LinksAre(join[1..], joinCol, joinKey, v);
      assert forall r :: r in join <==> r == join[0] || r in join[1..];
    }
  }

  /** No statement ever makes a reference. */
  lemma ApplyKeepsFree(db: Tables, s: Statement, table: string, col: string, v: Value)
    requires Free(db, table, col, v)
    ensures Free(Apply(db, s), table, col, v)
  {
    match s
    case DeleteWhere(t, c, w) => WithoutIs(RowsOf(db, t), c, [w]);
    case NullWhere(t, c, w) => NulledIs(RowsOf(db, t), c, w);
    case DeleteLinked(t, c, j, jc, jk, w) => WithoutIs(RowsOf(db, t), c, Links(RowsOf(db, j), jc, jk, w));
    case DeleteKeyed(t, cs, ws) => WithoutKeyedIs(RowsOf(db, t), cs, ws);
  }

  lemma {:induction false} ApplyAllKeepsFree(db: Tables, ss: seq<Statement>, table: string, col: string, v: Value)
    requires Free(db, table, col, v)
    ensures Free(ApplyAll(db, ss), table, col, v)
    decreases |ss|
  {
    if ss != [] {
      ApplyKeepsFree(db, ss[0], table, col, v);
      ApplyAllKeepsFree(Apply(db, ss[0]), ss[1..], table, col, v);
    }
  }

  lemma DeleteFrees(db: Tables, table: string, col: string, v: Value)
    ensures Free(Apply(db, DeleteWhere(table, col, v)), table, col, v)
    ensures Free(Apply(db, NullWhere(table, col, v)), table, col, v)
  {
    WithoutIs(RowsOf(db, table), col, [v]);
    NulledIs(RowsOf(db, table), col, v);
    forall r: Record | SqlEq(Get(r, col), v)
      ensures SqlIn(Get(r, col), [v])
    {
      assert SqlEq(Get(r, col), [v][0]);
    }
  }

  /** Once a statement that frees a column of a value has run, the column stays free of it. */
  lemma {:induction false} StatementFrees(db: Tables, ss: seq<Statement>, table: string, col: string, v: Value)
    requires DeleteWhere(table, col, v) in ss || NullWhere(table, col, v) in ss
    ensures Free(ApplyAll(db, ss), table, col, v)
    decreases |ss|
  {
    if ss[0] == DeleteWhere(table, col, v) || ss[0] == NullWhere(table, col, v) {
      DeleteFrees(db, table, col, v);
      ApplyAllKeepsFree(Apply(db, ss[0]), ss[1..], table, col, v);
    } else {
      StatementFrees(Apply(db, ss[0]), ss[1..], table, col, v);
    }
  }

  lemma {:induction false} CascadeKeepsFree(db: Tables, m: Meta, obj: seq<Value>, i: nat, n: nat, table: string,
                                            col: string, v: Value)
    requires |obj| == |m.columns| && i <= n <= |m.relations|
    requires Free(AfterCascade(db, m, obj, i), table, col, v)
    ensures Free(AfterCascade(db, m, obj, n), table, col, v)
  {
    if i < n {
      CascadeKeepsFree(db, m, obj, i, n - 1, table, col, v);
      ApplyAllKeepsFree(AfterCascade(db, m, obj, n - 1), OwnStatements(m, obj, n - 1), table, col, v);
    }
  }

  // ----- references to the deleted row

  /** The table and column that a relation is to clear of the deleted row's key. */
  function Demand(r: Relation): Option<(string, string)> {
    if r.target.None? then None
    else if Direct(r.rtype) && (r.onDelete.Delete? || r.onDelete.SetNull?) then Some((r.target.value, r.foreignKey))
    else if r.rtype.ManyToMany? then Some((r.joinTable, r.joinLocalKey))
    else None
  }

  ghost predicate Cleared(db: Tables, r: Relation, key: Value) {
    Demand(r).Some? ==> Free(db, Demand(r).value.0, Demand(r).value.1, key)
  }

  /** No row refers to the deleted row by a relation that was to clear it. */
  ghost predicate NothingRefers(db: Tables, m: Meta, obj: seq<Value>)
    requires |obj| == |m.columns|
  {
    forall i | 0 <= i < |m.relations| && OwnKey(m, m.relations[i], obj).Some? ::
      Cleared(db, m.relations[i], OwnKey(m, m.relations[i], obj).value)
  }

  /** The key reaches the statements of the relation: its type is one the code binds, or there is
      nothing to bind. */
  predicate Bindable(m: Meta, r: Relation, obj: seq<Value>)
    requires |obj| == |m.columns|
  {
    var i := ColumnIndex(m.columns, r.localKey);
    i < |m.columns| ==> !m.columns[i].ctype.Other? || obj[i] == Null
  }

  predicate Frees(ss: seq<Statement>, table: string, col: string, v: Value) {
    DeleteWhere(table, col, v) in ss || NullWhere(table, col, v) in ss
  }

  /** Some relation's cascade clears the column of the value. */
  ghost predicate FreedBy(m: Meta, obj: seq<Value>, n: nat, table: string, col: string, v: Value)
    requires |obj| == |m.columns| && n <= |m.relations|
  {
    exists i | 0 <= i < n :: Frees(OwnStatements(m, obj, i), table, col, v)
  }

  /** A relation whose key is bound clears what it is to clear. */
  lemma BoundKeyFrees(m: Meta, obj: seq<Value>, i: nat)
    requires |obj| == |m.columns| && i < |m.relations|
    requires Bindable(m, m.relations[i], obj) && OwnKey(m, m.relations[i], obj).Some? && Demand(m.relations[i]).Some?
    ensures var d := Demand(m.relations[i]).value;
            Frees(OwnStatements(m, obj, i), d.0, d.1, OwnKey(m, m.relations[i], obj).value)
  {
    var r, key := m.relations[i], OwnKey(m, m.relations[i], obj).value;
    if r.rtype.ManyToMany? {
      assert DeleteWhere(r.joinTable, r.joinLocalKey, key) in OwnStatements(m, obj, i);
    }
  }

  /** After the cascade no row of a cascaded child table or of a join table refers to the row
      being deleted, whatever the other relations do, if the relation's key is bound. */
  lemma NoDanglingKeys(db: Tables, m: Meta, obj: seq<Value>, i: nat, key: Value)
    requires |obj| == |m.columns| && i < |m.relations|
    requires OwnKey(m, m.relations[i], obj) == Some(key) && Bindable(m, m.relations[i], obj)
    ensures Cleared(AfterCascade(db, m, obj, |m.relations|), m.relations[i], key)
  {
    var d := Demand(m.relations[i]);
    if d.Some? {
      BoundKeyFrees(m, obj, i);
      StatementFrees(AfterCascade(db, m, obj, i), OwnStatements(m, obj, i), d.value.0, d.value.1, key);
      CascadeKeepsFree(db, m, obj, i + 1, |m.relations|, d.value.0, d.value.1, key);
    }
  }

  // ----- exactly when

  /** The database is one row in one table. */
  ghost predicate Lone(db: Tables, table: string, row: Record) {
    forall t :: RowsOf(db, t) == if t == table then [row] else []
  }

  /** A statement that neither frees the column of the value nor selects by it leaves the row. */
  lemma LoneRowStays(db: Tables, s: Statement, table: string, col: string, v: Value)
    requires v != Null && Lone(db, table, map[col := v])
    requires !s.DeleteKeyed? && s != DeleteWhere(table, col, v) && s != NullWhere(table, col, v)
    requires s.DeleteLinked? ==> !(s.joinTable == table && s.joinKey == col && s.v == v)
    ensures Lone(Apply(db, s), table, map[col := v])
  {
    var row: Record := map[col := v];
    assert [row][1..] == [];
    match s
    case DeleteWhere(t, c, w) =>
      assert SqlIn(Get(row, c), [w]) ==> SqlEq(Get(row, c), w);
      assert Without([], c, [w]) == [] && (t == table ==> Without([row], c, [w]) == [row]);
      LoneUpdate(db, t, Without(RowsOf(db, t), c, [w]), table, row);
    case NullWhere(t, c, w) =>
      assert Nulled([], c, w) == [] && (t == table ==> Nulled([row], c, w) == [row]);
      LoneUpdate(db, t, Nulled(RowsOf(db, t), c, w), table, row);
    case DeleteLinked(t, c, j, jc, jk, w) =>
      var links := Links(RowsOf(db, j), jc, jk, w);
      assert Links([], jc, jk, w) == [];
      assert j == table ==> !SqlEq(Get(row, jk), w) && Links([row], jc, jk, w) == [];
      assert links == [];
      assert Without([], c, links) == [] && Without([row], c, links) == [row];
      LoneUpdate(db, t, Without(RowsOf(db, t), c, links), table, row);
  }

  lemma LoneUpdate(db: Tables, t: string, rows: seq<Record>, table: string, row: Record)
    requires Lone(db, table, row) && rows == RowsOf(db, t)
    ensures Lone(db[t := rows], table, row)
  {
    var db' := db[t := rows];
    forall u: string
      ensures RowsOf(db', u) == if u == table then [row] else []
    {
      assert RowsOf(db, u) == if u == table then [row] else [];
    }
  }

  lemma LoneRowOutlives(db: Tables, r: Relation, key: Value, table: string, col: string, v: Value)
    requires v != Null && Lone(db, table, map[col := v]) && !Frees(RelationStatements(r, key), table, col, v)
    ensures Lone(ApplyAll(db, RelationStatements(r, key)), table, map[col := v])
  {
    var ss := RelationStatements(r, key);
    if |ss| == 1 {
      assert ss[0] in ss && ss == [ss[0]];
      ApplyOne(db, ss[0]);
      LoneRowStays(db, ss[0], table, col, v);
    } else if |ss| == 2 {
      assert ss[1] in ss && ss == [ss[0], ss[1]];
      ApplyTwo(db, ss[0], ss[1]);
      LoneRowStays(db, ss[0], table, col, v);
      LoneRowStays(Apply(db, ss[0]), ss[1], table, col, v);
    }
  }

  lemma {:induction false} LoneRowOutlivesCascade(db: Tables, m: Meta, obj: seq<Value>, n: nat, table: string,
                                                  col: string, v: Value)
    requires |obj| == |m.columns| && n <= |m.relations|
    requires v != Null && Lone(db, table, map[col := v]) && !FreedBy(m, obj, n, table, col, v)
    ensures Lone(AfterCascade(db, m, obj, n), table, map[col := v])
  {
    if n > 0 {
      assert !Frees(OwnStatements(m, obj, n - 1), table, col, v);
      assert forall i | 0 <= i < n - 1 :: !Frees(OwnStatements(m, obj, i), table, col, v);
      LoneRowOutlivesCascade(db, m, obj, n - 1, table, col, v);
      var key := KeyOf(m, m.relations[n - 1], obj);
      if key.Some? {
        LoneRowOutlives(AfterCascade(db, m, obj, n - 1), m.relations[n - 1], key.value, table, col, v);
      }
    }
  }

  lemma LoneIsNotFree(db: Tables, table: string, col: string, v: Value)
    requires v != Null && Lone(db, table, map[col := v])
    ensures !Free(db, table, col, v)
  {
    assert map[col := v] in RowsOf(db, table);
  }

  /** In this database the i-th relation's own statements clear what it is to clear. */
  ghost predicate OwnClears(db: Tables, m: Meta, obj: seq<Value>, i: nat)
    requires |obj| == |m.columns| && i < |m.relations| && OwnKey(m, m.relations[i], obj).Some?
  {
    Cleared(ApplyAll(db, OwnStatements(m, obj, i)), m.relations[i], OwnKey(m, m.relations[i], obj).value)
  }

  /** A relation's own cascade clears its references in every database if and only if its key is of
      a type the code binds, or NULL. */
  lemma OwnCascadeClearsIff(m: Meta, obj: seq<Value>, i: nat)
    requires |obj| == |m.columns| && i < |m.relations|
    requires OwnKey(m, m.relations[i], obj).Some? && Demand(m.relations[i]).Some?
    ensures (forall db: Tables :: OwnClears(db, m, obj, i)) <==> Bindable(m, m.relations[i], obj)
  {
    var r, d, key := m.relations[i], Demand(m.relations[i]).value, OwnKey(m, m.relations[i], obj).value;
    if Bindable(m, r, obj) {
      BoundKeyFrees(m, obj, i);
      forall db: Tables
        ensures OwnClears(db, m, obj, i)
      {
        StatementFrees(db, OwnStatements(m, obj, i), d.0, d.1, key);
      }
    } else {
      var db: Tables := map[d.0 := [map[d.1 := key]]];
      LoneRowOutlives(db, r, Null, d.0, d.1, key);
      LoneIsNotFree(ApplyAll(db, OwnStatements(m, obj, i)), d.0, d.1, key);
      assert !OwnClears(db, m, obj, i);
    }
  }

  /** In this database the cascade clears what the i-th relation is to clear. */
  ghost predicate ClearsIn(db: Tables, m: Meta, obj: seq<Value>, i: nat)
    requires |obj| == |m.columns| && i < |m.relations| && OwnKey(m, m.relations[i], obj).Some?
  {
    Cleared(AfterCascade(db, m, obj, |m.relations|), m.relations[i], OwnKey(m, m.relations[i], obj).value)
  }

  /** In this database the cascade leaves no reference at all. */
  ghost predicate ClearsAll(db: Tables, m: Meta, obj: seq<Value>)
    requires |obj| == |m.columns|
  {
    NothingRefers(AfterCascade(db, m, obj, |m.relations|), m, obj)
  }

  /** The key is NULL or some relation's cascade clears it, its own if the code binds it. */
  ghost predicate Covers(m: Meta, obj: seq<Value>, i: nat)
    requires |obj| == |m.columns| && i < |m.relations| && OwnKey(m, m.relations[i], obj).Some?
  {
    var d, key := Demand(m.relations[i]), OwnKey(m, m.relations[i], obj).value;
    d.None? || key == Null || FreedBy(m, obj, |m.relations|, d.value.0, d.value.1, key)
  }

  lemma CoveredClears(db: Tables, m: Meta, obj: seq<Value>, i: nat)
    requires |obj| == |m.columns| && i < |m.relations| && OwnKey(m, m.relations[i], obj).Some? && Covers(m, obj, i)
    ensures ClearsIn(db, m, obj, i)
  {
    var d, key := Demand(m.relations[i]), OwnKey(m, m.relations[i], obj).value;
    if d.Some? && key != Null {
      var j :| 0 <= j < |m.relations| && Frees(OwnStatements(m, obj, j), d.value.0, d.value.1, key);
      var before, ss := AfterCascade(db, m, obj, j), OwnStatements(m, obj, j);
      StatementFrees(before, ss, d.value.0, d.value.1, key);
      CascadeKeepsFree(db, m, obj, j + 1, |m.relations|, d.value.0, d.value.1, key);
    }
  }

  lemma UncoveredStays(m: Meta, obj: seq<Value>, i: nat) returns (db: Tables)
    requires |obj| == |m.columns| && i < |m.relations| && OwnKey(m, m.relations[i], obj).Some? && !Covers(m, obj, i)
    ensures !ClearsIn(db, m, obj, i)
  {
    var d, key := Demand(m.relations[i]), OwnKey(m, m.relations[i], obj).value;
    db := map[d.value.0 := [map[d.value.1 := key]]];
    LoneRowOutlivesCascade(db, m, obj, |m.relations|, d.value.0, d.value.1, key);
    LoneIsNotFree(AfterCascade(db, m, obj, |m.relations|), d.value.0, d.value.1, key);
  }

  /** The whole cascade leaves no reference, in every database, if and only if every relation's key
      is covered. */
  lemma NothingRefersIff(m: Meta, obj: seq<Value>)
    requires |obj| == |m.columns|
    ensures (forall db: Tables :: ClearsAll(db, m, obj))
            <==> forall i | 0 <= i < |m.relations| && OwnKey(m, m.relations[i], obj).Some? :: Covers(m, obj, i)
  {
    if i :| 0 <= i < |m.relations| && OwnKey(m, m.relations[i], obj).Some? && !Covers(m, obj, i) {
      var db := UncoveredStays(m, obj, i);
      assert !ClearsAll(db, m, obj);
    } else {
      forall db: Tables
        ensures ClearsAll(db, m, obj)
      {
        AllCovered(db, m, obj);
      }
    }
  }

  lemma AllCovered(db: Tables, m: Meta, obj: seq<Value>)
    requires |obj| == |m.columns|
    requires forall i | 0 <= i < |m.relations| && OwnKey(m, m.relations[i], obj).Some? :: Covers(m, obj, i)
    ensures ClearsAll(db, m, obj)
  {
    forall i | 0 <= i < |m.relations| && OwnKey(m, m.relations[i], obj).Some?
      ensures Cleared(AfterCascade(db, m, obj, |m.relations|), m.relations[i], OwnKey(m, m.relations[i], obj).value)
    {
      CoveredClears(db, m, obj, i);
      assert ClearsIn(db, m, obj, i);
    }
  }

  /** With every key bound, nothing refers to the row, in any database. */
  lemma CascadeClears(db: Tables, m: Meta, obj: seq<Value>)
    requires |obj| == |m.columns| && forall i | 0 <= i < |m.relations| :: Bindable(m, m.relations[i], obj)
    ensures NothingRefers(AfterCascade(db, m, obj, |m.relations|), m, obj)
  {
    forall i | 0 <= i < |m.relations| && OwnKey(m, m.relations[i], obj).Some?
      ensures Cleared(AfterCascade(db, m, obj, |m.relations|), m.relations[i], OwnKey(m, m.relations[i], obj).value)
    {
      NoDanglingKeys(db, m, obj, i, OwnKey(m, m.relations[i], obj).value);
    }
  }

  lemma ApplyKeepsNothingRefers(db: Tables, m: Meta, obj: seq<Value>, s: Statement)
    requires |obj| == |m.columns| && NothingRefers(db, m, obj)
    ensures NothingRefers(Apply(db, s), m, obj)
  {
    forall i | 0 <= i < |m.relations| && OwnKey(m, m.relations[i], obj).Some? && Demand(m.relations[i]).Some?
      ensures Cleared(Apply(db, s), m.relations[i], OwnKey(m, m.relations[i], obj).value)
    {
      var d, key := Demand(m.relations[i]).value, OwnKey(m, m.relations[i], obj).value;
      assert Cleared(db, m.relations[i], key);
      ApplyKeepsFree(db, s, d.0, d.1, key);
    }
  }

  /** A statement writes one table and leaves the others alone. */
  lemma {:induction false} OthersUntouched(db: Tables, ss: seq<Statement>, table: string)
    requires forall s | s in ss :: s.table != table
    ensures RowsOf(ApplyAll(db, ss), table) == RowsOf(db, table)
    decreases |ss|
  {
    if ss != [] { OthersUntouched(Apply(db, ss[0]), ss[1..], table); }
  }

  // ----- linked targets of a many-to-many relation

  ghost predicate CascadesLinks(r: Relation) {
    r.rtype.ManyToMany? && r.target.Some? && r.onDelete.Delete?
  }

  function LinksOf(db: Tables, r: Relation, key: Value): seq<Value> {
    Links(RowsOf(db, r.joinTable), r.joinForeignKey, r.joinLocalKey, key)
  }

  /** No target row is linked by any of these values. */
  ghost predicate TargetsGone(db: Tables, r: Relation, links: seq<Value>)
    requires r.target.Some?
  {
    forall w | w in links :: Free(db, r.target.value, r.foreignKey, w)
  }

  /** Every one of these links is still in the join table or its targets are gone. */
  ghost predicate Covered(db: Tables, r: Relation, key: Value, links: seq<Value>)
    requires r.target.Some?
  {
    forall w | w in links :: w in LinksOf(db, r, key) || Free(db, r.target.value, r.foreignKey, w)
  }

  /** What an earlier relation may do to the join table of r: nothing, or take links away only
      after deleting the very rows r would have deleted through them. */
  predicate Harmless(earlier: Relation, r: Relation) {
    earlier.target.Some? ==>
      && (Direct(earlier.rtype) || earlier.onDelete.Delete? ==> earlier.target.value != r.joinTable)
      && (earlier.rtype.ManyToMany? && earlier.joinTable == r.joinTable ==>
            earlier.onDelete.Delete? && earlier.target == r.target && earlier.foreignKey == r.foreignKey
            && earlier.joinForeignKey == r.joinForeignKey)
  }

  lemma LinkedFrees(db: Tables, r: Relation, key: Value)
    requires CascadesLinks(r)
    ensures TargetsGone(Apply(db, DeleteLinked(r.target.value, r.foreignKey, r.joinTable, r.joinForeignKey,
                                               r.joinLocalKey, key)),
                        r, LinksOf(db, r, key))
  {
    var links := LinksOf(db, r, key);
    WithoutIs(RowsOf(db, r.target.value), r.foreignKey, links);
    forall w, q: Record | w in links && SqlEq(Get(q, r.foreignKey), w)
      ensures SqlIn(Get(q, r.foreignKey), links)
    {
      var i :| 0 <= i < |links| && links[i] == w;
      assert SqlEq(Get(q, r.foreignKey), links[i]);
    }
  }

  /** A statement on another table keeps every link covered. */
  lemma ApplyKeepsCovered(db: Tables, s: Statement, r: Relation, key: Value, links: seq<Value>)
    requires r.target.Some? && Covered(db, r, key, links) && s.table != r.joinTable
    ensures Covered(Apply(db, s), r, key, links)
  {
    forall w | w in links && Free(db, r.target.value, r.foreignKey, w)
      ensures Free(Apply(db, s), r.target.value, r.foreignKey, w)
    {
      ApplyKeepsFree(db, s, r.target.value, r.foreignKey, w);
    }
  }

  /** Deleting join rows keeps covered what is covered, if the targets of those rows are gone. */
  lemma UnlinkKeepsCovered(db: Tables, col: string, v: Value, r: Relation, key: Value, links: seq<Value>)
    requires r.target.Some? && r.target.value != r.joinTable && Covered(db, r, key, links)
    requires TargetsGone(db, r, Links(RowsOf(db, r.joinTable), r.joinForeignKey, col, v))
    ensures Covered(Apply(db, DeleteWhere(r.joinTable, col, v)), r, key, links)
  {
    var s := DeleteWhere(r.joinTable, col, v);
    var join, join' := RowsOf(db, r.joinTable), RowsOf(Apply(db, s), r.joinTable);
    WithoutIs(join, col, [v]);
    LinksAre(join, r.joinForeignKey, r.joinLocalKey, key);
    LinksAre(join', r.joinForeignKey, r.joinLocalKey, key);
    LinksAre(join, r.joinForeignKey, col, v);
    forall w | w in links
      ensures w in LinksOf(Apply(db, s), r, key) || Free(Apply(db, s), r.target.value, r.foreignKey, w)
    {
      if Free(db, r.target.value, r.foreignKey, w) {
        ApplyKeepsFree(db, s, r.target.value, r.foreignKey, w);
      } else {
        var q :| q in join && SqlEq(Get(q, r.joinLocalKey), key) && Get(q, r.joinForeignKey) == w;
        assert !SqlEq(Get(q, col), v);
        assert SqlIn(Get(q, col), [v]) ==> SqlEq(Get(q, col), v);
        assert q in join';
      }
    }
  }

  lemma RelationKeepsCovered(db: Tables, earlier: Relation, v: Value, r: Relation, key: Value, links: seq<Value>)
    requires CascadesLinks(r) && r.target.value != r.joinTable && Harmless(earlier, r) && Covered(db, r, key, links)
    ensures Covered(ApplyAll(db, RelationStatements(earlier, v)), r, key, links)
  {
    var ss := RelationStatements(earlier, v);
    if |ss| == 1 {
      ApplyOne(db, ss[0]);
      assert ss == [ss[0]];
      if ss[0].table != r.joinTable {
        ApplyKeepsCovered(db, ss[0], r, key, links);
      }
    } else if |ss| == 2 {
      ApplyTwo(db, ss[0], ss[1]);
      assert ss == [ss[0], ss[1]];
      ApplyKeepsCovered(db, ss[0], r, key, links);
      var db1 := Apply(db, ss[0]);
      if ss[1].table != r.joinTable {
        ApplyKeepsCovered(db1, ss[1], r, key, links);
      } else {
        LinkedFrees(db, earlier, v);
        UnlinkKeepsCovered(db1, earlier.joinLocalKey, v, r, key, links);
      }
    }
  }

  lemma ApplyOne(db: Tables, s: Statement)
    ensures ApplyAll(db, [s]) == Apply(db, s)
  {
    assert [s][1..] == [];
  }

  lemma ApplyTwo(db: Tables, s: Statement, t: Statement)
    ensures ApplyAll(db, [s, t]) == Apply(Apply(db, s), t)
  {
    assert [s, t][1..] == [t];
    ApplyOne(Apply(db, s), t);
  }

  predicate HarmlessUpTo(m: Meta, n: nat, r: Relation)
    requires n <= |m.relations|
  {
    forall j | 0 <= j < n :: Harmless(m.relations[j], r)
  }

  lemma {:induction false} PrefixKeepsCovered(db: Tables, m: Meta, obj: seq<Value>, n: nat, r: Relation, key: Value)
    requires |obj| == |m.columns| && n <= |m.relations|
    requires CascadesLinks(r) && r.target.value != r.joinTable
    requires HarmlessUpTo(m, n, r)
    ensures Covered(AfterCascade(db, m, obj, n), r, key, LinksOf(db, r, key))
  {
    if n > 0 {
      PrefixKeepsCovered(db, m, obj, n - 1, r, key);
      OwnKeepsCovered(AfterCascade(db, m, obj, n - 1), m, obj, n - 1, r, key, LinksOf(db, r, key));
    }
  }

  lemma OwnKeepsCovered(db: Tables, m: Meta, obj: seq<Value>, i: nat, r: Relation, key: Value, links: seq<Value>)
    requires |obj| == |m.columns| && i < |m.relations|
    requires CascadesLinks(r) && r.target.value != r.joinTable && Harmless(m.relations[i], r)
             && Covered(db, r, key, links)
    ensures Covered(ApplyAll(db, OwnStatements(m, obj, i)), r, key, links)
  {
    var v := KeyOf(m, m.relations[i], obj);
    if v.Some? {
      RelationKeepsCovered(db, m.relations[i], v.value, r, key, links);
    }
  }

  /** Deleting through the links that are left finishes what is covered. */
  lemma CoveredGoes(db: Tables, r: Relation, key: Value, links: seq<Value>)
    requires CascadesLinks(r) && Covered(db, r, key, links)
    ensures TargetsGone(ApplyAll(db, RelationStatements(r, key)), r, links)
  {
    var ss := RelationStatements(r, key);
    var db1 := Apply(db, ss[0]);
    assert ss == [ss[0], ss[1]];
    ApplyTwo(db, ss[0], ss[1]);
    LinkedFrees(db, r, key);
    forall w | w in links
      ensures Free(Apply(db1, ss[1]), r.target.value, r.foreignKey, w)
    {
      if Free(db, r.target.value, r.foreignKey, w) {
        ApplyKeepsFree(db, ss[0], r.target.value, r.foreignKey, w);
      }
      ApplyKeepsFree(db1, ss[1], r.target.value, r.foreignKey, w);
    }
  }

  /** The targets a many-to-many relation linked before the delete are all gone after it, provided
      its key is bound and the relations before it are harmless. */
  lemma LinkedTargetsGone(db: Tables, m: Meta, obj: seq<Value>, i: nat, r: Relation, key: Value)
    requires |obj| == |m.columns| && i < |m.relations| && m.relations[i] == r
    requires CascadesLinks(r) && OwnKey(m, r, obj) == KeyOf(m, r, obj) == Some(key)
    requires r.target.value != r.joinTable && HarmlessUpTo(m, i, r)
    ensures TargetsGone(AfterCascade(db, m, obj, |m.relations|), r, LinksOf(db, r, key))
  {
    var links := LinksOf(db, r, key);
    PrefixKeepsCovered(db, m, obj, i, r, key);
    CoveredGoes(AfterCascade(db, m, obj, i), r, key, links);
    forall w | w in links
      ensures Free(AfterCascade(db, m, obj, |m.relations|), r.target.value, r.foreignKey, w)
    {
      CascadeKeepsFree(db, m, obj, i + 1, |m.relations|, r.target.value, r.foreignKey, w);
    }
  }

  // ----- when two relations share a join table

  ghost predicate AlwaysGone(earlier: Relation, r: Relation, key: Value)
    requires r.target.Some?
  {
    forall db: Tables ::
      TargetsGone(ApplyAll(ApplyAll(db, RelationStatements(earlier, key)), RelationStatements(r, key)), r,
                  LinksOf(db, r, key))
  }

  /** Two many-to-many relations keyed by the same value: the later one deletes its targets in every
      database if and only if the earlier one is harmless to it. */
  lemma SharedJoinTableIff(earlier: Relation, r: Relation, key: Value)
    requires earlier.rtype.ManyToMany? && earlier.target.Some? && CascadesLinks(r)
    requires r.target.value != r.joinTable && earlier.target.value != r.joinTable
    requires key != Null && r.joinForeignKey != r.joinLocalKey && r.joinForeignKey != earlier.joinLocalKey
    ensures AlwaysGone(earlier, r, key) <==> Harmless(earlier, r)
  {
    if Harmless(earlier, r) {
      forall db: Tables
        ensures TargetsGone(ApplyAll(ApplyAll(db, RelationStatements(earlier, key)), RelationStatements(r, key)),
                            r, LinksOf(db, r, key))
      {
        var links := LinksOf(db, r, key);
        RelationKeepsCovered(db, earlier, key, r, key, links);
        CoveredGoes(ApplyAll(db, RelationStatements(earlier, key)), r, key, links);
      }
    } else {
      LeftBehind(earlier, r, key);
    }
  }

  /** One link and one target: the earlier relation removes the link and leaves the target. */
  lemma LeftBehind(earlier: Relation, r: Relation, key: Value)
    requires earlier.rtype.ManyToMany? && earlier.target.Some? && CascadesLinks(r)
    requires r.target.value != r.joinTable && earlier.target.value != r.joinTable
    requires key != Null && r.joinForeignKey != r.joinLocalKey && r.joinForeignKey != earlier.joinLocalKey
    requires !Harmless(earlier, r)
    ensures !AlwaysGone(earlier, r, key)
  {
    var w := if key == Int(0) then Int(1) else Int(0);
    var link: Record := map[r.joinLocalKey := key, earlier.joinLocalKey := key, r.joinForeignKey := w];
    var row: Record := map[r.foreignKey := w];
    var db: Tables := map[r.joinTable := [link], r.target.value := [row]];
    EarlierLeaves(earlier, r, key, w, link, row, db);
    var db1 := ApplyAll(db, RelationStatements(earlier, key));
    NothingLinked(db1, r, key, row);
    WasLinked(db, r, key, w, link);
    var end := ApplyAll(db1, RelationStatements(r, key));
    assert row in RowsOf(end, r.target.value) && SqlEq(Get(row, r.foreignKey), w);
    assert !Free(end, r.target.value, r.foreignKey, w);
    assert !TargetsGone(end, r, LinksOf(db, r, key));
  }

  lemma WasLinked(db: Tables, r: Relation, key: Value, w: Value, link: Record)
    requires RowsOf(db, r.joinTable) == [link] && key != Null && Get(link, r.joinLocalKey) == key
             && Get(link, r.joinForeignKey) == w
    ensures w in LinksOf(db, r, key)
  {
    LinksAre([link], r.joinForeignKey, r.joinLocalKey, key);
    assert link in [link];
  }

  /** With the join table empty, the relation's statements delete no target. */
  lemma NothingLinked(db: Tables, r: Relation, key: Value, row: Record)
    requires CascadesLinks(r) && r.target.value != r.joinTable
    requires RowsOf(db, r.joinTable) == [] && row in RowsOf(db, r.target.value)
    ensures row in RowsOf(ApplyAll(db, RelationStatements(r, key)), r.target.value)
  {
    var ss := RelationStatements(r, key);
    assert ss == [ss[0], ss[1]];
    ApplyTwo(db, ss[0], ss[1]);
    assert LinksOf(db, r, key) == [];
    WithoutIs(RowsOf(db, r.target.value), r.foreignKey, []);
  }

  lemma EarlierLeaves(earlier: Relation, r: Relation, key: Value, w: Value, link: Record, row: Record, db: Tables)
    requires earlier.rtype.ManyToMany? && earlier.target.Some? && CascadesLinks(r)
    requires r.target.value != r.joinTable && earlier.target.value != r.joinTable
    requires key != Null && w != Null && w != key
    requires r.joinForeignKey != r.joinLocalKey && r.joinForeignKey != earlier.joinLocalKey
    requires !Harmless(earlier, r)
    requires link == map[r.joinLocalKey := key, earlier.joinLocalKey := key, r.joinForeignKey := w]
    requires row == map[r.foreignKey := w]
    requires db == map[r.joinTable := [link], r.target.value := [row]]
    ensures var db1 := ApplyAll(db, RelationStatements(earlier, key));
            RowsOf(db1, r.joinTable) == [] && RowsOf(db1, r.target.value) == [row]
  {
    var ss := RelationStatements(earlier, key);
    assert earlier.joinTable == r.joinTable;
    var unlink := DeleteWhere(r.joinTable, earlier.joinLocalKey, key);
    assert SqlEq(Get(link, earlier.joinLocalKey), [key][0]);
    assert Without([link], earlier.joinLocalKey, [key]) == [] by { assert [link][1..] == []; }
    if earlier.onDelete.Delete? {
      var links := Links([link], earlier.joinForeignKey, earlier.joinLocalKey, key);
      assert links == [Get(link, earlier.joinForeignKey)] by {
        assert SqlEq(Get(link, earlier.joinLocalKey), key);
        assert [link][1..] == [] && Links([], earlier.joinForeignKey, earlier.joinLocalKey, key) == [];
      }
      assert earlier.target == r.target ==> Without([row], earlier.foreignKey, links) == [row] by {
        assert [row][1..] == [];
        if earlier.target == r.target {
          assert !SqlEq(Get(row, earlier.foreignKey), links[0]);
        }
      }
      ApplyTwo(db, ss[0], unlink);
      assert ss == [ss[0], unlink];
    } else {
      ApplyOne(db, unlink);
      assert ss == [unlink];
    }
  }
}
