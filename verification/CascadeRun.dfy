/** c_orm_delete and the many-to-many part of c_orm_sync of src/c_orm_api.c, running against a
    database that may refuse any call. */
module CascadeRun {
  import opened Cascade
  import opened CascadeEffects
  import opened Optional
  import opened Sequences
  import opened Sql

  datatype Rc = Ok | Unknown | ReadOnly | NotImplemented | NotFound | TypeMismatch | Refused

  /** What the driver is asked for: to prepare or step a cascade statement, or anything else. */
  datatype Asked = CascadeStep | Work

  class Store {
    var tables: Tables
    /** Which of the coming calls the driver or a hook will refuse. */
    const refuses: (Asked, nat) -> bool
    var clock: nat
    /** How many cascade statements were passed over. */
    ghost var skipped: nat

    constructor (tables: Tables, refuses: (Asked, nat) -> bool)
      ensures this.tables == tables && this.refuses == refuses
    {
      this.tables, this.refuses, clock, skipped := tables, refuses, 0, 0;
    }

    ghost predicate Willing() {
      forall asked, n :: !refuses(asked, n)
    }

    /** Cascade statements are refused, and nothing else is. */
    ghost predicate RefusesCascades() {
      forall n :: refuses(CascadeStep, n) && !refuses(Work, n)
    }

    method Call(asked: Asked) returns (ok: bool)
      modifies this`clock
      ensures Willing() ==> ok
      ensures RefusesCascades() ==> ok == asked.Work?
    {
      ok := !refuses(asked, clock);
      clock := clock + 1;
    }

    /** A cascade statement: a refused prepare or step is passed over, a refused finalize is not. */
    method Cascade(s: Statement) returns (ok: bool)
      modifies this`clock, this`tables, this`skipped
      ensures skipped >= old(skipped)
      ensures tables == if skipped == old(skipped) then Apply(old(tables), s) else old(tables)
      ensures Willing() ==> ok && skipped == old(skipped)
      ensures RefusesCascades() ==> ok && tables == old(tables)
    {
      var prepared := Call(CascadeStep);
      if !prepared {
        skipped := skipped + 1;
        return true;
      }
      var stepped := Call(CascadeStep);
      if stepped {
        tables := Apply(tables, s);
      } else {
        skipped := skipped + 1;
      }
      ok := Call(Work);
    }

    /** A statement whose every refusal is reported. */
    method Execute(s: Statement) returns (ok: bool)
      modifies this`clock, this`tables
      ensures tables == old(tables) || tables == Apply(old(tables), s)
      ensures ok ==> tables == Apply(old(tables), s)
      ensures Willing() || RefusesCascades() ==> ok
    {
      ok := Call(Work);
      if !ok {
        return;
      }
      ok := Call(Work);
      if !ok {
        var _ := Call(Work);
        return;
      }
      tables := Apply(tables, s);
      ok := Call(Work);
    }
  }

  /** Every value some column was free of it is still free of. */
  ghost predicate NoNewReferences(before: Tables, after: Tables) {
    forall t, c, v | Free(before, t, c, v) :: Free(after, t, c, v)
  }

  lemma NoneNew(before: Tables, db: Tables, s: Statement)
    requires NoNewReferences(before, db)
    ensures NoNewReferences(before, Apply(db, s))
  {
    forall t, c, v | Free(before, t, c, v)
      ensures Free(Apply(db, s), t, c, v)
    {
      ApplyKeepsFree(db, s, t, c, v);
    }
  }

  /** The cascade of one relation. */
  method CascadeRelation(db: Store, r: Relation, key: Value, ghost start: Tables) returns (ok: bool)
    requires NoNewReferences(start, db.tables)
    modifies db`clock, db`tables, db`skipped
    ensures NoNewReferences(start, db.tables) && db.skipped >= old(db.skipped)
    ensures ok && db.skipped == old(db.skipped) ==> db.tables == ApplyAll(old(db.tables), RelationStatements(r, key))
    ensures db.Willing() ==> ok && db.skipped == old(db.skipped)
    ensures db.RefusesCascades() ==> ok && db.tables == old(db.tables)
  {
    ghost var was := db.tables;
    if r.target.None? {
      return true;
    }
    if Direct(r.rtype) {
      if r.onDelete.Delete? || r.onDelete.SetNull? {
        var s := if r.onDelete.Delete? then DeleteWhere(r.target.value, r.foreignKey, key)
                 else NullWhere(r.target.value, r.foreignKey, key);
        NoneNew(start, db.tables, s);
        ApplyOne(was, s);
        ok := db.Cascade(s);
        return;
      }
    } else if r.rtype.ManyToMany? {
      var unlink := DeleteWhere(r.joinTable, r.joinLocalKey, key);
      if r.onDelete.Delete? {
        // target rows first: afterwards nothing says which they were
        var s := DeleteLinked(r.target.value, r.foreignKey, r.joinTable, r.joinForeignKey, r.joinLocalKey, key);
        NoneNew(start, db.tables, s);
        ok := db.Cascade(s);
        if !ok {
          return;
        }
        ApplyTwo(was, s, unlink);
        assert [s] + [unlink] == [s, unlink];
      } else {
        ApplyOne(was, unlink);
        assert [] + [unlink] == [unlink];
      }
      NoneNew(start, db.tables, unlink);
      ok := db.Cascade(unlink);
      return;
    }
    return true;
  }

  method FindColumn(columns: seq<ColumnMeta>, name: string) returns (j: nat)
    ensures j == ColumnIndex(columns, name)
  {
    j := 0;
    while j < |columns| && columns[j].name != name
      invariant j <= |columns| && ColumnIndex(columns, name) == j + ColumnIndex(columns[j..], name)
    {
      j := j + 1;
    }
  }

  /** After the cascades of the first n relations; exact when no statement was passed over. */
  ghost predicate Cascaded(start: Tables, db: Tables, m: Meta, obj: seq<Value>, n: nat, exact: bool)
    requires |obj| == |m.columns| && n <= |m.relations|
  {
    && NoNewReferences(start, db)
    && (exact ==> db == AfterCascade(start, m, obj, n))
  }

  /** The same, with what is known of the driver. */
  ghost predicate Standing(start: Tables, db: Tables, m: Meta, obj: seq<Value>, n: nat, skippedBefore: nat,
                           skipped: nat, willing: bool, refusing: bool)
    requires |obj| == |m.columns| && n <= |m.relations|
  {
    && skippedBefore <= skipped
    && Cascaded(start, db, m, obj, n, skipped == skippedBefore)
    && (willing ==> skipped == skippedBefore)
    && (refusing ==> db == start)
  }

  /** A relation whose local key is not a column is skipped. */
  method CascadeOwn(db: Store, m: Meta, obj: seq<Value>, i: nat, ghost start: Tables, ghost skipped: nat,
                    ghost willing: bool, ghost refusing: bool)
    returns (ok: bool)
    requires |obj| == |m.columns| && i < |m.relations|
    requires willing == db.Willing() && refusing == db.RefusesCascades()
    requires Standing(start, db.tables, m, obj, i, skipped, db.skipped, willing, refusing)
    modifies db`clock, db`tables, db`skipped
    ensures NoNewReferences(start, db.tables) && db.skipped >= skipped
    ensures ok ==> Standing(start, db.tables, m, obj, i + 1, skipped, db.skipped, willing, refusing)
    ensures willing || refusing ==> ok
  {
    ok := true;
    var j := FindColumn(m.columns, m.relations[i].localKey);
    if j < |m.columns| {
      ok := CascadeRelation(db, m.relations[i], Bound(m.columns[j], obj[j]), start);
    }
  }

  lemma NotStarted(db: Tables, m: Meta, obj: seq<Value>, skipped: nat, willing: bool, refusing: bool)
    requires |obj| == |m.columns|
    ensures Standing(db, db, m, obj, 0, skipped, skipped, willing, refusing)
  {
  }

  method CascadeAll(db: Store, m: Meta, obj: seq<Value>, ghost willing: bool, ghost refusing: bool) returns (ok: bool)
    requires |obj| == |m.columns| && willing == db.Willing() && refusing == db.RefusesCascades()
    modifies db`clock, db`tables, db`skipped
    ensures !ok ==> NoNewReferences(old(db.tables), db.tables) && db.skipped >= old(db.skipped)
    ensures ok ==>
              Standing(old(db.tables), db.tables, m, obj, |m.relations|, old(db.skipped), db.skipped, willing, refusing)
    ensures willing || refusing ==> ok
  {
    ghost var start, skipped := db.tables, db.skipped;
    NotStarted(start, m, obj, skipped, willing, refusing);
    ok := true;
    var i := 0;
    while i < |m.relations|
      invariant 0 <= i <= |m.relations| && ok
      invariant Standing(start, db.tables, m, obj, i, skipped, db.skipped, willing, refusing)
    {
      ok := CascadeOwn(db, m, obj, i, start, skipped, willing, refusing);
      if !ok {
        return;
      }
      i := i + 1;
    }
  }

  /** query_delete_by_pk has one placeholder for each primary key column. */
  predicate PlaceholderPerKey(m: Meta, obj: seq<Value>)
    requires |obj| == |m.columns|
  {
    m.deleteByPk.Some? ==> |m.deleteByPk.value| == |PkValues(m.columns, obj)|
  }

  predicate PksBindable(columns: seq<ColumnMeta>) {
    forall i | 0 <= i < |columns| && columns[i].isPk :: !columns[i].ctype.Other?
  }

  /** Whether the final DELETE can be bound. */
  predicate Deletable(m: Meta) {
    m.deleteByPk.Some? && PksBindable(m.columns) && exists i | 0 <= i < |m.columns| :: m.columns[i].isPk
  }

  /** What c_orm_delete leaves when nothing is refused. */
  function Deleted(db: Tables, m: Meta, obj: seq<Value>): Tables
    requires |obj| == |m.columns| && m.deleteByPk.Some?
  {
    Apply(AfterCascade(db, m, obj, |m.relations|), DeleteKeyed(m.name, m.deleteByPk.value, PkValues(m.columns, obj)))
  }

  /** What it leaves when every cascade statement is passed over. */
  function DeletedAlone(db: Tables, m: Meta, obj: seq<Value>): Tables
    requires |obj| == |m.columns| && m.deleteByPk.Some?
  {
    Apply(db, DeleteKeyed(m.name, m.deleteByPk.value, PkValues(m.columns, obj)))
  }

  /** The loop that binds the primary key columns one after the other. */
  method BindPks(m: Meta, obj: seq<Value>) returns (found: nat, rc: Rc, vs: seq<Value>)
    requires |obj| == |m.columns|
    ensures rc == Ok <==> PksBindable(m.columns)
    ensures rc == Ok || rc == NotImplemented
    ensures rc == Ok ==> vs == PkValues(m.columns, obj)
    ensures rc == Ok ==> (found == 0 <==> forall i | 0 <= i < |m.columns| :: !m.columns[i].isPk)
  {
    found, rc, vs := 0, Ok, [];
    var i := 0;
    while i < |m.columns|
      invariant 0 <= i <= |m.columns| && rc == Ok && PksBindable(m.columns[..i])
                && vs == PkValues(m.columns[..i], obj[..i])
      invariant found == 0 <==> forall k | 0 <= k < i :: !m.columns[k].isPk
    {
      assert m.columns[..i + 1][..i] == m.columns[..i] && obj[..i + 1][..i] == obj[..i];
      if m.columns[i].isPk {
        if m.columns[i].ctype.Other? {
          return found, NotImplemented, vs;
        }
        vs := vs + [obj[i]];
        found := found + 1;
      }
      i := i + 1;
    }
    assert m.columns[..|m.columns|] == m.columns && obj[..|m.columns|] == obj;
  }

  /** The DELETE by primary key. */
  method DeleteRow(db: Store, m: Meta, obj: seq<Value>, ghost start: Tables) returns (rc: Rc)
    requires |obj| == |m.columns| && m.deleteByPk.Some? && PlaceholderPerKey(m, obj)
    requires NoNewReferences(start, db.tables)
    modifies db`clock, db`tables
    ensures NoNewReferences(start, db.tables)
    ensures rc == Ok ==>
              && Deletable(m)
              && db.tables == Apply(old(db.tables), DeleteKeyed(m.name, m.deleteByPk.value, PkValues(m.columns, obj)))
    ensures !Deletable(m) ==> rc != Ok && db.tables == old(db.tables)
    ensures (db.Willing() || db.RefusesCascades()) && Deletable(m) ==> rc == Ok
  {
    var found, vs;
    found, rc, vs := BindPks(m, obj);
    if rc != Ok {
      return;
    }
    if found == 0 {
      return Unknown;
    }
    var s := DeleteKeyed(m.name, m.deleteByPk.value, vs);
    NoneNew(start, db.tables, s);
    var ok := db.Execute(s);
    return if ok then Ok else Refused;
  }

  /** No row of the table has the deleted row's primary key. */
  ghost predicate RowGone(db: Tables, m: Meta, obj: seq<Value>)
    requires |obj| == |m.columns| && m.deleteByPk.Some?
  {
    forall r | r in RowsOf(db, m.name) :: !Matches(r, m.deleteByPk.value, PkValues(m.columns, obj))
  }

  /** c_orm_delete. */
  method DeleteObject(db: Store, m: Meta, obj: seq<Value>, beforeHook: bool, afterHook: bool) returns (rc: Rc)
    requires |obj| == |m.columns| && PlaceholderPerKey(m, obj)
    modifies db
    // whatever is refused, no reference appears, and success means the row itself is gone
    ensures NoNewReferences(old(db.tables), db.tables)
    ensures rc == Ok ==> Deletable(m) && RowGone(db.tables, m, obj)
    // unless a cascade statement was passed over, which is not reported, success also means that
    // all of the cascade is done and, with every relation's key bound, nothing refers to the row
    ensures rc == Ok && db.skipped == old(db.skipped) ==> db.tables == Deleted(old(db.tables), m, obj)
    ensures rc == Ok && db.skipped == old(db.skipped) ==> Effects(old(db.tables), db.tables, m, obj)
    ensures rc == Ok && db.skipped == old(db.skipped)
            && (forall i | 0 <= i < |m.relations| :: Bindable(m, m.relations[i], obj))
            ==> NothingRefers(db.tables, m, obj)
    ensures db.Willing() ==> db.skipped == old(db.skipped) && (Deletable(m) && !m.isView ==> rc == Ok)
    ensures db.RefusesCascades() && Deletable(m) && !m.isView ==>
              rc == Ok && db.tables == DeletedAlone(old(db.tables), m, obj)
    ensures m.deleteByPk.None? || m.isView ==> rc != Ok && db.tables == old(db.tables)
    // a row that cannot be deleted for want of a usable key has lost its children all the same
    ensures db.Willing() && m.deleteByPk.Some? && !m.isView && !Deletable(m) ==>
              rc != Ok && db.tables == AfterCascade(old(db.tables), m, obj, |m.relations|)
  {
    ghost var start := db.tables;
    if m.deleteByPk.None? {
      return Unknown;
    }
    if m.isView {
      return ReadOnly;
    }
    var ok;
    if beforeHook {
      ok := db.Call(Work);
      if !ok {
        return Refused;
      }
    }
    ok := CascadeAll(db, m, obj, db.Willing(), db.RefusesCascades());
    if !ok {
      return Refused;
    }
    ghost var cascaded := db.tables;
    rc := DeleteRow(db, m, obj, start);
    if rc != Ok {
      return;
    }
    AfterDelete(start, cascaded, m, obj);
    DeletedEffects(start, m, obj);
    if afterHook {
      ok := db.Call(Work);
      if !ok {
        return Refused;
      }
    }
  }

  lemma AfterDelete(start: Tables, cascaded: Tables, m: Meta, obj: seq<Value>)
    requires |obj| == |m.columns| && m.deleteByPk.Some?
    ensures var s := DeleteKeyed(m.name, m.deleteByPk.value, PkValues(m.columns, obj));
            && RowGone(Apply(cascaded, s), m, obj)
            && (cascaded == AfterCascade(start, m, obj, |m.relations|)
                && (forall i | 0 <= i < |m.relations| :: Bindable(m, m.relations[i], obj))
                ==> NothingRefers(Apply(cascaded, s), m, obj))
  {
    var s := DeleteKeyed(m.name, m.deleteByPk.value, PkValues(m.columns, obj));
    WithoutKeyedIs(RowsOf(cascaded, m.name), m.deleteByPk.value, PkValues(m.columns, obj));
    if cascaded == AfterCascade(start, m, obj, |m.relations|)
       && forall i | 0 <= i < |m.relations| :: Bindable(m, m.relations[i], obj)
    {
      CascadeClears(start, m, obj);
      ApplyKeepsNothingRefers(cascaded, m, obj, s);
    }
  }

  /** A driver that refuses cascade statements only: the call succeeds and no other table changes. */
  method PassedOver(tables: Tables, m: Meta, obj: seq<Value>) returns (rc: Rc, db: Store)
    requires |obj| == |m.columns| && PlaceholderPerKey(m, obj) && Deletable(m) && !m.isView
    ensures rc == Ok && forall t: string | t != m.name :: RowsOf(db.tables, t) == RowsOf(tables, t)
  {
    db := new Store(tables, (asked: Asked, n: nat) => asked.CascadeStep?);
    rc := DeleteObject(db, m, obj, false, false);
  }

  /** A row with an INT32 primary key, and children that refer to a key column of another type. */
  const UNBOUND := Meta("parent", false, [ColumnMeta("id", ColumnType.Int32, true),
                                          ColumnMeta("code", ColumnType.Other, false)],
                        [Relation(OneToMany, Some("child"), "code", "fk", OnDelete.Delete, "", "", "")], Some(["id"]))

  /** It is deleted, and its child still refers to it. */
  lemma UnboundKeyLeavesChild()
    ensures var obj, db := [Int(1), Int(5)], map["child" := [map["fk" := Int(5)]]];
            && Deletable(UNBOUND) && PlaceholderPerKey(UNBOUND, obj)
            && map["fk" := Int(5)] in RowsOf(Deleted(db, UNBOUND, obj), "child")
            && !NothingRefers(Deleted(db, UNBOUND, obj), UNBOUND, obj)
  {
    var obj: seq<Value>, db: Tables := [Int(1), Int(5)], map["child" := [map["fk" := Int(5)]]];
    var r := UNBOUND.relations[0];
    assert UNBOUND.columns[0].isPk;
    assert UNBOUND.columns[..1] == [UNBOUND.columns[0]] && obj[..1] == [Int(1)];
    assert PkValues(UNBOUND.columns[..1], obj[..1]) == [Int(1)] by { assert UNBOUND.columns[..1][..0] == []; }
    assert ColumnIndex(UNBOUND.columns, "code") == 1;
    assert OwnStatements(UNBOUND, obj, 0) == [DeleteWhere("child", "fk", Null)];
    LoneRowOutlives(db, r, Null, "child", "fk", Int(5));
    assert AfterCascade(db, UNBOUND, obj, 0) == db;
    var after := AfterCascade(db, UNBOUND, obj, 1);
    assert RowsOf(after, "child") == [map["fk" := Int(5)]];
    assert RowsOf(Deleted(db, UNBOUND, obj), "child") == RowsOf(after, "child");
    assert SqlEq(Get(map["fk" := Int(5)], "fk"), Int(5));
    assert !Cleared(Deleted(db, UNBOUND, obj), r, Int(5));
  }

  // ----- c_orm_sync

  /** get_int_field: an integer column that is not NULL. */
  function IntField(columns: seq<ColumnMeta>, obj: seq<Value>, name: string): Option<int>
    requires |obj| == |columns|
  {
    var i := ColumnIndex(columns, name);
    if i < |columns| && (columns[i].ctype.Int32? || columns[i].ctype.Int64?) && obj[i].Int? then Some(obj[i].i)
    else None
  }

  /** The first column of that name is an integer column and holds x. */
  ghost predicate Holds(columns: seq<ColumnMeta>, obj: seq<Value>, name: string, x: int)
    requires |obj| == |columns|
  {
    exists k :: && 0 <= k < |columns| && columns[k].name == name && (forall j | 0 <= j < k :: columns[j].name != name)
                && columns[k].ctype in {ColumnType.Int32, ColumnType.Int64} && obj[k] == Int(x)
  }

  lemma IntFieldIff(columns: seq<ColumnMeta>, obj: seq<Value>, name: string, x: int)
    requires |obj| == |columns|
    ensures IntField(columns, obj, name) == Some(x) <==> Holds(columns, obj, name, x)
  {
    var i := ColumnIndex(columns, name);
    if Holds(columns, obj, name, x) {
      var k :| && 0 <= k < |columns| && columns[k].name == name && (forall j | 0 <= j < k :: columns[j].name != name)
               && columns[k].ctype in {ColumnType.Int32, ColumnType.Int64} && obj[k] == Int(x);
      assert k == i;
    }
    if IntField(columns, obj, name) == Some(x) {
      assert columns[i].name == name && obj[i] == Int(x);
    }
  }

  method GetIntField(columns: seq<ColumnMeta>, obj: seq<Value>, name: string) returns (rc: Rc, x: int)
    requires |obj| == |columns|
    ensures rc == Ok ==> IntField(columns, obj, name) == Some(x)
    ensures rc != Ok ==> IntField(columns, obj, name).None?
    ensures rc == Ok || rc == TypeMismatch || rc == NotFound
    ensures rc == TypeMismatch <==>
              exists k :: && 0 <= k < |columns| && columns[k].name == name
                          && (forall j | 0 <= j < k :: columns[j].name != name)
                          && columns[k].ctype !in {ColumnType.Int32, ColumnType.Int64}
  {
    var i := FindColumn(columns, name);
    if i == |columns| {
      return NotFound, 0;
    }
    if !columns[i].ctype.Int32? && !columns[i].ctype.Int64? {
      return TypeMismatch, 0;
    }
    // a null pointer, or no integer
    if !obj[i].Int? {
      return NotFound, 0;
    }
    return Ok, obj[i].i;
  }

  function LinkRow(r: Relation, parent: int, child: int): Record {
    map[r.joinLocalKey := Int(parent), r.joinForeignKey := Int(child)]
  }

  function NewLinks(r: Relation, parent: int, children: seq<int>): seq<Record> {
    if children == [] then []
    else NewLinks(r, parent, children[..|children| - 1]) + [LinkRow(r, parent, children[|children| - 1])]
  }

  /** The join table after a sync: other parents' rows, then one row a child. */
  function Synced(join: seq<Record>, r: Relation, parent: int, children: seq<int>): seq<Record> {
    Without(join, r.joinLocalKey, [Int(parent)]) + NewLinks(r, parent, children)
  }

  /** The children's keys; None if one has none. */
  function ChildKeys(columns: seq<ColumnMeta>, children: seq<seq<Value>>, name: string): Option<seq<int>>
    requires forall i | 0 <= i < |children| :: |children[i]| == |columns|
  {
    if children == [] then Some([])
    else
      var init := ChildKeys(columns, children[..|children| - 1], name);
      var last := IntField(columns, children[|children| - 1], name);
      if init.None? || last.None? then None else Some(init.value + [last.value])
  }

  lemma {:induction false} LinksAppend(a: seq<Record>, b: seq<Record>, col: string, keyCol: string, v: Value)
    ensures Links(a + b, col, keyCol, v) == Links(a, col, keyCol, v) + Links(b, col, keyCol, v)
  {
    if a == [] {
      assert a + b == b;
    } else {
      assert (a + b)[0] == a[0] && (a + b)[1..] == a[1..] + b;
      LinksAppend(a[1..], b, col, keyCol, v);
      Assoc(if SqlEq(Get(a[0], keyCol), v) then [Get(a[0], col)] else [],
            Links(a[1..], col, keyCol, v), Links(b, col, keyCol, v));
    }
  }

  lemma {:induction false} WithoutLinks(join: seq<Record>, col: string, keyCol: string, gone: Value, v: Value)
    requires gone != Null
    ensures Links(Without(join, keyCol, [gone]), col, keyCol, v) ==
            if v == gone then [] else Links(join, col, keyCol, v)
  {
    if join != [] {
      WithoutLinks(join[1..], col, keyCol, gone, v);
      var x := Get(join[0], keyCol);
      assert SqlIn(x, [gone]) <==> x == gone by {
        if x == gone { assert SqlEq(x, [gone][0]); }
      }
      var head := if SqlIn(x, [gone]) then [] else [join[0]];
      LinksAppend(head, Without(join[1..], keyCol, [gone]), col, keyCol, v);
      if head != [] { assert head[1..] == [] && Links([], col, keyCol, v) == []; }
    }
  }

  function Ints(xs: seq<int>): seq<Value> {
    seq(|xs|, i requires 0 <= i < |xs| => Int(xs[i]))
  }

  lemma {:induction false} LinksOfNew(r: Relation, parent: int, children: seq<int>, v: Value)
    requires r.joinLocalKey != r.joinForeignKey
    ensures Links(NewLinks(r, parent, children), r.joinForeignKey, r.joinLocalKey, v)
            == if v == Int(parent) then Ints(children) else []
  {
    if children != [] {
      var last := |children| - 1;
      var front, row := children[..last], LinkRow(r, parent, children[last]);
      LinksOfNew(r, parent, front, v);
      var links := NewLinks(r, parent, front);
      assert NewLinks(r, parent, children) == links + [row];
      LinksAppend(links, [row], r.joinForeignKey, r.joinLocalKey, v);
      OneLink(row, r.joinForeignKey, r.joinLocalKey, v);
      IntsOfLast(children);
      assert Get(row, r.joinLocalKey) == Int(parent) && Get(row, r.joinForeignKey) == Int(children[last]);
    }
  }

  lemma IntsOfLast(children: seq<int>)
    requires children != []
    ensures Ints(children) == Ints(children[..|children| - 1]) + [Int(children[|children| - 1])]
  {
  }

  lemma OneLink(row: Record, col: string, keyCol: string, v: Value)
    ensures Links([row], col, keyCol, v) == if SqlEq(Get(row, keyCol), v) then [Get(row, col)] else []
  {
    assert [row][1..] == [] && Links([], col, keyCol, v) == [];
  }

  lemma KeptAndAdded(kept: seq<Value>, added: seq<Value>)
    ensures kept == [] ==> kept + added == added
    ensures added == [] ==> kept + added == kept
  {
  }

  /** A sync makes the parent's links exactly the given children, in their order, and leaves every
      other parent's links as they were. */
  lemma SyncReplacesLinks(join: seq<Record>, r: Relation, parent: int, children: seq<int>, v: Value)
    requires r.joinLocalKey != r.joinForeignKey
    ensures Links(Synced(join, r, parent, children), r.joinForeignKey, r.joinLocalKey, v)
            == if v == Int(parent) then Ints(children) else Links(join, r.joinForeignKey, r.joinLocalKey, v)
  {
    var kept, added := Without(join, r.joinLocalKey, [Int(parent)]), NewLinks(r, parent, children);
    assert Synced(join, r, parent, children) == kept + added;
    WithoutLinks(join, r.joinForeignKey, r.joinLocalKey, Int(parent), v);
    LinksOfNew(r, parent, children, v);
    LinksAppend(kept, added, r.joinForeignKey, r.joinLocalKey, v);
    KeptAndAdded(Links(kept, r.joinForeignKey, r.joinLocalKey, v), Links(added, r.joinForeignKey, r.joinLocalKey, v));
  }

  /** The other parents' rows are left, in order, and behind them stands one row for each child. */
  ghost predicate LinksReplaced(before: seq<Record>, after: seq<Record>, r: Relation, parent: int, keys: seq<int>) {
    |keys| <= |after| &&
    var n := |after| - |keys|;
    && OnlyGone(before, after[..n], Having(r.joinLocalKey, Int(parent)))
    && forall k | n <= k < |after| ::
         after[k] == map[r.joinLocalKey := Int(parent), r.joinForeignKey := Int(keys[k - n])]
  }

  /** What a sync is to do: the parent's links become its children's keys, and nothing else changes. */
  ghost predicate SyncDone(before: Tables, after: Tables, r: Relation, columns: seq<ColumnMeta>, obj: seq<Value>,
                           targetColumns: seq<ColumnMeta>, children: seq<seq<Value>>, parent: int, keys: seq<int>)
    requires |obj| == |columns| && forall i | 0 <= i < |children| :: |children[i]| == |targetColumns|
  {
    && Holds(columns, obj, r.localKey, parent)
    && |keys| == |children| && (forall i | 0 <= i < |keys| :: Holds(targetColumns, children[i], r.foreignKey, keys[i]))
    && LinksReplaced(RowsOf(before, r.joinTable), RowsOf(after, r.joinTable), r, parent, keys)
    && forall t: string | t != r.joinTable :: RowsOf(after, t) == RowsOf(before, t)
  }

  lemma {:induction false} NewLinksAt(r: Relation, parent: int, keys: seq<int>)
    ensures |NewLinks(r, parent, keys)| == |keys|
    ensures forall i | 0 <= i < |keys| ::
              NewLinks(r, parent, keys)[i] == map[r.joinLocalKey := Int(parent), r.joinForeignKey := Int(keys[i])]
  {
    if keys != [] {
      NewLinksAt(r, parent, keys[..|keys| - 1]);
    }
  }

  lemma {:induction false} ChildKeysAt(columns: seq<ColumnMeta>, children: seq<seq<Value>>, name: string)
    requires forall i | 0 <= i < |children| :: |children[i]| == |columns|
    requires ChildKeys(columns, children, name).Some?
    ensures var keys := ChildKeys(columns, children, name).value;
            |keys| == |children| && forall i | 0 <= i < |keys| :: Holds(columns, children[i], name, keys[i])
  {
    if children != [] {
      var last := |children| - 1;
      ChildKeysAt(columns, children[..last], name);
      IntFieldIff(columns, children[last], name, ChildKeys(columns, children, name).value[last]);
    }
  }

  lemma SyncedLinks(join: seq<Record>, r: Relation, parent: int, keys: seq<int>)
    ensures LinksReplaced(join, Synced(join, r, parent, keys), r, parent, keys)
  {
    var kept := Without(join, r.joinLocalKey, [Int(parent)]);
    NewLinksAt(r, parent, keys);
    DeleteLeaves(join, r.joinLocalKey, Int(parent));
    assert Synced(join, r, parent, keys)[..|kept|] == kept;
  }

  /** c_orm_sync for a many-to-many relation. It is not a transaction: what a failure leaves is
      nothing, or the old links gone and the first few new ones there. */
  method SyncLinks(db: Store, r: Relation, columns: seq<ColumnMeta>, obj: seq<Value>,
                   targetColumns: seq<ColumnMeta>, children: seq<seq<Value>>) returns (rc: Rc)
    requires r.joinLocalKey != r.joinForeignKey
    requires |obj| == |columns| && forall i | 0 <= i < |children| :: |children[i]| == |targetColumns|
    modifies db
    ensures rc == Ok ==>
              var parent := IntField(columns, obj, r.localKey);
              var keys := ChildKeys(targetColumns, children, r.foreignKey);
              && parent.Some? && keys.Some?
              && db.tables ==
                 old(db.tables)[r.joinTable := Synced(RowsOf(old(db.tables), r.joinTable), r, parent.value, keys.value)]
    ensures rc == Ok ==> exists parent, keys ::
              SyncDone(old(db.tables), db.tables, r, columns, obj, targetColumns, children, parent, keys)
    ensures rc != Ok ==>
              || db.tables == old(db.tables)
              || HalfSynced(old(db.tables), db.tables, r, columns, obj, targetColumns, children)
    ensures db.Willing() && IntField(columns, obj, r.localKey).Some?
            && ChildKeys(targetColumns, children, r.foreignKey).Some?
            ==> rc == Ok
  {
    ghost var start := db.tables;
    var parent;
    rc, parent := GetIntField(columns, obj, r.localKey);
    if rc != Ok {
      return;
    }
    var ok := db.Execute(DeleteWhere(r.joinTable, r.joinLocalKey, Int(parent)));
    ghost var half := start[r.joinTable := Synced(RowsOf(start, r.joinTable), r, parent, [])];
    ghost var kept := Without(RowsOf(start, r.joinTable), r.joinLocalKey, [Int(parent)]);
    assert kept + [] == kept;
    assert Synced(RowsOf(start, r.joinTable), r, parent, []) == kept;
    assert Apply(start, DeleteWhere(r.joinTable, r.joinLocalKey, Int(parent))) == half;
    assert HalfWay(start, half, r, parent, targetColumns, children, 0) by {
      assert children[..0] == [];
    }
    if !ok {
      return Refused;
    }
    ok := db.Call(Work);
    if !ok {
      return Refused;
    }
    rc := InsertLinks(db, r, parent, targetColumns, children, start);
    assert children[..|children|] == children;
    if rc == Ok {
      DoneIsDone(start, db.tables, r, columns, obj, targetColumns, children);
    }
  }

  lemma DoneIsDone(start: Tables, db: Tables, r: Relation, columns: seq<ColumnMeta>, obj: seq<Value>,
                   targetColumns: seq<ColumnMeta>, children: seq<seq<Value>>)
    requires |obj| == |columns| && forall i | 0 <= i < |children| :: |children[i]| == |targetColumns|
    requires IntField(columns, obj, r.localKey).Some?
    requires HalfWay(start, db, r, IntField(columns, obj, r.localKey).value, targetColumns, children, |children|)
    ensures exists parent, keys :: SyncDone(start, db, r, columns, obj, targetColumns, children, parent, keys)
  {
    assert children[..|children|] == children;
    var parent := IntField(columns, obj, r.localKey).value;
    var keys := ChildKeys(targetColumns, children, r.foreignKey).value;
    IntFieldIff(columns, obj, r.localKey, parent);
    ChildKeysAt(targetColumns, children, r.foreignKey);
    SyncedLinks(RowsOf(start, r.joinTable), r, parent, keys);
    assert SyncDone(start, db, r, columns, obj, targetColumns, children, parent, keys);
  }

  /** The first i children are linked. */
  ghost predicate HalfWay(start: Tables, db: Tables, r: Relation, parent: int, targetColumns: seq<ColumnMeta>,
                          children: seq<seq<Value>>, i: nat)
    requires forall k | 0 <= k < |children| :: |children[k]| == |targetColumns|
  {
    && i <= |children|
    && var keys := ChildKeys(targetColumns, children[..i], r.foreignKey);
       keys.Some? && db == start[r.joinTable := Synced(RowsOf(start, r.joinTable), r, parent, keys.value)]
  }

  ghost predicate HalfSynced(start: Tables, db: Tables, r: Relation, columns: seq<ColumnMeta>, obj: seq<Value>,
                             targetColumns: seq<ColumnMeta>, children: seq<seq<Value>>)
    requires |obj| == |columns| && forall i | 0 <= i < |children| :: |children[i]| == |targetColumns|
  {
    var parent := IntField(columns, obj, r.localKey);
    parent.Some? && SomeWay(start, db, r, parent.value, targetColumns, children)
  }

  /** Some of the first children are linked. */
  ghost predicate SomeWay(start: Tables, db: Tables, r: Relation, parent: int, targetColumns: seq<ColumnMeta>,
                          children: seq<seq<Value>>)
    requires forall k | 0 <= k < |children| :: |children[k]| == |targetColumns|
  {
    exists i :: HalfWay(start, db, r, parent, targetColumns, children, i)
  }

  lemma SoFar(start: Tables, db: Tables, r: Relation, parent: int, targetColumns: seq<ColumnMeta>,
              children: seq<seq<Value>>, i: nat)
    requires forall k | 0 <= k < |children| :: |children[k]| == |targetColumns|
    requires HalfWay(start, db, r, parent, targetColumns, children, i)
    ensures SomeWay(start, db, r, parent, targetColumns, children)
  {}

  /** The loop that inserts the new links through one prepared statement. */
  method InsertLinks(db: Store, r: Relation, parent: int, targetColumns: seq<ColumnMeta>, children: seq<seq<Value>>,
                     ghost start: Tables) returns (rc: Rc)
    requires forall i | 0 <= i < |children| :: |children[i]| == |targetColumns|
    requires HalfWay(start, db.tables, r, parent, targetColumns, children, 0)
    modifies db`clock, db`tables
    ensures SomeWay(start, db.tables, r, parent, targetColumns, children)
    ensures rc == Ok ==> HalfWay(start, db.tables, r, parent, targetColumns, children, |children|)
    ensures db.Willing() && ChildKeys(targetColumns, children, r.foreignKey).Some? ==> rc == Ok
  {
    var i := 0;
    while i < |children|
      invariant 0 <= i <= |children|
      invariant HalfWay(start, db.tables, r, parent, targetColumns, children, i)
    {
      var child;
      rc, child := GetIntField(targetColumns, children[i], r.foreignKey);
      if rc != Ok {
        ChildKeysPrefix(targetColumns, children, r.foreignKey, i + 1);
        assert children[..i + 1][..i] == children[..i];
        var _ := db.Call(Work);
        SoFar(start, db.tables, r, parent, targetColumns, children, i);
        return;
      }
      var ok := db.Call(Work);
      SoFar(start, db.tables, r, parent, targetColumns, children, i);
      if !ok {
        return Refused;
      }
      OneMore(start, db.tables, r, parent, targetColumns, children, i, child);
      db.tables := db.tables[r.joinTable := RowsOf(db.tables, r.joinTable) + [LinkRow(r, parent, child)]];
      i := i + 1;
      SoFar(start, db.tables, r, parent, targetColumns, children, i);
      ok := db.Call(Work);
      if !ok {
        return Refused;
      }
    }
    var ok := db.Call(Work);
    SoFar(start, db.tables, r, parent, targetColumns, children, |children|);
    return if ok then Ok else Refused;
  }

  lemma OneMore(start: Tables, db: Tables, r: Relation, parent: int, targetColumns: seq<ColumnMeta>,
                children: seq<seq<Value>>, i: nat, child: int)
    requires forall k | 0 <= k < |children| :: |children[k]| == |targetColumns|
    requires i < |children| && HalfWay(start, db, r, parent, targetColumns, children, i)
    requires IntField(targetColumns, children[i], r.foreignKey) == Some(child)
    ensures HalfWay(start, db[r.joinTable := RowsOf(db, r.joinTable) + [LinkRow(r, parent, child)]], r, parent,
                    targetColumns, children, i + 1)
  {
    assert children[..i + 1][..i] == children[..i];
    var keys := ChildKeys(targetColumns, children[..i], r.foreignKey).value;
    assert (keys + [child])[..|keys|] == keys;
    Assoc(Without(RowsOf(start, r.joinTable), r.joinLocalKey, [Int(parent)]), NewLinks(r, parent, keys),
          [LinkRow(r, parent, child)]);
  }

  lemma {:induction false} ChildKeysPrefix(columns: seq<ColumnMeta>, children: seq<seq<Value>>, name: string, i: nat)
    requires forall k | 0 <= k < |children| :: |children[k]| == |columns|
    requires i <= |children| && ChildKeys(columns, children[..i], name).None?
    ensures ChildKeys(columns, children, name).None?
    decreases |children| - i
  {
    if i == |children| {
      assert children[..i] == children;
    } else {
      assert children[..i + 1][..i] == children[..i];
      ChildKeysPrefix(columns, children, name, i + 1);
    }
  }
}
