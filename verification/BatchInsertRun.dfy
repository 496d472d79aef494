/** c_orm_insert_batch_ext itself: two loop nests per chunk inside one transaction. */
module BatchInsertRun {
  import opened BatchInsert
  import opened BatchLimits
  import opened Database
  import opened Hydration
  import opened Optional
  import opened Sequences
  import opened Sql
  import opened SqlText

  /** What the generator yields for each column of one item; None where it gets no memory. */
  type Generated = nat -> Option<string>

  predicate Bindable(meta: TableMeta, item: Item, uuid: Generated)
    requires TypedItem(meta, item)
  {
    forall c | 0 <= c < |item| :: BindField(meta.columns[c], item[c], uuid(c)).Some?
  }

  predicate AllBindable(meta: TableMeta, items: seq<Item>, uuids: seq<Generated>)
    requires TypedItems(meta, items) && |uuids| == |items|
  {
    forall j | 0 <= j < |items| :: Bindable(meta, items[j], uuids[j])
  }

  /** The items from i on, up to n, can all be bound. */
  predicate BindableFrom(meta: TableMeta, items: seq<Item>, uuids: seq<Generated>, i: nat, n: nat)
    requires TypedItems(meta, items) && |uuids| == |items| && n <= |items|
  {
    forall j | i <= j < n :: Bindable(meta, items[j], uuids[j])
  }

  /** The row an item becomes; `uuid` fills its empty text primary keys. */
  function RowOf(meta: TableMeta, item: Item, uuid: Generated): (row: Row)
    requires TypedItem(meta, item)
    ensures |row| == |meta.columns|
  {
    seq(|item|, c requires 0 <= c < |item| => ValueOr(BindField(meta.columns[c], item[c], uuid(c))))
  }

  function RowsOf(meta: TableMeta, items: seq<Item>, uuids: seq<Generated>): (rows: seq<Row>)
    requires TypedItems(meta, items) && |uuids| == |items|
    ensures |rows| == |items| && WideRows(meta, rows)
    ensures forall j | 0 <= j < |rows| :: rows[j] == RowOf(meta, items[j], uuids[j])
  {
    seq(|items|, j requires 0 <= j < |items| => RowOf(meta, items[j], uuids[j]))
  }

  /** Every column of the row is what the driver is to hold for the item's field. */
  ghost predicate RowCarries(meta: TableMeta, item: Item, uuid: Generated, row: Row)
    requires |item| == |row| == |meta.columns|
  {
    forall c | 0 <= c < |row| :: Carries(meta.columns[c], item[c], uuid(c), row[c])
  }

  ghost predicate RowsCarry(meta: TableMeta, items: seq<Item>, uuids: seq<Generated>, rows: seq<Row>)
    requires TypedItems(meta, items) && |uuids| == |items| == |rows| && WideRows(meta, rows)
  {
    forall j | 0 <= j < |rows| :: RowCarries(meta, items[j], uuids[j], rows[j])
  }

  ghost predicate ItemCanBind(meta: TableMeta, item: Item, uuid: Generated)
    requires |item| == |meta.columns|
  {
    forall c | 0 <= c < |item| :: CanBind(meta.columns[c], item[c], uuid(c))
  }

  ghost predicate AllCanBind(meta: TableMeta, items: seq<Item>, uuids: seq<Generated>)
    requires TypedItems(meta, items) && |uuids| == |items|
  {
    forall j | 0 <= j < |items| :: ItemCanBind(meta, items[j], uuids[j])
  }

  lemma BindableIff(meta: TableMeta, item: Item, uuid: Generated)
    requires TypedItem(meta, item)
    ensures Bindable(meta, item, uuid) <==> ItemCanBind(meta, item, uuid)
    ensures Bindable(meta, item, uuid) ==> RowCarries(meta, item, uuid, RowOf(meta, item, uuid))
  {
    forall c | 0 <= c < |item|
      ensures BindField(meta.columns[c], item[c], uuid(c)).Some? <==> CanBind(meta.columns[c], item[c], uuid(c))
      ensures BindField(meta.columns[c], item[c], uuid(c)).Some? ==>
                Carries(meta.columns[c], item[c], uuid(c), BindField(meta.columns[c], item[c], uuid(c)).value)
    {
      BindFieldIff(meta.columns[c], item[c], uuid(c));
    }
  }

  lemma AllBindableIff(meta: TableMeta, items: seq<Item>, uuids: seq<Generated>)
    requires TypedItems(meta, items) && |uuids| == |items|
    ensures AllBindable(meta, items, uuids) <==> AllCanBind(meta, items, uuids)
    ensures AllBindable(meta, items, uuids) ==> RowsCarry(meta, items, uuids, RowsOf(meta, items, uuids))
  {
    forall j | 0 <= j < |items|
      ensures Bindable(meta, items[j], uuids[j]) <==> ItemCanBind(meta, items[j], uuids[j])
      ensures Bindable(meta, items[j], uuids[j]) ==>
                RowCarries(meta, items[j], uuids[j], RowOf(meta, items[j], uuids[j]))
    {
      BindableIff(meta, items[j], uuids[j]);
    }
  }

  /** The most rows that fit, and 1000 at most. */
  function AutoChunk(columns: nat): (n: nat)
    ensures n <= 1000 && (n < 1000 ==> (n + 1) * columns > PARAMETER_LIMIT)
  {
    var perRow := if columns > 0 then columns else 1;
    var auto := PARAMETER_LIMIT / perRow;
    Divide(PARAMETER_LIMIT, perRow);
    if auto > 1000 then 1000 else auto
  }

  function ChunkSize(meta: TableMeta, requested: nat): (k: nat)
    ensures requested > 0 ==> k == requested
  {
    if requested != 0 then requested else AutoChunk(|meta.columns|)
  }

  /** A chosen chunk binds at most 30000 parameters, and is at least 1 exactly when one row
      fits under that limit. */
  lemma AutoChunkFits(meta: TableMeta, rows: seq<Row>)
    requires WideRows(meta, rows) && |rows| <= AutoChunk(|meta.columns|)
    ensures |InsertParams(rows)| <= PARAMETER_LIMIT
    ensures AutoChunk(|meta.columns|) >= 1 <==> |meta.columns| <= PARAMETER_LIMIT
  {
    CountInsertParams(meta, rows);
    var n := |meta.columns|;
    if n > 0 {
      Divide(PARAMETER_LIMIT, n);
      Scale(|rows|, PARAMETER_LIMIT / n, n);
    }
  }

  // ----- rendering

  method RenderNames(sb0: seq<Tok>, meta: TableMeta) returns (sb: seq<Tok>)
    ensures sb == sb0 + NamesText(meta.columns, |meta.columns|)
  {
    sb := sb0;
    for j := 0 to |meta.columns|
      invariant sb == sb0 + NamesText(meta.columns, j)
    {
      if j > 0 {
        sb := sb + [Comma];
      }
      sb := sb + [Name(meta.columns[j].name)];
    }
  }

  method RenderTuples(sb0: seq<Tok>, width: nat, n: nat) returns (sb: seq<Tok>)
    ensures sb == sb0 + TuplesText(width, n)
  {
    sb := sb0;
    for j := 0 to n
      invariant sb == sb0 + TuplesText(width, j)
    {
      ghost var before, sep := TuplesText(width, j), if j > 0 then [Comma] else [];
      if j > 0 {
        sb := sb + [Comma];
      }
      assert sb == sb0 + before + sep;
      sb := sb + [LParen];
      sb := RenderList(sb, width);
      sb := sb + [RParen];
      TupleAppended(sb0, before, sep, ListText(width));
    }
  }

  lemma TupleAppended(a: seq<Tok>, before: seq<Tok>, sep: seq<Tok>, list: seq<Tok>)
    ensures a + before + sep + [LParen] + list + [RParen] == a + (before + sep + ([LParen] + list + [RParen]))
  {
  }

  method RenderInsert(meta: TableMeta, n: nat, policy: Policy) returns (sb: seq<Tok>)
    ensures sb == InsertText(meta, n, policy)
  {
    sb := [InsertInto] + [Name(meta.name)] + [LParen];
    sb := RenderNames(sb, meta);
    sb := sb + [RParen, Values];
    sb := RenderTuples(sb, |meta.columns|, n);
    if policy.DoNothing? {
      sb := sb + [OnConflictDoNothing];
    }
  }

  // ----- binding

  /** bind_row: one parameter per column. A polygon that gets no memory counts as a refused call. */
  method BindRow(db: Db, meta: TableMeta, item: Item, uuid: Generated, bs0: Bindings, ghost acc: seq<Value>,
                 bindIdx0: nat)
    returns (ok: bool, bs: Bindings, bindIdx: nat)
    requires TypedItem(meta, item) && Binds(bs0, acc) && bindIdx0 == |acc| + 1
    modifies db`clock
    ensures ok ==>
              && Bindable(meta, item, uuid)
              && Binds(bs, acc + RowOf(meta, item, uuid)) && bindIdx == |acc| + |meta.columns| + 1
    ensures ok ==> RowCarries(meta, item, uuid, RowOf(meta, item, uuid))
    ensures ok ==> ItemCanBind(meta, item, uuid)
    ensures db.Willing() && ItemCanBind(meta, item, uuid) ==> ok
  {
    BindableIff(meta, item, uuid);
    bs, bindIdx, ok := bs0, bindIdx0, true;
    ghost var row := RowOf(meta, item, uuid);
    assert acc + row[..0] == acc;
    for i := 0 to |meta.columns|
      invariant ok && Binds(bs, acc + row[..i]) && bindIdx == |acc| + i + 1
      invariant forall c | 0 <= c < i :: BindField(meta.columns[c], item[c], uuid(c)).Some?
    {
      var v := BindField(meta.columns[i], item[i], uuid(i));
      ok := db.Call();
      if v.None? || !ok {
        return false, bs, bindIdx;
      }
      BindNext(bs, acc + row[..i], v.value);
      assert acc + row[..i] + [v.value] == acc + row[..i + 1];
      bs, bindIdx := bs[bindIdx := v.value], bindIdx + 1;
    }
    assert row[..|meta.columns|] == row;
  }

  /** The hooks before an item, then its row. */
  method BindItem(db: Db, meta: TableMeta, item: Item, uuid: Generated, bs0: Bindings, ghost acc: seq<Value>,
                  bindIdx0: nat)
    returns (rc: Rc, bs: Bindings, bindIdx: nat)
    requires TypedItem(meta, item) && Binds(bs0, acc) && bindIdx0 == |acc| + 1
    modifies db`clock
    ensures rc == Ok ==>
              && Bindable(meta, item, uuid)
              && Binds(bs, acc + RowOf(meta, item, uuid)) && bindIdx == |acc| + |meta.columns| + 1
    ensures rc == Ok || rc.at in {Hook, Bind}
    ensures db.Willing() && Bindable(meta, item, uuid) ==> rc == Ok
  {
    var ok := db.Call();
    if !ok {
      return Failed(Hook), bs0, bindIdx0;
    }
    ok := db.Call();
    if !ok {
      return Failed(Hook), bs0, bindIdx0;
    }
    BindableIff(meta, item, uuid);
    ok, bs, bindIdx := BindRow(db, meta, item, uuid, bs0, acc, bindIdx0);
    rc := if ok then Ok else Failed(Bind);
  }

  method BindChunk(db: Db, meta: TableMeta, chunk: seq<Item>, uuids: seq<Generated>) returns (rc: Rc, bs: Bindings)
    requires TypedItems(meta, chunk) && |uuids| == |chunk|
    modifies db`clock
    ensures rc == Ok ==> AllBindable(meta, chunk, uuids) && Binds(bs, InsertParams(RowsOf(meta, chunk, uuids)))
    ensures rc == Ok || rc.at in {Hook, Bind}
    ensures db.Willing() && AllBindable(meta, chunk, uuids) ==> rc == Ok
  {
    bs := map[];
    var bindIdx := 1;
    ghost var rows := RowsOf(meta, chunk, uuids);
    for j := 0 to |chunk|
      invariant Binds(bs, InsertParams(rows[..j])) && bindIdx == |InsertParams(rows[..j])| + 1
      invariant forall j' | 0 <= j' < j :: Bindable(meta, chunk[j'], uuids[j'])
    {
      rc, bs, bindIdx := BindItem(db, meta, chunk[j], uuids[j], bs, InsertParams(rows[..j]), bindIdx);
      if rc != Ok {
        return;
      }
      OneRowMore(rows, j);
    }
    assert rows[..|chunk|] == rows;
    return Ok, bs;
  }

  lemma OneRowMore(rows: seq<Row>, j: nat)
    requires j < |rows|
    ensures InsertParams(rows[..j + 1]) == InsertParams(rows[..j]) + rows[j]
  {
    assert rows[..j + 1][..j] == rows[..j];
  }

  // ----- one chunk and the whole batch

  lemma ChunkExec(meta: TableMeta, t: Table, rows: seq<Row>, policy: Policy, sql: seq<Tok>, bs: Bindings)
    requires DistinctColumns(meta) && WideRows(meta, t) && WideRows(meta, rows) && rows != [] && |meta.columns| > 0
    requires sql == InsertText(meta, |rows|, policy) && Binds(bs, InsertParams(rows))
    ensures Exec(meta, Fill(sql, ParamList(bs, Params(sql))), t) == InsertRows(meta, t, rows, policy.DoNothing?)
  {
    ChunkText(meta, t, rows, policy);
    BindsList(bs, InsertParams(rows));
  }

  method PrepareChunk(db: Db, meta: TableMeta, n: nat, policy: Policy) returns (rc: Rc, sql: seq<Tok>)
    modifies db`clock
    ensures rc == Ok ==> sql == InsertText(meta, n, policy) && |meta.columns| > 0
    ensures rc == Ok || rc.at in {Build, GetText, Prepare}
    ensures db.Willing() && |meta.columns| > 0 ==> rc == Ok
  {
    sql := RenderInsert(meta, n, policy);
    var ok := db.Call();
    if !ok {
      return Failed(Build), sql;
    }
    ok := db.Call();
    if !ok {
      return Failed(GetText), sql;
    }
    ok := db.Call();
    // an empty column list is a syntax error
    if !ok || |meta.columns| == 0 {
      return Failed(Prepare), sql;
    }
    return Ok, sql;
  }

  method StepChunk(db: Db, meta: TableMeta, rows: seq<Row>, policy: Policy, sql: seq<Tok>, bs: Bindings)
    returns (rc: Rc)
    requires DistinctColumns(meta) && WideRows(meta, db.table) && WideRows(meta, rows) && rows != []
             && |meta.columns| > 0
    requires sql == InsertText(meta, |rows|, policy) && Binds(bs, InsertParams(rows))
    modifies db`table, db`clock
    ensures rc == Ok ==> InsertRows(meta, old(db.table), rows, policy.DoNothing?) == Some(db.table)
    ensures rc == Ok || rc.at in {Step, Finalize}
    ensures db.Willing() && InsertRows(meta, old(db.table), rows, policy.DoNothing?).Some? ==> rc == Ok
  {
    ChunkExec(meta, db.table, rows, policy, sql, bs);
    var stepped := db.StepTo(Exec(meta, Fill(sql, ParamList(bs, Params(sql))), db.table));
    var ok := db.Call();
    if !ok {
      return Failed(Finalize);
    }
    return if stepped then Ok else Failed(Step);
  }

  method RunChunk(db: Db, meta: TableMeta, chunk: seq<Item>, uuids: seq<Generated>, policy: Policy) returns (rc: Rc)
    requires DistinctColumns(meta) && TypedItems(meta, chunk) && |uuids| == |chunk| && chunk != []
             && WideRows(meta, db.table)
    modifies db`table, db`clock
    ensures rc == Ok ==>
              && AllBindable(meta, chunk, uuids) && |meta.columns| > 0
              && InsertRows(meta, old(db.table), RowsOf(meta, chunk, uuids), policy.DoNothing?) == Some(db.table)
    ensures rc == Ok || rc.at in {Build, GetText, Prepare, Bind, Step, Finalize, Hook}
    ensures db.Willing() && AllBindable(meta, chunk, uuids) && |meta.columns| > 0
            && InsertRows(meta, old(db.table), RowsOf(meta, chunk, uuids), policy.DoNothing?).Some?
            ==> rc == Ok
  {
    var sql, bs;
    rc, sql := PrepareChunk(db, meta, |chunk|, policy);
    if rc != Ok {
      return;
    }
    rc, bs := BindChunk(db, meta, chunk, uuids);
    if rc != Ok {
      var finalized := db.Call();
      return if finalized then rc else Failed(Finalize);
    }
    rc := StepChunk(db, meta, RowsOf(meta, chunk, uuids), policy, sql, bs);
    if rc != Ok {
      return;
    }
    var ok := db.Hooks(2 * |chunk|);
    return if ok then Ok else Failed(Hook);
  }

  lemma SliceRows(meta: TableMeta, items: seq<Item>, uuids: seq<Generated>, i: nat, n: nat)
    requires TypedItems(meta, items) && |uuids| == |items| && i + n <= |items|
    ensures TypedItems(meta, items[i..i + n])
    ensures RowsOf(meta, items[i..i + n], uuids[i..i + n]) == RowsOf(meta, items, uuids)[i..i + n]
  {
  }

  /** Inserting the next chunk takes the rest of the rows one chunk further. */
  lemma ChunkStep(meta: TableMeta, t: Table, rows: seq<Row>, i: nat, n: nat, skip: bool)
    requires WideRows(meta, t) && WideRows(meta, rows) && i + n <= |rows|
    ensures InsertRows(meta, t, rows[i..], skip) ==
            var mid := InsertRows(meta, t, rows[i..i + n], skip);
            if mid.None? then None else InsertRows(meta, mid.value, rows[i + n..], skip)
  {
    assert rows[i..] == rows[i..i + n] + rows[i + n..];
    InsertSplit(meta, t, rows[i..i + n], rows[i + n..], skip);
  }

  /** From here, inserting the rows from i on ends in `goal`. */
  ghost predicate Leads(meta: TableMeta, t: Table, rows: seq<Row>, i: nat, skip: bool, goal: Option<Table>) {
    WideRows(meta, t) && WideRows(meta, rows) && i <= |rows| && InsertRows(meta, t, rows[i..], skip) == goal
  }

  lemma LeadsToEnd(meta: TableMeta, t: Table, rows: seq<Row>, i: nat, skip: bool, goal: Option<Table>)
    requires Leads(meta, t, rows, i, skip, goal) && i == |rows|
    ensures goal == Some(t)
  {
    assert rows[i..] == [];
  }

  /** One pass of the loop: the n items from i on. */
  method NextChunk(db: Db, meta: TableMeta, items: seq<Item>, uuids: seq<Generated>, i: nat, n: nat, policy: Policy,
                   ghost goal: Option<Table>)
    returns (rc: Rc)
    requires DistinctColumns(meta) && TypedItems(meta, items) && |uuids| == |items| && WideRows(meta, db.table)
    requires n > 0 && i + n <= |items|
    requires Leads(meta, db.table, RowsOf(meta, items, uuids), i, policy.DoNothing?, goal)
    modifies db`table, db`clock
    ensures rc == Ok ==> |meta.columns| > 0 && BindableFrom(meta, items, uuids, i, i + n)
    ensures rc == Ok ==> Leads(meta, db.table, RowsOf(meta, items, uuids), i + n, policy.DoNothing?, goal)
    ensures rc == Ok || rc.at in {Build, GetText, Prepare, Bind, Step, Finalize, Hook}
    ensures db.Willing() && AllBindable(meta, items, uuids) && |meta.columns| > 0 && goal.Some? ==> rc == Ok
  {
    SliceRows(meta, items, uuids, i, n);
    ChunkStep(meta, db.table, RowsOf(meta, items, uuids), i, n, policy.DoNothing?);
    SliceBindable(meta, items, uuids, i, n);
    rc := RunChunk(db, meta, items[i..i + n], uuids[i..i + n], policy);
  }

  /** The loop over the chunks, inside the transaction; `done` reports what the progress
      callback is told. */
  method InsertChunks(db: Db, meta: TableMeta, items: seq<Item>, uuids: seq<Generated>, k: nat, policy: Policy)
    returns (rc: Rc, done: nat)
    requires DistinctColumns(meta) && TypedItems(meta, items) && |uuids| == |items| && k > 0 && WideRows(meta, db.table)
    modifies db`table, db`clock
    ensures rc == Ok ==>
              && AllBindable(meta, items, uuids) && done == |items| && (items != [] ==> |meta.columns| > 0)
              && InsertRows(meta, old(db.table), RowsOf(meta, items, uuids), policy.DoNothing?) == Some(db.table)
    ensures rc == Ok || rc.at in {Build, GetText, Prepare, Bind, Step, Finalize, Hook}
    ensures db.Willing() && AllBindable(meta, items, uuids) && |meta.columns| > 0
            && InsertRows(meta, old(db.table), RowsOf(meta, items, uuids), policy.DoNothing?).Some?
            ==> rc == Ok
  {
    ghost var rows, skip := RowsOf(meta, items, uuids), policy.DoNothing?;
    ghost var goal := InsertRows(meta, db.table, rows, skip);
    assert rows[0..] == rows && Leads(meta, db.table, rows, 0, skip, goal);
    done := 0;
    var i := 0;
    while i < |items|
      invariant 0 <= i == done <= |items|
      invariant BindableFrom(meta, items, uuids, 0, i) && (i > 0 ==> |meta.columns| > 0)
      invariant Leads(meta, db.table, rows, i, skip, goal)
    {
      var actualChunk := k;
      if i + actualChunk > |items| {
        actualChunk := |items| - i;
      }
      rc := NextChunk(db, meta, items, uuids, i, actualChunk, policy, goal);
      if rc != Ok {
        return;
      }
      i := i + actualChunk;
      done := i;
    }
    LeadsToEnd(meta, db.table, rows, i, skip, goal);
    return Ok, done;
  }

  lemma SliceBindable(meta: TableMeta, items: seq<Item>, uuids: seq<Generated>, i: nat, n: nat)
    requires TypedItems(meta, items) && |uuids| == |items| && i + n <= |items|
    ensures TypedItems(meta, items[i..i + n])
    ensures AllBindable(meta, items[i..i + n], uuids[i..i + n]) <==> BindableFrom(meta, items, uuids, i, i + n)
  {
    var some, ids := items[i..i + n], uuids[i..i + n];
    forall j | 0 <= j < n ensures some[j] == items[i + j] && ids[j] == uuids[i + j] {
    }
    if AllBindable(meta, some, ids) {
      forall j | i <= j < i + n ensures Bindable(meta, items[j], uuids[j]) {
        assert Bindable(meta, some[j - i], ids[j - i]);
      }
    }
  }

  /** What inserting all items' rows comes to. */
  lemma InsertedRows(meta: TableMeta, t: Table, items: seq<Item>, uuids: seq<Generated>, policy: Policy)
    requires TypedItems(meta, items) && |uuids| == |items| && WideRows(meta, t)
    ensures var rows, skip := RowsOf(meta, items, uuids), policy.DoNothing?;
            && (!skip ==> (InsertRows(meta, t, rows, skip).Some? <==> AllNew(meta, t, rows)))
            && (!skip && AllNew(meta, t, rows) ==> InsertRows(meta, t, rows, skip) == Some(t + rows))
            && (skip ==> exists taken :: TakesNew(meta, t, rows, taken)
                                         && InsertRows(meta, t, rows, skip) == Some(t + At(rows, taken)))
            && (AllBindable(meta, items, uuids) <==> AllCanBind(meta, items, uuids))
            && (AllBindable(meta, items, uuids) ==> RowsCarry(meta, items, uuids, rows))
  {
    var rows := RowsOf(meta, items, uuids);
    AllBindableIff(meta, items, uuids);
    if policy.DoNothing? {
      var taken := SkippingTakesNew(meta, t, rows);
    } else {
      InsertAllIff(meta, t, rows);
      InsertKeepsAll(meta, t, rows);
    }
  }

  /** c_orm_insert_batch_ext. `uuids[j](c)` is what the generator yields for
      column c of item j. */
  method InsertBatch(db: Db, meta: TableMeta, items: seq<Item>, uuids: seq<Generated>, chunkSize: nat, policy: Policy)
    returns (rc: Rc)
    requires DistinctColumns(meta) && TypedItems(meta, items) && |uuids| == |items| && WideRows(meta, db.table)
    requires chunkSize == 0 ==> |meta.columns| <= PARAMETER_LIMIT
    modifies db
    ensures meta.isView ==> rc == Failed(View)
    ensures !meta.isView && items == [] ==> rc == Ok && db.table == old(db.table) && db.saved == old(db.saved)
    // success, for every chunk size: each item's row went in exactly once, as if one by one
    ensures rc == Ok && items != [] ==> db.saved.None? && AllBindable(meta, items, uuids)
    ensures rc == Ok && items != [] ==>
              InsertRows(meta, old(db.table), RowsOf(meta, items, uuids), policy.DoNothing?) == Some(db.table)
    ensures rc == Ok && items != [] && !policy.DoNothing? ==>
              db.table == old(db.table) + RowsOf(meta, items, uuids)
              && AllNew(meta, old(db.table), RowsOf(meta, items, uuids))
    // .. or, where conflicts are skipped, each row that was new when its turn came
    ensures rc == Ok && items != [] && policy.DoNothing? ==>
              exists taken :: TakesNew(meta, old(db.table), RowsOf(meta, items, uuids), taken)
                              && db.table == old(db.table) + At(RowsOf(meta, items, uuids), taken)
    ensures rc == Ok && items != [] ==> RowsCarry(meta, items, uuids, RowsOf(meta, items, uuids))
    // failure: the table is as it was at BEGIN, or the transaction is still open on that table
    ensures rc != Ok && !LeavesOpen(db.rollsBack, rc.at) ==> db.table == old(db.table) && db.saved == old(db.saved)
    ensures rc != Ok && LeavesOpen(db.rollsBack, rc.at) ==> db.saved == Some(old(db.table))
    // no failure without a cause
    ensures db.Willing() && old(db.saved).None? && !meta.isView && |meta.columns| > 0 && AllCanBind(meta, items, uuids)
            && (policy.DoNothing? || AllNew(meta, old(db.table), RowsOf(meta, items, uuids)))
            ==> rc == Ok
  {
    if meta.isView {
      return Failed(View);
    }
    if |items| == 0 {
      return Ok;
    }
    var k := ChunkSize(meta, chunkSize);
    AutoChunkFits(meta, []);
    var ok := db.BeginTx();
    if !ok {
      return Failed(Begin);
    }
    InsertedRows(meta, db.table, items, uuids, policy);
    var done;
    rc, done := InsertChunks(db, meta, items, uuids, k, policy);
    if rc != Ok {
      if rc.at != GetText {
        var _ := db.RollbackTx();
      }
      return;
    }
    ok := db.CommitTx();
    return if ok then Ok else Failed(Commit);
  }
}
