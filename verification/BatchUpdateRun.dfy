/** c_orm_update_batch itself: two loop nests per chunk inside one transaction. */
module BatchUpdateRun {
  import opened BatchLimits
  import opened BatchUpdate
  import opened BatchUpdateMeaning
  import opened BatchUpdateText
  import opened Database
  import opened Hydration
  import opened Optional
  import opened Sequences
  import opened Sql
  import opened SqlText

  /** The key as the switch on its column type binds it; other types are not implemented. */
  function BindKey(col: Column, f: Field): Option<Value> {
    if (col.ctype.Int32? || col.ctype.Int64?) && f.IntField? then Some(Int(f.i))
    else if col.ctype.Str? && f.TextField? then Some(Text(f.s))
    else if col.ctype.Str? then Some(Null)
    else None
  }

  /** The item as it reaches the driver. */
  function BoundOf(meta: TableMeta, pk: nat, item: Item): (b: Bound)
    requires pk < |meta.columns| && TypedItem(meta, item)
    ensures |b.vals| == |meta.columns|
  {
    Bound(ValueOr(BindKey(meta.columns[pk], item[pk])),
          seq(|meta.columns|, c requires 0 <= c < |meta.columns| => ValueOf(meta.columns[c], item[c])))
  }

  /** Keys are bound as they are; a key of another type stays NULL. */
  function ValueOf(col: Column, f: Field): Value
    requires Typed(col, f)
  {
    ValueOr(if col.isPk then BindKey(col, f) else BindField(col, f, None))
  }

  // ----- one update per item

  /** The struct after bind_row: an empty text key has been replaced by a generated one. */
  function Identified(meta: TableMeta, item: Item, uuid: nat -> Option<string>): (own: Item)
    requires TypedItem(meta, item)
    ensures TypedItem(meta, own)
  {
    seq(|item|, c requires 0 <= c < |item| =>
      if meta.columns[c].isPk && meta.columns[c].ctype.Str? && (item[c].NullPtr? || item[c].s == "") && uuid(c).Some?
      then TextField(uuid(c).value)
      else item[c])
  }

  predicate KeysAre(meta: TableMeta, row: Row, item: Item)
    requires TypedItem(meta, item) && |row| == |meta.columns|
  {
    forall c | 0 <= c < |row| && meta.columns[c].isPk :: SqlEq(row[c], ValueOr(BindKey(meta.columns[c], item[c])))
  }

  /** c_orm_update of one item, on one row: it sets every column, the key columns too, where all key
      columns are those of the struct. */
  function SingleUpdate(meta: TableMeta, row: Row, item: Item, uuid: nat -> Option<string>): Row
    requires TypedItem(meta, item) && |row| == |meta.columns|
  {
    var own := Identified(meta, item, uuid);
    if KeysAre(meta, row, own) then
      seq(|row|, c requires 0 <= c < |row| => ValueOr(BindField(meta.columns[c], own[c], uuid(c))))
    else row
  }

  /** No key column is secure, and no text key is empty. */
  predicate PlainKeys(meta: TableMeta, item: Item)
    requires TypedItem(meta, item)
  {
    forall c | 0 <= c < |item| && meta.columns[c].isPk ::
      && meta.columns[c].treatment.encrypt.None?
      && (meta.columns[c].ctype.Str? ==> item[c].TextField? && item[c].s != "")
  }

  lemma KeyAsItIs(col: Column, f: Field, v: Value, uuid: Option<string>)
    requires Typed(col, f) && col.treatment.encrypt.None? && (col.ctype.Str? ==> f.TextField? && f.s != "")
    requires BindKey(col, f) == Some(v)
    ensures BindField(col, f, uuid) == Some(v)
  {}

  /** For such an item c_orm_update writes its data to the row with its keys. */
  lemma SingleUpdateMeans(meta: TableMeta, pk: nat, row: Row, item: Item, uuid: nat -> Option<string>)
    requires TypedItem(meta, item) && |row| == |meta.columns| && pk < |row| && meta.columns[pk].isPk
    requires PlainKeys(meta, item)
    ensures var b := BoundOf(meta, pk, item);
            SingleUpdate(meta, row, item, uuid) == if KeyMatches(meta, pk, row, b) then Overwrite(meta, row, b) else row
  {
    var own, b := Identified(meta, item, uuid), BoundOf(meta, pk, item);
    assert own == item;
    forall c | 0 <= c < |row| && meta.columns[c].isPk
      ensures b.vals[c] == ValueOr(BindKey(meta.columns[c], item[c]))
    {}
    assert KeysAre(meta, row, item) <==> KeyMatches(meta, pk, row, b);
    if KeysAre(meta, row, item) {
      forall c | 0 <= c < |row|
        ensures SingleUpdate(meta, row, item, uuid)[c] == Overwrite(meta, row, b)[c]
      {
        if meta.columns[c].isPk {
          KeyAsItIs(meta.columns[c], item[c], row[c], uuid(c));
        } else {
          assert b.vals[c] == ValueOf(meta.columns[c], item[c]);
        }
        assert SingleUpdate(meta, row, item, uuid)[c] == ValueOr(BindField(meta.columns[c], own[c], uuid(c)));
      }
    }
  }

  /** An empty text key: c_orm_update looks for the generated key and leaves the row with the empty one;
      the batch takes the key as it is. */
  lemma EmptyKeyIsReplaced(meta: TableMeta, pk: nat, row: Row, item: Item, uuid: nat -> Option<string>)
    requires TypedItem(meta, item) && |row| == |meta.columns| && pk < |row| && SingleKey(meta, pk)
    requires meta.columns[pk].isPk && meta.columns[pk].ctype.Str? && item[pk] == TextField("") && row[pk] == Text("")
    requires uuid(pk).Some? && uuid(pk).value != ""
    ensures SingleUpdate(meta, row, item, uuid) == row
    ensures KeyMatches(meta, pk, row, BoundOf(meta, pk, item))
  {
    assert Identified(meta, item, uuid)[pk] == TextField(uuid(pk).value);
  }

  // ----- the items of a batch

  function BoundsOf(meta: TableMeta, pk: nat, items: seq<Item>): (bs: seq<Bound>)
    requires pk < |meta.columns| && TypedItems(meta, items)
    ensures |bs| == |items| && Wide(meta, bs) && forall j | 0 <= j < |bs| :: bs[j] == BoundOf(meta, pk, items[j])
  {
    seq(|items|, j requires 0 <= j < |items| => BoundOf(meta, pk, items[j]))
  }

  /** The key is the item's key as it is, and every other column what the driver is to hold for the field. */
  ghost predicate BoundCarries(meta: TableMeta, pk: nat, item: Item, b: Bound)
    requires pk < |meta.columns| && |item| == |b.vals| == |meta.columns|
  {
    && ReadBack(meta.columns[pk].ctype, true, b.pk) == Some(item[pk])
    && forall c | 0 <= c < |item| && !meta.columns[c].isPk :: Carries(meta.columns[c], item[c], None, b.vals[c])
  }

  ghost predicate BoundsCarry(meta: TableMeta, pk: nat, items: seq<Item>, bs: seq<Bound>)
    requires pk < |meta.columns| && TypedItems(meta, items) && |bs| == |items| && Wide(meta, bs)
  {
    forall j | 0 <= j < |items| :: BoundCarries(meta, pk, items[j], bs[j])
  }

  /** The first key column is an integer or text, and every other column can be bound. */
  ghost predicate ItemCanBind(meta: TableMeta, pk: nat, item: Item)
    requires pk < |meta.columns| && |item| == |meta.columns|
  {
    && meta.columns[pk].ctype in {ColType.Int32, ColType.Int64, ColType.Str}
    && (meta.columns[pk].ctype.Str? || item[pk] != NullPtr)
    && forall c | 0 <= c < |item| && !meta.columns[c].isPk :: CanBind(meta.columns[c], item[c], None)
  }

  ghost predicate AllCanBind(meta: TableMeta, pk: nat, items: seq<Item>)
    requires pk < |meta.columns| && TypedItems(meta, items)
  {
    forall j | 0 <= j < |items| :: ItemCanBind(meta, pk, items[j])
  }

  lemma BindableIff(meta: TableMeta, pk: nat, item: Item)
    requires pk < |meta.columns| && TypedItem(meta, item)
    ensures Bindable(meta, pk, item) <==> ItemCanBind(meta, pk, item)
    ensures Bindable(meta, pk, item) ==> BoundCarries(meta, pk, item, BoundOf(meta, pk, item))
  {
    var b := BoundOf(meta, pk, item);
    forall c | 0 <= c < |item| && !meta.columns[c].isPk
      ensures FieldBinds(meta, item, c) <==> CanBind(meta.columns[c], item[c], None)
      ensures FieldBinds(meta, item, c) ==> Carries(meta.columns[c], item[c], None, b.vals[c])
    {
      BindFieldIff(meta.columns[c], item[c], None);
      assert b.vals[c] == ValueOf(meta.columns[c], item[c]);
    }
  }

  lemma AllBindableIff(meta: TableMeta, pk: nat, items: seq<Item>)
    requires pk < |meta.columns| && TypedItems(meta, items)
    ensures AllBindable(meta, pk, items) <==> AllCanBind(meta, pk, items)
    ensures AllBindable(meta, pk, items) ==> BoundsCarry(meta, pk, items, BoundsOf(meta, pk, items))
  {
    forall j | 0 <= j < |items|
      ensures Bindable(meta, pk, items[j]) <==> ItemCanBind(meta, pk, items[j])
      ensures Bindable(meta, pk, items[j]) ==> BoundCarries(meta, pk, items[j], BoundOf(meta, pk, items[j]))
    {
      BindableIff(meta, pk, items[j]);
    }
  }

  predicate FieldBinds(meta: TableMeta, item: Item, c: nat)
    requires TypedItem(meta, item) && c < |meta.columns|
  {
    BindField(meta.columns[c], item[c], None).Some?
  }

  predicate ColumnBinds(meta: TableMeta, items: seq<Item>, c: nat)
    requires TypedItems(meta, items) && c < |meta.columns|
  {
    forall j | 0 <= j < |items| :: FieldBinds(meta, items[j], c)
  }

  /** The non-key columns among the first k can be bound for every item. */
  predicate ColumnsBind(meta: TableMeta, items: seq<Item>, k: nat)
    requires TypedItems(meta, items) && k <= |meta.columns|
  {
    forall c | 0 <= c < k && !meta.columns[c].isPk :: ColumnBinds(meta, items, c)
  }

  lemma ColumnsBindNext(meta: TableMeta, items: seq<Item>, k: nat)
    requires TypedItems(meta, items) && k < |meta.columns| && ColumnsBind(meta, items, k)
    requires meta.columns[k].isPk || ColumnBinds(meta, items, k)
    ensures ColumnsBind(meta, items, k + 1)
  {
  }

  predicate KeysBind(meta: TableMeta, items: seq<Item>, pk: nat)
    requires TypedItems(meta, items) && pk < |meta.columns|
  {
    forall j | 0 <= j < |items| :: BindKey(meta.columns[pk], items[j][pk]).Some?
  }

  /** Every value of the item has a type the driver can bind, and those to be encrypted can be. */
  predicate Bindable(meta: TableMeta, pk: nat, item: Item)
    requires pk < |meta.columns| && TypedItem(meta, item)
  {
    && BindKey(meta.columns[pk], item[pk]).Some?
    && forall c | 0 <= c < |item| && !meta.columns[c].isPk :: FieldBinds(meta, item, c)
  }

  predicate AllBindable(meta: TableMeta, pk: nat, items: seq<Item>)
    requires pk < |meta.columns| && TypedItems(meta, items)
  {
    forall j | 0 <= j < |items| :: Bindable(meta, pk, items[j])
  }

  lemma ColumnsBindItems(meta: TableMeta, pk: nat, items: seq<Item>)
    requires pk < |meta.columns| && TypedItems(meta, items) && KeysBind(meta, items, pk)
    requires ColumnsBind(meta, items, |meta.columns|)
    ensures AllBindable(meta, pk, items)
  {
  }

  lemma ItemsBindColumns(meta: TableMeta, pk: nat, items: seq<Item>)
    requires pk < |meta.columns| && TypedItems(meta, items)
    ensures AllBindable(meta, pk, items) ==>
              KeysBind(meta, items, pk) && ColumnsBind(meta, items, |meta.columns|)
  {
    if AllBindable(meta, pk, items) {
      forall c, j | 0 <= c < |meta.columns| && !meta.columns[c].isPk && 0 <= j < |items|
        ensures FieldBinds(meta, items[j], c)
      {
        assert Bindable(meta, pk, items[j]);
      }
      forall j | 0 <= j < |items| ensures BindKey(meta.columns[pk], items[j][pk]).Some? {
        assert Bindable(meta, pk, items[j]);
      }
    }
  }

  /** The first key column. */
  function KeyColumn(columns: seq<Column>): (r: Option<nat>)
    ensures r.Some? ==> r.value < |columns| && columns[r.value].isPk && forall c | 0 <= c < r.value :: !columns[c].isPk
    ensures r.None? <==> forall c | 0 <= c < |columns| :: !columns[c].isPk
  {
    if columns == [] then None
    else if columns[0].isPk then Some(0)
    else
      var r := KeyColumn(columns[1..]);
      if r.Some? then Some(r.value + 1)
      else assert forall c | 0 < c < |columns| :: columns[c] == columns[1..][c - 1]; None
  }

  /** The chunk size in effect; 0 asks for one that keeps the parameters under the limit. */
  function ChunkSize(meta: TableMeta, requested: nat): (k: nat)
    requires |meta.columns| > 0
    ensures requested > 0 ==> k == requested
  {
    if requested != 0 then requested
    else AutoChunk((|meta.columns| - 1) * 2 + 1)
  }

  /** The most rows that fit, and 500 at most. */
  function AutoChunk(paramsPerRow: nat): (n: nat)
    requires paramsPerRow > 0
    ensures n <= 500 && (n < 500 ==> (n + 1) * paramsPerRow > PARAMETER_LIMIT)
  {
    var auto := PARAMETER_LIMIT / paramsPerRow;
    Divide(PARAMETER_LIMIT, paramsPerRow);
    if auto > 500 then 500 else auto
  }

  lemma AutoChunkBounds(paramsPerRow: nat, n: nat)
    requires paramsPerRow > 0
    ensures n <= AutoChunk(paramsPerRow) ==> n * paramsPerRow <= PARAMETER_LIMIT
    ensures AutoChunk(paramsPerRow) >= 1 <==> paramsPerRow <= PARAMETER_LIMIT
  {
    Divide(PARAMETER_LIMIT, paramsPerRow);
    if n <= AutoChunk(paramsPerRow) {
      Scale(n, PARAMETER_LIMIT / paramsPerRow, paramsPerRow);
    }
  }

  /** A chosen chunk never asks the driver for more than 30000 parameters. */
  lemma AutoChunkFits(meta: TableMeta, bs: seq<Bound>)
    requires Wide(meta, bs) && |meta.columns| > 0 && KeyColumn(meta.columns).Some?
    requires |bs| <= ChunkSize(meta, 0)
    ensures |UpdateParams(meta, bs)| <= PARAMETER_LIMIT
  {
    var ks := Assigned(meta.columns, |meta.columns|);
    CountSetParams(bs, ks);
    AssignedFewer(meta.columns, |meta.columns|, KeyColumn(meta.columns).value);
    FewEnough(|UpdateParams(meta, bs)|, |bs|, |ks|, |meta.columns| - 1);
  }

  lemma FewEnough(total: nat, n: nat, k: nat, c: nat)
    requires total == k * (2 * n) + n && k <= c && n <= AutoChunk(c * 2 + 1)
    ensures total <= PARAMETER_LIMIT
  {
    AutoChunkBounds(c * 2 + 1, n);
    ParamsPerRow(n, c, k, PARAMETER_LIMIT);
  }

  /** A chunk size is chosen exactly when one row fits under the limit. */
  lemma AutoChunkPositive(meta: TableMeta)
    requires |meta.columns| > 0
    ensures ChunkSize(meta, 0) >= 1 <==> (|meta.columns| - 1) * 2 + 1 <= PARAMETER_LIMIT
  {
    AutoChunkBounds((|meta.columns| - 1) * 2 + 1, 0);
  }

  lemma ParamsPerRow(n: nat, c: nat, k: nat, limit: nat)
    requires k <= c && n * (c * 2 + 1) <= limit
    ensures k * (2 * n) + n <= limit
  {
    Scale(k, c, 2 * n);
    PerRow(n, c);
  }

  lemma PerRow(n: nat, c: nat)
    ensures c * (2 * n) + n == n * (c * 2 + 1)
  {
  }

  lemma {:induction false} AssignedFewer(columns: seq<Column>, k: nat, key: nat)
    requires k <= |columns| && key < |columns| && columns[key].isPk
    ensures |Assigned(columns, k)| <= if key < k then k - 1 else k
  {
    if k > 0 {
      AssignedFewer(columns, k - 1, key);
    }
  }

  // ----- rendering

  /** One more non-key column adds one assignment to the text ... */
  lemma NextSetText(columns: seq<Column>, k: nat, pk: string, n: nat)
    requires k < |columns| && !columns[k].isPk
    ensures SetText(columns, Assigned(columns, k + 1), pk, n) ==
            SetText(columns, Assigned(columns, k), pk, n) + (if Assigned(columns, k) == [] then [] else [Comma])
            + CaseText(columns[k].name, pk, n)
  {
    var ks := Assigned(columns, k);
    assert Assigned(columns, k + 1)[..|ks|] == ks;
  }

  /** ... and its arms to the parameters. */
  lemma NextSetParams(columns: seq<Column>, k: nat, bs: seq<Bound>)
    requires k < |columns| && !columns[k].isPk && forall j | 0 <= j < |bs| :: |bs[j].vals| == |columns|
    ensures SetParams(bs, Assigned(columns, k + 1)) == SetParams(bs, Assigned(columns, k)) + ArmParams(bs, k)
  {
    var ks := Assigned(columns, k);
    assert Assigned(columns, k + 1)[..|ks|] == ks;
  }

  lemma NextParams(columns: seq<Column>, k: nat, bs: seq<Bound>, ps: seq<Value>) returns (ps': seq<Value>)
    requires k < |columns| && forall j | 0 <= j < |bs| :: |bs[j].vals| == |columns|
    requires ps == SetParams(bs, Assigned(columns, k))
    ensures ps' == SetParams(bs, Assigned(columns, k + 1))
    ensures ps' == ps + (if columns[k].isPk then [] else ArmParams(bs, k))
  {
    ps' := ps + (if columns[k].isPk then [] else ArmParams(bs, k));
    if !columns[k].isPk {
      NextSetParams(columns, k, bs);
    }
  }

  method RenderCase(sb0: seq<Tok>, col: string, pkName: string, n: nat) returns (sb: seq<Tok>)
    ensures sb == sb0 + CaseText(col, pkName, n)
  {
    sb := sb0 + [Name(col)];
    sb := sb + [Equals, Case];
    sb := sb + [Name(pkName)];
    for j := 0 to n
      invariant sb == sb0 + ([Name(col), Equals, Case, Name(pkName)] + ArmText(j))
    {
      sb := sb + [When, Param, Then, Param];
    }
    sb := sb + [End];
  }

  lemma WhereText(a: seq<Tok>, pk: string)
    ensures a + [Where] + [Name(pk)] + [In, LParen] == a + [Where, Name(pk), In, LParen]
  {
  }

  method RenderSets(front: seq<Tok>, meta: TableMeta, pkName: string, n: nat) returns (sb: seq<Tok>)
    ensures sb == front + SetText(meta.columns, Assigned(meta.columns, |meta.columns|), pkName, n)
  {
    sb := front;
    var firstCol := true;
    for k := 0 to |meta.columns|
      invariant sb == front + SetText(meta.columns, Assigned(meta.columns, k), pkName, n)
      invariant firstCol <==> Assigned(meta.columns, k) == []
    {
      if !meta.columns[k].isPk {
        NextSetText(meta.columns, k, pkName, n);
        ghost var sets := SetText(meta.columns, Assigned(meta.columns, k), pkName, n);
        ghost var sep := if firstCol then [] else [Comma];
        if !firstCol {
          sb := sb + [Comma];
        }
        firstCol := false;
        assert sb == (front + sets) + sep;
        Regroup(front, sets, sep, CaseText(meta.columns[k].name, pkName, n));
        Assoc(sets, sep, CaseText(meta.columns[k].name, pkName, n));
        Assoc(front, sets, sep);
        sb := RenderCase(sb, meta.columns[k].name, pkName, n);
      }
    }
  }

  method RenderUpdate(meta: TableMeta, pk: nat, n: nat) returns (sb: seq<Tok>)
    requires pk < |meta.columns|
    ensures sb == UpdateText(meta, pk, n)
  {
    var pkName := meta.columns[pk].name;
    sb := [Update] + [Name(meta.name)] + [Set];
    sb := RenderSets(sb, meta, pkName, n);
    WhereText(sb, pkName);
    sb := sb + [Where];
    sb := sb + [Name(pkName)];
    sb := sb + [In, LParen];
    sb := RenderList(sb, n);
    sb := sb + [RParen];
  }

  // ----- binding

  /** The arms of one column: key and value of each item in turn. */
  method BindArms(db: Db, meta: TableMeta, pk: nat, chunk: seq<Item>, k: nat, bs0: Bindings, ghost acc0: seq<Value>,
                  bindIdx0: nat, ghost from: nat)
    returns (ok: bool, bs: Bindings, bindIdx: nat)
    requires pk < |meta.columns| && k < |meta.columns| && !meta.columns[k].isPk && TypedItems(meta, chunk)
    requires Binds(bs0, acc0) && bindIdx0 == |acc0| + 1
    requires from <= db.clock && db.Granted(from, db.clock)
    modifies db`clock
    ensures ok ==> db.Granted(from, db.clock)
    ensures ok ==>
              && KeysBind(meta, chunk, pk) && ColumnBinds(meta, chunk, k)
              && Binds(bs, acc0 + ArmParams(BoundsOf(meta, pk, chunk), k))
              && bindIdx == |acc0 + ArmParams(BoundsOf(meta, pk, chunk), k)| + 1
    ensures from <= db.clock
    ensures db.Granted(from, db.clock) && KeysBind(meta, chunk, pk) && ColumnBinds(meta, chunk, k) ==> ok
  {
    bs, bindIdx := bs0, bindIdx0;
    ghost var all := BoundsOf(meta, pk, chunk);
    ghost var acc := acc0;
    for j := 0 to |chunk|
      invariant from <= db.clock && db.Granted(from, db.clock)
      invariant acc == acc0 + ArmParams(all[..j], k)
      invariant Binds(bs, acc) && bindIdx == |acc| + 1
      invariant forall i | 0 <= i < j :: BindKey(meta.columns[pk], chunk[i][pk]).Some? && FieldBinds(meta, chunk[i], k)
    {
      ok, bs, bindIdx := BindArm(db, meta, pk, chunk[j], k, bs, acc, bindIdx, from);
      if !ok {
        return;
      }
      assert all[..j + 1][..j] == all[..j];
      Assoc(acc0, ArmParams(all[..j], k), [all[j].pk, all[j].vals[k]]);
      acc := acc + [all[j].pk, all[j].vals[k]];
    }
    assert all[..|chunk|] == all;
    ok := true;
  }

  /** One WHEN and its THEN. */
  method BindArm(db: Db, meta: TableMeta, pk: nat, item: Item, k: nat, bs0: Bindings, ghost acc: seq<Value>,
                 bindIdx0: nat, ghost from: nat)
    returns (ok: bool, bs: Bindings, bindIdx: nat)
    requires pk < |meta.columns| && k < |meta.columns| && TypedItem(meta, item)
    requires Binds(bs0, acc) && bindIdx0 == |acc| + 1
    requires from <= db.clock && db.Granted(from, db.clock)
    modifies db`clock
    ensures ok ==> db.Granted(from, db.clock)
    ensures ok ==>
              var key, val := BindKey(meta.columns[pk], item[pk]), BindField(meta.columns[k], item[k], None);
              && key.Some? && val.Some? && bindIdx == bindIdx0 + 2
              && Binds(bs, acc + [key.value, val.value])
    ensures from <= db.clock
    ensures db.Granted(from, db.clock)
            && BindKey(meta.columns[pk], item[pk]).Some? && BindField(meta.columns[k], item[k], None).Some?
            ==> ok
  {
    bs, bindIdx := bs0, bindIdx0;
    var key := BindKey(meta.columns[pk], item[pk]);
    ok := db.Call();
    if key.None? || !ok {
      return false, bs, bindIdx;
    }
    BindNext(bs, acc, key.value);
    bs, bindIdx := bs[bindIdx := key.value], bindIdx + 1;
    var val := BindField(meta.columns[k], item[k], None);
    ok := db.Call();
    if val.None? || !ok {
      return false, bs, bindIdx;
    }
    BindNext(bs, acc + [key.value], val.value);
    bs, bindIdx := bs[bindIdx := val.value], bindIdx + 1;
    assert acc + [key.value] + [val.value] == acc + [key.value, val.value];
  }

  /** The IN list: the key of each item in turn. */
  method BindKeys(db: Db, meta: TableMeta, pk: nat, chunk: seq<Item>, bs0: Bindings, ghost acc0: seq<Value>,
                  bindIdx0: nat, ghost from: nat)
    returns (ok: bool, bs: Bindings)
    requires pk < |meta.columns| && TypedItems(meta, chunk)
    requires Binds(bs0, acc0) && bindIdx0 == |acc0| + 1
    requires from <= db.clock && db.Granted(from, db.clock)
    modifies db`clock
    ensures ok ==> db.Granted(from, db.clock)
    ensures ok ==>
              && KeysBind(meta, chunk, pk)
              && Binds(bs, acc0 + Keys(BoundsOf(meta, pk, chunk)))
    ensures from <= db.clock
    ensures db.Granted(from, db.clock) && KeysBind(meta, chunk, pk) ==> ok
  {
    bs := bs0;
    var bindIdx := bindIdx0;
    ghost var keys := Keys(BoundsOf(meta, pk, chunk));
    assert acc0 + keys[..0] == acc0;
    for j := 0 to |chunk|
      invariant from <= db.clock && db.Granted(from, db.clock)
      invariant Binds(bs, acc0 + keys[..j]) && bindIdx == |acc0| + j + 1
      invariant KeysBind(meta, chunk[..j], pk)
    {
      var key := BindKey(meta.columns[pk], chunk[j][pk]);
      ok := db.Call();
      if key.None? || !ok {
        return false, bs;
      }
      BindNext(bs, acc0 + keys[..j], key.value);
      assert acc0 + keys[..j] + [key.value] == acc0 + keys[..j + 1];
      bs, bindIdx := bs[bindIdx := key.value], bindIdx + 1;
    }
    assert keys[..|chunk|] == keys && chunk[..|chunk|] == chunk;
    ok := true;
  }

  /** The columns before the k-th are bound, in order; `ps` lists their values. */
  ghost predicate SetsBound(meta: TableMeta, pk: nat, chunk: seq<Item>, k: nat, bs: Bindings, ps: seq<Value>,
                            bindIdx: nat)
    requires pk < |meta.columns| && TypedItems(meta, chunk) && k <= |meta.columns|
  {
    && ps == SetParams(BoundsOf(meta, pk, chunk), Assigned(meta.columns, k))
    && Binds(bs, ps) && bindIdx == |ps| + 1 && ColumnsBind(meta, chunk, k)
  }

  lemma NoSetsBound(meta: TableMeta, pk: nat, chunk: seq<Item>)
    requires pk < |meta.columns| && TypedItems(meta, chunk)
    ensures SetsBound(meta, pk, chunk, 0, map[], [], 1)
  {
  }

  /** The values of one column; a key column has none. */
  method BindColumn(db: Db, meta: TableMeta, pk: nat, chunk: seq<Item>, k: nat, bs0: Bindings, ghost ps: seq<Value>,
                    bindIdx0: nat, ghost from: nat, ghost bindable: bool)
    returns (ok: bool, bs: Bindings, bindIdx: nat, ghost ps': seq<Value>)
    requires pk < |meta.columns| && k < |meta.columns| && TypedItems(meta, chunk)
    requires SetsBound(meta, pk, chunk, k, bs0, ps, bindIdx0)
    requires bindable ==> AllBindable(meta, pk, chunk)
    requires from <= db.clock && db.Granted(from, db.clock)
    modifies db`clock
    ensures from <= db.clock
    ensures ok ==> db.Granted(from, db.clock) && SetsBound(meta, pk, chunk, k + 1, bs, ps', bindIdx)
    ensures db.Granted(from, db.clock) && bindable ==> ok
  {
    ItemsBindColumns(meta, pk, chunk);
    ok, bs, bindIdx := true, bs0, bindIdx0;
    ps' := NextParams(meta.columns, k, BoundsOf(meta, pk, chunk), ps);
    if !meta.columns[k].isPk {
      ok, bs, bindIdx := BindArms(db, meta, pk, chunk, k, bs, ps, bindIdx, from);
    }
    if ok {
      ColumnsBindNext(meta, chunk, k);
    }
  }

  /** The WHEN and THEN values, column by column. */
  method BindSets(db: Db, meta: TableMeta, pk: nat, chunk: seq<Item>, ghost from: nat, ghost bindable: bool)
    returns (ok: bool, bs: Bindings, bindIdx: nat, ghost ps: seq<Value>)
    requires pk < |meta.columns| && TypedItems(meta, chunk)
    requires bindable ==> AllBindable(meta, pk, chunk)
    requires from <= db.clock && db.Granted(from, db.clock)
    modifies db`clock
    ensures from <= db.clock
    ensures ok ==> db.Granted(from, db.clock) && SetsBound(meta, pk, chunk, |meta.columns|, bs, ps, bindIdx)
    ensures db.Granted(from, db.clock) && bindable ==> ok
  {
    bs, bindIdx, ok, ps := map[], 1, true, [];
    NoSetsBound(meta, pk, chunk);
    for k := 0 to |meta.columns|
      invariant ok && from <= db.clock && db.Granted(from, db.clock)
      invariant SetsBound(meta, pk, chunk, k, bs, ps, bindIdx)
    {
      ok, bs, bindIdx, ps := BindColumn(db, meta, pk, chunk, k, bs, ps, bindIdx, from, bindable);
      if !ok {
        return;
      }
    }
  }

  /** Binds every parameter of the chunk: exactly when each can be bound and no call is refused. */
  method BindChunk(db: Db, meta: TableMeta, pk: nat, chunk: seq<Item>) returns (ok: bool, bs: Bindings)
    requires pk < |meta.columns| && TypedItems(meta, chunk)
    modifies db`clock
    ensures ok <==> AllBindable(meta, pk, chunk) && db.Granted(old(db.clock), db.clock)
    ensures ok ==> Binds(bs, UpdateParams(meta, BoundsOf(meta, pk, chunk)))
  {
    ItemsBindColumns(meta, pk, chunk);
    ghost var from, bindable := db.clock, AllBindable(meta, pk, chunk);
    var bindIdx;
    ghost var ps;
    ok, bs, bindIdx, ps := BindSets(db, meta, pk, chunk, from, bindable);
    if !ok {
      return;
    }
    ok, bs := BindKeys(db, meta, pk, chunk, bs, ps, bindIdx, from);
    if ok {
      ColumnsBindItems(meta, pk, chunk);
    }
  }

  // ----- one chunk and the whole batch

  /** The rendered text with the bound parameters does to the table what the chunk means. */
  lemma ChunkExec(meta: TableMeta, pk: nat, t: Table, all: seq<Bound>, sql: seq<Tok>, bs: Bindings)
    requires DistinctColumns(meta) && Fits(meta, pk, t, all) && all != []
    requires sql == UpdateText(meta, pk, |all|) && Binds(bs, UpdateParams(meta, all))
    ensures Exec(meta, Fill(sql, ParamList(bs, Params(sql))), t) ==
            if Assigned(meta.columns, |meta.columns|) == [] then None else Some(AfterChunk(meta, pk, t, all))
  {
    TextAndParametersAgree(meta, pk, all);
    ChunkText(meta, pk, t, all);
    BindsList(bs, UpdateParams(meta, all));
  }

  /** Preparing accepts the text, before anything is bound, unless there is nothing to set. */
  lemma SyntaxCheck(meta: TableMeta, pk: nat, n: nat)
    requires DistinctColumns(meta) && pk < |meta.columns| && meta.columns[pk].isPk && n > 0
    ensures var sql := UpdateText(meta, pk, n);
            Exec(meta, Fill(sql, seq(Params(sql), _ => Null)), []).None? <==>
              Assigned(meta.columns, |meta.columns|) == []
  {
    var blank := seq(n, _ => Bound(Null, seq(|meta.columns|, _ => Null)));
    TextAndParametersAgree(meta, pk, blank);
    ChunkText(meta, pk, [], blank);
    AllNull(meta, blank);
  }

  lemma AllNull(meta: TableMeta, bs: seq<Bound>)
    requires Wide(meta, bs)
    requires forall j | 0 <= j < |bs| :: bs[j].pk == Null && forall c | 0 <= c < |bs[j].vals| :: bs[j].vals[c] == Null
    ensures UpdateParams(meta, bs) == seq(|UpdateParams(meta, bs)|, _ => Null)
  {
    SetParamsNull(bs, Assigned(meta.columns, |meta.columns|));
  }

  lemma {:induction false} SetParamsNull(bs: seq<Bound>, ks: seq<nat>)
    requires forall i | 0 <= i < |ks| :: Reaches(bs, ks[i])
    requires forall j | 0 <= j < |bs| :: bs[j].pk == Null && forall c | 0 <= c < |bs[j].vals| :: bs[j].vals[c] == Null
    ensures forall i | 0 <= i < |SetParams(bs, ks)| :: SetParams(bs, ks)[i] == Null
  {
    if ks != [] {
      SetParamsNull(bs, ks[..|ks| - 1]);
      ArmParamsNull(bs, ks[|ks| - 1]);
    }
  }

  lemma {:induction false} ArmParamsNull(bs: seq<Bound>, c: nat)
    requires Reaches(bs, c)
    requires forall j | 0 <= j < |bs| :: bs[j].pk == Null && bs[j].vals[c] == Null
    ensures forall i | 0 <= i < |ArmParams(bs, c)| :: ArmParams(bs, c)[i] == Null
  {
    if bs != [] {
      ArmParamsNull(bs[..|bs| - 1], c);
    }
  }

  /** Building the text and preparing it. */
  method PrepareChunk(db: Db, meta: TableMeta, pk: nat, n: nat) returns (rc: Rc, sql: seq<Tok>)
    requires DistinctColumns(meta) && pk < |meta.columns| && meta.columns[pk].isPk && n > 0
    modifies db`clock
    ensures rc == Ok ==> sql == UpdateText(meta, pk, n)
    ensures rc == Ok || rc.at in {Build, GetText, Prepare}
    ensures rc == Ok ==> Assigned(meta.columns, |meta.columns|) != []
    ensures db.Willing() && Assigned(meta.columns, |meta.columns|) != [] ==> rc == Ok
  {
    sql := RenderUpdate(meta, pk, n);
    SyntaxCheck(meta, pk, n);
    var ok := db.Call();
    if !ok {
      return Failed(Build), sql;
    }
    ok := db.Call();
    if !ok {
      return Failed(GetText), sql;
    }
    ok := db.Call();
    if !ok || Exec(meta, Fill(sql, seq(Params(sql), _ => Null)), []).None? {
      return Failed(Prepare), sql;
    }
    return Ok, sql;
  }

  /** Binding, running and finalizing the prepared statement. */
  method StepChunk(db: Db, meta: TableMeta, pk: nat, chunk: seq<Item>, sql: seq<Tok>) returns (rc: Rc)
    requires DistinctColumns(meta) && pk < |meta.columns| && meta.columns[pk].isPk && TypedItems(meta, chunk)
             && chunk != []
    requires forall r | 0 <= r < |db.table| :: |db.table[r]| == |meta.columns|
    requires sql == UpdateText(meta, pk, |chunk|) && Assigned(meta.columns, |meta.columns|) != []
    modifies db`table, db`clock
    ensures rc == Ok ==>
              && AllBindable(meta, pk, chunk)
              && db.table == AfterChunk(meta, pk, old(db.table), BoundsOf(meta, pk, chunk))
    ensures rc == Ok || rc.at in {Bind, Step, Finalize}
    ensures db.Willing() && AllBindable(meta, pk, chunk) ==> rc == Ok
  {
    var ok, bs := BindChunk(db, meta, pk, chunk);
    if !ok {
      ok := db.Call();
      return Failed(if ok then Bind else Finalize);
    }
    ChunkExec(meta, pk, db.table, BoundsOf(meta, pk, chunk), sql, bs);
    var stepped := db.StepTo(Exec(meta, Fill(sql, ParamList(bs, Params(sql))), db.table));
    ok := db.Call();
    if !ok {
      return Failed(Finalize);
    }
    return if stepped then Ok else Failed(Step);
  }

  method RunChunk(db: Db, meta: TableMeta, pk: nat, chunk: seq<Item>) returns (rc: Rc)
    requires DistinctColumns(meta) && pk < |meta.columns| && meta.columns[pk].isPk && TypedItems(meta, chunk)
             && chunk != []
    requires forall r | 0 <= r < |db.table| :: |db.table[r]| == |meta.columns|
    modifies db`table, db`clock
    ensures rc == Ok ==>
              && AllBindable(meta, pk, chunk) && Assigned(meta.columns, |meta.columns|) != []
              && db.table == AfterChunk(meta, pk, old(db.table), BoundsOf(meta, pk, chunk))
    ensures rc == Ok || rc.at in {Build, GetText, Prepare, Bind, Step, Finalize, Hook}
    ensures db.Willing() && AllBindable(meta, pk, chunk) && Assigned(meta.columns, |meta.columns|) != [] ==> rc == Ok
  {
    var sql;
    rc, sql := PrepareChunk(db, meta, pk, |chunk|);
    if rc != Ok {
      return;
    }
    rc := StepChunk(db, meta, pk, chunk, sql);
    if rc != Ok {
      return;
    }
    var ok := db.Hooks(|chunk|);
    return if ok then Ok else Failed(Hook);
  }

  lemma SliceBounds(meta: TableMeta, pk: nat, items: seq<Item>, i: nat, n: nat)
    requires pk < |meta.columns| && TypedItems(meta, items) && i + n <= |items|
    ensures TypedItems(meta, items[i..i + n])
    ensures BoundsOf(meta, pk, items[i..i + n]) == BoundsOf(meta, pk, items)[i..i + n]
  {
  }

  /** Running the next chunk brings the table one chunk closer to the end result. */
  lemma ChunkStep(meta: TableMeta, pk: nat, t: Table, bs: seq<Bound>, k: nat, i: nat, n: nat)
    requires Fits(meta, pk, t, bs) && k > 0 && i < |bs| && n == if i + k > |bs| then |bs| - i else k
    ensures AfterChunks(meta, pk, t, bs[i..], k) ==
            AfterChunks(meta, pk, AfterChunk(meta, pk, t, bs[i..i + n]), bs[i + n..], k)
  {
    var rest := bs[i..];
    if |rest| <= k {
      assert bs[i..i + n] == rest && bs[i + n..] == [];
    } else {
      assert rest[..k] == bs[i..i + n] && rest[k..] == bs[i + n..];
    }
  }

  /** From here, running the chunks of k over the items from i on ends in `goal`. */
  ghost predicate Leads(meta: TableMeta, pk: nat, t: Table, bs: seq<Bound>, i: nat, k: nat, goal: Table) {
    && Fits(meta, pk, t, bs) && i <= |bs| && k > 0
    && Fits(meta, pk, t, bs[i..]) && AfterChunks(meta, pk, t, bs[i..], k) == goal
  }

  lemma LeadsToEnd(meta: TableMeta, pk: nat, t: Table, bs: seq<Bound>, i: nat, k: nat, goal: Table)
    requires Leads(meta, pk, t, bs, i, k, goal) && i == |bs|
    ensures goal == t
  {
    assert bs[i..] == [];
  }

  lemma AllSoFar(meta: TableMeta, pk: nat, items: seq<Item>, i: nat, n: nat)
    requires pk < |meta.columns| && TypedItems(meta, items) && i + n <= |items|
    requires AllBindable(meta, pk, items[..i]) && AllBindable(meta, pk, items[i..i + n])
    ensures AllBindable(meta, pk, items[..i + n])
  {
    assert items[..i + n] == items[..i] + items[i..i + n];
  }

  lemma PartBindable(meta: TableMeta, pk: nat, items: seq<Item>, i: nat, n: nat)
    requires pk < |meta.columns| && TypedItems(meta, items) && i + n <= |items| && AllBindable(meta, pk, items)
    ensures AllBindable(meta, pk, items[i..i + n])
  {
  }

  /** The items before i are done, and the others lead to `goal`. */
  ghost predicate DoneUpTo(meta: TableMeta, pk: nat, t: Table, items: seq<Item>, i: nat, k: nat, goal: Table)
    requires TypedItems(meta, items) && pk < |meta.columns|
  {
    && i <= |items| && AllBindable(meta, pk, items[..i])
    && (i > 0 ==> Assigned(meta.columns, |meta.columns|) != [])
    && Leads(meta, pk, t, BoundsOf(meta, pk, items), i, k, goal)
  }

  lemma NoneDone(meta: TableMeta, pk: nat, t: Table, items: seq<Item>, k: nat)
    requires TypedItems(meta, items) && pk < |meta.columns| && meta.columns[pk].isPk && k > 0
    requires Fits(meta, pk, t, BoundsOf(meta, pk, items))
    ensures DoneUpTo(meta, pk, t, items, 0, k, AfterChunks(meta, pk, t, BoundsOf(meta, pk, items), k))
  {
    var bs := BoundsOf(meta, pk, items);
    assert bs[0..] == bs;
  }

  lemma AllDone(meta: TableMeta, pk: nat, t: Table, items: seq<Item>, k: nat, goal: Table)
    requires TypedItems(meta, items) && pk < |meta.columns| && DoneUpTo(meta, pk, t, items, |items|, k, goal)
    ensures AllBindable(meta, pk, items) && t == goal
    ensures items != [] ==> Assigned(meta.columns, |meta.columns|) != []
  {
    LeadsToEnd(meta, pk, t, BoundsOf(meta, pk, items), |items|, k, goal);
    assert items[..|items|] == items;
  }

  /** One pass of the loop: the n items from i on. */
  method NextChunk(db: Db, meta: TableMeta, pk: nat, items: seq<Item>, i: nat, n: nat, ghost k: nat, ghost goal: Table)
    returns (rc: Rc)
    requires DistinctColumns(meta) && TypedItems(meta, items) && pk < |meta.columns|
    requires DoneUpTo(meta, pk, db.table, items, i, k, goal)
    requires i < |items| && n == if i + k > |items| then |items| - i else k
    modifies db`table, db`clock
    ensures rc == Ok ==> DoneUpTo(meta, pk, db.table, items, i + n, k, goal)
    ensures rc == Ok || rc.at in {Build, GetText, Prepare, Bind, Step, Finalize, Hook}
    ensures db.Willing() && AllBindable(meta, pk, items) && Assigned(meta.columns, |meta.columns|) != [] ==> rc == Ok
  {
    SliceBounds(meta, pk, items, i, n);
    ChunkStep(meta, pk, db.table, BoundsOf(meta, pk, items), k, i, n);
    if AllBindable(meta, pk, items) {
      PartBindable(meta, pk, items, i, n);
    }
    rc := RunChunk(db, meta, pk, items[i..i + n]);
    if rc == Ok {
      AllSoFar(meta, pk, items, i, n);
    }
  }

  /** The loop over the chunks, inside the transaction. */
  method UpdateChunks(db: Db, meta: TableMeta, pk: nat, items: seq<Item>, k: nat) returns (rc: Rc)
    requires DistinctColumns(meta) && TypedItems(meta, items) && pk < |meta.columns| && meta.columns[pk].isPk && k > 0
    requires forall r | 0 <= r < |db.table| :: |db.table[r]| == |meta.columns|
    modifies db`table, db`clock
    ensures rc == Ok ==>
              && AllBindable(meta, pk, items)
              && (items != [] ==> Assigned(meta.columns, |meta.columns|) != [])
              && db.table == AfterChunks(meta, pk, old(db.table), BoundsOf(meta, pk, items), k)
    ensures rc == Ok || rc.at in {Build, GetText, Prepare, Bind, Step, Finalize, Hook}
    ensures db.Willing() && AllBindable(meta, pk, items) && Assigned(meta.columns, |meta.columns|) != [] ==> rc == Ok
  {
    ghost var goal := AfterChunks(meta, pk, db.table, BoundsOf(meta, pk, items), k);
    NoneDone(meta, pk, db.table, items, k);
    var i := 0;
    while i < |items|
      invariant 0 <= i <= |items| && DoneUpTo(meta, pk, db.table, items, i, k, goal)
    {
      var actualChunk := k;
      if i + actualChunk > |items| {
        actualChunk := |items| - i;
      }
      rc := NextChunk(db, meta, pk, items, i, actualChunk, k, goal);
      if rc != Ok {
        return;
      }
      i := i + actualChunk;
    }
    AllDone(meta, pk, db.table, items, k, goal);
    return Ok;
  }

  /** BEGIN, the chunks, and COMMIT or ROLLBACK. */
  method UpdateInTransaction(db: Db, meta: TableMeta, pk: nat, items: seq<Item>, k: nat) returns (rc: Rc)
    requires DistinctColumns(meta) && TypedItems(meta, items) && pk < |meta.columns| && meta.columns[pk].isPk && k > 0
    requires forall r | 0 <= r < |db.table| :: |db.table[r]| == |meta.columns|
    modifies db
    ensures rc == Ok ==>
              && AllBindable(meta, pk, items) && db.saved.None?
              && (items != [] ==> Assigned(meta.columns, |meta.columns|) != [])
              && db.table == AfterChunks(meta, pk, old(db.table), BoundsOf(meta, pk, items), k)
    ensures rc != Ok && !LeavesOpen(db.rollsBack, rc.at) ==> db.table == old(db.table) && db.saved == old(db.saved)
    ensures rc != Ok && LeavesOpen(db.rollsBack, rc.at) ==> db.saved == Some(old(db.table))
    ensures rc == Ok || rc.at !in {Arguments, View}
    ensures db.Willing() && old(db.saved).None? && AllBindable(meta, pk, items)
            && Assigned(meta.columns, |meta.columns|) != []
            ==> rc == Ok
  {
    var ok := db.BeginTx();
    if !ok {
      return Failed(Begin);
    }
    rc := UpdateChunks(db, meta, pk, items, k);
    if rc != Ok {
      if rc.at != GetText {
        var _ := db.RollbackTx();
      }
      return;
    }
    ok := db.CommitTx();
    return if ok then Ok else Failed(Commit);
  }

  /** c_orm_update_batch. */
  method UpdateBatch(db: Db, meta: TableMeta, items: seq<Item>, chunkSize: nat) returns (rc: Rc)
    requires DistinctColumns(meta) && TypedItems(meta, items)
    requires forall r | 0 <= r < |db.table| :: |db.table[r]| == |meta.columns|
    requires chunkSize == 0 ==> (|meta.columns| - 1) * 2 + 1 <= PARAMETER_LIMIT
    modifies db
    ensures meta.isView ==> rc == Failed(View)
    ensures !meta.isView && items == [] ==> rc == Ok
    ensures rc == Ok && items == [] ==> db.table == old(db.table) && db.saved == old(db.saved)
    // success: every item was applied, and the transaction is closed
    ensures rc == Ok && items != [] ==>
              && KeyColumn(meta.columns).Some? && db.saved.None?
              && AllBindable(meta, KeyColumn(meta.columns).value, items)
              && Assigned(meta.columns, |meta.columns|) != []
    ensures rc == Ok && items != [] ==>
              var pk := KeyColumn(meta.columns).value; BoundsCarry(meta, pk, items, BoundsOf(meta, pk, items))
    ensures rc == Ok && items != [] ==>
              var pk, k := KeyColumn(meta.columns).value, ChunkSize(meta, chunkSize);
              var bs := BoundsOf(meta, pk, items);
              && db.table == AfterChunks(meta, pk, old(db.table), bs, k)
              && (SingleKey(meta, pk) && (ChunksAgree(meta, bs, k) || DistinctKeys(bs)) ==>
                    db.table == OneByOne(meta, pk, old(db.table), bs))
    // failure: the table is as it was when the operation began ...
    ensures rc != Ok && !LeavesOpen(db.rollsBack, rc.at) ==> db.table == old(db.table) && db.saved == old(db.saved)
    // ... or, on two paths and when ROLLBACK is refused, the transaction is still open on that table
    ensures rc != Ok && LeavesOpen(db.rollsBack, rc.at) ==> db.saved == Some(old(db.table))
    // no failure without a cause
    ensures db.Willing() && old(db.saved).None? && !meta.isView && KeyColumn(meta.columns).Some?
            && AllCanBind(meta, KeyColumn(meta.columns).value, items)
            && Assigned(meta.columns, |meta.columns|) != []
            ==> rc == Ok
  {
    if meta.isView {
      return Failed(View);
    }
    if |items| == 0 {
      return Ok;
    }
    var pkCol := FindKeyColumn(meta);
    if pkCol.None? {
      return Failed(Arguments);
    }
    var pk := pkCol.value;
    var k := ChunkSize(meta, chunkSize);
    AutoChunkPositive(meta);
    AllBindableIff(meta, pk, items);
    if SingleKey(meta, pk) {
      BatchMeansOneByOne(meta, pk, db.table, BoundsOf(meta, pk, items), k);
    }
    rc := UpdateInTransaction(db, meta, pk, items, k);
  }

  lemma BatchMeansOneByOne(meta: TableMeta, pk: nat, t: Table, bs: seq<Bound>, k: nat)
    requires Fits(meta, pk, t, bs) && k > 0 && SingleKey(meta, pk)
    ensures ChunksAgree(meta, bs, k) || DistinctKeys(bs) ==>
            AfterChunks(meta, pk, t, bs, k) == OneByOne(meta, pk, t, bs)
  {
    if DistinctKeys(bs) {
      BatchEqualsOneByOne(meta, pk, t, bs, k);
    } else if ChunksAgree(meta, bs, k) {
      AgreeSuffices(meta, pk, t, bs, k);
    }
  }

  method FindKeyColumn(meta: TableMeta) returns (r: Option<nat>)
    ensures r == KeyColumn(meta.columns)
  {
    for i := 0 to |meta.columns|
      invariant forall c | 0 <= c < i :: !meta.columns[c].isPk
    {
      if meta.columns[i].isPk {
        return Some(i);
      }
    }
    return None;
  }
}
