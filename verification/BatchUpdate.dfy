/** The batch update of src/c_orm_api.c: one `UPDATE t SET c = CASE pk WHEN ? THEN ? .. END, ..
    WHERE pk IN (?, ..)` per chunk. Its text is produced by one nest of loops and its
    parameters by another. */
module BatchUpdate {
  import opened Optional
  import opened Sql
  import opened SqlText

  // ----- what the operation means: set the non-key columns of the row with each item's key

  /** An item as the driver sees it: its key and the value of every column. */
  datatype Bound = Bound(pk: Value, vals: seq<Value>)

  function Overwrite(meta: TableMeta, row: Row, b: Bound): Row
    requires |row| == |meta.columns| == |b.vals|
  {
    seq(|row|, c requires 0 <= c < |row| => if meta.columns[c].isPk then row[c] else b.vals[c])
  }

  predicate Fits(meta: TableMeta, pk: nat, t: Table, bs: seq<Bound>) {
    && pk < |meta.columns| && meta.columns[pk].isPk
    && (forall r | 0 <= r < |t| :: |t[r]| == |meta.columns|)
    && forall j | 0 <= j < |bs| :: |bs[j].vals| == |meta.columns|
  }

  /** The row an update of this one item is about: all its key columns are the item's. */
  predicate KeyMatches(meta: TableMeta, pk: nat, row: Row, b: Bound)
    requires |row| == |meta.columns| == |b.vals| && pk < |row|
  {
    && SqlEq(row[pk], b.pk)
    && forall c | 0 <= c < |row| && meta.columns[c].isPk && c != pk :: SqlEq(row[c], b.vals[c])
  }

  /** Items applied one at a time, in order, to one row. */
  function RowOneByOne(meta: TableMeta, pk: nat, row: Row, bs: seq<Bound>): (r: Row)
    requires |row| == |meta.columns| && pk < |meta.columns|
    requires forall j | 0 <= j < |bs| :: |bs[j].vals| == |meta.columns|
    ensures |r| == |row|
    decreases |bs|
  {
    if bs == [] then row
    else RowOneByOne(meta, pk, if KeyMatches(meta, pk, row, bs[0]) then Overwrite(meta, row, bs[0]) else row, bs[1..])
  }

  /** One UPDATE per item, in order. */
  function OneByOne(meta: TableMeta, pk: nat, t: Table, bs: seq<Bound>): (t': Table)
    requires Fits(meta, pk, t, bs)
    ensures |t'| == |t| && forall r | 0 <= r < |t'| :: |t'[r]| == |meta.columns|
  {
    seq(|t|, r requires 0 <= r < |t| => RowOneByOne(meta, pk, t[r], bs))
  }

  // ----- the statement: syntax tree, parser, execution

  datatype CaseSet = CaseSet(col: string, on: string, arms: seq<(Value, Value)>)
  datatype UpdateStmt = UpdateStmt(table: string, sets: seq<CaseSet>, pk: string, list: seq<Value>)

  /** WHEN v THEN w, as often as it goes on. */
  function ParseArms(ts: seq<Tok>): (seq<(Value, Value)>, seq<Tok>)
    decreases |ts|
  {
    if |ts| >= 4 && ts[0].When? && ts[1].Lit? && ts[2].Then? && ts[3].Lit? then
      var (arms, rest) := ParseArms(ts[4..]);
      ([(ts[1].value, ts[3].value)] + arms, rest)
    else ([], ts)
  }

  /** col = CASE col' arms END; an empty CASE is a syntax error. */
  function ParseCase(ts: seq<Tok>): (r: Option<(CaseSet, seq<Tok>)>)
    ensures r.Some? ==> |r.value.1| < |ts|
  {
    if |ts| >= 4 && ts[0].Name? && ts[1].Equals? && ts[2].Case? && ts[3].Name? then
      ArmsShrink(ts[4..]);
      var (arms, rest) := ParseArms(ts[4..]);
      if arms != [] && rest != [] && rest[0].End? then Some((CaseSet(ts[0].name, ts[3].name, arms), rest[1..]))
      else None
    else None
  }

  lemma {:induction false} ArmsShrink(ts: seq<Tok>)
    ensures |ParseArms(ts).1| <= |ts|
    decreases |ts|
  {
    if |ts| >= 4 && ts[0].When? && ts[1].Lit? && ts[2].Then? && ts[3].Lit? {
      ArmsShrink(ts[4..]);
    }
  }

  /** One or more assignments separated by commas. */
  function ParseSets(ts: seq<Tok>): Option<(seq<CaseSet>, seq<Tok>)>
    decreases |ts|
  {
    var first := ParseCase(ts);
    if first.None? then None
    else
      var (c, rest) := first.value;
      if rest != [] && rest[0].Comma? then
        var more := ParseSets(rest[1..]);
        if more.None? then None else Some(([c] + more.value.0, more.value.1))
      else Some(([c], rest))
  }

  function Parse(ts: seq<Tok>): Option<UpdateStmt> {
    if |ts| < 3 || !ts[0].Update? || !ts[1].Name? || !ts[2].Set? then None
    else
      var sets := ParseSets(ts[3..]);
      if sets.None? then None
      else
        var (cs, rest) := sets.value;
        if |rest| < 4 || !rest[0].Where? || !rest[1].Name? || !rest[2].In? || !rest[3].LParen? then None
        else
          var list := ParseList(rest[4..]);
          if list.None? || list.value.1 != [RParen] then None
          else Some(UpdateStmt(ts[1].name, cs, rest[1].name, list.value.0))
  }

  function ColumnIndex(meta: TableMeta, name: string): (r: Option<nat>)
    ensures r.Some? ==> r.value < |meta.columns| && meta.columns[r.value].name == name
    ensures r.None? ==> forall c | 0 <= c < |meta.columns| :: meta.columns[c].name != name
  {
    ColumnFrom(meta, name, 0)
  }

  function ColumnFrom(meta: TableMeta, name: string, c: nat): (r: Option<nat>)
    requires c <= |meta.columns|
    ensures r.Some? ==> r.value < |meta.columns| && meta.columns[r.value].name == name
    ensures r.None? ==> forall k | c <= k < |meta.columns| :: meta.columns[k].name != name
    decreases |meta.columns| - c
  {
    if c == |meta.columns| then None
    else if meta.columns[c].name == name then Some(c)
    else ColumnFrom(meta, name, c + 1)
  }

  /** The first arm whose WHEN equals v; a CASE without ELSE is otherwise NULL. */
  function EvalArms(arms: seq<(Value, Value)>, v: Value): Value {
    if arms == [] then Null else if SqlEq(v, arms[0].0) then arms[0].1 else EvalArms(arms[1..], v)
  }

  function SetFor(sets: seq<CaseSet>, name: string): Option<CaseSet> {
    if sets == [] then None else if sets[0].col == name then Some(sets[0]) else SetFor(sets[1..], name)
  }

  predicate Resolves(meta: TableMeta, stmt: UpdateStmt) {
    && stmt.table == meta.name && ColumnIndex(meta, stmt.pk).Some?
    && forall i | 0 <= i < |stmt.sets| ::
         ColumnIndex(meta, stmt.sets[i].col).Some? && ColumnIndex(meta, stmt.sets[i].on).Some?
  }

  function ExecRow(meta: TableMeta, stmt: UpdateStmt, row: Row): Row
    requires |row| == |meta.columns| && Resolves(meta, stmt)
  {
    if SqlIn(row[ColumnIndex(meta, stmt.pk).value], stmt.list) then
      seq(|row|, c requires 0 <= c < |row| =>
        var s := SetFor(stmt.sets, meta.columns[c].name);
        if s.None? then row[c]
        else
          var on := ColumnIndex(meta, s.value.on);
          if on.Some? then EvalArms(s.value.arms, row[on.value]) else row[c])
    else row
  }

  /** What the database does with the text: None is a statement it rejects. */
  function Exec(meta: TableMeta, ts: seq<Tok>, t: Table): Option<Table>
    requires forall r | 0 <= r < |t| :: |t[r]| == |meta.columns|
  {
    var stmt := Parse(ts);
    if stmt.None? || !Resolves(meta, stmt.value) then None
    else Some(seq(|t|, r requires 0 <= r < |t| => ExecRow(meta, stmt.value, t[r])))
  }

  // ----- the text the loops produce

  function ArmText(n: nat): seq<Tok> {
    if n == 0 then [] else ArmText(n - 1) + [When, Param, Then, Param]
  }

  function CaseText(col: string, pk: string, n: nat): seq<Tok> {
    [Name(col), Equals, Case, Name(pk)] + ArmText(n) + [End]
  }

  /** The non-key columns among the first k. */
  function Assigned(columns: seq<Column>, k: nat): (ks: seq<nat>)
    requires k <= |columns|
    ensures forall i | 0 <= i < |ks| :: ks[i] < k
  {
    if k == 0 then []
    else
      var before := Assigned(columns, k - 1);
      if columns[k - 1].isPk then before else before + [k - 1]
  }

  lemma {:induction false} AssignedAre(columns: seq<Column>, k: nat)
    requires k <= |columns|
    ensures var ks := Assigned(columns, k);
            && (forall i | 0 <= i < |ks| :: !columns[ks[i]].isPk)
            && (forall c: nat | c < k && !columns[c].isPk :: c in ks)
            && forall i, j | 0 <= i < j < |ks| :: ks[i] < ks[j]
  {
    if k > 0 {
      AssignedAre(columns, k - 1);
    }
  }

  function SetText(columns: seq<Column>, ks: seq<nat>, pk: string, n: nat): seq<Tok>
    requires forall i | 0 <= i < |ks| :: ks[i] < |columns|
  {
    if ks == [] then []
    else
      var last := |ks| - 1;
      SetText(columns, ks[..last], pk, n) + (if last > 0 then [Comma] else []) + CaseText(columns[ks[last]].name, pk, n)
  }

  function UpdateText(meta: TableMeta, pk: nat, n: nat): seq<Tok>
    requires pk < |meta.columns|
  {
    var name := meta.columns[pk].name;
    [Update, Name(meta.name), Set] + SetText(meta.columns, Assigned(meta.columns, |meta.columns|), name, n)
    + [Where, Name(name), In, LParen] + ListText(n) + [RParen]
  }

  // ----- the parameters the loops bind

  predicate Reaches(bs: seq<Bound>, c: nat) {
    forall j | 0 <= j < |bs| :: c < |bs[j].vals|
  }

  predicate Wide(meta: TableMeta, bs: seq<Bound>) {
    forall j | 0 <= j < |bs| :: |bs[j].vals| == |meta.columns|
  }

  function ArmParams(bs: seq<Bound>, c: nat): seq<Value>
    requires Reaches(bs, c)
  {
    if bs == [] then []
    else
      var last := |bs| - 1;
      ArmParams(bs[..last], c) + [bs[last].pk, bs[last].vals[c]]
  }

  function SetParams(bs: seq<Bound>, ks: seq<nat>): seq<Value>
    requires forall i | 0 <= i < |ks| :: Reaches(bs, ks[i])
  {
    if ks == [] then []
    else SetParams(bs, ks[..|ks| - 1]) + ArmParams(bs, ks[|ks| - 1])
  }

  function Keys(bs: seq<Bound>): (ps: seq<Value>)
    ensures |ps| == |bs| && forall j | 0 <= j < |ps| :: ps[j] == bs[j].pk
  {
    seq(|bs|, j requires 0 <= j < |bs| => bs[j].pk)
  }

  function UpdateParams(meta: TableMeta, bs: seq<Bound>): seq<Value>
    requires Wide(meta, bs)
  {
    SetParams(bs, Assigned(meta.columns, |meta.columns|)) + Keys(bs)
  }
}
