/** The batch insert of src/c_orm_api.c: one `INSERT INTO t (..) VALUES (?, ..), (?, ..)` per
    chunk. Its text is produced by one nest of loops and its parameters by another. */
module BatchInsert {
  import opened Optional
  import opened Sequences
  import opened Sql
  import opened SqlText

  /** C_ORM_ON_CONFLICT_FAIL, DO_NOTHING and DO_UPDATE; the last adds nothing to the text. */
  datatype Policy = Fail | DoNothing | DoUpdate

  // ----- what the operation means: rows go in one at a time

  /** Some row already has this primary key; a key with a NULL part conflicts with nothing. */
  predicate Conflicts(meta: TableMeta, t: Table, row: Row)
    requires |row| == |meta.columns| && forall r | 0 <= r < |t| :: |t[r]| == |meta.columns|
  {
    && (exists c :: 0 <= c < |meta.columns| && meta.columns[c].isPk)
    && exists r :: 0 <= r < |t| && SameKey(meta, t[r], row)
  }

  predicate SameKey(meta: TableMeta, a: Row, b: Row)
    requires |a| == |b| == |meta.columns|
  {
    forall c | 0 <= c < |meta.columns| && meta.columns[c].isPk :: SqlEq(a[c], b[c])
  }

  predicate WideRows(meta: TableMeta, rows: seq<Row>) {
    forall r | 0 <= r < |rows| :: |rows[r]| == |meta.columns|
  }

  function InsertOne(meta: TableMeta, t: Table, row: Row, skip: bool): (r: Option<Table>)
    requires |row| == |meta.columns| && WideRows(meta, t)
    ensures r.Some? ==> WideRows(meta, r.value)
  {
    if !Conflicts(meta, t, row) then Some(t + [row]) else if skip then Some(t) else None
  }

  /** Rows inserted in order, a conflicting one skipped or fatal. */
  function InsertRows(meta: TableMeta, t: Table, rows: seq<Row>, skip: bool): (r: Option<Table>)
    requires WideRows(meta, t) && WideRows(meta, rows)
    ensures r.Some? ==> WideRows(meta, r.value)
    decreases |rows|
  {
    if rows == [] then Some(t)
    else
      var t' := InsertOne(meta, t, rows[0], skip);
      if t'.None? then None else InsertRows(meta, t'.value, rows[1..], skip)
  }

  lemma {:induction false} InsertSplit(meta: TableMeta, t: Table, a: seq<Row>, b: seq<Row>, skip: bool)
    requires WideRows(meta, t) && WideRows(meta, a) && WideRows(meta, b)
    ensures InsertRows(meta, t, a + b, skip) ==
            var mid := InsertRows(meta, t, a, skip);
            if mid.None? then None else InsertRows(meta, mid.value, b, skip)
    decreases |a|
  {
    if a == [] {
      assert a + b == b;
    } else {
      assert (a + b)[1..] == a[1..] + b;
      var t' := InsertOne(meta, t, a[0], skip);
      if t'.Some? {
        InsertSplit(meta, t'.value, a[1..], b, skip);
      }
    }
  }

  /** Two rows with the same primary key, no part of which is NULL. */
  predicate ShareKey(meta: TableMeta, a: Row, b: Row)
    requires |a| == |b| == |meta.columns|
  {
    && (exists c :: 0 <= c < |meta.columns| && meta.columns[c].isPk)
    && forall c | 0 <= c < |meta.columns| && meta.columns[c].isPk :: a[c] == b[c] != Null
  }

  predicate InTable(meta: TableMeta, t: Table, row: Row)
    requires |row| == |meta.columns| && WideRows(meta, t)
  {
    exists r :: 0 <= r < |t| && ShareKey(meta, t[r], row)
  }

  lemma ConflictsIff(meta: TableMeta, t: Table, row: Row)
    requires |row| == |meta.columns| && WideRows(meta, t)
    ensures Conflicts(meta, t, row) <==> InTable(meta, t, row)
  {
    forall r | 0 <= r < |t|
      ensures (exists c :: 0 <= c < |meta.columns| && meta.columns[c].isPk) && SameKey(meta, t[r], row)
              <==> ShareKey(meta, t[r], row)
    {}
  }

  /** The rows at these places are those that share no key with the table or with one taken before. */
  ghost predicate TakesNew(meta: TableMeta, t: Table, rows: seq<Row>, taken: seq<nat>)
    requires WideRows(meta, t) && WideRows(meta, rows)
  {
    && Rising(taken, |rows|)
    && forall k: nat | k < |rows| :: TakesAt(meta, t, rows, taken, k)
  }

  ghost predicate TakesAt(meta: TableMeta, t: Table, rows: seq<Row>, taken: seq<nat>, k: nat)
    requires WideRows(meta, t) && WideRows(meta, rows) && k < |rows|
  {
    k in taken <==>
    !InTable(meta, t, rows[k]) && forall j: nat | j < k && j in taken :: !ShareKey(meta, rows[j], rows[k])
  }

  /** Under DO NOTHING the table is followed by the rows that are new when their turn comes, unchanged and
      in order. */
  lemma {:induction false} SkippingTakesNew(meta: TableMeta, t: Table, rows: seq<Row>) returns (taken: seq<nat>)
    requires WideRows(meta, t) && WideRows(meta, rows)
    ensures TakesNew(meta, t, rows, taken) && InsertRows(meta, t, rows, true) == Some(t + At(rows, taken))
  {
    if rows == [] {
      taken := [];
      assert t + At(rows, taken) == t;
    } else {
      var front, row := rows[..|rows| - 1], rows[|rows| - 1];
      assert rows == front + [row];
      taken := SkippingTakesNew(meta, t, front);
      var mid := t + At(front, taken);
      InsertSplit(meta, t, front, [row], true);
      InsertLast(meta, mid, row, true);
      ConflictsIff(meta, mid, row);
      AmongTaken(meta, t, front, taken, row);
      if InTable(meta, mid, row) {
        SamePlaces(front, row, taken);
        OneSkipped(meta, t, front, row, taken);
      } else {
        OneTaken(meta, t, front, row, taken);
        OnePlaceMore(front, row, taken);
        assert mid + [row] == t + (At(front, taken) + [row]);
        taken := taken + [|front|];
      }
    }
  }

  lemma InsertLast(meta: TableMeta, t: Table, row: Row, skip: bool)
    requires WideRows(meta, t) && |row| == |meta.columns|
    ensures InsertRows(meta, t, [row], skip) == InsertOne(meta, t, row, skip)
  {
    assert [row][1..] == [];
  }

  lemma AmongTaken(meta: TableMeta, t: Table, front: seq<Row>, taken: seq<nat>, row: Row)
    requires WideRows(meta, t) && WideRows(meta, front) && Rising(taken, |front|) && |row| == |meta.columns|
    ensures InTable(meta, t + At(front, taken), row) <==>
            InTable(meta, t, row) || exists j: nat :: j < |front| && j in taken && ShareKey(meta, front[j], row)
  {
    var mid := t + At(front, taken);
    if InTable(meta, mid, row) {
      var r :| 0 <= r < |mid| && ShareKey(meta, mid[r], row);
      if r < |t| {
        assert ShareKey(meta, t[r], row);
      } else {
        assert mid[r] == front[taken[r - |t|]];
      }
    }
    if InTable(meta, t, row) {
      var r :| 0 <= r < |t| && ShareKey(meta, t[r], row);
      assert mid[r] == t[r];
    }
    if j: nat :| j < |front| && j in taken && ShareKey(meta, front[j], row) {
      var i :| 0 <= i < |taken| && taken[i] == j;
      assert mid[|t| + i] == front[j];
    }
  }

  lemma OneSkipped(meta: TableMeta, t: Table, front: seq<Row>, row: Row, taken: seq<nat>)
    requires WideRows(meta, t) && WideRows(meta, front) && |row| == |meta.columns| && TakesNew(meta, t, front, taken)
    requires InTable(meta, t, row) || exists j: nat :: j < |front| && j in taken && ShareKey(meta, front[j], row)
    ensures TakesNew(meta, t, front + [row], taken)
  {
    forall k: nat | k < |front + [row]|
      ensures TakesAt(meta, t, front + [row], taken, k)
    {
      if k < |front| {
        assert TakesAt(meta, t, front, taken, k);
      }
    }
  }

  lemma OneTaken(meta: TableMeta, t: Table, front: seq<Row>, row: Row, taken: seq<nat>)
    requires WideRows(meta, t) && WideRows(meta, front) && |row| == |meta.columns| && TakesNew(meta, t, front, taken)
    requires !InTable(meta, t, row) && !exists j: nat :: j < |front| && j in taken && ShareKey(meta, front[j], row)
    ensures TakesNew(meta, t, front + [row], taken + [|front|])
  {
    var last: nat := |front|;
    var more: seq<nat> := taken + [last];
    assert more[|taken|] == last;
    forall k: nat | k < |front + [row]|
      ensures TakesAt(meta, t, front + [row], more, k)
    {
      assert forall j: nat | j < last :: j in more <==> j in taken;
      if k < last {
        assert TakesAt(meta, t, front, taken, k);
      }
    }
  }

  /** Without skipping, inserting succeeds exactly if no row shares a key with the table or an earlier row. */
  lemma {:induction false} InsertAllIff(meta: TableMeta, t: Table, rows: seq<Row>)
    requires WideRows(meta, t) && WideRows(meta, rows)
    ensures InsertRows(meta, t, rows, false).Some? <==> AllNew(meta, t, rows)
  {
    if rows != [] {
      var last := |rows| - 1;
      var front, row := rows[..last], rows[last];
      assert rows == front + [row];
      InsertAllIff(meta, t, front);
      InsertSplit(meta, t, front, [row], false);
      if AllNew(meta, t, front) {
        InsertKeepsAll(meta, t, front);
        InsertLast(meta, t + front, row, false);
        ConflictsIff(meta, t + front, row);
        BehindTable(meta, t, front, row);
      }
      SameNews(meta, t, rows);
    }
  }

  lemma SameNews(meta: TableMeta, t: Table, rows: seq<Row>)
    requires WideRows(meta, t) && WideRows(meta, rows) && rows != []
    ensures var last := |rows| - 1;
            AllNew(meta, t, rows) <==> AllNew(meta, t, rows[..last]) && NewAt(meta, t, rows, last)
  {
    var last := |rows| - 1;
    forall k: nat | k < last
      ensures NewAt(meta, t, rows[..last], k) <==> NewAt(meta, t, rows, k)
    {
      assert forall j: nat | j <= k :: rows[..last][j] == rows[j];
    }
  }

  lemma BehindTable(meta: TableMeta, t: Table, front: seq<Row>, row: Row)
    requires WideRows(meta, t) && WideRows(meta, front) && |row| == |meta.columns|
    ensures InTable(meta, t + front, row) <==>
            InTable(meta, t, row) || exists j :: 0 <= j < |front| && ShareKey(meta, front[j], row)
  {
    var all := t + front;
    forall r | 0 <= r < |all|
      ensures all[r] == if r < |t| then t[r] else front[r - |t|]
    {}
    if InTable(meta, t, row) {
      var r :| 0 <= r < |t| && ShareKey(meta, t[r], row);
      assert all[r] == t[r];
    }
    if j :| 0 <= j < |front| && ShareKey(meta, front[j], row) {
      assert all[|t| + j] == front[j];
    }
  }

  ghost predicate AllNew(meta: TableMeta, t: Table, rows: seq<Row>)
    requires WideRows(meta, t) && WideRows(meta, rows)
  {
    forall k: nat | k < |rows| :: NewAt(meta, t, rows, k)
  }

  ghost predicate NewAt(meta: TableMeta, t: Table, rows: seq<Row>, k: nat)
    requires WideRows(meta, t) && WideRows(meta, rows) && k < |rows|
  {
    !InTable(meta, t, rows[k]) && forall j: nat | j < k :: !ShareKey(meta, rows[j], rows[k])
  }

  /** Without conflicts the rows end up behind the old ones, each exactly once and in order. */
  lemma {:induction false} InsertKeepsAll(meta: TableMeta, t: Table, rows: seq<Row>)
    requires WideRows(meta, t) && WideRows(meta, rows)
    ensures InsertRows(meta, t, rows, false).Some? ==> InsertRows(meta, t, rows, false).value == t + rows
    decreases |rows|
  {
    if rows == [] {
      assert t + rows == t;
    } else if !Conflicts(meta, t, rows[0]) {
      InsertKeepsAll(meta, t + [rows[0]], rows[1..]);
      assert t + [rows[0]] + rows[1..] == t + rows;
    }
  }

  // ----- the statement: syntax tree, parser, execution

  datatype InsertStmt = InsertStmt(table: string, cols: seq<string>, tuples: seq<seq<Value>>, skip: bool)

  /** One or more names separated by commas. */
  function ParseNames(ts: seq<Tok>): Option<(seq<string>, seq<Tok>)>
    decreases |ts|
  {
    if ts == [] || !ts[0].Name? then None
    else if |ts| > 1 && ts[1].Comma? then
      var more := ParseNames(ts[2..]);
      if more.None? then None else Some(([ts[0].name] + more.value.0, more.value.1))
    else Some(([ts[0].name], ts[1..]))
  }

  function ParseTuple(ts: seq<Tok>): (r: Option<(seq<Value>, seq<Tok>)>)
    ensures r.Some? ==> |r.value.1| < |ts|
  {
    if ts == [] || !ts[0].LParen? then None
    else
      var list := ParseList(ts[1..]);
      if list.None? || list.value.1 == [] || !list.value.1[0].RParen? then None
      else Some((list.value.0, list.value.1[1..]))
  }

  /** One or more tuples separated by commas. */
  function ParseTuples(ts: seq<Tok>): Option<(seq<seq<Value>>, seq<Tok>)>
    decreases |ts|
  {
    var first := ParseTuple(ts);
    if first.None? then None
    else
      var (tuple, rest) := first.value;
      if rest != [] && rest[0].Comma? then
        var more := ParseTuples(rest[1..]);
        if more.None? then None else Some(([tuple] + more.value.0, more.value.1))
      else Some(([tuple], rest))
  }

  function Parse(ts: seq<Tok>): Option<InsertStmt> {
    if |ts| < 3 || !ts[0].InsertInto? || !ts[1].Name? || !ts[2].LParen? then None
    else
      var names := ParseNames(ts[3..]);
      if names.None? then None
      else
        var (cols, rest) := names.value;
        if |rest| < 2 || !rest[0].RParen? || !rest[1].Values? then None
        else
          var tuples := ParseTuples(rest[2..]);
          if tuples.None? then None
          else if tuples.value.1 == [] then Some(InsertStmt(ts[1].name, cols, tuples.value.0, false))
          else if tuples.value.1 == [OnConflictDoNothing] then Some(InsertStmt(ts[1].name, cols, tuples.value.0, true))
          else None
  }

  function NameIndex(cols: seq<string>, name: string): (r: Option<nat>)
    ensures r.Some? ==> r.value < |cols| && cols[r.value] == name
    ensures r.None? ==> name !in cols
  {
    if cols == [] then None
    else if cols[0] == name then Some(0)
    else
      var r := NameIndex(cols[1..], name);
      if r.Some? then Some(r.value + 1) else None
  }

  /** A tuple as a row of the table: a column the statement does not name is NULL. */
  function TupleRow(meta: TableMeta, cols: seq<string>, tuple: seq<Value>): (row: Row)
    requires |tuple| == |cols|
    ensures |row| == |meta.columns|
  {
    seq(|meta.columns|, c requires 0 <= c < |meta.columns| =>
      var k := NameIndex(cols, meta.columns[c].name);
      if k.Some? then tuple[k.value] else Null)
  }

  predicate HasColumn(meta: TableMeta, name: string) {
    exists c :: 0 <= c < |meta.columns| && meta.columns[c].name == name
  }

  predicate Accepts(meta: TableMeta, stmt: InsertStmt) {
    && stmt.table == meta.name
    && (forall i | 0 <= i < |stmt.cols| :: HasColumn(meta, stmt.cols[i]))
    && forall i | 0 <= i < |stmt.tuples| :: |stmt.tuples[i]| == |stmt.cols|
  }

  function StmtRows(meta: TableMeta, stmt: InsertStmt): (rows: seq<Row>)
    requires Accepts(meta, stmt)
    ensures |rows| == |stmt.tuples| && WideRows(meta, rows)
  {
    seq(|stmt.tuples|, i requires 0 <= i < |stmt.tuples| => TupleRow(meta, stmt.cols, stmt.tuples[i]))
  }

  /** What the database does with the text: None is a statement it rejects. */
  function Exec(meta: TableMeta, ts: seq<Tok>, t: Table): Option<Table>
    requires WideRows(meta, t)
  {
    var stmt := Parse(ts);
    if stmt.None? || !Accepts(meta, stmt.value) then None
    else InsertRows(meta, t, StmtRows(meta, stmt.value), stmt.value.skip)
  }

  // ----- the text and the parameters of the loops

  function NamesText(columns: seq<Column>, k: nat): seq<Tok>
    requires k <= |columns|
  {
    if k == 0 then []
    else NamesText(columns, k - 1) + (if k > 1 then [Comma, Name(columns[k - 1].name)] else [Name(columns[k - 1].name)])
  }

  function TuplesText(width: nat, n: nat): seq<Tok> {
    if n == 0 then []
    else TuplesText(width, n - 1) + (if n > 1 then [Comma] else []) + ([LParen] + ListText(width) + [RParen])
  }

  function Ending(policy: Policy): seq<Tok> {
    if policy.DoNothing? then [OnConflictDoNothing] else []
  }

  function InsertText(meta: TableMeta, n: nat, policy: Policy): seq<Tok> {
    [InsertInto, Name(meta.name), LParen] + NamesText(meta.columns, |meta.columns|) + [RParen, Values]
    + TuplesText(|meta.columns|, n) + Ending(policy)
  }

  /** Row by row, column by column. */
  function InsertParams(rows: seq<Row>): seq<Value> {
    if rows == [] then [] else InsertParams(rows[..|rows| - 1]) + rows[|rows| - 1]
  }

  /** Column k of the j-th row of a chunk is parameter number j * columns + k + 1. */
  lemma {:induction false} ParameterOf(meta: TableMeta, rows: seq<Row>, j: nat, k: nat)
    requires WideRows(meta, rows) && j < |rows| && k < |meta.columns|
    ensures |InsertParams(rows)| == |rows| * |meta.columns|
    ensures j * |meta.columns| + k < |InsertParams(rows)|
    ensures InsertParams(rows)[j * |meta.columns| + k] == rows[j][k]
  {
    var last := |rows| - 1;
    CountInsertParams(meta, rows[..last]);
    CountInsertParams(meta, rows);
    if j < last {
      ParameterOf(meta, rows[..last], j, k);
    }
  }

  lemma {:induction false} CountInsertParams(meta: TableMeta, rows: seq<Row>)
    requires WideRows(meta, rows)
    ensures |InsertParams(rows)| == |rows| * |meta.columns|
  {
    if rows != [] {
      var last := |rows| - 1;
      CountInsertParams(meta, rows[..last]);
      assert |rows| * |meta.columns| == last * |meta.columns| + |meta.columns|;
    }
  }

  // ----- filled text, and parsing it

  function TuplesLits(rows: seq<Row>): seq<Tok> {
    if rows == [] then []
    else
      var last := |rows| - 1;
      TuplesLits(rows[..last]) + (if last > 0 then [Comma] else []) + ([LParen] + ListLits(rows[last]) + [RParen])
  }

  lemma {:induction false} FillTuples(meta: TableMeta, rows: seq<Row>)
    requires WideRows(meta, rows)
    ensures Params(TuplesText(|meta.columns|, |rows|)) == |InsertParams(rows)|
    ensures Fill(TuplesText(|meta.columns|, |rows|), InsertParams(rows)) == TuplesLits(rows)
  {
    if rows != [] {
      var last := |rows| - 1;
      FillTuples(meta, rows[..last]);
      FillNextTuple(TuplesText(|meta.columns|, last), InsertParams(rows[..last]), last > 0, rows[last]);
    }
  }

  lemma FillNextTuple(before: seq<Tok>, ps: seq<Value>, comma: bool, row: Row)
    requires Params(before) == |ps|
    ensures var sep := if comma then [Comma] else [];
            var text := before + sep + ([LParen] + ListText(|row|) + [RParen]);
            Params(text) == |ps + row| && Fill(text, ps + row)
              == Fill(before, ps) + sep + ([LParen] + ListLits(row) + [RParen])
  {
    var sep := if comma then [Comma] else [];
    FillList(row);
    FillBetween(sep + [LParen], ListText(|row|), [RParen], row);
    FillTwo(before, sep + [LParen] + ListText(|row|) + [RParen], ps, row);
    RegroupTuple(before, sep, ListText(|row|));
    RegroupTuple(Fill(before, ps), sep, ListLits(row));
  }

  lemma RegroupTuple(a: seq<Tok>, sep: seq<Tok>, list: seq<Tok>)
    ensures a + (sep + [LParen] + list + [RParen]) == a + sep + ([LParen] + list + [RParen])
  {
  }

  function MoreNames(ts: seq<Tok>): Option<(seq<string>, seq<Tok>)> {
    if ts != [] && ts[0].Comma? then ParseNames(ts[1..]) else Some(([], ts))
  }

  function ColNames(columns: seq<Column>, k: nat): (names: seq<string>)
    requires k <= |columns|
    ensures |names| == k && forall i | 0 <= i < k :: names[i] == columns[i].name
  {
    seq(k, i requires 0 <= i < k => columns[i].name)
  }

  lemma {:induction false} NamesParse(columns: seq<Column>, k: nat, rest: seq<Tok>)
    requires 0 < k <= |columns|
    ensures ParseNames(NamesText(columns, k) + rest) ==
            var more := MoreNames(rest);
            if more.None? then None else Some((ColNames(columns, k) + more.value.0, more.value.1))
    decreases k
  {
    var name := columns[k - 1].name;
    var one := [Name(name)] + rest;
    assert one[1..] == rest;
    assert rest != [] ==> one[2..] == rest[1..];
    assert [name] + [] == [name];
    var more := MoreNames(rest);
    assert ParseNames(one) == if more.None? then None else Some(([name] + more.value.0, more.value.1));
    assert ColNames(columns, k) == ColNames(columns, k - 1) + [name];
    if k == 1 {
      assert NamesText(columns, k) + rest == one;
      assert ColNames(columns, k) == [name];
    } else {
      var tail := [Comma] + one;
      assert tail[1..] == one;
      NamesParse(columns, k - 1, tail);
      assert NamesText(columns, k) + rest == NamesText(columns, k - 1) + tail;
      assert more.Some? ==> ColNames(columns, k - 1) + ([name] + more.value.0) == ColNames(columns, k) + more.value.0;
    }
  }

  lemma TupleParses(row: Row, rest: seq<Tok>)
    requires row != []
    ensures ParseTuple(([LParen] + ListLits(row) + [RParen]) + rest) == Some((row, rest))
  {
    var ts := ([LParen] + ListLits(row) + [RParen]) + rest;
    var tail := [RParen] + rest;
    assert ts[1..] == ListLits(row) + tail;
    ListParses(row, tail);
    assert MoreValues(tail) == Some(([], tail)) && row + [] == row && tail[1..] == rest;
  }

  function MoreTuples(ts: seq<Tok>): Option<(seq<seq<Value>>, seq<Tok>)> {
    if ts != [] && ts[0].Comma? then ParseTuples(ts[1..]) else Some(([], ts))
  }

  function Onto(rows: seq<Row>, more: Option<(seq<seq<Value>>, seq<Tok>)>): Option<(seq<seq<Value>>, seq<Tok>)> {
    if more.None? then None else Some((rows + more.value.0, more.value.1))
  }

  lemma TuplesParseOne(row: Row, rest: seq<Tok>)
    requires row != []
    ensures ParseTuples(([LParen] + ListLits(row) + [RParen]) + rest) == Onto([row], MoreTuples(rest))
  {
    TupleParses(row, rest);
    assert [row] + [] == [row];
  }

  lemma TuplesParseNext(before: seq<Tok>, one: seq<Tok>, rest: seq<Tok>, rows: seq<Row>, row: Row)
    requires ParseTuples(before + ([Comma] + (one + rest))) == Onto(rows, MoreTuples([Comma] + (one + rest)))
    requires ParseTuples(one + rest) == Onto([row], MoreTuples(rest))
    ensures ParseTuples((before + [Comma] + one) + rest) == Onto(rows + [row], MoreTuples(rest))
  {
    Regroup(before, [Comma], one, rest);
    assert ([Comma] + (one + rest))[1..] == one + rest;
    var more := MoreTuples(rest);
    if more.Some? {
      Assoc(rows, [row], more.value.0);
    }
  }

  lemma {:induction false} TuplesParse(rows: seq<Row>, rest: seq<Tok>)
    requires rows != [] && forall r | 0 <= r < |rows| :: rows[r] != []
    ensures ParseTuples(TuplesLits(rows) + rest) == Onto(rows, MoreTuples(rest))
    decreases |rows|
  {
    var last := |rows| - 1;
    var one := [LParen] + ListLits(rows[last]) + [RParen];
    TuplesParseOne(rows[last], rest);
    assert rows == rows[..last] + [rows[last]];
    if last == 0 {
      assert TuplesLits(rows) == one && rows == [rows[last]];
    } else {
      TuplesParse(rows[..last], [Comma] + (one + rest));
      TuplesParseNext(TuplesLits(rows[..last]), one, rest, rows[..last], rows[last]);
    }
  }

  // ----- the whole statement

  function StatementLits(meta: TableMeta, rows: seq<Row>, policy: Policy): seq<Tok> {
    [InsertInto, Name(meta.name), LParen]
    + (NamesText(meta.columns, |meta.columns|) + ([RParen, Values] + (TuplesLits(rows) + Ending(policy))))
  }

  lemma {:induction false} NamesPlain(columns: seq<Column>, k: nat)
    requires k <= |columns|
    ensures forall i | 0 <= i < |NamesText(columns, k)| :: !NamesText(columns, k)[i].Param?
  {
    if k > 0 { NamesPlain(columns, k - 1); }
  }

  lemma FillStatement(meta: TableMeta, rows: seq<Row>, policy: Policy)
    requires WideRows(meta, rows)
    ensures Params(InsertText(meta, |rows|, policy)) == |InsertParams(rows)|
    ensures Fill(InsertText(meta, |rows|, policy), InsertParams(rows)) == StatementLits(meta, rows, policy)
  {
    var front, names := [InsertInto, Name(meta.name), LParen], NamesText(meta.columns, |meta.columns|);
    var left := front + names + [RParen, Values];
    NamesPlain(meta.columns, |meta.columns|);
    FillTuples(meta, rows);
    FillBetween(left, TuplesText(|meta.columns|, |rows|), Ending(policy), InsertParams(rows));
    Assoc(left, TuplesLits(rows), Ending(policy));
    Regroup(front, names, [RParen, Values], TuplesLits(rows) + Ending(policy));
  }

  function Statement(meta: TableMeta, rows: seq<Row>, policy: Policy): InsertStmt {
    InsertStmt(meta.name, ColNames(meta.columns, |meta.columns|), rows, policy.DoNothing?)
  }

  lemma StatementParses(meta: TableMeta, rows: seq<Row>, policy: Policy)
    requires WideRows(meta, rows) && rows != [] && |meta.columns| > 0
    ensures Parse(StatementLits(meta, rows, policy)) == Some(Statement(meta, rows, policy))
  {
    var names := NamesText(meta.columns, |meta.columns|);
    var tuples := TuplesLits(rows) + Ending(policy);
    var rest := [RParen, Values] + tuples;
    var ts := StatementLits(meta, rows, policy);
    assert ts[3..] == names + rest;
    NamesParse(meta.columns, |meta.columns|, rest);
    assert MoreNames(rest) == Some(([], rest));
    var cols := ColNames(meta.columns, |meta.columns|);
    assert cols + [] == cols;
    assert rest[2..] == tuples;
    TuplesParse(rows, Ending(policy));
    assert rows + [] == rows;
  }

  lemma {:induction false} FindsName(cols: seq<string>, i: nat)
    requires i < |cols| && forall a, b | 0 <= a < b < |cols| :: cols[a] != cols[b]
    ensures NameIndex(cols, cols[i]) == Some(i)
  {
    if i > 0 { FindsName(cols[1..], i - 1); }
  }

  lemma StatementRows(meta: TableMeta, rows: seq<Row>, policy: Policy)
    requires DistinctColumns(meta) && WideRows(meta, rows)
    ensures Accepts(meta, Statement(meta, rows, policy))
    ensures StmtRows(meta, Statement(meta, rows, policy)) == rows
  {
    var stmt := Statement(meta, rows, policy);
    forall i | 0 <= i < |stmt.cols| ensures HasColumn(meta, stmt.cols[i]) {
      assert meta.columns[i].name == stmt.cols[i];
    }
    assert Accepts(meta, stmt);
    forall r, c: nat | 0 <= r < |rows| && c < |meta.columns|
      ensures StmtRows(meta, stmt)[r][c] == rows[r][c]
    {
      FindsName(stmt.cols, c);
    }
    forall r | 0 <= r < |rows| ensures StmtRows(meta, stmt)[r] == rows[r] {
    }
  }

  /** The text of one loop nest, filled one to one with the parameters of the other, inserts
      exactly the chunk's rows, each column's value in its own column. */
  lemma ChunkText(meta: TableMeta, t: Table, rows: seq<Row>, policy: Policy)
    requires DistinctColumns(meta) && WideRows(meta, t) && WideRows(meta, rows) && rows != [] && |meta.columns| > 0
    ensures Params(InsertText(meta, |rows|, policy)) == |InsertParams(rows)|
    ensures Exec(meta, Fill(InsertText(meta, |rows|, policy), InsertParams(rows)), t) ==
            InsertRows(meta, t, rows, policy.DoNothing?)
  {
    FillStatement(meta, rows, policy);
    StatementParses(meta, rows, policy);
    StatementRows(meta, rows, policy);
  }
}
