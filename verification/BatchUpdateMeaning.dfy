/** What the generated UPDATE does to the table, and when a run of chunks equals updating the
    items one at a time. */
module BatchUpdateMeaning {
  import opened BatchUpdate
  import opened BatchUpdateText
  import opened Optional
  import opened Sql

  /** The first item with this key. */
  function First(bs: seq<Bound>, v: Value): (r: Option<Bound>)
    ensures r.Some? ==> r.value in bs && SqlEq(v, r.value.pk)
    ensures r.None? <==> forall j | 0 <= j < |bs| :: !SqlEq(v, bs[j].pk)
  {
    if bs == [] then None else if SqlEq(v, bs[0].pk) then Some(bs[0]) else First(bs[1..], v)
  }

  /** The last item with this key: the one that decides when items are applied in order. */
  function Last(bs: seq<Bound>, v: Value): (r: Option<Bound>)
    ensures r.Some? ==> r.value in bs && SqlEq(v, r.value.pk)
    ensures r.None? <==> forall j | 0 <= j < |bs| :: !SqlEq(v, bs[j].pk)
  {
    if bs == [] then None
    else
      var last := |bs| - 1;
      if SqlEq(v, bs[last].pk) then Some(bs[last]) else Last(bs[..last], v)
  }

  /** The item that decides when items are applied k at a time: a CASE takes the first match of
      its chunk, and a later chunk overrides an earlier one. */
  function Winner(bs: seq<Bound>, k: nat, v: Value): (r: Option<Bound>)
    requires k > 0
    ensures r.Some? ==> r.value in bs && SqlEq(v, r.value.pk)
    decreases |bs|
  {
    if |bs| <= k then First(bs, v)
    else
      var later := Winner(bs[k..], k, v);
      if later.Some? then later else First(bs[..k], v)
  }

  function Put(meta: TableMeta, row: Row, b: Option<Bound>): (r: Row)
    requires |row| == |meta.columns| && (b.Some? ==> |b.value.vals| == |row|)
    ensures |r| == |row|
  {
    if b.None? then row else Overwrite(meta, row, b.value)
  }

  /** The table after one chunk: every row takes the data of the first item with its key. */
  function AfterChunk(meta: TableMeta, pk: nat, t: Table, bs: seq<Bound>): (t': Table)
    requires Fits(meta, pk, t, bs)
    ensures |t'| == |t| && forall r | 0 <= r < |t'| :: |t'[r]| == |meta.columns|
  {
    seq(|t|, r requires 0 <= r < |t| => Put(meta, t[r], First(bs, t[r][pk])))
  }

  /** The table after all chunks of k. */
  function AfterChunks(meta: TableMeta, pk: nat, t: Table, bs: seq<Bound>, k: nat): (t': Table)
    requires Fits(meta, pk, t, bs) && k > 0
    ensures |t'| == |t| && forall r | 0 <= r < |t'| :: |t'[r]| == |meta.columns|
    decreases |bs|
  {
    if bs == [] then t
    else if |bs| <= k then AfterChunk(meta, pk, t, bs)
    else AfterChunks(meta, pk, AfterChunk(meta, pk, t, bs[..k]), bs[k..], k)
  }

  // ----- one statement

  lemma {:induction false} ArmsTakeFirst(bs: seq<Bound>, c: nat, v: Value)
    requires Reaches(bs, c)
    ensures EvalArms(Pairs(bs, c), v) == var f := First(bs, v); if f.Some? then f.value.vals[c] else Null
  {
    if bs != [] {
      ArmsTakeFirst(bs[1..], c, v);
      assert Pairs(bs, c)[1..] == Pairs(bs[1..], c);
    }
  }

  lemma FindsColumn(meta: TableMeta, c: nat)
    requires DistinctColumns(meta) && c < |meta.columns|
    ensures ColumnIndex(meta, meta.columns[c].name) == Some(c)
  {
    assert ColumnIndex(meta, meta.columns[c].name).Some?;
  }

  lemma {:induction false} FindsSet(sets: seq<CaseSet>, i: nat)
    requires i < |sets| && forall a, b | 0 <= a < b < |sets| :: sets[a].col != sets[b].col
    ensures SetFor(sets, sets[i].col) == Some(sets[i])
  {
    if i > 0 {
      FindsSet(sets[1..], i - 1);
    }
  }

  lemma {:induction false} FindsNoSet(sets: seq<CaseSet>, name: string)
    requires forall i | 0 <= i < |sets| :: sets[i].col != name
    ensures SetFor(sets, name) == None
  {
    if sets != [] {
      FindsNoSet(sets[1..], name);
    }
  }

  lemma CaseFor(meta: TableMeta, pk: nat, bs: seq<Bound>, c: nat)
    requires DistinctColumns(meta) && pk < |meta.columns| && Wide(meta, bs) && c < |meta.columns|
    ensures SetFor(Statement(meta, pk, bs).sets, meta.columns[c].name) ==
            if meta.columns[c].isPk then None
            else Some(CaseSet(meta.columns[c].name, meta.columns[pk].name, Pairs(bs, c)))
  {
    var ks := Assigned(meta.columns, |meta.columns|);
    var sets := Statement(meta, pk, bs).sets;
    AssignedAre(meta.columns, |meta.columns|);
    forall a, b | 0 <= a < b < |sets| ensures sets[a].col != sets[b].col {
      assert ks[a] < ks[b];
    }
    if meta.columns[c].isPk {
      forall i | 0 <= i < |sets| ensures sets[i].col != meta.columns[c].name {
        assert ks[i] != c;
        assert ks[i] < c ==> meta.columns[ks[i]].name != meta.columns[c].name;
        assert c < ks[i] ==> meta.columns[c].name != meta.columns[ks[i]].name;
      }
      FindsNoSet(sets, meta.columns[c].name);
    } else {
      var i :| 0 <= i < |ks| && ks[i] == c;
      FindsSet(sets, i);
    }
  }

  lemma StatementResolves(meta: TableMeta, pk: nat, bs: seq<Bound>)
    requires DistinctColumns(meta) && pk < |meta.columns| && Wide(meta, bs)
    ensures Resolves(meta, Statement(meta, pk, bs))
  {
    FindsColumn(meta, pk);
    var stmt := Statement(meta, pk, bs);
    var ks := Assigned(meta.columns, |meta.columns|);
    forall i | 0 <= i < |stmt.sets|
      ensures ColumnIndex(meta, stmt.sets[i].col).Some? && ColumnIndex(meta, stmt.sets[i].on).Some?
    {
      FindsColumn(meta, ks[i]);
    }
  }

  lemma ExecRowTakesFirst(meta: TableMeta, pk: nat, bs: seq<Bound>, row: Row)
    requires DistinctColumns(meta) && pk < |meta.columns| && meta.columns[pk].isPk && Wide(meta, bs)
    requires |row| == |meta.columns| && Resolves(meta, Statement(meta, pk, bs))
    ensures ExecRow(meta, Statement(meta, pk, bs), row) == Put(meta, row, First(bs, row[pk]))
  {
    var stmt := Statement(meta, pk, bs);
    var f := First(bs, row[pk]);
    FindsColumn(meta, pk);
    assert SqlIn(row[pk], stmt.list) <==> f.Some? by {
      if f.None? {
        forall j | 0 <= j < |stmt.list| ensures !SqlEq(row[pk], stmt.list[j]) {
          assert stmt.list[j] == bs[j].pk;
        }
      } else {
        var j :| 0 <= j < |bs| && bs[j] == f.value;
        assert SqlEq(row[pk], stmt.list[j]);
      }
    }
    if f.Some? {
      forall c: nat | c < |row|
        ensures ExecRow(meta, stmt, row)[c] == Overwrite(meta, row, f.value)[c]
      {
        CaseFor(meta, pk, bs, c);
        if !meta.columns[c].isPk {
          ArmsTakeFirst(bs, c, row[pk]);
        }
      }
    }
  }

  /** The generated text, run with the bound parameters, is one chunk. */
  lemma ChunkText(meta: TableMeta, pk: nat, t: Table, bs: seq<Bound>)
    requires DistinctColumns(meta) && Fits(meta, pk, t, bs) && bs != []
    ensures Exec(meta, Fill(UpdateText(meta, pk, |bs|), UpdateParams(meta, bs)), t) ==
            if Assigned(meta.columns, |meta.columns|) == [] then None else Some(AfterChunk(meta, pk, t, bs))
  {
    TextAndParametersAgree(meta, pk, bs);
    if Assigned(meta.columns, |meta.columns|) != [] {
      ExecTakesFirst(meta, pk, t, bs, Fill(UpdateText(meta, pk, |bs|), UpdateParams(meta, bs)));
    }
  }

  lemma ExecTakesFirst(meta: TableMeta, pk: nat, t: Table, bs: seq<Bound>, ts: seq<Tok>)
    requires DistinctColumns(meta) && Fits(meta, pk, t, bs)
    requires Parse(ts) == Some(Statement(meta, pk, bs))
    ensures Exec(meta, ts, t) == Some(AfterChunk(meta, pk, t, bs))
  {
    StatementResolves(meta, pk, bs);
    var result := Exec(meta, ts, t).value;
    forall r: nat | r < |t|
      ensures result[r] == AfterChunk(meta, pk, t, bs)[r]
    {
      ExecRowTakesFirst(meta, pk, bs, t[r]);
    }
    assert result == AfterChunk(meta, pk, t, bs);
  }

  // ----- all chunks against one at a time

  lemma PutTwice(meta: TableMeta, pk: nat, row: Row, a: Option<Bound>, b: Option<Bound>)
    requires |row| == |meta.columns| && pk < |row| && meta.columns[pk].isPk
    requires (a.Some? ==> |a.value.vals| == |row|) && (b.Some? ==> |b.value.vals| == |row|)
    ensures Put(meta, row, a)[pk] == row[pk]
    ensures Put(meta, Put(meta, row, a), b) == Put(meta, row, if b.Some? then b else a)
  {
  }

  lemma {:induction false} LastOfFront(bs: seq<Bound>, v: Value)
    requires bs != []
    ensures Last(bs, v) == if Last(bs[1..], v).Some? then Last(bs[1..], v)
                           else if SqlEq(v, bs[0].pk) then Some(bs[0]) else None
    decreases |bs|
  {
    var last := |bs| - 1;
    if last > 0 {
      assert bs[1..][..last - 1] == bs[..last][1..];
      LastOfFront(bs[..last], v);
    }
  }

  /** There is one key column. */
  predicate SingleKey(meta: TableMeta, pk: nat) {
    forall c | 0 <= c < |meta.columns| && meta.columns[c].isPk :: c == pk
  }

  lemma {:induction false} OneByOneTakesLast(meta: TableMeta, pk: nat, row: Row, bs: seq<Bound>)
    requires |row| == |meta.columns| && pk < |row| && meta.columns[pk].isPk && Wide(meta, bs) && SingleKey(meta, pk)
    ensures RowOneByOne(meta, pk, row, bs) == Put(meta, row, Last(bs, row[pk]))
    decreases |bs|
  {
    if bs != [] {
      var step := if KeyMatches(meta, pk, row, bs[0]) then Some(bs[0]) else None;
      PutTwice(meta, pk, row, step, Last(bs[1..], row[pk]));
      OneByOneTakesLast(meta, pk, Put(meta, row, step), bs[1..]);
      LastOfFront(bs, row[pk]);
    }
  }

  lemma {:induction false} ChunksTakeWinner(meta: TableMeta, pk: nat, t: Table, bs: seq<Bound>, k: nat, r: nat)
    requires Fits(meta, pk, t, bs) && k > 0 && r < |t|
    ensures AfterChunks(meta, pk, t, bs, k)[r] == Put(meta, t[r], Winner(bs, k, t[r][pk]))
    decreases |bs|
  {
    if |bs| > k {
      var t' := AfterChunk(meta, pk, t, bs[..k]);
      ChunksTakeWinner(meta, pk, t', bs[k..], k, r);
      PutTwice(meta, pk, t[r], First(bs[..k], t[r][pk]), Winner(bs[k..], k, t[r][pk]));
    }
  }

  /** Two items carry the same data outside the key columns. */
  predicate SameData(meta: TableMeta, a: Bound, b: Bound)
    requires |a.vals| == |meta.columns| == |b.vals|
  {
    forall c | 0 <= c < |meta.columns| && !meta.columns[c].isPk :: a.vals[c] == b.vals[c]
  }

  /** What a caller can check on the items alone: for each key, the item a chunked update lets
      win carries the same data as the last item with that key. */
  predicate ChunksAgree(meta: TableMeta, bs: seq<Bound>, k: nat)
    requires Wide(meta, bs) && k > 0
  {
    forall j | 0 <= j < |bs| ::
      var w, l := Winner(bs, k, bs[j].pk), Last(bs, bs[j].pk);
      w.Some? && l.Some? ==> SameData(meta, w.value, l.value)
  }

  predicate DistinctKeys(bs: seq<Bound>) {
    forall i, j | 0 <= i < j < |bs| :: !SqlEq(bs[i].pk, bs[j].pk)
  }

  lemma {:induction false} SomeoneWins(bs: seq<Bound>, k: nat, v: Value)
    requires k > 0
    ensures Winner(bs, k, v).Some? <==> Last(bs, v).Some?
    decreases |bs|
  {
    if |bs| > k {
      SomeoneWins(bs[k..], k, v);
      assert bs == bs[..k] + bs[k..];
      if Last(bs, v).Some? {
        var j :| 0 <= j < |bs| && SqlEq(v, bs[j].pk);
        assert if j < k then SqlEq(v, bs[..k][j].pk) else SqlEq(v, bs[k..][j - k].pk);
      } else {
        assert forall j | 0 <= j < |bs[k..]| :: bs[k..][j] == bs[j + k];
      }
    }
  }

  lemma WinnerIsLast(bs: seq<Bound>, k: nat, v: Value)
    requires k > 0 && DistinctKeys(bs)
    ensures Winner(bs, k, v) == Last(bs, v)
  {
    SomeoneWins(bs, k, v);
    if Winner(bs, k, v).Some? {
      var i :| 0 <= i < |bs| && bs[i] == Winner(bs, k, v).value;
      var j :| 0 <= j < |bs| && bs[j] == Last(bs, v).value;
      assert i < j ==> !SqlEq(bs[i].pk, bs[j].pk);
      assert j < i ==> !SqlEq(bs[j].pk, bs[i].pk);
    }
  }

  /** Pairwise distinct keys: every chunk size gives what one update per item gives. */
  lemma BatchEqualsOneByOne(meta: TableMeta, pk: nat, t: Table, bs: seq<Bound>, k: nat)
    requires Fits(meta, pk, t, bs) && k > 0 && DistinctKeys(bs) && SingleKey(meta, pk)
    ensures AfterChunks(meta, pk, t, bs, k) == OneByOne(meta, pk, t, bs)
  {
    forall r: nat | r < |t|
      ensures AfterChunks(meta, pk, t, bs, k)[r] == OneByOne(meta, pk, t, bs)[r]
    {
      ChunksTakeWinner(meta, pk, t, bs, k, r);
      OneByOneTakesLast(meta, pk, t[r], bs);
      WinnerIsLast(bs, k, t[r][pk]);
    }
  }

  lemma AgreeSuffices(meta: TableMeta, pk: nat, t: Table, bs: seq<Bound>, k: nat)
    requires Fits(meta, pk, t, bs) && k > 0 && ChunksAgree(meta, bs, k) && SingleKey(meta, pk)
    ensures AfterChunks(meta, pk, t, bs, k) == OneByOne(meta, pk, t, bs)
  {
    forall r: nat | r < |t|
      ensures AfterChunks(meta, pk, t, bs, k)[r] == OneByOne(meta, pk, t, bs)[r]
    {
      var v := t[r][pk];
      ChunksTakeWinner(meta, pk, t, bs, k, r);
      OneByOneTakesLast(meta, pk, t[r], bs);
      SomeoneWins(bs, k, v);
      if Last(bs, v).Some? {
        var j :| 0 <= j < |bs| && bs[j] == Last(bs, v).value;
        assert bs[j].pk == v;
      }
    }
  }

  /** A row on which a chunked and a one-by-one update differ, for items that disagree. */
  lemma DisagreeShows(meta: TableMeta, pk: nat, bs: seq<Bound>, k: nat) returns (t: Table)
    requires pk < |meta.columns| && meta.columns[pk].isPk && Wide(meta, bs) && k > 0
    requires SingleKey(meta, pk) && !ChunksAgree(meta, bs, k)
    ensures Fits(meta, pk, t, bs) && AfterChunks(meta, pk, t, bs, k) != OneByOne(meta, pk, t, bs)
  {
    var j :| 0 <= j < |bs| && Winner(bs, k, bs[j].pk).Some? && Last(bs, bs[j].pk).Some?
             && !SameData(meta, Winner(bs, k, bs[j].pk).value, Last(bs, bs[j].pk).value);
    var w, l := Winner(bs, k, bs[j].pk).value, Last(bs, bs[j].pk).value;
    var c :| 0 <= c < |meta.columns| && !meta.columns[c].isPk && w.vals[c] != l.vals[c];
    var row: Row := seq(|meta.columns|, i => bs[j].pk);
    t := [row];
    ChunksTakeWinner(meta, pk, t, bs, k, 0);
    OneByOneTakesLast(meta, pk, row, bs);
    assert AfterChunks(meta, pk, t, bs, k)[0][c] == w.vals[c];
    assert OneByOne(meta, pk, t, bs)[0][c] == l.vals[c];
  }

  // ----- several key columns: the statement compares only the first

  /** No item can match a row, or there is nothing to change in it. */
  predicate Idle(meta: TableMeta, bs: seq<Bound>) {
    || (forall j | 0 <= j < |bs| :: bs[j].pk == Null)
    || (forall c | 0 <= c < |meta.columns| :: meta.columns[c].isPk)
  }

  lemma {:induction false} IdleKeeps(meta: TableMeta, pk: nat, row: Row, bs: seq<Bound>)
    requires |row| == |meta.columns| && pk < |row| && Wide(meta, bs) && Idle(meta, bs)
    ensures RowOneByOne(meta, pk, row, bs) == row
    decreases |bs|
  {
    if bs != [] {
      if KeyMatches(meta, pk, row, bs[0]) {
        assert Overwrite(meta, row, bs[0]) == row;
      }
      IdleKeeps(meta, pk, row, bs[1..]);
    }
  }

  lemma IdleSuffices(meta: TableMeta, pk: nat, t: Table, bs: seq<Bound>, k: nat)
    requires Fits(meta, pk, t, bs) && k > 0 && Idle(meta, bs)
    ensures AfterChunks(meta, pk, t, bs, k) == OneByOne(meta, pk, t, bs)
  {
    forall r: nat | r < |t|
      ensures AfterChunks(meta, pk, t, bs, k)[r] == OneByOne(meta, pk, t, bs)[r]
    {
      ChunksTakeWinner(meta, pk, t, bs, k, r);
      IdleKeeps(meta, pk, t[r], bs);
      var w := Winner(bs, k, t[r][pk]);
      if w.Some? {
        assert Overwrite(meta, t[r], w.value) == t[r];
      }
    }
  }

  /** An integer that no item has in that column. */
  function Above(bs: seq<Bound>, c: nat): int
    requires Reaches(bs, c)
  {
    if bs == [] then 0
    else
      var rest := Above(bs[1..], c);
      if bs[0].vals[c].Int? && bs[0].vals[c].i >= rest then bs[0].vals[c].i + 1 else rest
  }

  lemma {:induction false} AboveIsNew(bs: seq<Bound>, c: nat, j: nat)
    requires Reaches(bs, c) && j < |bs| && bs[j].vals[c].Int?
    ensures bs[j].vals[c].i < Above(bs, c)
  {
    if j > 0 { AboveIsNew(bs[1..], c, j - 1); }
  }

  lemma {:induction false} UnmatchedKeeps(meta: TableMeta, pk: nat, row: Row, bs: seq<Bound>)
    requires |row| == |meta.columns| && pk < |row| && Wide(meta, bs)
    requires forall j | 0 <= j < |bs| :: !KeyMatches(meta, pk, row, bs[j])
    ensures RowOneByOne(meta, pk, row, bs) == row
    decreases |bs|
  {
    if bs != [] { UnmatchedKeeps(meta, pk, row, bs[1..]); }
  }

  /** A row that no item names, with the first key column of one of them: the batch rewrites it. */
  lemma RewritesUnnamed(meta: TableMeta, pk: nat, bs: seq<Bound>, k: nat) returns (t: Table)
    requires pk < |meta.columns| && meta.columns[pk].isPk && Wide(meta, bs) && k > 0
    requires !SingleKey(meta, pk) && !Idle(meta, bs)
    ensures Fits(meta, pk, t, bs) && |t| == 1 && forall j | 0 <= j < |bs| :: !KeyMatches(meta, pk, t[0], bs[j])
    ensures OneByOne(meta, pk, t, bs) == t && AfterChunks(meta, pk, t, bs, k) != t
  {
    var j :| 0 <= j < |bs| && bs[j].pk != Null;
    var key :| 0 <= key < |meta.columns| && meta.columns[key].isPk && key != pk;
    var c :| 0 <= c < |meta.columns| && !meta.columns[c].isPk;
    var v := bs[j].pk;
    SomeoneWins(bs, k, v);
    assert SqlEq(v, bs[j].pk) && Last(bs, v).Some?;
    var w := Winner(bs, k, v).value;
    var other := if w.vals[c] == Null then Int(0) else Null;
    var row: Row := seq(|meta.columns|, i => if i == c then other else if i == key then Int(Above(bs, key)) else v);
    t := [row];
    forall i: nat | i < |bs|
      ensures !KeyMatches(meta, pk, row, bs[i])
    {
      if bs[i].vals[key].Int? { AboveIsNew(bs, key, i); }
      assert !SqlEq(row[key], bs[i].vals[key]);
    }
    UnmatchedKeeps(meta, pk, row, bs);
    assert OneByOne(meta, pk, t, bs) == t;
    ChunksTakeWinner(meta, pk, t, bs, k, 0);
    assert AfterChunks(meta, pk, t, bs, k)[0][c] == w.vals[c] != row[c];
  }

  /** Exactly when a chunked update means one update per item, on every table: with one key column,
      if the winners agree; with several, if no item does anything at all. */
  lemma BatchEqualsOneByOneIff(meta: TableMeta, pk: nat, bs: seq<Bound>, k: nat)
    requires pk < |meta.columns| && meta.columns[pk].isPk && Wide(meta, bs) && k > 0
    ensures (if SingleKey(meta, pk) then ChunksAgree(meta, bs, k) else Idle(meta, bs)) <==>
            forall t: Table | Fits(meta, pk, t, bs) :: AfterChunks(meta, pk, t, bs, k) == OneByOne(meta, pk, t, bs)
  {
    if SingleKey(meta, pk) {
      if ChunksAgree(meta, bs, k) {
        forall t: Table | Fits(meta, pk, t, bs)
          ensures AfterChunks(meta, pk, t, bs, k) == OneByOne(meta, pk, t, bs)
        {
          AgreeSuffices(meta, pk, t, bs, k);
        }
      } else {
        var t := DisagreeShows(meta, pk, bs, k);
      }
    } else if Idle(meta, bs) {
      forall t: Table | Fits(meta, pk, t, bs)
        ensures AfterChunks(meta, pk, t, bs, k) == OneByOne(meta, pk, t, bs)
      {
        IdleSuffices(meta, pk, t, bs, k);
      }
    } else {
      var t := RewritesUnnamed(meta, pk, bs, k);
    }
  }

  /** Rows whose first key column no item carries are left alone, and no row is added or removed. */
  lemma OtherRowsUntouched(meta: TableMeta, pk: nat, t: Table, bs: seq<Bound>, k: nat, r: nat)
    requires Fits(meta, pk, t, bs) && k > 0 && r < |t|
    requires forall j | 0 <= j < |bs| :: !SqlEq(t[r][pk], bs[j].pk)
    ensures |AfterChunks(meta, pk, t, bs, k)| == |t| && AfterChunks(meta, pk, t, bs, k)[r] == t[r]
  {
    ChunksTakeWinner(meta, pk, t, bs, k, r);
    SomeoneWins(bs, k, t[r][pk]);
  }
}
