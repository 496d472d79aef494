/** The part of SQL the library speaks: values, rows, statement text as tokens, and positional
    parameters. */
module Sql {
  import opened Optional

  datatype Value = Null | Int(i: int) | Real(r: real) | Text(s: string) | Blob(b: seq<int>)

  type Row = seq<Value>
  type Table = seq<Row>

  /** `a = b` in a WHERE or CASE: a comparison with NULL is never true. */
  predicate SqlEq(a: Value, b: Value) {
    a != Null && a == b
  }

  predicate SqlIn(a: Value, list: seq<Value>) {
    exists i | 0 <= i < |list| :: SqlEq(a, list[i])
  }

  /** Statement text. `Param` is a `?`; `Lit` is what a bound parameter stands for. */
  datatype Tok =
    | Update | Set | Case | When | Then | End | Where | In | And
    | InsertInto | Values | OnConflictDoNothing
    | Equals | Comma | LParen | RParen
    | Name(name: string) | Param | Lit(value: Value)

  /** How many placeholders the text has. */
  function Params(ts: seq<Tok>): nat {
    if ts == [] then 0 else (if ts[0].Param? then 1 else 0) + Params(ts[1..])
  }

  /** The statement with its placeholders filled from left to right; a placeholder for which
      nothing was bound is NULL. */
  function Fill(ts: seq<Tok>, ps: seq<Value>): (r: seq<Tok>)
    ensures |r| == |ts|
  {
    if ts == [] then []
    else if ts[0].Param? then
      [Lit(if ps == [] then Null else ps[0])] + Fill(ts[1..], if ps == [] then [] else ps[1..])
    else [ts[0]] + Fill(ts[1..], ps)
  }

  lemma {:induction false} ParamsSplit(a: seq<Tok>, b: seq<Tok>)
    ensures Params(a + b) == Params(a) + Params(b)
  {
    if a == [] {
      assert a + b == b;
    } else {
      assert (a + b)[1..] == a[1..] + b;
      ParamsSplit(a[1..], b);
    }
  }

  /** Text and parameters split together. */
  lemma {:induction false} FillSplit(a: seq<Tok>, b: seq<Tok>, p: seq<Value>, q: seq<Value>)
    requires Params(a) == |p|
    ensures Fill(a + b, p + q) == Fill(a, p) + Fill(b, q)
  {
    if a == [] {
      assert a + b == b && p + q == q;
    } else {
      assert (a + b)[1..] == a[1..] + b;
      if a[0].Param? {
        assert (p + q)[1..] == p[1..] + q;
        FillSplit(a[1..], b, p[1..], q);
      } else {
        FillSplit(a[1..], b, p, q);
      }
    }
  }

  /** What the driver has been given for each placeholder number, counted from 1. */
  type Bindings = map<nat, Value>

  predicate Binds(bs: Bindings, ps: seq<Value>) {
    forall i | 0 <= i < |ps| :: BindsAt(bs, ps, i)
  }

  predicate BindsAt(bs: Bindings, ps: seq<Value>, i: nat)
    requires i < |ps|
  {
    i + 1 in bs && bs[i + 1] == ps[i]
  }

  /** The parameters of a statement with n placeholders, in placeholder order. */
  function ParamList(bs: Bindings, n: nat): seq<Value> {
    seq(n, i requires 0 <= i < n => if i + 1 in bs then bs[i + 1] else Null)
  }

  lemma BindsList(bs: Bindings, ps: seq<Value>)
    requires Binds(bs, ps)
    ensures ParamList(bs, |ps|) == ps
  {
    forall i | 0 <= i < |ps| ensures ParamList(bs, |ps|)[i] == ps[i] {
      assert BindsAt(bs, ps, i);
    }
  }

  /** Binding the next placeholder extends the list by one. */
  lemma BindNext(bs: Bindings, ps: seq<Value>, v: Value)
    requires Binds(bs, ps)
    ensures Binds(bs[|ps| + 1 := v], ps + [v])
  {
    var bs': Bindings := bs[|ps| + 1 := v];
    var ps' := ps + [v];
    forall i: nat | i < |ps'| ensures BindsAt(bs', ps', i) {
      if i < |ps| { assert BindsAt(bs, ps, i); }
    }
  }

  // ----- table metadata and struct fields

  datatype ColType = Int32 | Int64 | Bool | Float | Double | Str | Date | Timestamp | Enum | SetType | Json
      | BlobType | Geometry | Other

  /** What the connection does to a value of the column before binding it: how it shifts a timestamp to
      UTC, and its encryption hook, if it has one and the column is marked secure. The hook may fail. */
  datatype Treatment = Treatment(toUtc: string -> string, encrypt: Option<Value -> Option<seq<int>>>)

  datatype Column = Column(name: string, ctype: ColType, isPk: bool, isNullable: bool, treatment: Treatment)

  datatype TableMeta = TableMeta(name: string, columns: seq<Column>, isView: bool)

  predicate DistinctColumns(meta: TableMeta) {
    forall i, j | 0 <= i < j < |meta.columns| :: meta.columns[i].name != meta.columns[j].name
  }

  /** What a struct holds in the place of one column: a value or a null pointer. */
  datatype Field = NullPtr | IntField(i: int) | RealField(r: real) | TextField(s: string) | BytesField(b: seq<int>)

  type Item = seq<Field>

  predicate TextLike(t: ColType) {
    t.Str? || t.Date? || t.Timestamp? || t.Enum? || t.SetType? || t.Json?
  }

  /** The struct was generated from the metadata, so its fields have the columns' types. */
  predicate Typed(col: Column, f: Field) {
    if TextLike(col.ctype) then f.TextField? || f.NullPtr?
    else if col.ctype.BlobType? || col.ctype.Geometry? then f.BytesField? || (f.NullPtr? && col.isNullable)
    else if col.ctype.Float? || col.ctype.Double? then f.RealField? || (f.NullPtr? && col.isNullable)
    else f.IntField? || (f.NullPtr? && col.isNullable)
  }

  predicate TypedItem(meta: TableMeta, item: Item) {
    |item| == |meta.columns| && forall k | 0 <= k < |item| :: Typed(meta.columns[k], item[k])
  }

  predicate TypedItems(meta: TableMeta, items: seq<Item>) {
    forall j | 0 <= j < |items| :: TypedItem(meta, items[j])
  }

  function ValueOr(v: Option<Value>): Value { if v.Some? then v.value else Null }

  /** An encrypted value is bound as a blob, whatever it was. */
  function Secured(col: Column, v: Value): Option<Value> {
    if col.treatment.encrypt.None? then Some(v)
    else
      var bytes := col.treatment.encrypt.value(v);
      if bytes.None? then None else Some(Blob(bytes.value))
  }

  /** The value bind_row hands to the driver for one column: exactly one parameter, or a type mismatch or
      a failure of the encryption hook. `uuid` is what the generator would return for an empty text primary
      key; None if it gets no memory. */
  function BindField(col: Column, f: Field, uuid: Option<string>): Option<Value>
    requires Typed(col, f)
  {
    if TextLike(col.ctype) then
      var s := if col.isPk && col.ctype.Str? && (f.NullPtr? || f.s == "") && uuid.Some? then TextField(uuid.value)
               else f;
      if s.NullPtr? then Some(Null)
      else Secured(col, Text(if col.ctype.Timestamp? then col.treatment.toUtc(s.s) else s.s))
    else if col.ctype.BlobType? then
      if f.NullPtr? || f.b == [] then Some(Null) else Secured(col, Blob(f.b))
    else if col.ctype.Other? then (if f.NullPtr? then Some(Null) else None)
    else if f.NullPtr? then Some(Null)
    else if col.ctype.Geometry? then Some(Blob(f.b))
    else if col.ctype.Float? || col.ctype.Double? then Some(Real(f.r))
    else if col.ctype.Bool? then Some(Int(if f.i != 0 then 1 else 0))
    else Some(Int(f.i))
  }
}
