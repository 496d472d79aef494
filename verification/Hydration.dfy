/** Reading a column back, as c_orm_hydrate_row_from of src/c_orm_api.c does, and with it what the value
    bound for a field has to be. */
module Hydration {
  import opened Optional
  import opened Sql

  /** The field that a stored value becomes, where no hook and no time zone is set; None is a type
      mismatch. */
  function ReadBack(t: ColType, isNullable: bool, v: Value): Option<Field> {
    if v == Null then
      if isNullable then Some(NullPtr) else None
    else
      match t
      case Int32 => if v.Int? then Some(IntField(v.i)) else None
      case Int64 => if v.Int? then Some(IntField(v.i)) else None
      case Bool => if v.Int? then Some(IntField(if v.i != 0 then 1 else 0)) else None
      case Float => if v.Real? then Some(RealField(v.r)) else None
      case Double => if v.Real? then Some(RealField(v.r)) else None
      case BlobType => if v.Blob? then Some(BytesField(v.b)) else None
      case Geometry => if v.Blob? then Some(BytesField(v.b)) else None
      case Other => None
      case _ => if v.Text? then Some(TextField(v.s)) else None
  }

  /** What is left of a field that was stored and read: every true is 1, and a blob of no bytes is none. */
  function Seen(t: ColType, f: Field): Field {
    if t.Bool? && f.IntField? && f.i != 0 then IntField(1)
    else if t.BlobType? && f == BytesField([]) then NullPtr
    else f
  }

  /** The value stands for the field: it reads back as the field. */
  predicate Stands(t: ColType, f: Field, v: Value) {
    ReadBack(t, true, v) == Some(Seen(t, f)) && (t.Bool? && v.Int? ==> v.i == 0 || v.i == 1)
  }

  /** An empty text primary key for which the generator has an identifier. */
  predicate Generates(col: Column, f: Field, uuid: Option<string>) {
    col.isPk && col.ctype.Str? && (f == NullPtr || f == TextField("")) && uuid.Some?
  }

  /** What goes to the database: the identifier, if one is generated, and a timestamp in UTC. */
  function Sent(col: Column, f: Field, uuid: Option<string>): Field {
    if Generates(col, f, uuid) then TextField(uuid.value)
    else if col.ctype.Timestamp? && f.TextField? then TextField(col.treatment.toUtc(f.s))
    else f
  }

  /** Text and blobs of a secure column go through the hook, if there is anything to encrypt. */
  predicate Hooked(col: Column, f: Field) {
    && col.treatment.encrypt.Some? && (TextLike(col.ctype) || col.ctype.BlobType?)
    && f != NullPtr && (col.ctype.BlobType? ==> f != BytesField([]))
  }

  /** The value is what the driver is to hold for the field. */
  ghost predicate Carries(col: Column, f: Field, uuid: Option<string>, v: Value) {
    var own := Sent(col, f, uuid);
    if Hooked(col, own) then
      exists plain :: Stands(col.ctype, own, plain) && v == HookBytes(col, plain)
    else Stands(col.ctype, own, v)
  }

  /** Exactly what the hook makes of a value; NULL if it fails. */
  function HookBytes(col: Column, plain: Value): Value
    requires col.treatment.encrypt.Some?
  {
    var bytes := col.treatment.encrypt.value(plain);
    if bytes.Some? then Blob(bytes.value) else Null
  }

  /** Nothing else stands for a field. */
  lemma StandsOne(t: ColType, f: Field, v: Value, w: Value)
    requires Stands(t, f, v) && Stands(t, f, w)
    ensures v == w
  {
  }

  /** Every field but one of a type nobody binds can be bound, unless its hook fails. */
  ghost predicate CanBind(col: Column, f: Field, uuid: Option<string>) {
    var own := Sent(col, f, uuid);
    && (col.ctype.Other? ==> f == NullPtr)
    && (Hooked(col, own) ==> forall plain | Stands(col.ctype, own, plain) :: HookBytes(col, plain) != Null)
  }

  /** bind_row binds exactly what can be bound, and as what it is. */
  lemma BindFieldIff(col: Column, f: Field, uuid: Option<string>)
    requires Typed(col, f)
    ensures BindField(col, f, uuid).Some? <==> CanBind(col, f, uuid)
    ensures BindField(col, f, uuid).Some? ==> Carries(col, f, uuid, BindField(col, f, uuid).value)
  {
    var own := Sent(col, f, uuid);
    if Hooked(col, own) {
      var plain := if own.TextField? then Text(own.s) else Blob(own.b);
      assert Stands(col.ctype, own, plain);
      forall other | Stands(col.ctype, own, other)
        ensures other == plain
      {
        StandsOne(col.ctype, own, plain, other);
      }
    }
  }

  /** Without a hook, a time zone or a generated key, a field that was bound is read back if and only if the
      column may hold NULL or the field is neither a null pointer nor a blob of no bytes. */
  lemma RoundTripIff(col: Column, f: Field, uuid: Option<string>)
    requires Typed(col, f) && !col.ctype.Other? && col.treatment.encrypt.None? && !Generates(col, f, uuid)
    requires col.ctype.Timestamp? && f.TextField? ==> col.treatment.toUtc(f.s) == f.s
    ensures BindField(col, f, uuid).Some?
    ensures ReadBack(col.ctype, col.isNullable, BindField(col, f, uuid).value) == Some(Seen(col.ctype, f)) <==>
            col.isNullable || (f != NullPtr && (col.ctype.BlobType? ==> f != BytesField([])))
  {
    BindFieldIff(col, f, uuid);
  }
}
