/** What the UP and DOWN scripts of a schema difference do to a table, and when a database accepts
    them. */
module SchemaDiffMeaning {
  import opened CaseFolding
  import opened Optional
  import opened SchemaDiff

  // ----- tables

  /** What CREATE TABLE makes of a column besides its type: `id` is the primary key, `x_id` references
      table x. */
  datatype Role = Key | Link | Plain

  datatype Def = Def(sqlType: string, role: Role)

  /** A table as the database sees it; no two of its names are the same up to case. */
  type Table = map<string, Def>

  function RoleOf(name: string): Role {
    if name == "id" then Key
    else if |name| > 3 && name[|name| - 3..] == "_id" then Link
    else Plain
  }

  /** The primary key is the column id; a reference is named after a table, with `_id` behind it. */
  lemma RolesAre(name: string)
    ensures RoleOf(name).Key? <==> name == "id"
    ensures RoleOf(name).Link? <==> exists table :: table != "" && name == table + "_id"
  {
    if RoleOf(name).Link? {
      assert name == name[..|name| - 3] + "_id";
    }
    if table :| table != "" && name == table + "_id" {
      assert |name| > 3 && name[|name| - 3..] == "_id";
    }
  }

  function DefOf(c: Column, d: Dialect, plain: bool): Def {
    Def(SqlType(c.ctype, d), if plain then Plain else RoleOf(c.name))
  }

  /** The columns as CREATE TABLE declares them or, `plain`, as ADD COLUMN does. */
  function TableOf(cols: seq<Column>, d: Dialect, plain: bool): Table {
    if cols == [] then map[]
    else
      var last := cols[|cols| - 1];
      TableOf(cols[..|cols| - 1], d, plain)[last.name := DefOf(last, d, plain)]
  }

  function Declared(cols: seq<Column>, d: Dialect): Table {
    TableOf(cols, d, false)
  }

  lemma NamesSplit(cols: seq<Column>)
    requires cols != []
    ensures Names(cols) == Names(cols[..|cols| - 1]) + {cols[|cols| - 1].name}
    ensures DistinctNames(cols) ==>
              DistinctNames(cols[..|cols| - 1]) && cols[|cols| - 1].name !in Names(cols[..|cols| - 1])
  {
    var last := |cols| - 1;
    assert cols == cols[..last] + [cols[last]];
    if DistinctNames(cols) {
      forall c | c in cols[..last]
        ensures c.name != cols[last].name
      {
        var i :| 0 <= i < last && cols[..last][i] == c;
        assert cols[i].name != cols[last].name;
      }
    }
  }

  lemma {:induction false} TableKeys(cols: seq<Column>, d: Dialect, plain: bool)
    ensures TableOf(cols, d, plain).Keys == Names(cols)
  {
    if cols != [] {
      TableKeys(cols[..|cols| - 1], d, plain);
      NamesSplit(cols);
    }
  }

  lemma {:induction false} TableAt(cols: seq<Column>, d: Dialect, plain: bool, c: Column)
    requires DistinctNames(cols) && c in cols
    ensures c.name in TableOf(cols, d, plain) && TableOf(cols, d, plain)[c.name] == DefOf(c, d, plain)
  {
    var last := |cols| - 1;
    NamesSplit(cols);
    if c != cols[last] {
      assert cols == cols[..last] + [cols[last]];
      assert c in cols[..last];
      TableAt(cols[..last], d, plain, c);
    }
  }

  lemma OnlyColumn(cols: seq<Column>, a: Column, b: Column)
    requires DistinctNames(cols) && a in cols && b in cols && a.name == b.name
    ensures a == b
  {
    var i :| 0 <= i < |cols| && cols[i] == a;
    var j :| 0 <= j < |cols| && cols[j] == b;
  }

  // ----- what a database accepts

  /** PostgreSQL has no type BLOB. */
  predicate HasType(d: Dialect, sqlType: string) {
    d.Postgres? ==> sqlType != "BLOB"
  }

  /** SQLite never drops a primary key column. */
  predicate DropsRole(d: Dialect, role: Role) {
    d.Sqlite? ==> role.Plain? || (role.Link? && d.dropsLinks)
  }

  /** PostgreSQL changes a type where the values have an assignment cast, and a referencing column's
      not at all. */
  predicate Retypes(d: Dialect, was: Def, sqlType: string) {
    && d.Postgres? && HasType(d, sqlType)
    && (|| was.sqlType == sqlType
        || (!was.role.Link?
            && (sqlType == "TEXT" || {was.sqlType, sqlType} == {"INTEGER", "DOUBLE PRECISION"})))
  }

  /** The table has a column of that name, up to case. */
  ghost predicate Taken(t: Table, name: string) {
    exists n :: n in t && SameName(n, name)
  }

  /** One statement on a table; None where the database refuses it. Only PostgreSQL has ALTER COLUMN ..
      TYPE (SQLite would need the table rebuilt, MySQL spells it MODIFY COLUMN), and only PostgreSQL
      drops a table's last column. The scripts drop and retype columns under the names they have. */
  ghost function Execute(d: Dialect, t: Table, s: Statement): Option<Table> {
    match s
    case AddColumn(name, ty) =>
      if Taken(t, name) || !HasType(d, ty) then None else Some(t[name := Def(ty, Plain)])
    case DropColumn(name) =>
      if name in t && (d.Postgres? || t.Keys != {name}) && DropsRole(d, t[name].role) then Some(t - {name})
      else None
    case AlterType(name, ty) =>
      if name in t && Retypes(d, t[name], ty) then Some(t[name := Def(ty, t[name].role)])
      else None
    case NotReverted(_) => Some(t)
  }

  /** A script stops at the first statement the database refuses. */
  ghost function Run(d: Dialect, t: Table, script: seq<Statement>): Option<Table>
    decreases |script|
  {
    if script == [] then Some(t)
    else
      var r := Execute(d, t, script[0]);
      if r.None? then None else Run(d, r.value, script[1..])
  }

  lemma {:induction false} RunAppend(d: Dialect, t: Table, a: seq<Statement>, b: seq<Statement>)
    ensures Run(d, t, a + b) == if Run(d, t, a).None? then None else Run(d, Run(d, t, a).value, b)
    decreases |a|
  {
    if a == [] {
      assert a + b == b;
    } else {
      assert (a + b)[1..] == a[1..] + b;
      var r := Execute(d, t, a[0]);
      if r.Some? { RunAppend(d, r.value, a[1..], b); }
    }
  }

  lemma RunOne(d: Dialect, t: Table, s: Statement)
    ensures Run(d, t, [s]) == Execute(d, t, s)
  {
    var r := Execute(d, t, s);
    if r.Some? { assert [s][1..] == [] && Run(d, r.value, []) == r; }
  }

  lemma RunLast(d: Dialect, t: Table, a: seq<Statement>, s: Statement)
    ensures Run(d, t, a + [s]) == if Run(d, t, a).None? then None else Execute(d, Run(d, t, a).value, s)
  {
    RunAppend(d, t, a, [s]);
    if Run(d, t, a).Some? { RunOne(d, Run(d, t, a).value, s); }
  }

  // ----- what each block of a script does

  predicate TypesExist(cols: seq<Column>, d: Dialect) {
    forall c | c in cols :: HasType(d, SqlType(c.ctype, d))
  }

  lemma Overlay(t: Table, u: Table, n: string, def: Def)
    ensures (t + u)[n := def] == t + u[n := def]
  {}

  /** No two columns differ in case only. */
  predicate CaseDistinct(cols: seq<Column>) {
    forall i, j | 0 <= i < j < |cols| :: !SameName(cols[i].name, cols[j].name)
  }

  /** None of the columns is there. */
  ghost predicate Free(t: Table, cols: seq<Column>) {
    forall c | c in cols :: !Taken(t, c.name)
  }

  lemma {:induction false} AddsRun(t: Table, cols: seq<Column>, d: Dialect)
    requires CaseDistinct(cols)
    ensures Run(d, t, Adds(cols, d)) ==
            if Free(t, cols) && TypesExist(cols, d) then Some(t + TableOf(cols, d, true)) else None
  {
    if cols == [] {
      assert t + map[] == t;
    } else {
      var last := |cols| - 1;
      var front, c := cols[..last], cols[last];
      assert cols == front + [c];
      AddsRun(t, front, d);
      RunLast(d, t, Adds(front, d), AddColumn(c.name, SqlType(c.ctype, d)));
      TakenBehind(t, cols, d);
      Overlay(t, TableOf(front, d, true), c.name, DefOf(c, d, true));
      assert TypesExist(cols, d) <==> TypesExist(front, d) && HasType(d, SqlType(c.ctype, d));
      assert Free(t, cols) <==> Free(t, front) && !Taken(t, c.name);
    }
  }

  /** Adding the columns before it does not take the last one's name. */
  lemma TakenBehind(t: Table, cols: seq<Column>, d: Dialect)
    requires cols != [] && CaseDistinct(cols)
    ensures var last := |cols| - 1;
            Taken(t + TableOf(cols[..last], d, true), cols[last].name) <==> Taken(t, cols[last].name)
  {
    var last := |cols| - 1;
    var more := TableOf(cols[..last], d, true);
    TableKeys(cols[..last], d, true);
    forall n | n in more
      ensures !SameName(n, cols[last].name)
    {
      var i :| 0 <= i < last && cols[..last][i].name == n;
      assert !SameName(cols[i].name, cols[last].name);
    }
    if Taken(t, cols[last].name) {
      var n :| n in t && SameName(n, cols[last].name);
      assert n in t + more;
    }
  }

  /** The database drops each of these columns of the table, and is not left without any. */
  predicate CanDrop(t: Table, cols: seq<Column>, d: Dialect) {
    && (d.Postgres? || cols == [] || t.Keys != Names(cols))
    && forall c | c in cols :: c.name in t && DropsRole(d, t[c.name].role)
  }

  lemma {:induction false} DropsRun(t: Table, cols: seq<Column>, d: Dialect)
    requires DistinctNames(cols) && Names(cols) <= t.Keys
    ensures Run(d, t, Drops(cols)) == if CanDrop(t, cols, d) then Some(t - Names(cols)) else None
  {
    if cols == [] {
      assert Names(cols) == {} && t - {} == t;
    } else {
      var last := |cols| - 1;
      var front, c := cols[..last], cols[last];
      assert cols == front + [c];
      NamesSplit(cols);
      DropsRun(t, front, d);
      RunLast(d, t, Drops(front), DropColumn(c.name));
      assert t.Keys != Names(front);
      var left := t - Names(front);
      assert left.Keys == t.Keys - Names(front);
      assert left.Keys == {c.name} <==> t.Keys == Names(cols);
      assert left - {c.name} == t - Names(cols);
      assert CanDrop(t, cols, d) <==>
             && CanDrop(t, front, d) && (d.Postgres? || t.Keys != Names(cols))
             && DropsRole(d, t[c.name].role);
    }
  }

  predicate CanRetype(t: Table, cols: seq<Column>, d: Dialect) {
    forall c | c in cols :: c.name in t && Retypes(d, t[c.name], SqlType(c.ctype, d))
  }

  /** The columns of the table with these types, their roles kept. */
  function WithTypes(t: Table, cols: seq<Column>, d: Dialect): Table {
    var types := TableOf(cols, d, true);
    map n | n in t :: Def(if n in types then types[n].sqlType else t[n].sqlType, t[n].role)
  }

  lemma {:induction false} AltersRun(t: Table, cols: seq<Column>, d: Dialect)
    requires DistinctNames(cols) && Names(cols) <= t.Keys
    ensures Run(d, t, Alters(cols, d)) == if CanRetype(t, cols, d) then Some(WithTypes(t, cols, d)) else None
  {
    if cols == [] {
      assert WithTypes(t, cols, d) == t;
    } else {
      var last := |cols| - 1;
      var front, c := cols[..last], cols[last];
      assert cols == front + [c];
      NamesSplit(cols);
      AltersRun(t, front, d);
      RunLast(d, t, Alters(front, d), AlterType(c.name, SqlType(c.ctype, d)));
      CanRetypeLast(t, front, c, d);
      AlterLast(t, cols, d);
    }
  }

  /** The last of these statements, on the table that the ones before it leave. */
  lemma AlterLast(t: Table, cols: seq<Column>, d: Dialect)
    requires cols != [] && DistinctNames(cols) && Names(cols) <= t.Keys
    ensures var last := |cols| - 1;
            var n, ty := cols[last].name, SqlType(cols[last].ctype, d);
            n in t && Execute(d, WithTypes(t, cols[..last], d), AlterType(n, ty))
                      == if Retypes(d, t[n], ty) then Some(WithTypes(t, cols, d)) else None
  {
    RetypedLast(t, cols, d);
  }

  lemma CanRetypeLast(t: Table, front: seq<Column>, c: Column, d: Dialect)
    requires c.name in t
    ensures CanRetype(t, front + [c], d) <==> CanRetype(t, front, d) && Retypes(d, t[c.name], SqlType(c.ctype, d))
  {
    var cols := front + [c];
    assert c in cols && forall f | f in front :: f in cols;
  }

  lemma RetypedLast(t: Table, cols: seq<Column>, d: Dialect)
    requires cols != [] && DistinctNames(cols) && Names(cols) <= t.Keys
    ensures var last := |cols| - 1;
            var half, n := WithTypes(t, cols[..last], d), cols[last].name;
            && n in t && half[n] == t[n]
            && half[n := Def(SqlType(cols[last].ctype, d), t[n].role)] == WithTypes(t, cols, d)
  {
    NamesSplit(cols);
    TableKeys(cols[..|cols| - 1], d, true);
  }

  lemma {:induction false} CommentsRun(t: Table, cols: seq<Column>, d: Dialect)
    ensures Run(d, t, Comments(cols)) == Some(t)
  {
    if cols != [] {
      var last := |cols| - 1;
      CommentsRun(t, cols[..last], d);
      RunLast(d, t, Comments(cols[..last]), NotReverted(cols[last].name));
    }
  }

  // ----- where the columns of the two schemas end up

  /** The code compares names letter by letter: a change of case only is a drop and an addition to it. */
  predicate CaseRename(b: Column, a: Column) {
    SameName(b.name, a.name) && b.name != a.name
  }

  ghost predicate NoCaseRename(before: seq<Column>, after: seq<Column>) {
    forall a, b | a in after && b in before :: !CaseRename(b, a)
  }

  lemma Lists(before: seq<Column>, after: seq<Column>)
    requires DistinctNames(before) && DistinctNames(after)
    ensures var diff := DifferenceOf(before, after);
            && (forall c :: c in diff.added <==> c in after && c.name !in Names(before))
            && (forall c :: c in diff.dropped <==> c in before && c.name !in Names(after))
            && (forall c :: c in diff.altered <==> c in after && c.name in Names(before) && c !in before)
            && DistinctNames(diff.added) && DistinctNames(diff.dropped) && DistinctNames(diff.altered)
  {
    FilterIs(after, Missing(before));
    FilterIs(before, Missing(after));
    FilterIs(after, Retyped(before));
    TypesKnown(before);
    TypesKnown(after);
  }

  lemma Exact(cols: seq<Column>)
    requires CaseDistinct(cols)
    ensures DistinctNames(cols)
  {
    forall i, j | 0 <= i < j < |cols|
      ensures cols[i].name != cols[j].name
    {
      assert !SameName(cols[i].name, cols[j].name);
    }
  }

  lemma {:induction false} FilterDistinct(cols: seq<Column>, keep: Column -> bool)
    requires CaseDistinct(cols)
    ensures CaseDistinct(Filter(cols, keep))
    ensures forall c | c in Filter(cols, keep) :: c in cols
  {
    if cols != [] {
      var front, last := cols[..|cols| - 1], cols[|cols| - 1];
      FilterDistinct(front, keep);
      var some := Filter(front, keep);
      forall k | 0 <= k < |some|
        ensures !SameName(some[k].name, last.name)
      {
        assert some[k] in some && some[k] in front;
        var i :| 0 <= i < |front| && front[i] == some[k];
        assert !SameName(cols[i].name, cols[|cols| - 1].name);
      }
    }
  }

  lemma ListNames(before: seq<Column>, after: seq<Column>)
    requires DistinctNames(before) && DistinctNames(after)
    ensures var diff := DifferenceOf(before, after);
            && Names(diff.added) == Names(after) - Names(before)
            && Names(diff.dropped) == Names(before) - Names(after)
            && Names(diff.altered) <= Names(before) * Names(after)
  {
    Lists(before, after);
    var diff := DifferenceOf(before, after);
    forall n | n in Names(after) - Names(before)
      ensures n in Names(diff.added)
    {
      var a :| a in after && a.name == n;
      assert a in diff.added;
    }
    forall n | n in Names(before) - Names(after)
      ensures n in Names(diff.dropped)
    {
      var b :| b in before && b.name == n;
      assert b in diff.dropped;
    }
  }

  /** The additions find their names free exactly if no column changes its case only. */
  lemma FreeIff(before: seq<Column>, after: seq<Column>, d: Dialect)
    requires CaseDistinct(before) && CaseDistinct(after)
    ensures Free(Declared(before, d), DifferenceOf(before, after).added) <==> NoCaseRename(before, after)
  {
    Exact(before);
    Exact(after);
    Lists(before, after);
    TableKeys(before, d, false);
    var added, t := DifferenceOf(before, after).added, Declared(before, d);
    if a, b :| a in after && b in before && CaseRename(b, a) {
      RenameIsAddition(before, a, b);
      assert b.name in t && a in added && Taken(t, a.name);
    } else {
      forall c | c in added
        ensures !Taken(t, c.name)
      {
        forall b | b in before
          ensures !SameName(b.name, c.name)
        {
          assert !CaseRename(b, c) && b.name in Names(before);
        }
      }
    }
  }

  lemma RenameIsAddition(before: seq<Column>, a: Column, b: Column)
    requires CaseDistinct(before) && b in before && CaseRename(b, a)
    ensures a.name !in Names(before)
  {
    forall c | c in before
      ensures c.name != a.name
    {
      var i :| 0 <= i < |before| && before[i] == b;
      var j :| 0 <= j < |before| && before[j] == c;
      assert i < j ==> !SameName(before[i].name, before[j].name);
      assert j < i ==> !SameName(before[j].name, before[i].name);
    }
  }

  /** A column of both schemas. */
  lemma InBoth(before: seq<Column>, after: seq<Column>, a: Column, b: Column)
    requires DistinctNames(before) && DistinctNames(after)
    requires a in after && b in before && a.name == b.name
    ensures var diff := DifferenceOf(before, after);
            && TypeOf(before, a.name) == Some(b.ctype)
            && (a in diff.altered <==> a.ctype != b.ctype)
            && (a.name in Names(diff.altered) <==> a in diff.altered)
            && a.name !in Names(diff.added) + Names(diff.dropped)
  {
    Lists(before, after);
    ListNames(before, after);
    TypesKnown(before);
    assert b.name in Names(before);
    if a in before {
      OnlyColumn(before, a, b);
    }
    var altered := DifferenceOf(before, after).altered;
    if a.name in Names(altered) {
      var c :| c in altered && c.name == a.name;
      OnlyColumn(after, a, c);
    }
  }

  /** What the additions leave: the declared columns, and the new ones behind them. */
  lemma AfterAdds(before: seq<Column>, after: seq<Column>, d: Dialect)
    requires DistinctNames(before) && DistinctNames(after)
    ensures var t := Declared(before, d) + TableOf(DifferenceOf(before, after).added, d, true);
            && t.Keys == Names(before) + Names(after)
            && (forall b | b in before :: b.name in t && t[b.name] == DefOf(b, d, false))
            && (forall a | a in after && a.name !in Names(before) ::
                  a.name in t && t[a.name] == DefOf(a, d, true))
  {
    var added := DifferenceOf(before, after).added;
    Lists(before, after);
    ListNames(before, after);
    TableKeys(before, d, false);
    TableKeys(added, d, true);
    var t := Declared(before, d) + TableOf(added, d, true);
    forall b | b in before
      ensures b.name in t && t[b.name] == DefOf(b, d, false)
    {
      TableAt(before, d, false, b);
      assert b.name in Names(before);
    }
    forall a | a in after && a.name !in Names(before)
      ensures a.name in t && t[a.name] == DefOf(a, d, true)
    {
      assert a.name in Names(added);
      var c :| c in added && c.name == a.name;
      OnlyColumn(after, a, c);
      TableAt(added, d, true, a);
    }
  }

  lemma NoNames(cols: seq<Column>)
    ensures Names(cols) == {} <==> cols == []
  {
    if cols != [] {
      assert cols[0] in cols && cols[0].name in Names(cols);
    }
  }

  // ----- UP

  /** Whether a column of either schema keeps its name. */
  predicate Shared(before: seq<Column>, after: seq<Column>) {
    exists a, b :: a in after && b in before && a.name == b.name
  }

  /** When the database accepts every statement of UP. */
  ghost predicate UpAccepted(before: seq<Column>, after: seq<Column>, d: Dialect) {
    var diff := DifferenceOf(before, after);
    && NoCaseRename(before, after)
    && TypesExist(diff.added, d)
    && (d.Postgres? || diff.dropped == [] || after != [])
    && (forall c | c in diff.dropped :: DropsRole(d, RoleOf(c.name)))
    && (forall c | c in diff.altered ::
          && TypeOf(before, c.name).Some?
          && Retypes(d, DefOf(Column(c.name, TypeOf(before, c.name).value), d, false), SqlType(c.ctype, d)))
  }

  /** The table the new schema declares, except that an added column is neither key nor reference. */
  function Migrated(before: seq<Column>, after: seq<Column>, d: Dialect): Table {
    var declared, plain := TableOf(after, d, false), TableOf(after, d, true);
    map n | n in declared && n in plain :: if n in Names(before) then declared[n] else plain[n]
  }

  /** On the table the old schema declares, UP is accepted under exactly these conditions, and then
      leads to the table of the new schema, with what it added being plain columns. */
  lemma UpMigrates(before: seq<Column>, after: seq<Column>, d: Dialect)
    requires CaseDistinct(before) && CaseDistinct(after)
    ensures Run(d, Declared(before, d), Up(DifferenceOf(before, after), d)) ==
            if UpAccepted(before, after, d) then Some(Migrated(before, after, d)) else None
  {
    var diff := DifferenceOf(before, after);
    var t0 := Declared(before, d);
    var t1 := t0 + TableOf(diff.added, d, true);
    RunAppend(d, t0, Adds(diff.added, d) + Drops(diff.dropped), Alters(diff.altered, d));
    RunAppend(d, t0, Adds(diff.added, d), Drops(diff.dropped));
    UpAdds(before, after, d);
    Exact(before);
    Exact(after);
    if NoCaseRename(before, after) && TypesExist(diff.added, d) {
      UpDrops(before, after, d, t1);
      DropsAccepted(before, after, d, t1);
      if CanDrop(t1, diff.dropped, d) {
        UpAlters(before, after, d, t1 - Names(diff.dropped));
        AltersAccepted(before, after, d, t1 - Names(diff.dropped));
        UpTable(before, after, d);
      }
    }
  }

  lemma UpAdds(before: seq<Column>, after: seq<Column>, d: Dialect)
    requires CaseDistinct(before) && CaseDistinct(after)
    ensures var t, added := Declared(before, d), DifferenceOf(before, after).added;
            Run(d, t, Adds(added, d)) ==
            if NoCaseRename(before, after) && TypesExist(added, d) then Some(t + TableOf(added, d, true)) else None
  {
    FilterDistinct(after, Missing(before));
    FreeIff(before, after, d);
    AddsRun(Declared(before, d), DifferenceOf(before, after).added, d);
  }

  lemma UpDrops(before: seq<Column>, after: seq<Column>, d: Dialect, t: Table)
    requires DistinctNames(before) && DistinctNames(after)
    requires t == Declared(before, d) + TableOf(DifferenceOf(before, after).added, d, true)
    ensures var dropped := DifferenceOf(before, after).dropped;
            Run(d, t, Drops(dropped)) == if CanDrop(t, dropped, d) then Some(t - Names(dropped)) else None
  {
    Lists(before, after);
    ListNames(before, after);
    AfterAdds(before, after, d);
    DropsRun(t, DifferenceOf(before, after).dropped, d);
  }

  lemma UpAlters(before: seq<Column>, after: seq<Column>, d: Dialect, t: Table)
    requires DistinctNames(before) && DistinctNames(after)
    requires var diff := DifferenceOf(before, after);
             t == Declared(before, d) + TableOf(diff.added, d, true) - Names(diff.dropped)
    ensures var altered := DifferenceOf(before, after).altered;
            Run(d, t, Alters(altered, d)) == if CanRetype(t, altered, d) then Some(WithTypes(t, altered, d)) else None
  {
    Lists(before, after);
    ListNames(before, after);
    AfterAdds(before, after, d);
    AltersRun(t, DifferenceOf(before, after).altered, d);
  }

  lemma DropsAccepted(before: seq<Column>, after: seq<Column>, d: Dialect, t: Table)
    requires DistinctNames(before) && DistinctNames(after)
    requires t == Declared(before, d) + TableOf(DifferenceOf(before, after).added, d, true)
    ensures var dropped := DifferenceOf(before, after).dropped;
            CanDrop(t, dropped, d) <==>
            && (d.Postgres? || dropped == [] || after != [])
            && forall c | c in dropped :: DropsRole(d, RoleOf(c.name))
  {
    var dropped := DifferenceOf(before, after).dropped;
    Lists(before, after);
    ListNames(before, after);
    AfterAdds(before, after, d);
    NoNames(after);
    assert t.Keys == Names(dropped) <==> after == [] by {
      if after == [] {
        assert Names(dropped) == Names(before);
      } else {
        assert after[0].name in t.Keys - Names(dropped);
      }
    }
    forall c | c in dropped
      ensures c.name in t && t[c.name].role == RoleOf(c.name)
    {
      assert c in before;
    }
  }

  lemma AltersAccepted(before: seq<Column>, after: seq<Column>, d: Dialect, t: Table)
    requires DistinctNames(before) && DistinctNames(after)
    requires var diff := DifferenceOf(before, after);
             t == Declared(before, d) + TableOf(diff.added, d, true) - Names(diff.dropped)
    ensures var altered := DifferenceOf(before, after).altered;
            CanRetype(t, altered, d) <==>
            forall c | c in altered ::
              && TypeOf(before, c.name).Some?
              && Retypes(d, DefOf(Column(c.name, TypeOf(before, c.name).value), d, false), SqlType(c.ctype, d))
  {
    var diff := DifferenceOf(before, after);
    Lists(before, after);
    ListNames(before, after);
    AfterAdds(before, after, d);
    forall c | c in diff.altered
      ensures c.name in t && TypeOf(before, c.name).Some?
      ensures t[c.name] == DefOf(Column(c.name, TypeOf(before, c.name).value), d, false)
    {
      var b :| b in before && b.name == c.name;
      InBoth(before, after, c, b);
    }
  }

  /** The types the altered columns get. */
  lemma UpTable(before: seq<Column>, after: seq<Column>, d: Dialect)
    requires DistinctNames(before) && DistinctNames(after)
    ensures var diff := DifferenceOf(before, after);
            WithTypes(Declared(before, d) + TableOf(diff.added, d, true) - Names(diff.dropped), diff.altered, d)
            == Migrated(before, after, d)
  {
    var diff := DifferenceOf(before, after);
    var t := Declared(before, d) + TableOf(diff.added, d, true) - Names(diff.dropped);
    UpKeys(before, after, d);
    MigratedKeys(before, after, d);
    var up, goal := WithTypes(t, diff.altered, d), Migrated(before, after, d);
    assert up.Keys == t.Keys;
    forall n | n in Names(after)
      ensures up[n] == goal[n]
    {
      var a :| a in after && a.name == n;
      OneMigrated(before, after, d, a);
    }
  }

  lemma UpKeys(before: seq<Column>, after: seq<Column>, d: Dialect)
    requires DistinctNames(before) && DistinctNames(after)
    ensures var diff := DifferenceOf(before, after);
            (Declared(before, d) + TableOf(diff.added, d, true) - Names(diff.dropped)).Keys == Names(after)
  {
    AfterAdds(before, after, d);
    ListNames(before, after);
  }

  lemma OneMigrated(before: seq<Column>, after: seq<Column>, d: Dialect, a: Column)
    requires DistinctNames(before) && DistinctNames(after) && a in after
    ensures var n, diff := a.name, DifferenceOf(before, after);
            var t := Declared(before, d) + TableOf(diff.added, d, true) - Names(diff.dropped);
            && n in t && n in Migrated(before, after, d)
            && WithTypes(t, diff.altered, d)[n] == Migrated(before, after, d)[n]
  {
    var n, diff := a.name, DifferenceOf(before, after);
    UpKeys(before, after, d);
    AfterAdds(before, after, d);
    TableKeys(diff.altered, d, true);
    TableAt(after, d, false, a);
    TableAt(after, d, true, a);
    assert n in Names(after);
    if n in Names(before) {
      var b :| b in before && b.name == n;
      InBoth(before, after, a, b);
      if a in diff.altered {
        AlteredDistinct(before, after);
        TableAt(diff.altered, d, true, a);
      }
    } else {
      ListNames(before, after);
    }
  }

  lemma AlteredDistinct(before: seq<Column>, after: seq<Column>)
    requires DistinctNames(before) && DistinctNames(after)
    ensures DistinctNames(DifferenceOf(before, after).altered)
  {
    Lists(before, after);
  }

  /** UP leads to the table the new schema declares exactly if it adds no key and no reference. */
  lemma MigratedIff(before: seq<Column>, after: seq<Column>, d: Dialect)
    requires DistinctNames(before) && DistinctNames(after)
    ensures Migrated(before, after, d) == Declared(after, d) <==> AllPlain(DifferenceOf(before, after).added)
  {
    var added := DifferenceOf(before, after).added;
    Lists(before, after);
    ListNames(before, after);
    TableKeys(after, d, false);
    TableKeys(after, d, true);
    forall c | c in added
      ensures c.name in Names(added) && c in after
      ensures Migrated(before, after, d)[c.name] == DefOf(c, d, true)
      ensures Declared(after, d)[c.name] == DefOf(c, d, false)
    {
      TableAt(after, d, false, c);
      TableAt(after, d, true, c);
    }
    if AllPlain(added) {
      SameTables(before, after, d);
    }
  }

  lemma SameTables(before: seq<Column>, after: seq<Column>, d: Dialect)
    requires DistinctNames(before) && DistinctNames(after)
    requires AllPlain(DifferenceOf(before, after).added)
    ensures Migrated(before, after, d) == Declared(after, d)
  {
    var added := DifferenceOf(before, after).added;
    ListNames(before, after);
    TableKeys(after, d, false);
    TableKeys(after, d, true);
    forall n | n in Names(after)
      ensures Migrated(before, after, d)[n] == Declared(after, d)[n]
    {
      if n !in Names(before) {
        assert n in Names(added);
        var c :| c in added && c.name == n;
        AddedIsNew(before, after, c);
        TableAt(after, d, false, c);
        TableAt(after, d, true, c);
      }
    }
  }

  lemma AddedIsNew(before: seq<Column>, after: seq<Column>, c: Column)
    requires DistinctNames(before) && DistinctNames(after) && c in DifferenceOf(before, after).added
    ensures c in after && c.name !in Names(before)
  {
    Lists(before, after);
  }

  predicate AllPlain(cols: seq<Column>) {
    forall c | c in cols :: RoleOf(c.name).Plain?
  }

  // ----- DOWN

  /** When the database accepts every statement of DOWN after UP. */
  ghost predicate DownAccepted(before: seq<Column>, after: seq<Column>, d: Dialect) {
    var diff := DifferenceOf(before, after);
    (d.Postgres? || diff.added == [] || Shared(before, after)) && TypesExist(diff.dropped, d)
  }

  /** The table of the old schema, except that a column of both has the new schema's type and one that
      was dropped comes back as a plain column. */
  function Reverted(before: seq<Column>, after: seq<Column>, d: Dialect): Table {
    var declared, plain, now := TableOf(before, d, false), TableOf(before, d, true), TableOf(after, d, true);
    map n | n in declared && n in plain ::
      if n in now then Def(now[n].sqlType, declared[n].role) else plain[n]
  }

  lemma SharedIff(before: seq<Column>, after: seq<Column>)
    ensures Shared(before, after) <==> Names(before) * Names(after) != {}
  {
    if Shared(before, after) {
      var a, b :| a in after && b in before && a.name == b.name;
      assert a.name in Names(before) * Names(after);
    }
    if Names(before) * Names(after) != {} {
      var n :| n in Names(before) * Names(after);
      var a :| a in after && a.name == n;
      var b :| b in before && b.name == n;
    }
  }

  /** After UP, DOWN is accepted under exactly these conditions. */
  lemma DownReverts(before: seq<Column>, after: seq<Column>, d: Dialect)
    requires CaseDistinct(before) && CaseDistinct(after) && NoCaseRename(before, after)
    ensures Run(d, Migrated(before, after, d), Down(DifferenceOf(before, after), d)) ==
            if DownAccepted(before, after, d) then Some(Reverted(before, after, d)) else None
  {
    var diff := DifferenceOf(before, after);
    var t0 := Migrated(before, after, d);
    var t1 := t0 - Names(diff.added);
    Exact(before);
    Exact(after);
    RunAppend(d, t0, Drops(diff.added) + Adds(diff.dropped, d), Comments(diff.altered));
    RunAppend(d, t0, Drops(diff.added), Adds(diff.dropped, d));
    DownDrops(before, after, d);
    AddedDropped(before, after, d);
    if CanDrop(t0, diff.added, d) {
      FreeAgain(before, after, d);
      FilterDistinct(before, Missing(after));
      AddsRun(t1, diff.dropped, d);
      if TypesExist(diff.dropped, d) {
        CommentsRun(t1 + TableOf(diff.dropped, d, true), diff.altered, d);
        DownTable(before, after, d);
      }
    }
  }

  lemma MigratedKeys(before: seq<Column>, after: seq<Column>, d: Dialect)
    ensures Migrated(before, after, d).Keys == Names(after)
  {
    TableKeys(after, d, false);
    TableKeys(after, d, true);
  }

  lemma DownDrops(before: seq<Column>, after: seq<Column>, d: Dialect)
    requires DistinctNames(before) && DistinctNames(after)
    ensures var t, added := Migrated(before, after, d), DifferenceOf(before, after).added;
            Run(d, t, Drops(added)) == if CanDrop(t, added, d) then Some(t - Names(added)) else None
  {
    Lists(before, after);
    ListNames(before, after);
    MigratedKeys(before, after, d);
    DropsRun(Migrated(before, after, d), DifferenceOf(before, after).added, d);
  }

  /** The names of the dropped columns are free again. */
  lemma FreeAgain(before: seq<Column>, after: seq<Column>, d: Dialect)
    requires CaseDistinct(before) && CaseDistinct(after) && NoCaseRename(before, after)
    ensures var diff := DifferenceOf(before, after);
            Free(Migrated(before, after, d) - Names(diff.added), diff.dropped)
  {
    var diff := DifferenceOf(before, after);
    Exact(before);
    Exact(after);
    Lists(before, after);
    MigratedKeys(before, after, d);
    forall c | c in diff.dropped
      ensures !Taken(Migrated(before, after, d) - Names(diff.added), c.name)
    {
      forall a | a in after
        ensures !SameName(a.name, c.name)
      {
        assert !CaseRename(c, a) && a.name in Names(after);
      }
    }
  }

  /** What UP added can be dropped, unless nothing else is left outside PostgreSQL. */
  lemma AddedDropped(before: seq<Column>, after: seq<Column>, d: Dialect)
    requires DistinctNames(before) && DistinctNames(after)
    ensures var added := DifferenceOf(before, after).added;
            CanDrop(Migrated(before, after, d), added, d) <==> d.Postgres? || added == [] || Shared(before, after)
  {
    var added, t := DifferenceOf(before, after).added, Migrated(before, after, d);
    Lists(before, after);
    ListNames(before, after);
    SharedIff(before, after);
    MigratedKeys(before, after, d);
    forall c | c in added
      ensures c.name in t && t[c.name].role == Plain
    {
      assert c.name in Names(added);
      TableAt(after, d, true, c);
    }
  }

  lemma DownTable(before: seq<Column>, after: seq<Column>, d: Dialect)
    requires DistinctNames(before) && DistinctNames(after)
    ensures var diff := DifferenceOf(before, after);
            Migrated(before, after, d) - Names(diff.added) + TableOf(diff.dropped, d, true)
            == Reverted(before, after, d)
  {
    var diff := DifferenceOf(before, after);
    DownKeys(before, after, d);
    var down := Migrated(before, after, d) - Names(diff.added) + TableOf(diff.dropped, d, true);
    var goal := Reverted(before, after, d);
    forall n | n in Names(before)
      ensures down[n] == goal[n]
    {
      var b :| b in before && b.name == n;
      OneDown(before, after, d, b);
    }
  }

  lemma DownKeys(before: seq<Column>, after: seq<Column>, d: Dialect)
    requires DistinctNames(before) && DistinctNames(after)
    ensures var diff := DifferenceOf(before, after);
            (Migrated(before, after, d) - Names(diff.added) + TableOf(diff.dropped, d, true)).Keys == Names(before)
    ensures Reverted(before, after, d).Keys == Names(before)
  {
    ListNames(before, after);
    MigratedKeys(before, after, d);
    TableKeys(DifferenceOf(before, after).dropped, d, true);
    TableKeys(before, d, false);
    TableKeys(before, d, true);
  }

  lemma OneDown(before: seq<Column>, after: seq<Column>, d: Dialect, b: Column)
    requires DistinctNames(before) && DistinctNames(after) && b in before
    ensures var diff, n := DifferenceOf(before, after), b.name;
            var down := Migrated(before, after, d) - Names(diff.added) + TableOf(diff.dropped, d, true);
            n in down && n in Reverted(before, after, d) && down[n] == Reverted(before, after, d)[n]
  {
    var diff, n := DifferenceOf(before, after), b.name;
    ListNames(before, after);
    TableKeys(after, d, true);
    TableKeys(diff.dropped, d, true);
    TableAt(before, d, false, b);
    TableAt(before, d, true, b);
    if n in Names(after) {
      var a :| a in after && a.name == n;
      InBoth(before, after, a, b);
      TableAt(after, d, false, a);
      TableAt(after, d, true, a);
    } else {
      assert n in Names(diff.dropped);
      var c :| c in diff.dropped && c.name == n;
      DroppedIsOld(before, after, c);
      OnlyColumn(before, b, c);
      TableAt(diff.dropped, d, true, b);
    }
  }

  lemma DroppedIsOld(before: seq<Column>, after: seq<Column>, c: Column)
    requires DistinctNames(before) && DistinctNames(after) && c in DifferenceOf(before, after).dropped
    ensures c in before && c.name !in Names(after) && DistinctNames(DifferenceOf(before, after).dropped)
  {
    Lists(before, after);
  }

  // ----- there and back

  predicate SameSqlTypes(before: seq<Column>, after: seq<Column>, d: Dialect) {
    forall c | c in DifferenceOf(before, after).altered && TypeOf(before, c.name).Some? ::
      SqlType(TypeOf(before, c.name).value, d) == SqlType(c.ctype, d)
  }

  lemma RevertedIff(before: seq<Column>, after: seq<Column>, d: Dialect)
    requires DistinctNames(before) && DistinctNames(after)
    ensures Reverted(before, after, d) == Declared(before, d) <==>
            SameSqlTypes(before, after, d) && AllPlain(DifferenceOf(before, after).dropped)
  {
    var diff := DifferenceOf(before, after);
    var back, goal := Reverted(before, after, d), Declared(before, d);
    Lists(before, after);
    ListNames(before, after);
    TableKeys(after, d, true);
    TableKeys(before, d, false);
    TableKeys(before, d, true);
    forall c | c in diff.altered
      ensures TypeOf(before, c.name).Some? && c.name in back && c.name in goal
      ensures back[c.name].sqlType == SqlType(c.ctype, d)
      ensures goal[c.name].sqlType == SqlType(TypeOf(before, c.name).value, d)
    {
      var b :| b in before && b.name == c.name;
      InBoth(before, after, c, b);
      TableAt(after, d, true, c);
      TableAt(before, d, false, b);
    }
    forall c | c in diff.dropped
      ensures c.name in back && back[c.name] == DefOf(c, d, true)
      ensures c.name in goal && goal[c.name] == DefOf(c, d, false)
    {
      assert c.name in Names(diff.dropped);
      TableAt(before, d, false, c);
      TableAt(before, d, true, c);
    }
    if SameSqlTypes(before, after, d) && AllPlain(diff.dropped) {
      forall n | n in Names(before)
        ensures back[n] == goal[n]
      {
        OneReverted(before, after, d, n);
      }
      assert back == goal;
    }
  }

  lemma OneReverted(before: seq<Column>, after: seq<Column>, d: Dialect, n: string)
    requires DistinctNames(before) && DistinctNames(after)
    requires SameSqlTypes(before, after, d) && AllPlain(DifferenceOf(before, after).dropped) && n in Names(before)
    ensures n in Reverted(before, after, d) && n in Declared(before, d)
    ensures Reverted(before, after, d)[n] == Declared(before, d)[n]
  {
    var b :| b in before && b.name == n;
    TableKeys(after, d, true);
    TableAt(before, d, false, b);
    TableAt(before, d, true, b);
    if n in Names(after) {
      var a :| a in after && a.name == n;
      InBoth(before, after, a, b);
      TableAt(after, d, true, a);
    } else {
      Lists(before, after);
      ListNames(before, after);
      var c :| c in DifferenceOf(before, after).dropped && c.name == n;
      OnlyColumn(before, b, c);
    }
  }

  /** UP and then DOWN is the identity if and only if both are accepted, no altered column changes its SQL
      type, and no dropped column was the key or a reference. */
  lemma RoundTripIff(before: seq<Column>, after: seq<Column>, d: Dialect)
    requires CaseDistinct(before) && CaseDistinct(after)
    ensures var diff := DifferenceOf(before, after);
            Run(d, Declared(before, d), Up(diff, d) + Down(diff, d)) == Some(Declared(before, d)) <==>
            && UpAccepted(before, after, d) && DownAccepted(before, after, d)
            && SameSqlTypes(before, after, d) && AllPlain(diff.dropped)
  {
    var diff := DifferenceOf(before, after);
    UpMigrates(before, after, d);
    RunAppend(d, Declared(before, d), Up(diff, d), Down(diff, d));
    if UpAccepted(before, after, d) {
      Exact(before);
      Exact(after);
      DownReverts(before, after, d);
      RevertedIff(before, after, d);
    }
  }

  /** In every dialect, with no type changed, a column kept, and plain columns dropped. */
  lemma RoundTripWhenNothingAltered(before: seq<Column>, after: seq<Column>, d: Dialect)
    requires CaseDistinct(before) && CaseDistinct(after) && NoCaseRename(before, after) && Shared(before, after)
    requires TypesExist(before, d) && TypesExist(after, d)
    requires DifferenceOf(before, after).altered == [] && AllPlain(DifferenceOf(before, after).dropped)
    ensures var diff := DifferenceOf(before, after);
            Run(d, Declared(before, d), Up(diff, d) + Down(diff, d)) == Some(Declared(before, d))
  {
    RoundTripIff(before, after, d);
    UnalteredAccepted(before, after, d);
  }

  lemma UnalteredAccepted(before: seq<Column>, after: seq<Column>, d: Dialect)
    requires CaseDistinct(before) && CaseDistinct(after) && NoCaseRename(before, after) && Shared(before, after)
    requires TypesExist(before, d) && TypesExist(after, d)
    requires DifferenceOf(before, after).altered == [] && AllPlain(DifferenceOf(before, after).dropped)
    ensures UpAccepted(before, after, d) && DownAccepted(before, after, d) && SameSqlTypes(before, after, d)
  {
    Exact(before);
    Exact(after);
    Lists(before, after);
  }

  // ----- inputs on which it fails

  /** A column whose type PostgreSQL changes is not turned back. */
  lemma RetypedColumnIsNotReverted(b: Column, a: Column)
    requires a.name == b.name && SqlType(a.ctype, Postgres) != SqlType(b.ctype, Postgres)
    requires Retypes(Postgres, DefOf(b, Postgres, false), SqlType(a.ctype, Postgres))
    ensures UpAccepted([b], [a], Postgres) && DownAccepted([b], [a], Postgres)
    ensures Reverted([b], [a], Postgres) != Declared([b], Postgres)
  {
    Lists([b], [a]);
    assert b in [b] && a in [a] && a in DifferenceOf([b], [a]).altered;
    assert TypeOf([b], a.name) == Some(b.ctype);
    RevertedIff([b], [a], Postgres);
  }

  /** From int to char, for one. */
  lemma IntToChar()
    ensures var b, a := Column("v", "int"), Column("v", "char");
            && SqlType(a.ctype, Postgres) != SqlType(b.ctype, Postgres)
            && Retypes(Postgres, DefOf(b, Postgres, false), SqlType(a.ctype, Postgres))
  {
    CharIsText();
  }

  /** Outside PostgreSQL, replacing a table's only column cannot be taken back. */
  lemma OnlyColumnStays(d: Dialect, b: Column, a: Column)
    requires !d.Postgres? && !SameName(a.name, b.name) && RoleOf(b.name).Plain?
    ensures UpAccepted([b], [a], d) && !DownAccepted([b], [a], d)
  {
    Lists([b], [a]);
    assert a in [a] && b in [b];
    assert a in DifferenceOf([b], [a]).added;
  }

  /** A change of case only is refused everywhere. */
  lemma CaseRenameRefused(d: Dialect, b: Column, a: Column)
    requires CaseRename(b, a)
    ensures Run(d, Declared([b], d), Up(DifferenceOf([b], [a]), d)).None?
  {
    assert a in [a] && b in [b];
    UpMigrates([b], [a], d);
  }

  /** A dropped key comes back as a plain column, where it can be dropped at all. */
  lemma KeyComesBackPlain(d: Dialect, id: Column, c: Column)
    requires id.name == "id" && !SameName(id.name, c.name) && HasType(d, SqlType(id.ctype, d))
    ensures UpAccepted([id, c], [c], d) <==> !d.Sqlite?
    ensures DownAccepted([id, c], [c], d) && Reverted([id, c], [c], d) != Declared([id, c], d)
  {
    var before, after := [id, c], [c];
    Exact(before);
    Exact(after);
    Lists(before, after);
    assert id in before && c in before && c in after;
    assert id in DifferenceOf(before, after).dropped;
    RevertedIff(before, after, d);
  }
}
