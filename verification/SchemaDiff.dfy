/** Schema differences of src/c_orm_c_to_sql.c: which columns were added, dropped or altered, and
    the UP and DOWN scripts generated from that. */
module SchemaDiff {
  import opened Optional
  import opened Sequences

  /** Whether SQLite drops a column that references another table is left to its version. */
  datatype Dialect = Sqlite(dropsLinks: bool) | Postgres | Mysql

  datatype Column = Column(name: string, ctype: string)

  datatype Difference = Difference(added: seq<Column>, dropped: seq<Column>, altered: seq<Column>)

  /** The generated lines; NotReverted is the SQL comment written for an altered column. */
  datatype Statement =
    | AddColumn(name: string, sqlType: string)
    | DropColumn(name: string)
    | AlterType(name: string, sqlType: string)
    | NotReverted(name: string)

  predicate Contains(s: string, part: string) {
    part <= s || (s != [] && Contains(s[1..], part))
  }

  /** map_c_type_to_sql: the first pattern found in the C type decides. */
  function SqlType(ctype: string, d: Dialect): string {
    if Contains(ctype, "int") then
      if d.Mysql? then "INT" else "INTEGER"
    else if Contains(ctype, "char") || Contains(ctype, "string") then
      if d.Mysql? then "VARCHAR(255)" else "TEXT"
    else if Contains(ctype, "float") || Contains(ctype, "double") || Contains(ctype, "number") then
      match d
      case Mysql => "DOUBLE"
      case Postgres => "DOUBLE PRECISION"
      case Sqlite(_) => "REAL"
    else if Contains(ctype, "bool") then
      match d
      case Postgres => "BOOLEAN"
      case Mysql => "TINYINT(1)"
      case Sqlite(_) => "INTEGER"
    else "BLOB"
  }

  // ----- the difference

  function Names(cols: seq<Column>): set<string> {
    set c | c in cols :: c.name
  }

  predicate DistinctNames(cols: seq<Column>) {
    forall i, j | 0 <= i < j < |cols| :: cols[i].name != cols[j].name
  }

  /** The C type under which the first column of that name is declared. */
  function TypeOf(cols: seq<Column>, name: string): Option<string> {
    if cols == [] then None
    else if cols[0].name == name then Some(cols[0].ctype)
    else TypeOf(cols[1..], name)
  }

  /** Those of `cols` for which `keep`, in order. */
  function Filter(cols: seq<Column>, keep: Column -> bool): seq<Column> {
    if cols == [] then []
    else Filter(cols[..|cols| - 1], keep) + (if keep(cols[|cols| - 1]) then [cols[|cols| - 1]] else [])
  }

  function Missing(from: seq<Column>): Column -> bool {
    (c: Column) => TypeOf(from, c.name).None?
  }

  function Retyped(from: seq<Column>): Column -> bool {
    (c: Column) => TypeOf(from, c.name).Some? && TypeOf(from, c.name).value != c.ctype
  }

  function DifferenceOf(before: seq<Column>, after: seq<Column>): Difference {
    Difference(Filter(after, Missing(before)), Filter(before, Missing(after)), Filter(after, Retyped(before)))
  }

  lemma {:induction false} FilterIs(cols: seq<Column>, keep: Column -> bool)
    ensures forall c :: c in Filter(cols, keep) <==> c in cols && keep(c)
    ensures DistinctNames(cols) ==> DistinctNames(Filter(cols, keep))
  {
    if cols != [] {
      var last := |cols| - 1;
      FilterIs(cols[..last], keep);
      assert cols == cols[..last] + [cols[last]];
      if DistinctNames(cols) {
        assert cols[last].name !in Names(Filter(cols[..last], keep)) by {
          assert forall c | c in cols[..last] :: c.name != cols[last].name;
        }
      }
    }
  }

  /** The columns kept, at their places. */
  lemma {:induction false} FilterAt(cols: seq<Column>, keep: Column -> bool) returns (places: seq<nat>)
    ensures Rising(places, |cols|) && Filter(cols, keep) == At(cols, places)
    ensures forall k: nat | k < |cols| :: k in places <==> keep(cols[k])
  {
    if cols == [] {
      places := [];
    } else {
      var front, last := cols[..|cols| - 1], cols[|cols| - 1];
      assert cols == front + [last];
      places := FilterAt(front, keep);
      forall k: nat | k < |front|
        ensures k in places <==> keep(cols[k])
      {
        assert front[k] == cols[k];
      }
      if keep(last) {
        OnePlaceMore(front, last, places);
        PlaceBehind(places, |front|);
        places := places + [|front|];
      } else {
        SamePlaces(front, last, places);
      }
    }
  }

  lemma PlaceBehind(places: seq<nat>, n: nat)
    ensures forall k: nat :: k in places + [n] <==> k in places || k == n
  {
  }

  /** Each list of the difference names its columns in the order of the schema they come from. */
  lemma DifferenceInOrder(before: seq<Column>, after: seq<Column>)
    returns (added: seq<nat>, dropped: seq<nat>, altered: seq<nat>)
    ensures Rising(added, |after|) && Rising(dropped, |before|) && Rising(altered, |after|)
    ensures DifferenceOf(before, after) == Difference(At(after, added), At(before, dropped), At(after, altered))
    ensures forall k: nat | k < |after| :: k in added <==> after[k].name !in Names(before)
    ensures forall k: nat | k < |before| :: k in dropped <==> before[k].name !in Names(after)
    ensures forall k: nat | k < |after| ::
              k in altered <==> exists j :: FirstNamed(before, after[k].name, j) && before[j].ctype != after[k].ctype
  {
    added := FilterAt(after, Missing(before));
    dropped := FilterAt(before, Missing(after));
    altered := FilterAt(after, Retyped(before));
    forall k: nat | k < |after|
      ensures TypeOf(before, after[k].name).None? <==> after[k].name !in Names(before)
      ensures Retyped(before)(after[k]) <==>
              exists j :: FirstNamed(before, after[k].name, j) && before[j].ctype != after[k].ctype
    {
      TypeOfIs(before, after[k].name);
      TypeOfAt(before, after[k].name);
    }
    forall k: nat | k < |before|
      ensures TypeOf(after, before[k].name).None? <==> before[k].name !in Names(after)
    {
      TypeOfIs(after, before[k].name);
    }
  }

  predicate FirstNamed(cols: seq<Column>, name: string, j: int) {
    0 <= j < |cols| && cols[j].name == name && forall i | 0 <= i < j :: cols[i].name != name
  }

  lemma {:induction false} TypeOfAt(cols: seq<Column>, name: string)
    ensures forall j | FirstNamed(cols, name, j) :: TypeOf(cols, name) == Some(cols[j].ctype)
    ensures TypeOf(cols, name).Some? ==> exists j :: FirstNamed(cols, name, j)
  {
    if cols != [] && cols[0].name != name {
      TypeOfAt(cols[1..], name);
      assert forall j | 0 < j < |cols| :: cols[j] == cols[1..][j - 1];
      forall j | FirstNamed(cols, name, j)
        ensures TypeOf(cols, name) == Some(cols[j].ctype)
      {
        assert FirstNamed(cols[1..], name, j - 1);
      }
      if TypeOf(cols, name).Some? {
        var j :| FirstNamed(cols[1..], name, j);
        assert FirstNamed(cols, name, j + 1);
      }
    } else if cols != [] {
      assert FirstNamed(cols, name, 0);
    }
  }

  lemma {:induction false} TypeOfIs(cols: seq<Column>, name: string)
    ensures TypeOf(cols, name).None? <==> name !in Names(cols)
    ensures DistinctNames(cols) ==> forall c | c in cols && c.name == name :: TypeOf(cols, name) == Some(c.ctype)
  {
    if cols != [] {
      TypeOfIs(cols[1..], name);
      assert cols == [cols[0]] + cols[1..];
      assert Names(cols) == {cols[0].name} + Names(cols[1..]);
    }
  }

  lemma TypesKnown(cols: seq<Column>)
    requires DistinctNames(cols)
    ensures forall n :: TypeOf(cols, n).None? <==> n !in Names(cols)
    ensures forall c | c in cols :: TypeOf(cols, c.name) == Some(c.ctype)
  {
    forall n
      ensures TypeOf(cols, n).None? <==> n !in Names(cols)
    {
      TypeOfIs(cols, n);
    }
    forall c | c in cols
      ensures TypeOf(cols, c.name) == Some(c.ctype)
    {
      TypeOfIs(cols, c.name);
    }
  }

  /** cdd_c_meta_diff. */
  method Diff(before: seq<Column>, after: seq<Column>) returns (diff: Difference)
    ensures diff == DifferenceOf(before, after)
  {
    var added, altered, dropped := [], [], [];
    var i := 0;
    while i < |after|
      invariant 0 <= i <= |after|
      invariant added == Filter(after[..i], Missing(before)) && altered == Filter(after[..i], Retyped(before))
    {
      assert after[..i + 1][..i] == after[..i];
      var ctype := Lookup(before, after[i].name);
      if ctype.Some? {
        if after[i].ctype != ctype.value {
          altered := altered + [after[i]];
        }
      } else {
        added := added + [after[i]];
      }
      i := i + 1;
    }
    assert after[..|after|] == after;
    i := 0;
    while i < |before|
      invariant 0 <= i <= |before| && dropped == Filter(before[..i], Missing(after))
    {
      assert before[..i + 1][..i] == before[..i];
      var ctype := Lookup(after, before[i].name);
      if ctype.None? {
        dropped := dropped + [before[i]];
      }
      i := i + 1;
    }
    assert before[..|before|] == before;
    diff := Difference(added, dropped, altered);
  }

  /** The inner loop of the comparison, which stops at the first column of that name. */
  method Lookup(cols: seq<Column>, name: string) returns (ctype: Option<string>)
    ensures ctype == TypeOf(cols, name)
  {
    var j := 0;
    while j < |cols|
      invariant 0 <= j <= |cols| && TypeOf(cols, name) == TypeOf(cols[j..], name)
    {
      if cols[j].name == name {
        return Some(cols[j].ctype);
      }
      j := j + 1;
    }
    return None;
  }

  /** Where a column of either schema ends up: in exactly one of the three lists or, declared
      alike on both sides, in none. */
  lemma DifferenceCovers(before: seq<Column>, after: seq<Column>, c: Column)
    requires DistinctNames(before) && DistinctNames(after) && (c in before || c in after)
    ensures var d := DifferenceOf(before, after);
            && (c in d.added <==> c in after && c.name !in Names(before))
            && (c in d.dropped <==> c in before && c.name !in Names(after))
            && (c in d.altered <==> c in after && c.name in Names(before) && c !in before)
            && Names(d.added) !! Names(d.dropped) !! Names(d.altered)
            && (c.name !in Names(d.added) + Names(d.dropped) + Names(d.altered) <==> c in before && c in after)
  {
    FilterIs(after, Missing(before));
    FilterIs(before, Missing(after));
    FilterIs(after, Retyped(before));
    TypesKnown(before);
    TypesKnown(after);
  }

  // ----- the scripts

  function Adds(cols: seq<Column>, d: Dialect): seq<Statement> {
    if cols == [] then []
    else Adds(cols[..|cols| - 1], d) + [AddColumn(cols[|cols| - 1].name, SqlType(cols[|cols| - 1].ctype, d))]
  }

  function Drops(cols: seq<Column>): seq<Statement> {
    if cols == [] then [] else Drops(cols[..|cols| - 1]) + [DropColumn(cols[|cols| - 1].name)]
  }

  function Alters(cols: seq<Column>, d: Dialect): seq<Statement> {
    if cols == [] then []
    else Alters(cols[..|cols| - 1], d) + [AlterType(cols[|cols| - 1].name, SqlType(cols[|cols| - 1].ctype, d))]
  }

  function Comments(cols: seq<Column>): seq<Statement> {
    if cols == [] then [] else Comments(cols[..|cols| - 1]) + [NotReverted(cols[|cols| - 1].name)]
  }

  function Up(diff: Difference, d: Dialect): seq<Statement> {
    Adds(diff.added, d) + Drops(diff.dropped) + Alters(diff.altered, d)
  }

  function Down(diff: Difference, d: Dialect): seq<Statement> {
    Drops(diff.added) + Adds(diff.dropped, d) + Comments(diff.altered)
  }

  /** cdd_c_meta_diff_to_sql: one pass over each list, both scripts growing together. */
  method DiffToSql(diff: Difference, d: Dialect) returns (up: seq<Statement>, down: seq<Statement>)
    ensures up == Up(diff, d) && down == Down(diff, d)
  {
    up, down := [], [];
    up, down := WriteAdded(diff.added, d, up, down);
    assert up == Adds(diff.added, d) && down == Drops(diff.added);
    up, down := WriteDropped(diff.dropped, d, up, down);
    up, down := WriteAltered(diff.altered, d, up, down);
  }

  method WriteAdded(cols: seq<Column>, d: Dialect, up0: seq<Statement>, down0: seq<Statement>)
    returns (up: seq<Statement>, down: seq<Statement>)
    ensures up == up0 + Adds(cols, d) && down == down0 + Drops(cols)
  {
    up, down := up0, down0;
    var i := 0;
    while i < |cols|
      invariant 0 <= i <= |cols|
      invariant up == up0 + Adds(cols[..i], d) && down == down0 + Drops(cols[..i])
    {
      assert cols[..i + 1][..i] == cols[..i];
      up := up + [AddColumn(cols[i].name, SqlType(cols[i].ctype, d))];
      down := down + [DropColumn(cols[i].name)];
      i := i + 1;
    }
    assert cols[..|cols|] == cols;
  }

  method WriteDropped(cols: seq<Column>, d: Dialect, up0: seq<Statement>, down0: seq<Statement>)
    returns (up: seq<Statement>, down: seq<Statement>)
    ensures up == up0 + Drops(cols) && down == down0 + Adds(cols, d)
  {
    up, down := up0, down0;
    var i := 0;
    while i < |cols|
      invariant 0 <= i <= |cols|
      invariant up == up0 + Drops(cols[..i]) && down == down0 + Adds(cols[..i], d)
    {
      assert cols[..i + 1][..i] == cols[..i];
      up := up + [DropColumn(cols[i].name)];
      down := down + [AddColumn(cols[i].name, SqlType(cols[i].ctype, d))];
      i := i + 1;
    }
    assert cols[..|cols|] == cols;
  }

  method WriteAltered(cols: seq<Column>, d: Dialect, up0: seq<Statement>, down0: seq<Statement>)
    returns (up: seq<Statement>, down: seq<Statement>)
    ensures up == up0 + Alters(cols, d) && down == down0 + Comments(cols)
  {
    up, down := up0, down0;
    var i := 0;
    while i < |cols|
      invariant 0 <= i <= |cols|
      invariant up == up0 + Alters(cols[..i], d) && down == down0 + Comments(cols[..i])
    {
      assert cols[..i + 1][..i] == cols[..i];
      up := up + [AlterType(cols[i].name, SqlType(cols[i].ctype, d))];
      down := down + [NotReverted(cols[i].name)];
      i := i + 1;
    }
    assert cols[..|cols|] == cols;
  }

  // ----- the type mapping

  lemma CharIsText()
    ensures SqlType("int", Postgres) == "INTEGER" && SqlType("char", Postgres) == "TEXT"
  {
    var s := "char";
    TooShort(s[2..], "int");
    assert s[1..][1..] == s[2..] && s[1..][0] == 'h';
    assert !Contains(s[1..], "int");
    assert s[0] == 'c' && !Contains(s, "int");
    assert "char" <= s;
  }

  /** A pattern is found exactly when it stands somewhere in the type's name, whatever is around it:
      `point` and `printer_t` are integers too. */
  lemma {:induction false} ContainsIff(s: string, part: string)
    ensures Contains(s, part) <==> exists i :: Occurs(s, part, i)
  {
    if part <= s {
      assert s[0..|part|] == part;
      assert Occurs(s, part, 0);
    } else if s != [] {
      ContainsIff(s[1..], part);
      if Contains(s[1..], part) {
        var i :| Occurs(s[1..], part, i);
        assert s[i + 1..i + 1 + |part|] == s[1..][i..i + |part|];
        assert Occurs(s, part, i + 1);
      }
      if i :| Occurs(s, part, i) {
        assert i != 0;
        assert s[1..][i - 1..i - 1 + |part|] == s[i..i + |part|];
        assert Occurs(s[1..], part, i - 1);
      }
    }
  }

  predicate Occurs(s: string, part: string, i: int) {
    0 <= i <= |s| - |part| && s[i..i + |part|] == part
  }

  // ----- the mapping of types as a table

  /** The patterns that select a line, and the type it gives in each dialect. */
  datatype TypeLine = TypeLine(patterns: seq<string>, sqlite: string, postgres: string, mysql: string)

  const TYPE_LINES := [TypeLine(["int"], "INTEGER", "INTEGER", "INT"),
                       TypeLine(["char", "string"], "TEXT", "TEXT", "VARCHAR(255)"),
                       TypeLine(["float", "double", "number"], "REAL", "DOUBLE PRECISION", "DOUBLE"),
                       TypeLine(["bool"], "INTEGER", "BOOLEAN", "TINYINT(1)")]

  ghost predicate Selects(line: TypeLine, ctype: string) {
    exists p, i :: 0 <= p < |line.patterns| && Occurs(ctype, line.patterns[p], i)
  }

  function InDialect(line: TypeLine, d: Dialect): string {
    match d
    case Sqlite(_) => line.sqlite
    case Postgres => line.postgres
    case Mysql => line.mysql
  }

  lemma HasPattern(line: TypeLine, ctype: string, p: nat)
    requires p < |line.patterns|
    ensures Contains(ctype, line.patterns[p]) ==> Selects(line, ctype)
  {
    ContainsIff(ctype, line.patterns[p]);
  }

  lemma SomePattern(line: TypeLine, ctype: string) returns (p: nat)
    requires Selects(line, ctype)
    ensures p < |line.patterns| && Contains(ctype, line.patterns[p])
  {
    var q, i :| 0 <= q < |line.patterns| && Occurs(ctype, line.patterns[q], i);
    p := q;
    ContainsIff(ctype, line.patterns[p]);
  }

  /** The first line with a pattern that occurs in the C type gives the SQL type; without one it is BLOB. */
  lemma SqlTypeIs(ctype: string, d: Dialect, k: nat)
    requires k <= |TYPE_LINES| && forall j | 0 <= j < k :: !Selects(TYPE_LINES[j], ctype)
    requires k < |TYPE_LINES| ==> Selects(TYPE_LINES[k], ctype)
    ensures SqlType(ctype, d) == if k < |TYPE_LINES| then InDialect(TYPE_LINES[k], d) else "BLOB"
  {
    HasPattern(TYPE_LINES[0], ctype, 0);
    HasPattern(TYPE_LINES[1], ctype, 0);
    HasPattern(TYPE_LINES[1], ctype, 1);
    HasPattern(TYPE_LINES[2], ctype, 0);
    HasPattern(TYPE_LINES[2], ctype, 1);
    HasPattern(TYPE_LINES[2], ctype, 2);
    HasPattern(TYPE_LINES[3], ctype, 0);
    if k < |TYPE_LINES| {
      var p := SomePattern(TYPE_LINES[k], ctype);
    }
  }

  lemma {:induction false} TooShort(s: string, part: string)
    requires |s| < |part|
    ensures !Contains(s, part)
  {
    if s != [] { TooShort(s[1..], part); }
  }
}
