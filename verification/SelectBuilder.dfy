/** The select builder of src/c_orm_query_builder.c: WHERE clauses appended one by one, among
    them relation paths turned into nested EXISTS. */
module SelectBuilder {
  import opened ExistsMeaning
  import opened ExistsQuery
  import opened ExistsText
  import opened Optional
  import opened Sequences
  import Sql

  /** What a column is put to: an operator with a parameter, one with the current time, a range,
      or a list of so many parameters. */
  datatype Test = Against(op: string) | Now(op: string) | Within | OneOf(count: nat)

  datatype Clause = Simple(column: string, test: Test) | Path(cond: Cond)

  /** The rest of a list with n parameters to go. */
  function SlotsText(n: nat): seq<Piece> {
    if n == 0 then [Close] else if n == 1 then [Param, Close] else [Param, Comma] + SlotsText(n - 1)
  }

  function TestText(test: Test): seq<Piece> {
    match test
    case Against(op) => [Operator(op), Param]
    case Now(op) => [Operator(op), CurrentTimestamp]
    case Within => [Between, Param, And, Param]
    case OneOf(count) => [InOpen] + SlotsText(count)
  }

  function ClauseText(c: Clause): seq<Piece> {
    if c.Simple? then [Name(c.column)] + TestText(c.test) else Render(c.cond)
  }

  function ClausesText(cs: seq<Clause>): seq<Piece> {
    if cs == [] then []
    else
      var last := |cs| - 1;
      ClausesText(cs[..last]) + ([if last == 0 then Where else And] + ClauseText(cs[last]))
  }

  lemma OneMoreClause(a: seq<Piece>, cs: seq<Clause>, c: Clause)
    ensures a + ClausesText(cs + [c]) == (a + ClausesText(cs)) + [if cs == [] then Where else And] + ClauseText(c)
  {
    var all := cs + [c];
    assert all[..|cs|] == cs;
    Assoc(a, ClausesText(cs), [if cs == [] then Where else And] + ClauseText(c));
    Assoc(a + ClausesText(cs), [if cs == [] then Where else And], ClauseText(c));
  }

  // ----- building

  /** c_orm_string_builder: text that grows at the end, unless memory is refused. */
  class StringBuilder {
    const refuses: nat -> bool
    var clock: nat
    var text: seq<Piece>

    constructor (refuses: nat -> bool)
      ensures this.refuses == refuses && text == []
    {
      this.refuses, clock, text := refuses, 0, [];
    }

    ghost predicate Willing() {
      forall n :: !refuses(n)
    }

    /** One piece after the other, until one is refused. */
    method Append(pieces: seq<Piece>) returns (ok: bool)
      modifies this
      ensures ok ==> text == old(text) + pieces
      ensures old(text) <= text <= old(text) + pieces
      ensures !ok && |pieces| == 1 ==> text == old(text)
      ensures Willing() ==> ok
    {
      ok := true;
      for i := 0 to |pieces|
        invariant ok && text == old(text) + pieces[..i]
      {
        ok := !refuses(clock);
        clock := clock + 1;
        if !ok {
          return;
        }
        text := text + [pieces[i]];
      }
    }
  }

  method FindRelationOf(metas: seq<TableMeta>, m: Ptr, field: string) returns (rel: Option<Relation>)
    requires m < |metas|
    ensures rel == FindRelation(metas[m].relations, field)
  {
    var rels := metas[m].relations;
    var i := 0;
    while i < |rels|
      invariant 0 <= i <= |rels|
      invariant FindRelation(rels, field) == FindRelation(rels[i..], field)
    {
      if rels[i].field == field {
        return Some(rels[i]);
      }
      i := i + 1;
    }
    return None;
  }

  method TargetKey(columns: seq<Column>) returns (pk: string)
    ensures pk == KeyName(columns)
  {
    pk := "id";
    var i := 0;
    while i < |columns|
      invariant 0 <= i <= |columns| && pk == "id"
      invariant KeyName(columns) == KeyName(columns[i..])
    {
      if columns[i].isPk {
        return columns[i].name;
      }
      i := i + 1;
    }
  }

  /** The join and the condition of one hop, as syntax. */
  function HopJoin(rel: Relation, key: string, alias: string): Option<Join> {
    if rel.manyToMany then
      Some(Join(rel.joinTable, Joined(alias), Ref(Plain(alias), key), Ref(Joined(alias), rel.joinForeignKey)))
    else None
  }

  function HopLeft(rel: Relation, alias: string): Ref {
    if rel.manyToMany then Ref(Joined(alias), rel.joinLocalKey) else Ref(Plain(alias), rel.foreignKey)
  }

  /** An EXISTS up to its inner condition, for a relation. */
  function HopText(rel: Relation, table: string, key: string, alias: string, parent: string): seq<Piece> {
    OpenText(table, Plain(alias), HopJoin(rel, key, alias), HopLeft(rel, alias), Ref(Plain(parent), rel.localKey))
  }

  /** From WHERE to the key of the outer row. */
  function DirectText(rel: Relation, alias: string, parent: string): seq<Piece> {
    [Where, Name(alias), Dot, Name(rel.foreignKey), Equals, Name(parent), Dot, Name(rel.localKey)]
  }

  lemma HeadPieces(a: seq<Piece>, rel: Relation, table: string, key: string, alias: string, parent: string)
    ensures var second :=
              if rel.manyToMany then JoinedText(rel, key, alias, parent) else DirectText(rel, alias, parent);
            ((a + [ExistsOpen, Name(table), Name(alias)]) + second) + [And] ==
            a + HopText(rel, table, key, alias, parent)
  {
    var second := if rel.manyToMany then JoinedText(rel, key, alias, parent) else DirectText(rel, alias, parent);
    if rel.manyToMany {
      JoinedPieces(rel, table, key, alias, parent);
    } else {
      DirectPieces(rel, table, key, alias, parent);
    }
    ThreePieces(a, [ExistsOpen, Name(table), Name(alias)], second);
  }

  lemma JoinPieces(rel: Relation, key: string, alias: string)
    requires rel.manyToMany
    ensures JoinText(HopJoin(rel, key, alias)) ==
            [InnerJoin, Name(rel.joinTable), JPrefix, Name(alias), On, Name(alias), Dot, Name(key), Equals,
             JPrefix, Name(alias), Dot, Name(rel.joinForeignKey)]
  {
  }

  lemma JoinedPieces(rel: Relation, table: string, key: string, alias: string, parent: string)
    requires rel.manyToMany
    ensures HopText(rel, table, key, alias, parent)
            == [ExistsOpen, Name(table), Name(alias)] + JoinedText(rel, key, alias, parent) + [And]
  {
    JoinPieces(rel, key, alias);
    assert RefText(HopLeft(rel, alias)) == [JPrefix, Name(alias), Dot, Name(rel.joinLocalKey)];
    assert RefText(Ref(Plain(parent), rel.localKey)) == [Name(parent), Dot, Name(rel.localKey)];
  }

  lemma DirectPieces(rel: Relation, table: string, key: string, alias: string, parent: string)
    requires !rel.manyToMany
    ensures HopText(rel, table, key, alias, parent)
            == [ExistsOpen, Name(table), Name(alias)] + DirectText(rel, alias, parent) + [And]
  {
  }

  lemma ThreePieces(a: seq<Piece>, first: seq<Piece>, second: seq<Piece>)
    ensures ((a + first) + second) + [And] == a + (first + second + [And])
  {
  }

  method AppendHead(sb: StringBuilder, rel: Relation, table: string, key: string, alias: string, parent: string)
    returns (ok: bool)
    modifies sb
    ensures ok ==> sb.text == old(sb.text) + HopText(rel, table, key, alias, parent)
    ensures old(sb.text) <= sb.text
    ensures sb.Willing() ==> ok
  {
    HeadPieces(sb.text, rel, table, key, alias, parent);
    ok := sb.Append([ExistsOpen, Name(table), Name(alias)]);
    if !ok {
      return;
    }
    if rel.manyToMany {
      ok := AppendJoin(sb, rel, key, alias, parent);
    } else {
      ok := AppendDirect(sb, rel, alias, parent);
    }
    if ok {
      ok := sb.Append([And]);
    }
  }

  method AppendDirect(sb: StringBuilder, rel: Relation, alias: string, parent: string) returns (ok: bool)
    modifies sb
    ensures ok ==> sb.text == old(sb.text) + DirectText(rel, alias, parent)
    ensures old(sb.text) <= sb.text
    ensures sb.Willing() ==> ok
  {
    ok := sb.Append([Where, Name(alias), Dot, Name(rel.foreignKey), Equals, Name(parent), Dot, Name(rel.localKey)]);
  }

  /** From the join to the key of the outer row. */
  function JoinedText(rel: Relation, key: string, alias: string, parent: string): seq<Piece> {
    [InnerJoin, Name(rel.joinTable), JPrefix, Name(alias), On, Name(alias), Dot, Name(key), Equals,
     JPrefix, Name(alias), Dot, Name(rel.joinForeignKey),
     Where, JPrefix, Name(alias), Dot, Name(rel.joinLocalKey), Equals, Name(parent), Dot, Name(rel.localKey)]
  }

  method AppendJoin(sb: StringBuilder, rel: Relation, key: string, alias: string, parent: string) returns (ok: bool)
    modifies sb
    ensures ok ==> sb.text == old(sb.text) + JoinedText(rel, key, alias, parent)
    ensures old(sb.text) <= sb.text
    ensures sb.Willing() ==> ok
  {
    ghost var before := sb.text;
    ok := sb.Append([InnerJoin, Name(rel.joinTable), JPrefix, Name(alias), On, Name(alias), Dot, Name(key), Equals,
                     JPrefix, Name(alias), Dot, Name(rel.joinForeignKey)]);
    if !ok {
      return;
    }
    ok := sb.Append([Where, JPrefix, Name(alias), Dot, Name(rel.joinLocalKey), Equals, Name(parent), Dot,
                     Name(rel.localKey)]);
  }

  /** build_exists_query: appends to the builder's text and calls itself for the rest of the
      path; on an unknown relation, or out of memory, the text is left unfinished. */
  method BuildExistsQuery(sb: StringBuilder, metas: seq<TableMeta>, m: Ptr, path: string, op: string, parent: string,
                          depth: nat)
    returns (ok: bool)
    requires ValidPtrs(metas) && m < |metas|
    modifies sb
    ensures ok ==> Build(metas, m, path, op, parent, depth).Some?
    ensures ok ==> sb.text == old(sb.text) + Render(Build(metas, m, path, op, parent, depth).value)
    ensures old(sb.text) <= sb.text
    ensures sb.Willing() && Build(metas, m, path, op, parent, depth).Some? ==> ok
    decreases |path|, 1
  {
    var dot := FirstDot(path);
    if dot.None? {
      ok := sb.Append([Name(parent), Dot, Name(path), Operator(op), Param]);
      assert Render(Comparison(Ref(Plain(parent), path), op)) == [Name(parent), Dot, Name(path), Operator(op), Param];
      return;
    }
    var rel := FindRelationOf(metas, m, path[..dot.value]);
    if rel.None? || rel.value.target.None? {
      return false;
    }
    ok := AppendHop(sb, metas, m, rel.value, path, dot.value, op, parent, depth);
  }

  /** One hop: the EXISTS, the rest of the path inside it, and its end. */
  method AppendHop(sb: StringBuilder, metas: seq<TableMeta>, m: Ptr, rel: Relation, path: string, dot: nat, op: string,
                   parent: string, depth: nat)
    returns (ok: bool)
    requires ValidPtrs(metas) && m < |metas| && FirstDot(path) == Some(dot) && Hop(metas, m, path) == Some(rel)
    modifies sb
    ensures ok ==> Build(metas, m, path, op, parent, depth).Some?
    ensures ok ==> sb.text == old(sb.text) + Render(Build(metas, m, path, op, parent, depth).value)
    ensures old(sb.text) <= sb.text
    ensures sb.Willing() && Build(metas, m, path, op, parent, depth).Some? ==> ok
    decreases |path|, 0
  {
    HopRenders(metas, m, path, op, parent, depth, sb.text);
    var target := metas[rel.target.value];
    var targetKey := TargetKey(target.columns);
    var alias := Alias(depth);
    ok := AppendHead(sb, rel, target.name, targetKey, alias, parent);
    if !ok {
      return;
    }
    ok := BuildExistsQuery(sb, metas, rel.target.value, path[dot + 1..], op, alias, depth + 1);
    if !ok {
      return;
    }
    ok := sb.Append([Close]);
  }

  /** What Build makes of a path with a dot, as text. */
  lemma HopRenders(metas: seq<TableMeta>, m: Ptr, path: string, op: string, parent: string, depth: nat, sb: seq<Piece>)
    requires ValidPtrs(metas) && m < |metas| && FirstDot(path).Some? && Hop(metas, m, path).Some?
    ensures var rel := Hop(metas, m, path).value;
            var target, alias := metas[rel.target.value], Alias(depth);
            var inner := Build(metas, rel.target.value, path[FirstDot(path).value + 1..], op, alias, depth + 1);
            var head := HopText(rel, target.name, KeyName(target.columns), alias, parent);
            var c := Build(metas, m, path, op, parent, depth);
            && (c.Some? <==> inner.Some?)
            && (inner.Some? ==> ((sb + head) + Render(inner.value)) + [Close] == sb + Render(c.value))
  {
    HopBuilds(metas, m, path, op, parent, depth);
    var rel := Hop(metas, m, path).value;
    var target, alias := metas[rel.target.value], Alias(depth);
    var inner := Build(metas, rel.target.value, path[FirstDot(path).value + 1..], op, alias, depth + 1);
    if inner.Some? {
      Enclose(sb, HopText(rel, target.name, KeyName(target.columns), alias, parent), Render(inner.value));
    }
  }

  lemma Enclose(a: seq<Piece>, open: seq<Piece>, inner: seq<Piece>)
    ensures ((a + open) + inner) + [Close] == a + (open + inner + [Close])
  {
  }

  /** What Build makes of a path with a dot, hop by hop. */
  lemma HopBuilds(metas: seq<TableMeta>, m: Ptr, path: string, op: string, parent: string, depth: nat)
    requires ValidPtrs(metas) && m < |metas| && FirstDot(path).Some? && Hop(metas, m, path).Some?
    ensures var rel := Hop(metas, m, path).value;
            var target, alias := metas[rel.target.value], Alias(depth);
            var inner := Build(metas, rel.target.value, path[FirstDot(path).value + 1..], op, alias, depth + 1);
            Build(metas, m, path, op, parent, depth) ==
            if inner.None? then None
            else Some(Exists(target.name, Plain(alias), HopJoin(rel, KeyName(target.columns), alias),
                             HopLeft(rel, alias),
                             Ref(Plain(parent), rel.localKey), inner.value))
  {
  }

  class Select {
    const metas: seq<TableMeta>
    const meta: Ptr
    const sb: StringBuilder
    var hasWhere: bool
    ghost var clauses: seq<Clause>

    /** The text is the query with these clauses. */
    ghost predicate Valid()
      reads this, sb
    {
      && ValidPtrs(metas) && meta < |metas|
      && sb.text == [SelectStarFrom, Name(metas[meta].name)] + ClausesText(clauses)
      && (hasWhere <==> clauses != [])
    }

    constructor (metas: seq<TableMeta>, meta: Ptr, sb: StringBuilder)
      requires ValidPtrs(metas) && meta < |metas| && sb.text == [SelectStarFrom, Name(metas[meta].name)]
      ensures Valid() && clauses == [] && this.metas == metas && this.meta == meta && this.sb == sb
    {
      this.metas, this.meta, this.sb := metas, meta, sb;
      hasWhere := false;
      clauses := [];
    }

    /** append_where: a test of a column of the table itself. When memory is refused, what was
        appended so far stays. */
    method AppendWhere(column: string, test: Test) returns (ok: bool)
      requires Valid() && !test.OneOf?
      modifies this, sb
      ensures ok ==> Valid() && clauses == old(clauses) + [Simple(column, test)]
      ensures !ok ==> clauses == old(clauses) && old(sb.text) <= sb.text
      ensures sb.Willing() ==> ok
    {
      ok := Connect();
      if ok {
        ok := sb.Append([Name(column)] + TestText(test));
      }
      if ok {
        Added(Simple(column, test));
      }
    }

    /** c_orm_select_where_in. A list without elements is refused before anything is appended. */
    method WhereIn(column: string, count: nat) returns (ok: bool)
      requires Valid()
      modifies this, sb
      ensures ok ==> Valid() && clauses == old(clauses) + [Simple(column, OneOf(count))]
      ensures !ok ==> clauses == old(clauses) && old(sb.text) <= sb.text
      ensures ok ==> count > 0
      ensures count == 0 ==> Valid()
      ensures sb.Willing() && count > 0 ==> ok
    {
      if count == 0 {
        return false;
      }
      ok := Connect();
      if ok {
        ok := AppendIn(sb, column, count);
      }
      if ok {
        Added(Simple(column, OneOf(count)));
      }
    }

    /** c_orm_select_where_relation: on success one more clause; an unknown relation is reported,
        with the connective and the hops before it left in the text. */
    method WhereRelation(path: string, op: string) returns (ok: bool)
      requires Valid()
      modifies this, sb
      ensures ok ==> Build(metas, meta, path, op, metas[meta].name, 1).Some?
      ensures ok ==>
                && Valid()
                && clauses == old(clauses) + [Path(Build(metas, meta, path, op, metas[meta].name, 1).value)]
      ensures !ok ==> clauses == old(clauses) && old(sb.text) <= sb.text
      ensures sb.Willing() && Build(metas, meta, path, op, metas[meta].name, 1).Some? ==> ok
      ensures sb.Willing() && !ok ==> !Valid()
    {
      ok := Connect();
      if ok {
        ok := BuildExistsQuery(sb, metas, meta, path, op, metas[meta].name, 1);
      }
      if ok {
        Added(Path(Build(metas, meta, path, op, metas[meta].name, 1).value));
      }
    }

    /** The clause is complete. */
    ghost method Added(c: Clause)
      requires ValidPtrs(metas) && meta < |metas| && hasWhere
      requires sb.text == [SelectStarFrom, Name(metas[meta].name)] + ClausesText(clauses)
                          + [if clauses == [] then Where else And] + ClauseText(c)
      modifies this`clauses
      ensures Valid() && clauses == old(clauses) + [c]
    {
      OneMoreClause([SelectStarFrom, Name(metas[meta].name)], clauses, c);
      clauses := clauses + [c];
    }

    method Connect() returns (ok: bool)
      requires Valid()
      modifies this`hasWhere, sb
      ensures ok ==> hasWhere && sb.text == old(sb.text) + [if clauses == [] then Where else And]
      ensures !ok ==> Valid()
      ensures sb.Willing() ==> ok
    {
      if !hasWhere {
        ok := sb.Append([Where]);
        if ok {
          hasWhere := true;
        }
      } else {
        ok := sb.Append([And]);
      }
    }
  }

  /** c_orm_select_builder_init. */
  method SelectBuilderInit(metas: seq<TableMeta>, meta: Ptr, memoryOk: bool, refuses: nat -> bool) returns (b: Select?)
    requires ValidPtrs(metas) && meta < |metas|
    ensures b != null ==> fresh(b) && fresh(b.sb) && b.sb.refuses == refuses && b.metas == metas && b.meta == meta
    ensures b != null ==> b.Valid() && b.clauses == []
    ensures memoryOk && (forall n :: !refuses(n)) ==> b != null
  {
    if !memoryOk {
      return null;
    }
    var sb := new StringBuilder(refuses);
    var ok := sb.Append([SelectStarFrom, Name(metas[meta].name)]);
    if !ok {
      return null;
    }
    b := new Select(metas, meta, sb);
  }

  method AppendIn(sb: StringBuilder, column: string, count: nat) returns (ok: bool)
    requires count > 0
    modifies sb
    ensures ok ==> sb.text == old(sb.text) + ClauseText(Simple(column, OneOf(count)))
    ensures old(sb.text) <= sb.text
    ensures sb.Willing() ==> ok
  {
    InPieces(sb.text, column, count);
    ok := sb.Append([Name(column), InOpen]);
    if ok {
      ok := AppendSlots(sb, count);
    }
  }

  lemma InPieces(a: seq<Piece>, column: string, count: nat)
    ensures (a + [Name(column), InOpen]) + SlotsText(count) == a + ClauseText(Simple(column, OneOf(count)))
  {
    Assoc(a, [Name(column), InOpen], SlotsText(count));
    Assoc([Name(column)], [InOpen], SlotsText(count));
  }

  /** The parameters of a list and its end. */
  method AppendSlots(sb: StringBuilder, count: nat) returns (ok: bool)
    requires count > 0
    modifies sb
    ensures ok ==> sb.text == old(sb.text) + SlotsText(count)
    ensures old(sb.text) <= sb.text
    ensures sb.Willing() ==> ok
  {
    ok := true;
    for i := 0 to count
      invariant sb.text + SlotsText(count - i) == old(sb.text) + SlotsText(count)
      invariant old(sb.text) <= sb.text
    {
      ghost var before := sb.text;
      ok := sb.Append([Param]);
      if !ok {
        return;
      }
      if i < count - 1 {
        ok := sb.Append([Comma]);
        if !ok {
          return;
        }
      }
      NextSlot(before, count - i);
    }
    ok := sb.Append([Close]);
  }

  lemma NextSlot(a: seq<Piece>, n: nat)
    requires n > 0
    ensures a + SlotsText(n) == (if n > 1 then (a + [Param]) + [Comma] else a + [Param]) + SlotsText(n - 1)
  {
  }

  // ----- reading the query back

  /** How many parameters a list has, and what follows it. */
  function ParseSlots(ts: seq<Piece>): (r: Option<(nat, seq<Piece>)>)
    ensures r.Some? ==> |r.value.1| < |ts|
  {
    if |ts| > 0 && ts[0].Close? then Some((0, ts[1..]))
    else if |ts| > 1 && ts[0].Param? && ts[1].Close? then Some((1, ts[2..]))
    else if |ts| > 1 && ts[0].Param? && ts[1].Comma? then
      var more := ParseSlots(ts[2..]);
      if more.None? || more.value.0 == 0 then None else Some((1 + more.value.0, more.value.1))
    else None
  }

  function ParseTest(ts: seq<Piece>): (r: Option<(Test, seq<Piece>)>)
    ensures r.Some? ==> |r.value.1| < |ts|
  {
    if |ts| > 1 && ts[0].Operator? && ts[1].Param? then Some((Against(ts[0].op), ts[2..]))
    else if |ts| > 1 && ts[0].Operator? && ts[1].CurrentTimestamp? then Some((Now(ts[0].op), ts[2..]))
    else if |ts| > 3 && ts[0].Between? && ts[1].Param? && ts[2].And? && ts[3].Param? then Some((Within, ts[4..]))
    else if |ts| > 0 && ts[0].InOpen? then
      var list := ParseSlots(ts[1..]);
      if list.None? then None else Some((OneOf(list.value.0), list.value.1))
    else None
  }

  /** A column is followed by a test; a path starts with EXISTS, or with a name and a dot. */
  function ParseClause(ts: seq<Piece>): (r: Option<(Clause, seq<Piece>)>)
    ensures r.Some? ==> |r.value.1| < |ts|
  {
    if |ts| > 1 && ts[0].Name? && !ts[1].Dot? then
      var test := ParseTest(ts[1..]);
      if test.None? then None else Some((Simple(ts[0].name, test.value.0), test.value.1))
    else
      var c := ParseCond(ts);
      if c.None? then None else Some((Path(c.value.0), c.value.1))
  }

  /** Clauses up to the end of the text, the first behind `opener`, the others behind AND. */
  function ParseClauses(ts: seq<Piece>, opener: Piece): Option<seq<Clause>>
    decreases |ts|
  {
    if ts == [] then Some([])
    else if ts[0] != opener then None
    else
      var c := ParseClause(ts[1..]);
      if c.None? then None
      else
        var more := ParseClauses(c.value.1, And);
        if more.None? then None else Some([c.value.0] + more.value)
  }

  function ParseQuery(ts: seq<Piece>): Option<(string, seq<Clause>)> {
    if |ts| < 2 || !ts[0].SelectStarFrom? || !ts[1].Name? then None
    else
      var cs := ParseClauses(ts[2..], Where);
      if cs.None? then None else Some((ts[1].name, cs.value))
  }

  lemma {:induction false} SlotsParse(n: nat, rest: seq<Piece>)
    ensures ParseSlots(SlotsText(n) + rest) == Some((n, rest))
  {
    var ts := SlotsText(n) + rest;
    if n == 0 {
      assert ts[1..] == rest;
    } else if n == 1 {
      assert ts[2..] == rest;
    } else {
      SlotsParse(n - 1, rest);
      assert ts[2..] == SlotsText(n - 1) + rest;
    }
  }

  lemma TestParses(test: Test, rest: seq<Piece>)
    ensures ParseTest(TestText(test) + rest) == Some((test, rest))
    ensures (TestText(test) + rest) != [] && !(TestText(test) + rest)[0].Dot?
  {
    var ts := TestText(test) + rest;
    match test
    case Against(op) => assert ts[2..] == rest;
    case Now(op) => assert ts[2..] == rest;
    case Within => assert ts[4..] == rest;
    case OneOf(count) => OneOfParses(count, rest);
  }

  lemma OneOfParses(count: nat, rest: seq<Piece>)
    ensures ParseTest(TestText(OneOf(count)) + rest) == Some((OneOf(count), rest))
  {
    var list := SlotsText(count) + rest;
    SlotsParse(count, rest);
    Assoc([InOpen], SlotsText(count), rest);
    assert ([InOpen] + list)[0] == InOpen && ([InOpen] + list)[1..] == list;
  }

  lemma ClauseParses(c: Clause, rest: seq<Piece>)
    ensures ParseClause(ClauseText(c) + rest) == Some((c, rest))
  {
    var ts := ClauseText(c) + rest;
    if c.Simple? {
      TestParses(c.test, rest);
      assert ts[1..] == TestText(c.test) + rest;
      assert ts[1] == (TestText(c.test) + rest)[0];
    } else {
      CondParses(c.cond, rest);
      CondIsNotSimple(c.cond, rest);
    }
  }

  lemma CondIsNotSimple(c: Cond, rest: seq<Piece>)
    ensures var ts := Render(c) + rest; |ts| > 1 && !(ts[0].Name? && !ts[1].Dot?)
  {
    match c
    case Comparison(ref, op) =>
      assert (Render(c) + rest)[0] == RefText(ref)[0] && (Render(c) + rest)[1] == RefText(ref)[1];
    case Exists(table, as_, join, left, right, inner) =>
      assert Render(c)[0] == ExistsOpen;
      assert |OpenText(table, as_, join, left, right)| > 2;
  }

  function Onto(cs: seq<Clause>, more: Option<seq<Clause>>): Option<seq<Clause>> {
    if more.None? then None else Some(cs + more.value)
  }

  lemma OneClauseParses(c: Clause, opener: Piece, rest: seq<Piece>)
    ensures ParseClauses([opener] + (ClauseText(c) + rest), opener) == Onto([c], ParseClauses(rest, And))
  {
    assert ([opener] + (ClauseText(c) + rest))[1..] == ClauseText(c) + rest;
    ClauseParses(c, rest);
  }

  lemma {:induction false} ClausesParse(cs: seq<Clause>, rest: seq<Piece>)
    requires cs != []
    ensures ParseClauses(ClausesText(cs) + rest, Where) == Onto(cs, ParseClauses(rest, And))
    decreases |cs|
  {
    var last := |cs| - 1;
    var one := ClauseText(cs[last]);
    assert cs == cs[..last] + [cs[last]];
    if last == 0 {
      OneClauseParses(cs[0], Where, rest);
      assert ClausesText(cs) == [Where] + one && cs == [cs[0]];
      Assoc([Where], one, rest);
    } else {
      OneClauseParses(cs[last], And, rest);
      ClausesParse(cs[..last], [And] + (one + rest));
      Assoc([And], one, rest);
      Assoc(ClausesText(cs[..last]), [And] + one, rest);
      var more := ParseClauses(rest, And);
      if more.Some? {
        Assoc(cs[..last], [cs[last]], more.value);
      }
    }
  }

  /** However many clauses were appended, the text reads back as exactly those, in order. */
  lemma QueryParses(base: string, cs: seq<Clause>)
    ensures ParseQuery([SelectStarFrom, Name(base)] + ClausesText(cs)) == Some((base, cs))
  {
    var ts := [SelectStarFrom, Name(base)] + ClausesText(cs);
    assert ts[2..] == ClausesText(cs) + [];
    if cs != [] {
      ClausesParse(cs, []);
      assert cs + [] == cs;
    }
  }

  // ----- what the query selects

  function Arity(c: Clause): nat {
    if c.Path? then 1
    else match c.test
      case Against(op) => 1
      case Now(op) => 0
      case Within => 2
      case OneOf(count) => count
  }

  function Arities(cs: seq<Clause>): nat {
    if cs == [] then 0 else Arities(cs[..|cs| - 1]) + Arity(cs[|cs| - 1])
  }

  lemma {:induction false} PlaceholdersAppend(a: seq<Piece>, b: seq<Piece>)
    ensures Placeholders(a + b) == Placeholders(a) + Placeholders(b)
  {
    if a == [] {
      assert a + b == b;
    } else {
      ConsAppend(a, b);
      PlaceholdersAppend(a[1..], b);
    }
  }

  lemma {:induction false} ListPlaceholders(n: nat)
    ensures Placeholders(SlotsText(n)) == n
  {
    if n > 1 {
      ListPlaceholders(n - 1);
      PlaceholdersAppend([Param, Comma], SlotsText(n - 1));
      assert [Param, Comma][1..] == [Comma];
    } else if n == 1 {
      assert [Param, Close][1..] == [Close];
    }
  }

  lemma ClausePlaceholders(c: Clause)
    ensures Placeholders(ClauseText(c)) == Arity(c)
  {
    if c.Path? {
      BalancedWithOneParam(c.cond, [], 0);
      assert Render(c.cond) + [] == Render(c.cond);
    } else {
      PlaceholdersAppend([Name(c.column)], TestText(c.test));
      match c.test
      case Against(op) => assert [Operator(op), Param][1..] == [Param] && [Param][1..] == [];
      case Now(op) => assert [Operator(op), CurrentTimestamp][1..] == [CurrentTimestamp];
      case Within =>
        PlaceholdersAppend([Between, Param], [And, Param]);
        assert [Between, Param][1..] == [Param] && [And, Param][1..] == [Param] && [Param][1..] == [];
      case OneOf(count) =>
        PlaceholdersAppend([InOpen], SlotsText(count));
        ListPlaceholders(count);
    }
  }

  /** The query asks for as many parameters as its clauses take. */
  lemma {:induction false} QueryPlaceholders(cs: seq<Clause>)
    ensures Placeholders(ClausesText(cs)) == Arities(cs)
    decreases |cs|
  {
    if cs != [] {
      var last := |cs| - 1;
      QueryPlaceholders(cs[..last]);
      var one := [if last == 0 then Where else And];
      PlaceholdersAppend(ClausesText(cs[..last]), one + ClauseText(cs[last]));
      PlaceholdersAppend(one, ClauseText(cs[last]));
      ClausePlaceholders(cs[last]);
    }
  }

  datatype Request = OnColumn(column: string, test: Test) | OnRelation(path: string, op: string)

  /** A test of a value, with the parameters bound to it. */
  ghost predicate TestHolds(cmp: Compare, now: Value, x: Value, test: Test, vs: seq<Value>) {
    match test
    case Against(op) => |vs| == 1 && cmp(op, x, vs[0])
    case Now(op) => cmp(op, x, now)
    case Within => |vs| == 2 && cmp(">=", x, vs[0]) && cmp("<=", x, vs[1])
    case OneOf(count) => Sql.SqlIn(x, vs)
  }

  ghost predicate ClauseHolds(db: Db, cmp: Compare, now: Value, base: string, row: Row, c: Clause, vs: seq<Value>) {
    if c.Simple? then TestHolds(cmp, now, row(c.column), c.test, vs)
    else |vs| == 1 && Holds(db, cmp, map[Key(db.folds, base) := row], c.cond, vs[0])
  }

  /** The WHERE with these values bound in order: each clause takes its share of them. */
  ghost predicate Passes(db: Db, cmp: Compare, now: Value, base: string, row: Row, cs: seq<Clause>, vs: seq<Value>)
    requires |vs| == Arities(cs)
  {
    if cs == [] then true
    else
      var last := |cs| - 1;
      var k := Arities(cs[..last]);
      Passes(db, cmp, now, base, row, cs[..last], vs[..k]) && ClauseHolds(db, cmp, now, base, row, cs[last], vs[k..])
  }

  /** What a caller means by a request. */
  ghost predicate Meant(metas: seq<TableMeta>, db: Db, cmp: Compare, now: Value, m: Ptr, row: Row, r: Request,
                        vs: seq<Value>)
    requires ValidPtrs(metas) && m < |metas|
  {
    if r.OnColumn? then TestHolds(cmp, now, row(r.column), r.test, vs)
    else |vs| == 1 && Follows(metas, db, cmp, m, row, r.path, r.op, vs[0])
  }

  /** The clause a request became. */
  predicate Became(metas: seq<TableMeta>, m: Ptr, r: Request, c: Clause)
    requires ValidPtrs(metas) && m < |metas|
  {
    if r.OnColumn? then c == Simple(r.column, r.test)
    else
      var built := Build(metas, m, r.path, r.op, metas[m].name, 1);
      built.Some? && c == Path(built.value)
  }

  /** Every request is met by the values bound at its own positions. */
  ghost predicate AllMeant(metas: seq<TableMeta>, db: Db, cmp: Compare, now: Value, m: Ptr, row: Row,
                           rs: seq<Request>, cs: seq<Clause>, vs: seq<Value>)
    requires ValidPtrs(metas) && m < |metas| && |rs| == |cs| && |vs| == Arities(cs)
  {
    forall k | 0 <= k < |rs| :: MeantAt(metas, db, cmp, now, m, row, rs, cs, vs, k)
  }

  ghost predicate MeantAt(metas: seq<TableMeta>, db: Db, cmp: Compare, now: Value, m: Ptr, row: Row,
                          rs: seq<Request>, cs: seq<Clause>, vs: seq<Value>, k: nat)
    requires ValidPtrs(metas) && m < |metas| && k < |rs| == |cs| && |vs| == Arities(cs)
  {
    ShareFits(cs, k);
    Meant(metas, db, cmp, now, m, row, rs[k], vs[Arities(cs[..k])..Arities(cs[..k + 1])])
  }

  lemma {:induction false} ShareFits(cs: seq<Clause>, k: nat)
    requires k < |cs|
    ensures Arities(cs[..k + 1]) == Arities(cs[..k]) + Arity(cs[k]) <= Arities(cs)
    decreases |cs| - k
  {
    assert cs[..k + 1][..k] == cs[..k];
    if k + 1 < |cs| {
      ShareFits(cs, k + 1);
    } else {
      assert cs[..k + 1] == cs;
    }
  }

  /** A row passes the WHERE exactly when it meets every request with the values bound at that
      request's positions, provided no request's first alias takes the table's own name. */
  lemma {:induction false} QueryMeansRequests(metas: seq<TableMeta>, db: Db, cmp: Compare, now: Value, m: Ptr, row: Row,
                                              rs: seq<Request>, cs: seq<Clause>, vs: seq<Value>)
    requires ValidPtrs(metas) && m < |metas| && |rs| == |cs| && |vs| == Arities(cs)
    requires forall k | 0 <= k < |rs| :: Became(metas, m, rs[k], cs[k])
    requires forall k | 0 <= k < |rs| && rs[k].OnRelation? ::
               !Captured(db.folds, metas, m, rs[k].path, metas[m].name, 1)
    ensures Passes(db, cmp, now, metas[m].name, row, cs, vs) <==> AllMeant(metas, db, cmp, now, m, row, rs, cs, vs)
    decreases |rs|
  {
    if rs != [] {
      var last := |rs| - 1;
      var rs', cs', vs' := rs[..last], cs[..last], vs[..Arities(cs[..last])];
      forall k | 0 <= k < last ensures Became(metas, m, rs'[k], cs'[k]) {
        assert Became(metas, m, rs[k], cs[k]);
      }
      QueryMeansRequests(metas, db, cmp, now, m, row, rs', cs', vs');
      assert Became(metas, m, rs[last], cs[last]);
      LastMeant(metas, db, cmp, now, m, row, rs, cs, vs);
      AllButLast(metas, db, cmp, now, m, row, rs, cs, vs);
      LastPasses(db, cmp, now, metas[m].name, row, cs, vs);
    }
  }

  lemma LastPasses(db: Db, cmp: Compare, now: Value, base: string, row: Row, cs: seq<Clause>, vs: seq<Value>)
    requires cs != [] && |vs| == Arities(cs)
    ensures var last := |cs| - 1;
            var k := Arities(cs[..last]);
            Passes(db, cmp, now, base, row, cs, vs) <==>
            && Passes(db, cmp, now, base, row, cs[..last], vs[..k])
            && ClauseHolds(db, cmp, now, base, row, cs[last], vs[k..])
  {
  }

  lemma AllButLast(metas: seq<TableMeta>, db: Db, cmp: Compare, now: Value, m: Ptr, row: Row,
                   rs: seq<Request>, cs: seq<Clause>, vs: seq<Value>)
    requires ValidPtrs(metas) && m < |metas| && |rs| == |cs| > 0 && |vs| == Arities(cs)
    ensures var last := |rs| - 1;
            AllMeant(metas, db, cmp, now, m, row, rs, cs, vs)
            <==> && AllMeant(metas, db, cmp, now, m, row, rs[..last], cs[..last], vs[..Arities(cs[..last])])
                 && MeantAt(metas, db, cmp, now, m, row, rs, cs, vs, last)
  {
    var last := |rs| - 1;
    forall i | 0 <= i < last
      ensures MeantAt(metas, db, cmp, now, m, row, rs[..last], cs[..last], vs[..Arities(cs[..last])], i)
              <==> MeantAt(metas, db, cmp, now, m, row, rs, cs, vs, i)
    {
      SameShare(metas, db, cmp, now, m, row, rs, cs, vs, i);
    }
  }

  lemma SameShare(metas: seq<TableMeta>, db: Db, cmp: Compare, now: Value, m: Ptr, row: Row,
                  rs: seq<Request>, cs: seq<Clause>, vs: seq<Value>, i: nat)
    requires ValidPtrs(metas) && m < |metas| && |rs| == |cs| && |vs| == Arities(cs) && i < |rs| - 1
    ensures var last := |rs| - 1;
            MeantAt(metas, db, cmp, now, m, row, rs[..last], cs[..last], vs[..Arities(cs[..last])], i)
            <==> MeantAt(metas, db, cmp, now, m, row, rs, cs, vs, i)
  {
    var last := |rs| - 1;
    var k := Arities(cs[..last]);
    ShareFits(cs[..last], i);
    assert cs[..last][..i] == cs[..i] && cs[..last][..i + 1] == cs[..i + 1];
    TakeSlice(vs, k, Arities(cs[..i]), Arities(cs[..i + 1]));
  }

  lemma LastMeant(metas: seq<TableMeta>, db: Db, cmp: Compare, now: Value, m: Ptr, row: Row,
                  rs: seq<Request>, cs: seq<Clause>, vs: seq<Value>)
    requires ValidPtrs(metas) && m < |metas| && |rs| == |cs| > 0 && |vs| == Arities(cs)
    requires var last := |rs| - 1; Became(metas, m, rs[last], cs[last])
    requires var r := rs[|rs| - 1]; r.OnRelation? ==> !Captured(db.folds, metas, m, r.path, metas[m].name, 1)
    ensures var last := |rs| - 1;
            ClauseHolds(db, cmp, now, metas[m].name, row, cs[last], vs[Arities(cs[..last])..])
            <==> MeantAt(metas, db, cmp, now, m, row, rs, cs, vs, last)
  {
    var last, base := |rs| - 1, metas[m].name;
    var r, share := rs[last], vs[Arities(cs[..last])..];
    assert cs[..last + 1] == cs;
    assert vs[Arities(cs[..last])..Arities(cs[..last + 1])] == share;
    if r.OnRelation? {
      BuildMeansPath(metas, db, cmp, m, row, r.path, r.op, share[0], base, 1, map[Key(db.folds, base) := row]);
    }
  }
}
