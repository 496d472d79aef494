/** Filtering by a relation path: build_exists_query of src/c_orm_query_builder.c turns a
    dotted path into nested EXISTS conditions. Here: the metadata, the conditions as syntax,
    what they mean over a database, and what the path means. */
module ExistsQuery {
  import opened CaseFolding
  import opened Optional
  import Sql

  type Value = Sql.Value

  /** A row gives a value to every column; a column it does not have reads NULL. */
  type Row = string -> Value

  /** The rows of each table, and whether names that are not quoted are compared without regard to case:
      SQLite and PostgreSQL do, MySQL depends on where it is installed. */
  datatype Db = Db(rows: string -> seq<Row>, folds: bool)

  /** What a name is looked up under. */
  function Key(folds: bool, name: string): string {
    if folds then Fold(name) else name
  }

  /** How a comparison operator is decided. */
  type Compare = (string, Value, Value) -> bool

  // ----- metadata

  type Ptr = nat
  datatype Column = Column(name: string, isPk: bool)
  datatype Relation = Relation(field: string, manyToMany: bool, target: Option<Ptr>, foreignKey: string,
                               localKey: string,
                               joinTable: string, joinLocalKey: string, joinForeignKey: string)
  datatype TableMeta = TableMeta(name: string, columns: seq<Column>, relations: seq<Relation>)

  predicate ValidPtrs(metas: seq<TableMeta>) {
    forall m, r | 0 <= m < |metas| && r in metas[m].relations && r.target.Some? :: r.target.value < |metas|
  }

  /** The first relation of that name. */
  function FindRelation(rels: seq<Relation>, field: string): (r: Option<Relation>)
    ensures r.Some? ==> r.value in rels && r.value.field == field
  {
    if rels == [] then None else if rels[0].field == field then Some(rels[0]) else FindRelation(rels[1..], field)
  }

  /** The first key column, or the fallback name. */
  function KeyName(columns: seq<Column>): string {
    if columns == [] then "id" else if columns[0].isPk then columns[0].name else KeyName(columns[1..])
  }

  /** The position of the first dot. */
  function FirstDot(path: string): (d: Option<nat>)
    ensures d.Some? ==> d.value < |path| && path[d.value] == '.' && '.' !in path[..d.value]
    ensures d.None? ==> '.' !in path
  {
    if path == [] then None
    else if path[0] == '.' then Some(0)
    else
      var d := FirstDot(path[1..]);
      assert path == [path[0]] + path[1..];
      if d.Some? then assert path[..d.value + 1] == [path[0]] + path[1..][..d.value]; Some(d.value + 1) else None
  }

  /** The relation a path starts with, if the code accepts it. */
  function Hop(metas: seq<TableMeta>, m: Ptr, path: string): (r: Option<Relation>)
    requires m < |metas| && FirstDot(path).Some?
    ensures r.Some? ==> r.value in metas[m].relations && r.value.target.Some?
  {
    var rel := FindRelation(metas[m].relations, path[..FirstDot(path).value]);
    if rel.Some? && rel.value.target.Some? then rel else None
  }

  predicate FirstField(rels: seq<Relation>, field: string, k: nat) {
    k < |rels| && rels[k].field == field && forall j | 0 <= j < k :: rels[j].field != field
  }

  lemma {:induction false} FindRelationIs(rels: seq<Relation>, field: string, k: nat)
    requires if k < |rels| then FirstField(rels, field, k)
             else k == |rels| && forall j | 0 <= j < k :: rels[j].field != field
    ensures FindRelation(rels, field) == if k < |rels| then Some(rels[k]) else None
  {
    if k > 0 {
      FindRelationIs(rels[1..], field, k - 1);
    }
  }

  /** The hop of a path is the first relation with the name before the first dot, if it has a target. */
  lemma HopIs(metas: seq<TableMeta>, m: Ptr, path: string, k: nat)
    requires m < |metas| && FirstDot(path).Some?
    requires var rels, field := metas[m].relations, path[..FirstDot(path).value];
             if k < |rels| then FirstField(rels, field, k)
             else k == |rels| && forall j | 0 <= j < k :: rels[j].field != field
    ensures var rels := metas[m].relations;
            Hop(metas, m, path) == if k < |rels| && rels[k].target.Some? then Some(rels[k]) else None
  {
    FindRelationIs(metas[m].relations, path[..FirstDot(path).value], k);
  }

  /** The key a join compares is the first primary key column, and "id" where there is none. */
  lemma {:induction false} KeyNameIs(columns: seq<Column>, k: nat)
    requires k <= |columns| && (forall j | 0 <= j < k :: !columns[j].isPk) && (k < |columns| ==> columns[k].isPk)
    ensures KeyName(columns) == if k < |columns| then columns[k].name else "id"
  {
    if k > 0 {
      KeyNameIs(columns[1..], k - 1);
    }
  }

  // ----- what a path means

  /** The row has, along the relations of the path, a related row whose final column compares
      as asked. */
  ghost predicate Follows(metas: seq<TableMeta>, db: Db, cmp: Compare, m: Ptr, row: Row, path: string, op: string,
                          v: Value)
    requires ValidPtrs(metas) && m < |metas|
    decreases |path|
  {
    var dot := FirstDot(path);
    if dot.None? then cmp(op, row(path), v)
    else
      var rel := Hop(metas, m, path);
      && rel.Some?
      && exists i :: 0 <= i < |db.rows(metas[rel.value.target.value].name)|
                     && var target := db.rows(metas[rel.value.target.value].name)[i];
                        && Related(metas, db, rel.value, row, target)
                        && Follows(metas, db, cmp, rel.value.target.value, target, path[dot.value + 1..], op, v)
  }

  ghost predicate Related(metas: seq<TableMeta>, db: Db, rel: Relation, row: Row, target: Row)
    requires rel.target.Some? && rel.target.value < |metas|
  {
    if rel.manyToMany then
      exists j :: 0 <= j < |db.rows(rel.joinTable)| && LinkedBy(metas, rel, row, target, db.rows(rel.joinTable)[j])
    else Sql.SqlEq(target(rel.foreignKey), row(rel.localKey))
  }

  /** This row of the join table links the two. */
  predicate LinkedBy(metas: seq<TableMeta>, rel: Relation, row: Row, target: Row, link: Row)
    requires rel.target.Some? && rel.target.value < |metas|
  {
    && Sql.SqlEq(target(KeyName(metas[rel.target.value].columns)), link(rel.joinForeignKey))
    && Sql.SqlEq(link(rel.joinLocalKey), row(rel.localKey))
  }

  /** A relation holds by values alone: the target's foreign key is the row's local key, or a row of the join
      table has the row's local key under its local and the target's primary key under its foreign key; NULL
      relates nothing. */
  lemma RelatedIff(metas: seq<TableMeta>, db: Db, rel: Relation, row: Row, target: Row, k: nat)
    requires rel.target.Some? && rel.target.value < |metas|
    requires var columns := metas[rel.target.value].columns;
             k <= |columns| && (forall j | 0 <= j < k :: !columns[j].isPk) && (k < |columns| ==> columns[k].isPk)
    ensures var columns := metas[rel.target.value].columns;
            var key := if k < |columns| then columns[k].name else "id";
            Related(metas, db, rel, row, target) <==>
            && row(rel.localKey) != Sql.Null
            && if !rel.manyToMany then target(rel.foreignKey) == row(rel.localKey)
               else exists link :: && link in db.rows(rel.joinTable) && link(rel.joinLocalKey) == row(rel.localKey)
                                   && link(rel.joinForeignKey) == target(key) != Sql.Null
  {
    KeyNameIs(metas[rel.target.value].columns, k);
    var links := db.rows(rel.joinTable);
    if rel.manyToMany && Related(metas, db, rel, row, target) {
      var j :| 0 <= j < |links| && LinkedBy(metas, rel, row, target, links[j]);
      assert links[j] in links;
    }
    forall link | link in links
      ensures exists j :: 0 <= j < |links| && links[j] == link
    {}
  }

  // ----- conditions as syntax, and their meaning

  /** A row name in the text: an alias, or an alias glued behind the prefix `j_`. */
  datatype Ident = Plain(name: string) | Joined(name: string) {
    function Str(): string { if Plain? then name else "j_" + name }
  }

  datatype Ref = Ref(of: Ident, col: string)
  datatype Join = Join(table: string, as_: Ident, left: Ref, right: Ref)

  datatype Cond =
    | Comparison(ref: Ref, op: string)
    | Exists(table: string, as_: Ident, join: Option<Join>, left: Ref, right: Ref, inner: Cond)

  /** Which row each name stands for; an inner name hides an outer one. */
  type Scope = map<string, Row>

  /** The scope in which the name stands for the row. */
  function Bound(db: Db, scope: Scope, name: string, row: Row): Scope {
    scope[Key(db.folds, name) := row]
  }

  function Read(db: Db, scope: Scope, ref: Ref): Value {
    var key := Key(db.folds, ref.of.Str());
    if key in scope then scope[key](ref.col) else Sql.Null
  }

  ghost predicate Holds(db: Db, cmp: Compare, scope: Scope, c: Cond, v: Value)
    decreases c, 0
  {
    match c
    case Comparison(ref, op) => cmp(op, Read(db, scope, ref), v)
    case Exists(table, as_, join, left, right, inner) =>
      exists i :: && 0 <= i < |db.rows(table)|
                  && HoldsFor(db, cmp, Bound(db, scope, as_.Str(), db.rows(table)[i]), join, left, right, inner, v)
  }

  /** The rest of an EXISTS once its own table's row is fixed. */
  ghost predicate HoldsFor(db: Db, cmp: Compare, scope: Scope, join: Option<Join>, left: Ref, right: Ref, inner: Cond,
                           v: Value)
    decreases inner, 2
  {
    if join.None? then Sql.SqlEq(Read(db, scope, left), Read(db, scope, right)) && Holds(db, cmp, scope, inner, v)
    else
      exists j :: 0 <= j < |db.rows(join.value.table)|
                  && HoldsWith(db, cmp, Bound(db, scope, join.value.as_.Str(), db.rows(join.value.table)[j]),
                               join.value, left, right, inner, v)
  }

  ghost predicate HoldsWith(db: Db, cmp: Compare, scope: Scope, join: Join, left: Ref, right: Ref, inner: Cond,
                            v: Value)
    decreases inner, 1
  {
    && Sql.SqlEq(Read(db, scope, join.left), Read(db, scope, join.right))
    && Sql.SqlEq(Read(db, scope, left), Read(db, scope, right))
    && Holds(db, cmp, scope, inner, v)
  }

  // ----- the condition the code builds

  function Digits(n: nat): string {
    if n < 10 then [(n as char + '0')] else Digits(n / 10) + [((n % 10) as char + '0')]
  }

  function Alias(depth: nat): string { "t" + Digits(depth) }

  /** None: the path names a relation that does not exist or has no target. */
  function Build(metas: seq<TableMeta>, m: Ptr, path: string, op: string, parent: string, depth: nat): Option<Cond>
    requires ValidPtrs(metas) && m < |metas|
    decreases |path|
  {
    var dot := FirstDot(path);
    if dot.None? then Some(Comparison(Ref(Plain(parent), path), op))
    else
      var hop := Hop(metas, m, path);
      if hop.None? then None
      else
        var rel, alias := hop.value, Alias(depth);
        var inner := Build(metas, rel.target.value, path[dot.value + 1..], op, alias, depth + 1);
        if inner.None? then None
        else
          var target := metas[rel.target.value];
          var up := Ref(Plain(parent), rel.localKey);
          if rel.manyToMany then
            var link := Joined(alias);
            Some(Exists(target.name, Plain(alias),
                        Some(Join(rel.joinTable, link, Ref(Plain(alias), KeyName(target.columns)),
                                  Ref(link, rel.joinForeignKey))),
                        Ref(link, rel.joinLocalKey), up, inner.value))
          else
            Some(Exists(target.name, Plain(alias), None, Ref(Plain(alias), rel.foreignKey), up, inner.value))
  }
}
