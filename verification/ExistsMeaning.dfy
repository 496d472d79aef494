/** The nested EXISTS means following the path, exactly when the outermost row's name is not
    taken by the first alias. */
module ExistsMeaning {
  import opened CaseFolding
  import opened ExistsQuery
  import opened Optional
  import Sql

  // ----- aliases

  function Number(s: string): int {
    if s == [] then 0 else Number(s[..|s| - 1]) * 10 + (s[|s| - 1] as int - '0' as int)
  }

  lemma {:induction false} NumberOfDigits(n: nat)
    ensures Number(Digits(n)) == n
  {
    if n < 10 {
      assert Digits(n)[..0] == [];
    } else {
      NumberOfDigits(n / 10);
      var s := Digits(n / 10);
      assert Digits(n)[..|s|] == s;
    }
  }

  /** t1, t2, .. and j_t1, j_t2, .. are all different. */
  lemma AliasesDiffer(d: nat, e: nat)
    ensures Alias(d) == Alias(e) ==> d == e
    ensures "j_" + Alias(d) == "j_" + Alias(e) ==> d == e
    ensures Alias(d) != "j_" + Alias(e)
  {
    NumberOfDigits(d);
    NumberOfDigits(e);
    if Alias(d) == Alias(e) {
      assert Alias(d)[1..] == Digits(d) && Alias(e)[1..] == Digits(e);
    }
    if "j_" + Alias(d) == "j_" + Alias(e) {
      assert ("j_" + Alias(d))[3..] == Digits(d) && ("j_" + Alias(e))[3..] == Digits(e);
    }
    assert Alias(d)[0] == 't' && ("j_" + Alias(e))[0] == 'j';
  }

  lemma {:induction false} DigitsFold(n: nat)
    ensures Fold(Digits(n)) == Digits(n)
  {
    if n < 10 {
      assert Digits(n)[1..] == [];
    } else {
      DigitsFold(n / 10);
      FoldAppend(Digits(n / 10), [((n % 10) as char + '0')]);
      assert [((n % 10) as char + '0')][1..] == [];
    }
  }

  lemma {:induction false} FoldAppend(a: string, b: string)
    ensures Fold(a + b) == Fold(a) + Fold(b)
  {
    if a == [] {
      assert a + b == b;
    } else {
      assert (a + b)[1..] == a[1..] + b;
      FoldAppend(a[1..], b);
    }
  }

  lemma AliasFolds(d: nat)
    ensures Fold(Alias(d)) == Alias(d)
  {
    DigitsFold(d);
    FoldAppend("t", Digits(d));
    assert "t"[1..] == "";
  }

  lemma LinkFolds(alias: string)
    requires Fold(alias) == alias
    ensures Fold("j_" + alias) == "j_" + alias
  {
    FoldAppend("j_", alias);
    assert "j_"[1..] == "_" && "_"[1..] == "";
  }

  /** The generated names are in lower case. */
  lemma AliasKeys(folds: bool, d: nat)
    ensures Key(folds, Alias(d)) == Alias(d) && Key(folds, "j_" + Alias(d)) == "j_" + Alias(d)
  {
    AliasFolds(d);
    LinkFolds(Alias(d));
  }

  /** Nor do they fall together when case does not count. */
  lemma KeysDiffer(folds: bool, d: nat, e: nat)
    ensures Key(folds, Alias(d)) == Key(folds, Alias(e)) ==> d == e
    ensures Key(folds, "j_" + Alias(d)) == Key(folds, "j_" + Alias(e)) ==> d == e
    ensures Key(folds, Alias(d)) != Key(folds, "j_" + Alias(e))
    ensures Key(folds, Alias(d)) == Alias(d) && Key(folds, "j_" + Alias(d)) == "j_" + Alias(d)
    ensures Key(folds, Alias(e)) == Alias(e) && Key(folds, "j_" + Alias(e)) == "j_" + Alias(e)
  {
    AliasKeys(folds, d);
    AliasKeys(folds, e);
    AliasesDiffer(d, e);
  }

  /** The first EXISTS introduces a row under the very name its condition uses for the row
      outside: the comparison then reads the inner row. */
  predicate Captured(folds: bool, metas: seq<TableMeta>, m: Ptr, path: string, parent: string, depth: nat)
    requires m < |metas|
  {
    && FirstDot(path).Some? && Hop(metas, m, path).Some?
    && (|| Key(folds, parent) == Alias(depth)
        || (Hop(metas, m, path).value.manyToMany && Key(folds, parent) == "j_" + Alias(depth)))
  }

  /** A table called T1 is captured by a database that folds names, and by no other. */
  lemma UpperCaseIsCaptured(metas: seq<TableMeta>, m: Ptr, path: string)
    requires m < |metas| && FirstDot(path).Some? && Hop(metas, m, path).Some?
    ensures Captured(true, metas, m, path, "T1", 1) && !Captured(false, metas, m, path, "T1", 1)
  {
    assert Alias(1) == "t1";
    assert "T1"[1..] == "1" && "1"[1..] == [] && Fold("T1") == "t1";
    assert ("j_" + Alias(1))[0] == 'j';
  }

  /** The name is in scope and stands for this row. */
  ghost predicate StandsFor(folds: bool, scope: Scope, name: string, row: Row) {
    Key(folds, name) in scope && scope[Key(folds, name)] == row
  }

  lemma ReadsRow(db: Db, scope: Scope, ref: Ref, row: Row)
    requires StandsFor(db.folds, scope, ref.of.Str(), row)
    ensures Read(db, scope, ref) == row(ref.col)
  {
  }

  // ----- not captured: the condition means the path

  lemma {:induction false} BuildMeansPath(metas: seq<TableMeta>, db: Db, cmp: Compare, m: Ptr, row: Row, path: string,
                                          op: string, v: Value, parent: string, depth: nat, scope: Scope)
    requires ValidPtrs(metas) && m < |metas|
    requires Build(metas, m, path, op, parent, depth).Some?
    requires StandsFor(db.folds, scope, parent, row)
    requires !Captured(db.folds, metas, m, path, parent, depth)
    ensures Holds(db, cmp, scope, Build(metas, m, path, op, parent, depth).value, v)
            <==> Follows(metas, db, cmp, m, row, path, op, v)
    decreases |path|, 2
  {
    if FirstDot(path).Some? {
      var c := Build(metas, m, path, op, parent, depth).value;
      forall target: Row
        ensures HoldsFor(db, cmp, Bound(db, scope, Alias(depth), target), c.join, c.left, c.right, c.inner, v) <==>
                HopFollows(metas, db, cmp, m, row, target, path, op, v)
      {
        HopMeansPath(metas, db, cmp, m, row, target, path, op, v, parent, depth, scope);
      }
      OverRows(metas, db, cmp, m, row, path, op, v, c, scope);
    }
  }

  /** This row of the target table is related and leads on to a match. */
  ghost predicate HopFollows(metas: seq<TableMeta>, db: Db, cmp: Compare, m: Ptr, row: Row, target: Row, path: string,
                             op: string, v: Value)
    requires ValidPtrs(metas) && m < |metas| && FirstDot(path).Some? && Hop(metas, m, path).Some?
  {
    var rel := Hop(metas, m, path).value;
    && Related(metas, db, rel, row, target)
    && Follows(metas, db, cmp, rel.target.value, target, path[FirstDot(path).value + 1..], op, v)
  }

  lemma {:induction false} HopMeansPath(metas: seq<TableMeta>, db: Db, cmp: Compare, m: Ptr, row: Row, target: Row,
                                        path: string, op: string, v: Value, parent: string, depth: nat, scope: Scope)
    requires ValidPtrs(metas) && m < |metas| && FirstDot(path).Some?
    requires Build(metas, m, path, op, parent, depth).Some?
    requires StandsFor(db.folds, scope, parent, row)
    requires !Captured(db.folds, metas, m, path, parent, depth)
    ensures var c := Build(metas, m, path, op, parent, depth).value;
            HoldsFor(db, cmp, Bound(db, scope, Alias(depth), target), c.join, c.left, c.right, c.inner, v) <==>
            HopFollows(metas, db, cmp, m, row, target, path, op, v)
    decreases |path|, 1
  {
    var rel, alias, rest := Hop(metas, m, path).value, Alias(depth), path[FirstDot(path).value + 1..];
    var c := Build(metas, m, path, op, parent, depth).value;
    var scope1 := Bound(db, scope, alias, target);
    KeysDiffer(db.folds, depth, depth + 1);
    if rel.manyToMany {
      forall link: Row
        ensures HoldsWith(db, cmp, Bound(db, scope1, c.join.value.as_.Str(), link),
                          c.join.value, c.left, c.right, c.inner, v)
                <==> && LinkedBy(metas, rel, row, target, link)
                     && Follows(metas, db, cmp, rel.target.value, target, rest, op, v)
      {
        LinkMeansPath(metas, db, cmp, m, row, target, link, path, op, v, parent, depth, scope);
      }
      OverLinks(metas, db, cmp, rel, row, target, rest, op, v, c, scope1);
    } else {
      BuildMeansPath(metas, db, cmp, rel.target.value, target, rest, op, v, alias, depth + 1, scope1);
      ReadsRow(db, scope1, c.left, target);
      ReadsRow(db, scope1, c.right, row);
    }
  }

  /** A many-to-many hop through one row of the join table. */
  lemma {:induction false} LinkMeansPath(metas: seq<TableMeta>, db: Db, cmp: Compare, m: Ptr, row: Row, target: Row,
                                         link: Row,
                                         path: string, op: string, v: Value, parent: string, depth: nat, scope: Scope)
    requires ValidPtrs(metas) && m < |metas| && FirstDot(path).Some?
    requires Build(metas, m, path, op, parent, depth).Some? && Hop(metas, m, path).value.manyToMany
    requires StandsFor(db.folds, scope, parent, row)
    requires !Captured(db.folds, metas, m, path, parent, depth)
    ensures var c := Build(metas, m, path, op, parent, depth).value;
            var rel, rest := Hop(metas, m, path).value, path[FirstDot(path).value + 1..];
            HoldsWith(db, cmp, Bound(db, Bound(db, scope, Alias(depth), target), c.join.value.as_.Str(), link),
                      c.join.value, c.left, c.right, c.inner, v) <==>
            LinkedBy(metas, rel, row, target, link) && Follows(metas, db, cmp, rel.target.value, target, rest, op, v)
    decreases |path|, 0
  {
    var rel, alias, rest := Hop(metas, m, path).value, Alias(depth), path[FirstDot(path).value + 1..];
    var scope2 := Bound(db, Bound(db, scope, alias, target), "j_" + alias, link);
    KeysDiffer(db.folds, depth, depth + 1);
    KeysDiffer(db.folds, depth, depth);
    BuildMeansPath(metas, db, cmp, rel.target.value, target, rest, op, v, alias, depth + 1, scope2);
  }

  /** For a many-to-many hop, the same for some row of the join table. */
  lemma OverLinks(metas: seq<TableMeta>, db: Db, cmp: Compare, rel: Relation, row: Row, target: Row, rest: string,
                  op: string, v: Value, c: Cond, scope: Scope)
    requires ValidPtrs(metas) && rel.target.Some? && rel.target.value < |metas| && rel.manyToMany
    requires c.Exists? && c.join.Some? && c.join.value.table == rel.joinTable
    requires forall link: Row ::
               HoldsWith(db, cmp, Bound(db, scope, c.join.value.as_.Str(), link),
                         c.join.value, c.left, c.right, c.inner, v) <==>
               LinkedBy(metas, rel, row, target, link) && Follows(metas, db, cmp, rel.target.value, target, rest, op, v)
    ensures HoldsFor(db, cmp, scope, c.join, c.left, c.right, c.inner, v) <==>
            Related(metas, db, rel, row, target) && Follows(metas, db, cmp, rel.target.value, target, rest, op, v)
  {
    var links := db.rows(rel.joinTable);
    var join := c.join.value;
    if HoldsFor(db, cmp, scope, c.join, c.left, c.right, c.inner, v) {
      var j :| && 0 <= j < |links|
               && HoldsWith(db, cmp, Bound(db, scope, join.as_.Str(), links[j]), join, c.left, c.right, c.inner, v);
      assert LinkedBy(metas, rel, row, target, links[j]);
    }
    if Related(metas, db, rel, row, target) {
      var j :| 0 <= j < |links| && LinkedBy(metas, rel, row, target, links[j]);
      assert HoldsWith(db, cmp, Bound(db, scope, c.join.value.as_.Str(), links[j]),
                       c.join.value, c.left, c.right, c.inner, v)
             <==> Follows(metas, db, cmp, rel.target.value, target, rest, op, v);
    }
  }

  /** The same for some row of the target table, once it is so for each. */
  lemma OverRows(metas: seq<TableMeta>, db: Db, cmp: Compare, m: Ptr, row: Row, path: string, op: string, v: Value,
                 c: Cond, scope: Scope)
    requires ValidPtrs(metas) && m < |metas| && FirstDot(path).Some? && Hop(metas, m, path).Some? && c.Exists?
    requires c.table == metas[Hop(metas, m, path).value.target.value].name
    requires forall target: Row ::
               HoldsFor(db, cmp, Bound(db, scope, c.as_.Str(), target), c.join, c.left, c.right, c.inner, v) <==>
               HopFollows(metas, db, cmp, m, row, target, path, op, v)
    ensures Holds(db, cmp, scope, c, v) <==> Follows(metas, db, cmp, m, row, path, op, v)
  {
    var rows := db.rows(c.table);
    if Holds(db, cmp, scope, c, v) {
      var i :| && 0 <= i < |rows|
               && HoldsFor(db, cmp, Bound(db, scope, c.as_.Str(), rows[i]), c.join, c.left, c.right, c.inner, v);
      assert HopFollows(metas, db, cmp, m, row, rows[i], path, op, v);
    }
    if Follows(metas, db, cmp, m, row, path, op, v) {
      var i :| 0 <= i < |rows| && HopFollows(metas, db, cmp, m, row, rows[i], path, op, v);
    }
  }

  // ----- captured: a database on which they differ

  /** A row with this value in every column. */
  function AllOf(w: Value): Row {
    c => w
  }

  const NULLS: Row := c => Sql.Null

  /** One row full of w in every table, and in the base table an all-NULL row as well. */
  function SameDb(base: string, w: Value, folds: bool): Db {
    Db(table => if Key(folds, table) == Key(folds, base) then [AllOf(w), NULLS] else [AllOf(w)], folds)
  }

  /** Read inside, every comparison of the row full of w with itself succeeds. */
  lemma {:induction false} SameHolds(folds: bool, metas: seq<TableMeta>, cmp: Compare, m: Ptr, path: string,
                                     op: string, v: Value, w: Value, parent: string, depth: nat, scope: Scope,
                                     base: string)
    requires ValidPtrs(metas) && m < |metas| && Build(metas, m, path, op, parent, depth).Some?
    requires w != Sql.Null && cmp(op, w, v)
    requires StandsFor(folds, scope, parent, AllOf(w)) || Captured(folds, metas, m, path, parent, depth)
    ensures Holds(SameDb(base, w, folds), cmp, scope, Build(metas, m, path, op, parent, depth).value, v)
    decreases |path|, 1
  {
    var dot := FirstDot(path);
    if dot.Some? {
      var c := Build(metas, m, path, op, parent, depth).value;
      var db, row := SameDb(base, w, folds), AllOf(w);
      assert db.rows(c.table)[0] == row;
      SameHop(folds, metas, cmp, m, path, op, v, w, parent, depth, scope, base);
    }
  }

  lemma {:induction false} SameHop(folds: bool, metas: seq<TableMeta>, cmp: Compare, m: Ptr, path: string,
                                   op: string, v: Value, w: Value, parent: string, depth: nat, scope: Scope,
                                   base: string)
    requires ValidPtrs(metas) && m < |metas| && FirstDot(path).Some?
    requires Build(metas, m, path, op, parent, depth).Some? && w != Sql.Null && cmp(op, w, v)
    requires StandsFor(folds, scope, parent, AllOf(w)) || Captured(folds, metas, m, path, parent, depth)
    ensures var c, db := Build(metas, m, path, op, parent, depth).value, SameDb(base, w, folds);
            HoldsFor(db, cmp, Bound(db, scope, c.as_.Str(), AllOf(w)), c.join, c.left, c.right, c.inner, v)
    decreases |path|, 0
  {
    var rel, alias, rest := Hop(metas, m, path).value, Alias(depth), path[FirstDot(path).value + 1..];
    var db, row := SameDb(base, w, folds), AllOf(w);
    SameScopes(db, metas, m, path, parent, depth, scope, row);
    var scope1 := Bound(db, scope, alias, row);
    if rel.manyToMany {
      var scope2 := Bound(db, scope1, "j_" + alias, row);
      SameHolds(folds, metas, cmp, rel.target.value, rest, op, v, w, alias, depth + 1, scope2, base);
      SameLink(folds, metas, cmp, m, path, op, v, w, parent, depth, scope1, scope2, base);
    } else {
      SameHolds(folds, metas, cmp, rel.target.value, rest, op, v, w, alias, depth + 1, scope1, base);
      ReadsRow(db, scope1, Ref(Plain(alias), rel.foreignKey), row);
      ReadsRow(db, scope1, Ref(Plain(parent), rel.localKey), row);
    }
  }

  /** Both names of a hop stand for that row, and so does the outer one, by itself or captured. */
  lemma SameScopes(db: Db, metas: seq<TableMeta>, m: Ptr, path: string, parent: string, depth: nat, scope: Scope,
                   row: Row)
    requires m < |metas| && FirstDot(path).Some? && Hop(metas, m, path).Some?
    requires StandsFor(db.folds, scope, parent, row) || Captured(db.folds, metas, m, path, parent, depth)
    ensures var alias := Alias(depth);
            var scope1 := Bound(db, scope, alias, row);
            var scope2 := Bound(db, scope1, "j_" + alias, row);
            && StandsFor(db.folds, scope1, alias, row) && StandsFor(db.folds, scope2, alias, row)
            && StandsFor(db.folds, if Hop(metas, m, path).value.manyToMany then scope2 else scope1, parent, row)
  {
    KeysDiffer(db.folds, depth, depth);
  }

  lemma SameLink(folds: bool, metas: seq<TableMeta>, cmp: Compare, m: Ptr, path: string, op: string, v: Value,
                 w: Value, parent: string, depth: nat, scope1: Scope, scope2: Scope, base: string)
    requires ValidPtrs(metas) && m < |metas| && FirstDot(path).Some? && w != Sql.Null
    requires Build(metas, m, path, op, parent, depth).Some? && Hop(metas, m, path).value.manyToMany
    requires var db, alias := SameDb(base, w, folds), Alias(depth);
             && scope2 == Bound(db, scope1, "j_" + alias, AllOf(w))
             && StandsFor(folds, scope2, alias, AllOf(w)) && StandsFor(folds, scope2, parent, AllOf(w))
    requires var db, c := SameDb(base, w, folds), Build(metas, m, path, op, parent, depth).value;
             Holds(db, cmp, scope2, c.inner, v)
    ensures var c, db := Build(metas, m, path, op, parent, depth).value, SameDb(base, w, folds);
            HoldsFor(db, cmp, scope1, c.join, c.left, c.right, c.inner, v)
  {
    var rel, alias := Hop(metas, m, path).value, Alias(depth);
    var db, row := SameDb(base, w, folds), AllOf(w);
    var c := Build(metas, m, path, op, parent, depth).value;
    ReadsRow(db, scope2, c.join.value.left, row);
    ReadsRow(db, scope2, c.join.value.right, row);
    ReadsRow(db, scope2, c.left, row);
    ReadsRow(db, scope2, c.right, row);
    assert db.rows(rel.joinTable)[0] == row;
    assert HoldsWith(db, cmp, Bound(db, scope1, c.join.value.as_.Str(), db.rows(rel.joinTable)[0]),
                     c.join.value, c.left, c.right, c.inner, v);
  }

  /** A row without keys is related to nothing. */
  lemma NullsFollowNothing(metas: seq<TableMeta>, db: Db, cmp: Compare, m: Ptr, path: string, op: string, v: Value)
    requires ValidPtrs(metas) && m < |metas| && FirstDot(path).Some?
    ensures !Follows(metas, db, cmp, m, NULLS, path, op, v)
  {
  }

  /** When the first alias takes the outer row's name, a row of the base table satisfies the
      condition without being related to anything, whatever is compared: a value w that compares
      as asked is all it takes. */
  lemma CapturedMeansOtherwise(folds: bool, metas: seq<TableMeta>, cmp: Compare, m: Ptr, path: string, op: string,
                               v: Value, w: Value)
    requires ValidPtrs(metas) && m < |metas| && Build(metas, m, path, op, metas[m].name, 1).Some?
    requires Captured(folds, metas, m, path, metas[m].name, 1)
    requires w != Sql.Null && cmp(op, w, v)
    ensures var base := metas[m].name;
            && NULLS in SameDb(base, w, folds).rows(base)
            && Holds(SameDb(base, w, folds), cmp, map[Key(folds, base) := NULLS],
                     Build(metas, m, path, op, base, 1).value, v)
            && !Follows(metas, SameDb(base, w, folds), cmp, m, NULLS, path, op, v)
  {
    var base := metas[m].name;
    assert SameDb(base, w, folds).rows(base)[1] == NULLS;
    SameHolds(folds, metas, cmp, m, path, op, v, w, base, 1, map[Key(folds, base) := NULLS], base);
    NullsFollowNothing(metas, SameDb(base, w, folds), cmp, m, path, op, v);
  }

  /** The filter selects a row of the base table exactly when the path leads it to a match, over
      every database and for every value asked for. */
  ghost predicate FilterExact(folds: bool, metas: seq<TableMeta>, cmp: Compare, m: Ptr, path: string, op: string)
    requires ValidPtrs(metas) && m < |metas| && Build(metas, m, path, op, metas[m].name, 1).Some?
  {
    forall db: Db, row: Row, v: Value | db.folds == folds && row in db.rows(metas[m].name) ::
      Holds(db, cmp, map[Key(folds, metas[m].name) := row], Build(metas, m, path, op, metas[m].name, 1).value, v)
      <==> Follows(metas, db, cmp, m, row, path, op, v)
  }

  /** Some value other than NULL compares as asked with some value. */
  ghost predicate CanMeet(cmp: Compare, op: string) {
    exists w: Value, v: Value :: w != Sql.Null && cmp(op, w, v)
  }

  /** Exactly when, over every database, the filter means the path: unless the base table is called
      t1, or j_t1 with a many-to-many first hop, in upper case too where the database folds names. */
  lemma FilterExactIff(folds: bool, metas: seq<TableMeta>, cmp: Compare, m: Ptr, path: string, op: string)
    requires ValidPtrs(metas) && m < |metas| && Build(metas, m, path, op, metas[m].name, 1).Some?
    ensures !Captured(folds, metas, m, path, metas[m].name, 1) ==> FilterExact(folds, metas, cmp, m, path, op)
    ensures CanMeet(cmp, op) ==>
              (FilterExact(folds, metas, cmp, m, path, op) <==> !Captured(folds, metas, m, path, metas[m].name, 1))
  {
    var base := metas[m].name;
    if !Captured(folds, metas, m, path, base, 1) {
      forall db: Db, row: Row, v: Value | db.folds == folds && row in db.rows(base)
        ensures Holds(db, cmp, map[Key(folds, base) := row], Build(metas, m, path, op, base, 1).value, v)
                <==> Follows(metas, db, cmp, m, row, path, op, v)
      {
        BuildMeansPath(metas, db, cmp, m, row, path, op, v, base, 1, map[Key(folds, base) := row]);
      }
    } else if CanMeet(cmp, op) {
      var w: Value, v: Value :| w != Sql.Null && cmp(op, w, v);
      CapturedMeansOtherwise(folds, metas, cmp, m, path, op, v, w);
      assert NULLS in SameDb(base, w, folds).rows(metas[m].name);
    }
  }
}
