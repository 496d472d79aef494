/** The text of the nested EXISTS and how it reads back. */
module ExistsText {
  import opened ExistsQuery
  import opened Optional
  import opened Sequences

  /** The pieces the code appends; JPrefix is the `j_` that is glued to the name after it. */
  datatype Piece =
    | SelectStarFrom | Where | And | ExistsOpen | InnerJoin | On | JPrefix | Equals | Dot | Close
    | Name(name: string) | Operator(op: string) | Param | CurrentTimestamp | Between | InOpen | Comma

  function IdentText(i: Ident): seq<Piece> {
    if i.Plain? then [Name(i.name)] else [JPrefix, Name(i.name)]
  }

  function RefText(r: Ref): seq<Piece> {
    IdentText(r.of) + [Dot, Name(r.col)]
  }

  function JoinText(join: Option<Join>): seq<Piece> {
    if join.None? then []
    else
      var j := join.value;
      [InnerJoin, Name(j.table)] + IdentText(j.as_) + [On] + RefText(j.left) + [Equals] + RefText(j.right)
  }

  function Render(c: Cond): seq<Piece> {
    match c
    case Comparison(ref, op) => RefText(ref) + [Operator(op), Param]
    case Exists(table, as_, join, left, right, inner) =>
      OpenText(table, as_, join, left, right) + Render(inner) + [Close]
  }

  /** An EXISTS up to its inner condition. */
  function OpenText(table: string, as_: Ident, join: Option<Join>, left: Ref, right: Ref): seq<Piece> {
    [ExistsOpen] + HeadText(table, as_, join, left, right)
  }

  function HeadText(table: string, as_: Ident, join: Option<Join>, left: Ref, right: Ref): seq<Piece> {
    [Name(table)] + IdentText(as_) + JoinText(join) + [Where] + RefText(left) + [Equals] + RefText(right) + [And]
  }

  lemma Regroup(a: seq<Piece>, i: seq<Piece>, j: seq<Piece>, w: seq<Piece>, l: seq<Piece>, e: seq<Piece>, r: seq<Piece>,
                n: seq<Piece>, x: seq<Piece>)
    ensures (a + i + j + w + l + e + r + n) + x == a + (i + (j + (w + (l + (e + (r + (n + x)))))))
  {
    Assoc(a + i + j + w + l + e + r, n, x);
    Assoc(a + i + j + w + l + e, r, n + x);
    Assoc(a + i + j + w + l, e, r + (n + x));
    Assoc(a + i + j + w, l, e + (r + (n + x)));
    Assoc(a + i + j, w, l + (e + (r + (n + x))));
    Assoc(a + i, j, w + (l + (e + (r + (n + x)))));
    Assoc(a, i, j + (w + (l + (e + (r + (n + x))))));
  }

  lemma ClosingText(p: seq<Piece>, inner: seq<Piece>, rest: seq<Piece>)
    ensures (p + inner + [Close]) + rest == p + (inner + ([Close] + rest))
  {
  }

  // ----- reading the text back

  function ParseIdent(ts: seq<Piece>): (r: Option<(Ident, seq<Piece>)>)
    ensures r.Some? ==> |r.value.1| < |ts|
  {
    if |ts| > 0 && ts[0].Name? then Some((Plain(ts[0].name), ts[1..]))
    else if |ts| > 1 && ts[0].JPrefix? && ts[1].Name? then Some((Joined(ts[1].name), ts[2..]))
    else None
  }

  function ParseRef(ts: seq<Piece>): (r: Option<(Ref, seq<Piece>)>)
    ensures r.Some? ==> |r.value.1| < |ts|
  {
    var i := ParseIdent(ts);
    if i.None? then None
    else
      var rest := i.value.1;
      if |rest| > 1 && rest[0].Dot? && rest[1].Name? then Some((Ref(i.value.0, rest[1].name), rest[2..])) else None
  }

  function ParseEquality(ts: seq<Piece>): (r: Option<(Ref, Ref, seq<Piece>)>)
    ensures r.Some? ==> |r.value.2| < |ts|
  {
    var l := ParseRef(ts);
    if l.None? || l.value.1 == [] || !l.value.1[0].Equals? then None
    else
      var r := ParseRef(l.value.1[1..]);
      if r.None? then None else Some((l.value.0, r.value.0, r.value.1))
  }

  function ParseJoin(ts: seq<Piece>): (r: Option<(Option<Join>, seq<Piece>)>)
    ensures r.Some? ==> |r.value.1| <= |ts|
  {
    if |ts| > 1 && ts[0].InnerJoin? && ts[1].Name? then
      var i := ParseIdent(ts[2..]);
      if i.None? || i.value.1 == [] || !i.value.1[0].On? then None
      else
        var e := ParseEquality(i.value.1[1..]);
        if e.None? then None else Some((Some(Join(ts[1].name, i.value.0, e.value.0, e.value.1)), e.value.2))
    else Some((None, ts))
  }

  function ParseCond(ts: seq<Piece>): (r: Option<(Cond, seq<Piece>)>)
    ensures r.Some? ==> |r.value.1| < |ts|
    decreases |ts|
  {
    if |ts| > 1 && ts[0].ExistsOpen? && ts[1].Name? then
      var i := ParseIdent(ts[2..]);
      if i.None? then None
      else
        var j := ParseJoin(i.value.1);
        if j.None? || j.value.1 == [] || !j.value.1[0].Where? then None
        else
          var e := ParseEquality(j.value.1[1..]);
          if e.None? || e.value.2 == [] || !e.value.2[0].And? then None
          else
            var inner := ParseCond(e.value.2[1..]);
            if inner.None? || inner.value.1 == [] || !inner.value.1[0].Close? then None
            else
              Some((Exists(ts[1].name, i.value.0, j.value.0, e.value.0, e.value.1, inner.value.0), inner.value.1[1..]))
    else
      var r := ParseRef(ts);
      if r.None? then None
      else
        var rest := r.value.1;
        if |rest| > 1 && rest[0].Operator? && rest[1].Param? then Some((Comparison(r.value.0, rest[0].op), rest[2..]))
        else None
  }

  lemma IdentParses(i: Ident, rest: seq<Piece>)
    ensures ParseIdent(IdentText(i) + rest) == Some((i, rest))
  {
    var ts := IdentText(i) + rest;
    assert i.Plain? ==> ts[1..] == rest;
    assert i.Joined? ==> ts[2..] == rest;
  }

  lemma RefParses(r: Ref, rest: seq<Piece>)
    ensures ParseRef(RefText(r) + rest) == Some((r, rest))
  {
    var tail := [Dot, Name(r.col)] + rest;
    assert RefText(r) + rest == IdentText(r.of) + tail;
    IdentParses(r.of, tail);
    assert tail[2..] == rest;
  }

  lemma EqualityParses(l: Ref, r: Ref, rest: seq<Piece>)
    ensures ParseEquality(RefText(l) + ([Equals] + (RefText(r) + rest))) == Some((l, r, rest))
  {
    var tail := [Equals] + (RefText(r) + rest);
    RefParses(l, tail);
    assert tail[1..] == RefText(r) + rest;
    RefParses(r, rest);
  }

  lemma JoinParses(join: Option<Join>, rest: seq<Piece>)
    requires rest != [] && rest[0].Where?
    ensures ParseJoin(JoinText(join) + rest) == Some((join, rest))
  {
    if join.None? {
      assert JoinText(join) + rest == rest;
    } else {
      var j := join.value;
      var head := [InnerJoin, Name(j.table)];
      var tail := [On] + (RefText(j.left) + ([Equals] + (RefText(j.right) + rest)));
      RegroupJoin(head, IdentText(j.as_), [On], RefText(j.left), [Equals], RefText(j.right), rest);
      TwoAhead(InnerJoin, Name(j.table), IdentText(j.as_) + tail);
      IdentParses(j.as_, tail);
      OneAhead(On, RefText(j.left) + ([Equals] + (RefText(j.right) + rest)));
      EqualityParses(j.left, j.right, rest);
      JoinSteps(head + (IdentText(j.as_) + tail), j, tail, rest);
    }
  }

  lemma JoinSteps(ts: seq<Piece>, j: Join, a: seq<Piece>, b: seq<Piece>)
    requires |ts| > 1 && ts[0].InnerJoin? && ts[1] == Name(j.table)
    requires ParseIdent(ts[2..]) == Some((j.as_, a)) && a != [] && a[0].On?
    requires ParseEquality(a[1..]) == Some((j.left, j.right, b))
    ensures ParseJoin(ts) == Some((Some(j), b))
  {
  }

  lemma RegroupJoin(a: seq<Piece>, i: seq<Piece>, o: seq<Piece>, l: seq<Piece>, e: seq<Piece>, r: seq<Piece>,
                    x: seq<Piece>)
    ensures (a + i + o + l + e + r) + x == a + (i + (o + (l + (e + (r + x)))))
  {
    Assoc(a + i + o + l + e, r, x);
    Assoc(a + i + o + l, e, r + x);
    Assoc(a + i + o, l, e + (r + x));
    Assoc(a + i, o, l + (e + (r + x)));
    Assoc(a, i, o + (l + (e + (r + x))));
  }

  lemma OneAhead(t: Piece, x: seq<Piece>)
    ensures ([t] + x)[0] == t && ([t] + x)[1..] == x
  {
  }

  lemma TwoAhead(t: Piece, u: Piece, x: seq<Piece>)
    ensures ([t, u] + x)[0] == t && ([t, u] + x)[1] == u && ([t, u] + x)[2..] == x
    ensures [t] + ([u] + x) == [t, u] + x
  {
  }

  /** The text of a condition reads back as that condition, whatever follows it. */
  lemma {:induction false} CondParses(c: Cond, rest: seq<Piece>)
    ensures ParseCond(Render(c) + rest) == Some((c, rest))
  {
    match c
    case Comparison(ref, op) =>
      var tail := [Operator(op), Param] + rest;
      assert Render(c) + rest == RefText(ref) + tail;
      RefParses(ref, tail);
      assert tail[2..] == rest;
      assert !(Render(c) + rest)[0].ExistsOpen?;
    case Exists(table, as_, join, left, right, inner) =>
      var closing := [Close] + rest;
      CondParses(inner, closing);
      ExistsParses(c, rest, Render(inner));
  }

  lemma ParseSteps(ts: seq<Piece>, c: Cond, a: seq<Piece>, b: seq<Piece>, d: seq<Piece>, e: seq<Piece>)
    requires c.Exists? && |ts| > 1 && ts[0].ExistsOpen? && ts[1] == Name(c.table)
    requires ParseIdent(ts[2..]) == Some((c.as_, a)) && ParseJoin(a) == Some((c.join, b))
    requires b != [] && b[0].Where? && ParseEquality(b[1..]) == Some((c.left, c.right, d))
    requires d != [] && d[0].And? && ParseCond(d[1..]) == Some((c.inner, e)) && e != [] && e[0].Close?
    ensures ParseCond(ts) == Some((c, e[1..]))
  {
  }

  lemma ExistsParses(c: Cond, rest: seq<Piece>, inner: seq<Piece>)
    requires c.Exists? && inner == Render(c.inner)
             && ParseCond(inner + ([Close] + rest)) == Some((c.inner, [Close] + rest))
    ensures ParseCond(Render(c) + rest) == Some((c, rest))
  {
    ExistsShape(c, inner + ([Close] + rest), inner, rest);
    ShapeParses(c, inner + ([Close] + rest), [Close] + rest);
    assert ([Close] + rest)[1..] == rest;
  }

  /** An EXISTS up to its inner condition, grouped from the right, with x behind it. */
  function Shape(c: Cond, x: seq<Piece>): seq<Piece>
    requires c.Exists?
  {
    [ExistsOpen] + ([Name(c.table)] + (IdentText(c.as_) + (JoinText(c.join) + ([Where] + (RefText(c.left)
    + ([Equals] + (RefText(c.right) + ([And] + x))))))))
  }

  lemma ExistsShape(c: Cond, x: seq<Piece>, inner: seq<Piece>, rest: seq<Piece>)
    requires c.Exists? && inner == Render(c.inner) && x == inner + ([Close] + rest)
    ensures Render(c) + rest == Shape(c, x)
  {
    ClosingText(OpenText(c.table, c.as_, c.join, c.left, c.right), inner, rest);
    Regroup([Name(c.table)], IdentText(c.as_), JoinText(c.join), [Where], RefText(c.left), [Equals], RefText(c.right),
            [And], x);
    Assoc([ExistsOpen], HeadText(c.table, c.as_, c.join, c.left, c.right), x);
  }

  lemma ShapeParses(c: Cond, x: seq<Piece>, e: seq<Piece>)
    requires c.Exists? && ParseCond(x) == Some((c.inner, e)) && e != [] && e[0].Close?
    ensures ParseCond(Shape(c, x)) == Some((c, e[1..]))
  {
    var t3 := [And] + x;
    var t2 := [Where] + (RefText(c.left) + ([Equals] + (RefText(c.right) + t3)));
    var t1 := JoinText(c.join) + t2;
    var ts := Shape(c, x);
    TwoAhead(ExistsOpen, Name(c.table), IdentText(c.as_) + t1);
    IdentParses(c.as_, t1);
    JoinParses(c.join, t2);
    OneAhead(Where, RefText(c.left) + ([Equals] + (RefText(c.right) + t3)));
    EqualityParses(c.left, c.right, t3);
    OneAhead(And, x);
    ParseSteps(ts, c, t1, t2, t3, e);
  }

  function Placeholders(ts: seq<Piece>): nat {
    if ts == [] then 0 else (if ts[0].Param? then 1 else 0) + Placeholders(ts[1..])
  }

  /** How deep the parentheses are after the text, if they never close too often. */
  function Nesting(ts: seq<Piece>, depth: nat): Option<nat> {
    if ts == [] then Some(depth)
    else if ts[0].ExistsOpen? || ts[0].InOpen? then Nesting(ts[1..], depth + 1)
    else if ts[0].Close? then (if depth == 0 then None else Nesting(ts[1..], depth - 1))
    else Nesting(ts[1..], depth)
  }

  /** Text without placeholders and without parentheses of its own. */
  predicate Unmarked(ts: seq<Piece>) {
    forall i | 0 <= i < |ts| :: !ts[i].Param? && !ts[i].ExistsOpen? && !ts[i].InOpen? && !ts[i].Close?
  }

  lemma HeadPlain(table: string, as_: Ident, join: Option<Join>, left: Ref, right: Ref)
    ensures Unmarked(HeadText(table, as_, join, left, right))
  {
    var a := [Name(table)] + IdentText(as_);
    JoinPlain(join);
    UnmarkedAppend(a, JoinText(join));
    UnmarkedAppend(a + JoinText(join), [Where]);
    UnmarkedAppend(a + JoinText(join) + [Where], RefText(left));
    UnmarkedAppend(a + JoinText(join) + [Where] + RefText(left), [Equals]);
    UnmarkedAppend(a + JoinText(join) + [Where] + RefText(left) + [Equals], RefText(right));
    UnmarkedAppend(a + JoinText(join) + [Where] + RefText(left) + [Equals] + RefText(right), [And]);
  }

  lemma JoinPlain(join: Option<Join>)
    ensures Unmarked(JoinText(join))
  {
    if join.Some? {
      var j := join.value;
      UnmarkedAppend([InnerJoin, Name(j.table)] + IdentText(j.as_) + [On], RefText(j.left));
      UnmarkedAppend([InnerJoin, Name(j.table)] + IdentText(j.as_) + [On] + RefText(j.left), [Equals]);
      UnmarkedAppend([InnerJoin, Name(j.table)] + IdentText(j.as_) + [On] + RefText(j.left) + [Equals],
                     RefText(j.right));
    }
  }

  lemma UnmarkedAppend(a: seq<Piece>, b: seq<Piece>)
    requires Unmarked(a) && Unmarked(b)
    ensures Unmarked(a + b)
  {
  }

  lemma {:induction false} PlainText(ts: seq<Piece>, rest: seq<Piece>, depth: nat)
    requires Unmarked(ts)
    ensures Placeholders(ts + rest) == Placeholders(rest) && Nesting(ts + rest, depth) == Nesting(rest, depth)
  {
    if ts == [] {
      assert ts + rest == rest;
    } else {
      assert (ts + rest)[1..] == ts[1..] + rest;
      PlainText(ts[1..], rest, depth);
    }
  }

  /** Parentheses balance and there is exactly one placeholder, at any depth of nesting. */
  lemma {:induction false} BalancedWithOneParam(c: Cond, rest: seq<Piece>, depth: nat)
    ensures Placeholders(Render(c) + rest) == 1 + Placeholders(rest)
    ensures Nesting(Render(c) + rest, depth) == Nesting(rest, depth)
  {
    match c
    case Comparison(ref, op) =>
      var tail := [Param] + rest;
      assert tail[1..] == rest;
      assert Render(c) + rest == (RefText(ref) + [Operator(op)]) + tail;
      PlainText(RefText(ref) + [Operator(op)], tail, depth);
    case Exists(table, as_, join, left, right, inner) =>
      var plain := HeadText(table, as_, join, left, right);
      HeadPlain(table, as_, join, left, right);
      BalancedWithOneParam(inner, [Close] + rest, depth + 1);
      ClosingText(OpenText(table, as_, join, left, right), Render(inner), rest);
      BalancedAround(plain, Render(inner), rest, depth);
  }

  lemma BalancedAround(plain: seq<Piece>, inner: seq<Piece>, rest: seq<Piece>, depth: nat)
    requires Unmarked(plain)
    requires Placeholders(inner + ([Close] + rest)) == 1 + Placeholders([Close] + rest)
    requires Nesting(inner + ([Close] + rest), depth + 1) == Nesting([Close] + rest, depth + 1)
    ensures Placeholders(([ExistsOpen] + plain) + (inner + ([Close] + rest))) == 1 + Placeholders(rest)
    ensures Nesting(([ExistsOpen] + plain) + (inner + ([Close] + rest)), depth) == Nesting(rest, depth)
  {
    var closing := [Close] + rest;
    assert closing[1..] == rest;
    PlainText(plain, inner + closing, depth + 1);
    Assoc([ExistsOpen], plain, inner + closing);
    assert ([ExistsOpen] + (plain + (inner + closing)))[1..] == plain + (inner + closing);
  }
}
