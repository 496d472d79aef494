/** Lists of values in statement text: how loops render them, how filling and parsing treat
    them, and how text in pieces is filled piece by piece. */
module SqlText {
  import opened Optional
  import opened Sql

  function ListText(n: nat): seq<Tok> {
    if n == 0 then [] else ListText(n - 1) + (if n > 1 then [Comma, Param] else [Param])
  }

  function ListLits(vs: seq<Value>): seq<Tok> {
    if vs == [] then []
    else
      var last := |vs| - 1;
      ListLits(vs[..last]) + (if last > 0 then [Comma, Lit(vs[last])] else [Lit(vs[last])])
  }

  /** One or more values separated by commas. */
  function ParseList(ts: seq<Tok>): (r: Option<(seq<Value>, seq<Tok>)>)
    ensures r.Some? ==> |r.value.1| < |ts|
    decreases |ts|
  {
    if ts == [] || !ts[0].Lit? then None
    else if |ts| > 1 && ts[1].Comma? then
      var more := ParseList(ts[2..]);
      if more.None? then None else Some(([ts[0].value] + more.value.0, more.value.1))
    else Some(([ts[0].value], ts[1..]))
  }

  function MoreValues(ts: seq<Tok>): Option<(seq<Value>, seq<Tok>)> {
    if ts != [] && ts[0].Comma? then ParseList(ts[1..]) else Some(([], ts))
  }

  lemma ValueParses(v: Value, rest: seq<Tok>)
    ensures ParseList([Lit(v)] + rest) ==
            var more := MoreValues(rest);
            if more.None? then None else Some(([v] + more.value.0, more.value.1))
  {
    var one := [Lit(v)] + rest;
    assert one[1..] == rest;
    assert rest != [] ==> one[2..] == rest[1..];
    assert [v] + [] == [v];
  }

  lemma {:induction false} ListParses(vs: seq<Value>, rest: seq<Tok>)
    requires vs != []
    ensures ParseList(ListLits(vs) + rest) ==
            var more := MoreValues(rest);
            if more.None? then None else Some((vs + more.value.0, more.value.1))
    decreases |vs|
  {
    var last := |vs| - 1;
    var one := [Lit(vs[last])] + rest;
    assert vs == vs[..last] + [vs[last]];
    var more := MoreValues(rest);
    ValueParses(vs[last], rest);
    if last == 0 {
      assert ListLits(vs) + rest == one;
    } else {
      var tail := [Comma] + one;
      assert tail[1..] == one;
      ListParses(vs[..last], tail);
      assert ListLits(vs) + rest == ListLits(vs[..last]) + tail;
      assert more.Some? ==> vs[..last] + ([vs[last]] + more.value.0) == vs + more.value.0;
    }
  }

  /** Text without placeholders is unchanged by filling, and takes no parameter. */
  lemma {:induction false} FillPlain(ts: seq<Tok>, ps: seq<Value>)
    requires forall i | 0 <= i < |ts| :: !ts[i].Param?
    ensures Params(ts) == 0 && Fill(ts, ps) == ts
  {
    if ts != [] {
      FillPlain(ts[1..], ps);
    }
  }

  /** Plain text in front of and behind a piece with parameters. */
  lemma FillBetween(a: seq<Tok>, b: seq<Tok>, c: seq<Tok>, ps: seq<Value>)
    requires forall i | 0 <= i < |a| :: !a[i].Param?
    requires forall i | 0 <= i < |c| :: !c[i].Param?
    requires Params(b) == |ps|
    ensures Params(a + b + c) == |ps|
    ensures Fill(a + b + c, ps) == a + Fill(b, ps) + c
  {
    FillPlain(a, []);
    FillPlain(c, []);
    ParamsSplit(a + b, c);
    ParamsSplit(a, b);
    FillSplit(a, b, [], ps);
    FillSplit(a + b, c, ps, []);
    assert ps + [] == ps && [] + ps == ps;
  }

  lemma FillListEnd(vs: seq<Value>)
    ensures Params(ListText(|vs|) + [RParen]) == |vs|
    ensures Fill(ListText(|vs|) + [RParen], vs) == ListLits(vs) + [RParen]
  {
    FillList(vs);
    FillBetween([], ListText(|vs|), [RParen], vs);
    assert [] + ListText(|vs|) + [RParen] == ListText(|vs|) + [RParen];
  }

  lemma FillTwo(a: seq<Tok>, b: seq<Tok>, p: seq<Value>, q: seq<Value>)
    requires Params(a) == |p| && Params(b) == |q|
    ensures Params(a + b) == |p + q| && Fill(a + b, p + q) == Fill(a, p) + Fill(b, q)
  {
    ParamsSplit(a, b);
    FillSplit(a, b, p, q);
  }

  lemma {:induction false} FillList(vs: seq<Value>)
    ensures Params(ListText(|vs|)) == |vs|
    ensures Fill(ListText(|vs|), vs) == ListLits(vs)
  {
    if vs != [] {
      var last := |vs| - 1;
      FillList(vs[..last]);
      var v := vs[last];
      assert [Comma, Param][1..] == [Param];
      assert Params([Param]) == 1 && Fill([Param], [v]) == [Lit(v)];
      var item := if last > 0 then [Comma, Param] else [Param];
      ParamsSplit(ListText(last), item);
      FillSplit(ListText(last), item, vs[..last], [v]);
      assert vs == vs[..last] + [v];
    }
  }

  lemma Regroup(a: seq<Tok>, b: seq<Tok>, c: seq<Tok>, d: seq<Tok>)
    ensures (a + b + c) + d == a + (b + (c + d))
  {
  }

  method RenderList(sb0: seq<Tok>, n: nat) returns (sb: seq<Tok>)
    ensures sb == sb0 + ListText(n)
  {
    sb := sb0;
    for j := 0 to n
      invariant sb == sb0 + ListText(j)
    {
      if j > 0 {
        sb := sb + [Comma];
      }
      sb := sb + [Param];
    }
  }
}
