/** The text and the parameters of the batch update line up: filled with the bound values, the
    text parses to one CASE per non-key column, with one arm per item in item order. */
module BatchUpdateText {
  import opened BatchUpdate
  import opened Optional
  import opened Sequences
  import opened Sql
  import opened SqlText

  function Pairs(bs: seq<Bound>, c: nat): (ps: seq<(Value, Value)>)
    requires Reaches(bs, c)
    ensures |ps| == |bs|
  {
    seq(|bs|, j requires 0 <= j < |bs| => (bs[j].pk, bs[j].vals[c]))
  }

  // ----- filled text

  function ArmLits(bs: seq<Bound>, c: nat): seq<Tok>
    requires Reaches(bs, c)
  {
    if bs == [] then []
    else
      var last := |bs| - 1;
      ArmLits(bs[..last], c) + [When, Lit(bs[last].pk), Then, Lit(bs[last].vals[c])]
  }

  function CaseLits(col: string, pk: string, bs: seq<Bound>, c: nat): seq<Tok>
    requires Reaches(bs, c)
  {
    [Name(col), Equals, Case, Name(pk)] + ArmLits(bs, c) + [End]
  }

  function SetLits(columns: seq<Column>, ks: seq<nat>, pk: string, bs: seq<Bound>): seq<Tok>
    requires forall i | 0 <= i < |ks| :: ks[i] < |columns| && Reaches(bs, ks[i])
  {
    if ks == [] then []
    else
      var last := |ks| - 1;
      SetLits(columns, ks[..last], pk, bs) + (if last > 0 then [Comma] else [])
      + CaseLits(columns[ks[last]].name, pk, bs, ks[last])
  }

  lemma {:induction false} FillArms(bs: seq<Bound>, c: nat)
    requires Reaches(bs, c)
    ensures Params(ArmText(|bs|)) == |ArmParams(bs, c)| == 2 * |bs|
    ensures Fill(ArmText(|bs|), ArmParams(bs, c)) == ArmLits(bs, c)
  {
    if bs != [] {
      var last := |bs| - 1;
      FillArms(bs[..last], c);
      var arm, p := [When, Param, Then, Param], [bs[last].pk, bs[last].vals[c]];
      ParamsSplit(ArmText(last), arm);
      FillSplit(ArmText(last), arm, ArmParams(bs[..last], c), p);
      FillArm(p[0], p[1]);
    }
  }

  lemma FillArm(v: Value, w: Value)
    ensures Params([When, Param, Then, Param]) == 2
    ensures Fill([When, Param, Then, Param], [v, w]) == [When, Lit(v), Then, Lit(w)]
  {
    var a := [When, Param, Then, Param];
    assert a[1..] == [Param, Then, Param] && a[1..][1..] == [Then, Param] && a[1..][1..][1..] == [Param];
    assert [v, w][1..] == [w];
    assert Fill([Param], [w]) == [Lit(w)];
    assert Fill([Then, Param], [w]) == [Then, Lit(w)];
    assert Fill([Param, Then, Param], [v, w]) == [Lit(v), Then, Lit(w)];
    assert Params([Param]) == 1 && Params([Then, Param]) == 1 && Params([Param, Then, Param]) == 2;
  }

  lemma FillCase(col: string, pk: string, bs: seq<Bound>, c: nat)
    requires Reaches(bs, c)
    ensures Params(CaseText(col, pk, |bs|)) == |ArmParams(bs, c)|
    ensures Fill(CaseText(col, pk, |bs|), ArmParams(bs, c)) == CaseLits(col, pk, bs, c)
  {
    FillArms(bs, c);
    FillBetween([Name(col), Equals, Case, Name(pk)], ArmText(|bs|), [End], ArmParams(bs, c));
  }

  lemma {:induction false} FillSets(columns: seq<Column>, ks: seq<nat>, pk: string, bs: seq<Bound>)
    requires forall i | 0 <= i < |ks| :: ks[i] < |columns| && Reaches(bs, ks[i])
    ensures Params(SetText(columns, ks, pk, |bs|)) == |SetParams(bs, ks)|
    ensures Fill(SetText(columns, ks, pk, |bs|), SetParams(bs, ks)) == SetLits(columns, ks, pk, bs)
  {
    if ks != [] {
      var last := |ks| - 1;
      FillSets(columns, ks[..last], pk, bs);
      FillNextSet(SetText(columns, ks[..last], pk, |bs|), SetParams(bs, ks[..last]), last > 0,
                  columns[ks[last]].name, pk, bs, ks[last]);
    }
  }

  lemma FillNextSet(before: seq<Tok>, ps: seq<Value>, comma: bool, col: string, pk: string, bs: seq<Bound>, c: nat)
    requires Params(before) == |ps| && Reaches(bs, c)
    ensures var sep := if comma then [Comma] else [];
            var text, qs := before + sep + CaseText(col, pk, |bs|), ps + ArmParams(bs, c);
            Params(text) == |qs| && Fill(text, qs) == Fill(before, ps) + sep + CaseLits(col, pk, bs, c)
  {
    FillCase(col, pk, bs, c);
    FillAfter(before, if comma then [Comma] else [], CaseText(col, pk, |bs|), ps, ArmParams(bs, c));
  }

  lemma FillAfter(before: seq<Tok>, sep: seq<Tok>, one: seq<Tok>, ps: seq<Value>, qs: seq<Value>)
    requires Params(before) == |ps| && Params(one) == |qs| && (sep == [] || sep == [Comma])
    ensures Params(before + sep + one) == |ps + qs|
    ensures Fill(before + sep + one, ps + qs) == Fill(before, ps) + sep + Fill(one, qs)
  {
    FillPlain(sep, []);
    ParamsSplit(before, sep);
    FillSplit(before, sep, ps, []);
    assert ps + [] == ps;
    ParamsSplit(before + sep, one);
    FillSplit(before + sep, one, ps, qs);
  }

  lemma {:induction false} CountSetParams(bs: seq<Bound>, ks: seq<nat>)
    requires forall i | 0 <= i < |ks| :: Reaches(bs, ks[i])
    ensures |SetParams(bs, ks)| == |ks| * (2 * |bs|)
  {
    if ks != [] {
      CountSetParams(bs, ks[..|ks| - 1]);
      FillArms(bs, ks[|ks| - 1]);
      OneMore(|ks| - 1, 2 * |bs|);
    }
  }

  lemma OneMore(k: nat, n: nat)
    ensures (k + 1) * n == k * n + n
  {
  }

  // ----- parsing the filled text

  lemma {:induction false} ArmsParse(bs: seq<Bound>, c: nat, rest: seq<Tok>)
    requires Reaches(bs, c)
    ensures ParseArms(ArmLits(bs, c) + rest) == (Pairs(bs, c) + ParseArms(rest).0, ParseArms(rest).1)
    decreases |bs|
  {
    if bs == [] {
      assert ArmLits(bs, c) + rest == rest;
      assert Pairs(bs, c) + ParseArms(rest).0 == ParseArms(rest).0;
    } else {
      var last := |bs| - 1;
      var arm := [When, Lit(bs[last].pk), Then, Lit(bs[last].vals[c])];
      ArmsParse(bs[..last], c, arm + rest);
      assert ArmLits(bs, c) + rest == ArmLits(bs[..last], c) + (arm + rest);
      assert (arm + rest)[4..] == rest;
      assert ParseArms(arm + rest) == ([(bs[last].pk, bs[last].vals[c])] + ParseArms(rest).0, ParseArms(rest).1);
      assert Pairs(bs, c) == Pairs(bs[..last], c) + [(bs[last].pk, bs[last].vals[c])];
      var more := ParseArms(rest).0;
      assert Pairs(bs[..last], c) + ([(bs[last].pk, bs[last].vals[c])] + more) == Pairs(bs, c) + more;
    }
  }

  lemma CaseParses(col: string, pk: string, bs: seq<Bound>, c: nat, rest: seq<Tok>)
    requires Reaches(bs, c) && bs != []
    ensures ParseCase(CaseLits(col, pk, bs, c) + rest) == Some((CaseSet(col, pk, Pairs(bs, c)), rest))
  {
    var ts := CaseLits(col, pk, bs, c) + rest;
    assert ts[4..] == ArmLits(bs, c) + ([End] + rest);
    ArmsParse(bs, c, [End] + rest);
    assert ParseArms([End] + rest) == ([], [End] + rest);
    assert Pairs(bs, c) + [] == Pairs(bs, c);
    assert ([End] + rest)[1..] == rest;
  }

  function CaseSets(columns: seq<Column>, ks: seq<nat>, pk: string, bs: seq<Bound>): (sets: seq<CaseSet>)
    requires forall i | 0 <= i < |ks| :: ks[i] < |columns| && Reaches(bs, ks[i])
    ensures |sets| == |ks|
    ensures forall i | 0 <= i < |ks| :: sets[i] == CaseSet(columns[ks[i]].name, pk, Pairs(bs, ks[i]))
  {
    seq(|ks|, i requires 0 <= i < |ks| => CaseSet(columns[ks[i]].name, pk, Pairs(bs, ks[i])))
  }

  /** What may follow an assignment: a comma and more, or the end of the list. */
  function MoreSets(ts: seq<Tok>): Option<(seq<CaseSet>, seq<Tok>)> {
    if ts != [] && ts[0].Comma? then ParseSets(ts[1..]) else Some(([], ts))
  }

  function Onto(cs: seq<CaseSet>, more: Option<(seq<CaseSet>, seq<Tok>)>): Option<(seq<CaseSet>, seq<Tok>)> {
    if more.None? then None else Some((cs + more.value.0, more.value.1))
  }

  lemma SetsParseOne(col: string, pk: string, bs: seq<Bound>, c: nat, rest: seq<Tok>)
    requires Reaches(bs, c) && bs != []
    ensures ParseSets(CaseLits(col, pk, bs, c) + rest) == Onto([CaseSet(col, pk, Pairs(bs, c))], MoreSets(rest))
  {
    CaseParses(col, pk, bs, c, rest);
    var added := CaseSet(col, pk, Pairs(bs, c));
    assert [added] + [] == [added];
  }

  /** Appending one more assignment to a list that already parses. */
  lemma SetsParseNext(before: seq<Tok>, one: seq<Tok>, rest: seq<Tok>, cs: seq<CaseSet>, added: CaseSet)
    requires ParseSets(before + ([Comma] + (one + rest))) == Onto(cs, MoreSets([Comma] + (one + rest)))
    requires ParseSets(one + rest) == Onto([added], MoreSets(rest))
    ensures ParseSets((before + [Comma] + one) + rest) == Onto(cs + [added], MoreSets(rest))
  {
    Regroup(before, [Comma], one, rest);
    assert ([Comma] + (one + rest))[1..] == one + rest;
    var more := MoreSets(rest);
    if more.Some? {
      Assoc(cs, [added], more.value.0);
    }
  }

  lemma {:induction false} SetsParse(columns: seq<Column>, ks: seq<nat>, pk: string, bs: seq<Bound>, rest: seq<Tok>)
    requires ks != [] && bs != [] && forall i | 0 <= i < |ks| :: ks[i] < |columns| && Reaches(bs, ks[i])
    ensures ParseSets(SetLits(columns, ks, pk, bs) + rest) == Onto(CaseSets(columns, ks, pk, bs), MoreSets(rest))
    decreases |ks|
  {
    var last := |ks| - 1;
    var one := CaseLits(columns[ks[last]].name, pk, bs, ks[last]);
    var added := CaseSet(columns[ks[last]].name, pk, Pairs(bs, ks[last]));
    SetsParseOne(columns[ks[last]].name, pk, bs, ks[last], rest);
    LastCaseSet(columns, ks, pk, bs);
    if last == 0 {
      assert SetLits(columns, ks, pk, bs) == [] + [] + one == one;
      assert CaseSets(columns, ks, pk, bs) == [added];
    } else {
      var before := SetLits(columns, ks[..last], pk, bs);
      assert SetLits(columns, ks, pk, bs) == before + [Comma] + one;
      SetsParse(columns, ks[..last], pk, bs, [Comma] + (one + rest));
      SetsParseNext(before, one, rest, CaseSets(columns, ks[..last], pk, bs), added);
    }
  }

  lemma LastCaseSet(columns: seq<Column>, ks: seq<nat>, pk: string, bs: seq<Bound>)
    requires ks != [] && forall i | 0 <= i < |ks| :: ks[i] < |columns| && Reaches(bs, ks[i])
    ensures var last := |ks| - 1;
            CaseSets(columns, ks, pk, bs)
            == CaseSets(columns, ks[..last], pk, bs) + [CaseSet(columns[ks[last]].name, pk, Pairs(bs, ks[last]))]
  {
  }

  // ----- the whole statement

  function Statement(meta: TableMeta, pk: nat, bs: seq<Bound>): UpdateStmt
    requires pk < |meta.columns| && Wide(meta, bs)
  {
    var name := meta.columns[pk].name;
    UpdateStmt(meta.name, CaseSets(meta.columns, Assigned(meta.columns, |meta.columns|), name, bs), name, Keys(bs))
  }

  function StatementLits(meta: TableMeta, pk: nat, bs: seq<Bound>): seq<Tok>
    requires pk < |meta.columns| && Wide(meta, bs)
  {
    var name := meta.columns[pk].name;
    [Update, Name(meta.name), Set] + (SetLits(meta.columns, Assigned(meta.columns, |meta.columns|), name, bs)
    + ([Where, Name(name), In, LParen] + (ListLits(Keys(bs)) + [RParen])))
  }

  lemma FillStatement(meta: TableMeta, pk: nat, bs: seq<Bound>)
    requires pk < |meta.columns| && Wide(meta, bs)
    ensures Params(UpdateText(meta, pk, |bs|)) == |UpdateParams(meta, bs)|
    ensures Fill(UpdateText(meta, pk, |bs|), UpdateParams(meta, bs)) == StatementLits(meta, pk, bs)
  {
    var name := meta.columns[pk].name;
    var ks := Assigned(meta.columns, |meta.columns|);
    var n := |bs|;
    var front, mid := [Update, Name(meta.name), Set], [Where, Name(name), In, LParen];
    var sets, list := SetText(meta.columns, ks, name, n), ListText(n);
    var left, right := front + sets + mid, list + [RParen];
    FillSets(meta.columns, ks, name, bs);
    FillBetween(front, sets, mid, SetParams(bs, ks));
    FillListEnd(Keys(bs));
    Assoc(left, list, [RParen]);
    FillTwo(left, right, SetParams(bs, ks), Keys(bs));
    Regroup(front, SetLits(meta.columns, ks, name, bs), mid, ListLits(Keys(bs)) + [RParen]);
  }

  lemma WholeParses(table: string, sets: seq<Tok>, pk: string, list: seq<Tok>, cs: seq<CaseSet>, vs: seq<Value>)
    requires var rest := [Where, Name(pk), In, LParen] + (list + [RParen]);
             ParseSets(sets + rest) == Some((cs, rest))
    requires ParseList(list + [RParen]) == Some((vs, [RParen]))
    ensures Parse([Update, Name(table), Set] + (sets + ([Where, Name(pk), In, LParen] + (list + [RParen])))) ==
            Some(UpdateStmt(table, cs, pk, vs))
  {
    var rest := [Where, Name(pk), In, LParen] + (list + [RParen]);
    var ts := [Update, Name(table), Set] + (sets + rest);
    assert ts[3..] == sets + rest;
    assert rest[4..] == list + [RParen];
  }

  lemma StatementParses(meta: TableMeta, pk: nat, bs: seq<Bound>)
    requires pk < |meta.columns| && Wide(meta, bs) && bs != []
    requires Assigned(meta.columns, |meta.columns|) != []
    ensures Parse(StatementLits(meta, pk, bs)) == Some(Statement(meta, pk, bs))
  {
    var name := meta.columns[pk].name;
    var ks := Assigned(meta.columns, |meta.columns|);
    var setLits, listLits := SetLits(meta.columns, ks, name, bs), ListLits(Keys(bs));
    var rest := [Where, Name(name), In, LParen] + (listLits + [RParen]);
    SetsParse(meta.columns, ks, name, bs, rest);
    assert CaseSets(meta.columns, ks, name, bs) + [] == CaseSets(meta.columns, ks, name, bs);
    ListParses(Keys(bs), [RParen]);
    assert Keys(bs) + [] == Keys(bs);
    WholeParses(meta.name, setLits, name, listLits, CaseSets(meta.columns, ks, name, bs), Keys(bs));
  }

  /** With nothing but key columns the SET list is empty and the text is a syntax error. */
  lemma NothingToSet(meta: TableMeta, pk: nat, bs: seq<Bound>)
    requires pk < |meta.columns| && Wide(meta, bs) && Assigned(meta.columns, |meta.columns|) == []
    ensures Parse(StatementLits(meta, pk, bs)) == None
  {
    var name := meta.columns[pk].name;
    var rest := [Where, Name(name), In, LParen] + (ListLits(Keys(bs)) + [RParen]);
    var ts := StatementLits(meta, pk, bs);
    assert ts == [Update, Name(meta.name), Set] + rest;
    assert ts[3..] == rest;
  }

  /** Filling the text of one loop nest with the parameters of the other, one to one, gives a
      statement that parses to the intended CASE per column. */
  lemma TextAndParametersAgree(meta: TableMeta, pk: nat, bs: seq<Bound>)
    requires pk < |meta.columns| && Wide(meta, bs) && bs != []
    ensures var ks := Assigned(meta.columns, |meta.columns|);
            && Params(UpdateText(meta, pk, |bs|)) == |UpdateParams(meta, bs)| == |ks| * (2 * |bs|) + |bs|
            && Parse(Fill(UpdateText(meta, pk, |bs|), UpdateParams(meta, bs))) ==
               if ks == [] then None else Some(Statement(meta, pk, bs))
  {
    FillStatement(meta, pk, bs);
    CountSetParams(bs, Assigned(meta.columns, |meta.columns|));
    if Assigned(meta.columns, |meta.columns|) == [] {
      NothingToSet(meta, pk, bs);
    } else {
      StatementParses(meta, pk, bs);
    }
  }
}
