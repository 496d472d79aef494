/** c_orm_escape_string of src/c_orm_api.c: doubling quotes into a caller's buffer. */
module EscapeString {
  import opened CTypes
  import opened Optional

  const QUOTE: StringByte := 39

  function Escaped(s: CString): CString {
    if s == [] then []
    else Escaped(s[..|s| - 1]) + (if s[|s| - 1] == QUOTE then [QUOTE, QUOTE] else [s[|s| - 1]])
  }

  function Quotes(s: CString): nat {
    if s == [] then 0 else Quotes(s[..|s| - 1]) + (if s[|s| - 1] == QUOTE then 1 else 0)
  }

  /** A reader of standard SQL past the opening quote of a literal: the value, and what follows the
      closing quote. SQLite and, by default, PostgreSQL read so. */
  function ReadLiteral(text: CString): Option<(CString, CString)> {
    if text == [] then None
    else if text[0] != QUOTE then
      var r := ReadLiteral(text[1..]);
      if r.None? then None else Some(([text[0]] + r.value.0, r.value.1))
    else if |text| > 1 && text[1] == QUOTE then
      var r := ReadLiteral(text[2..]);
      if r.None? then None else Some(([QUOTE] + r.value.0, r.value.1))
    else Some(([], text[1..]))
  }

  lemma {:induction false} EscapedLength(s: CString)
    ensures |Escaped(s)| == |s| + Quotes(s)
  {
    if s != [] { EscapedLength(s[..|s| - 1]); }
  }

  lemma {:induction false} EscapedMonotone(s: CString, i: nat)
    requires i <= |s|
    ensures |Escaped(s[..i])| <= |Escaped(s)|
    decreases |s| - i
  {
    if i < |s| {
      assert s[..i + 1][..i] == s[..i];
      EscapedMonotone(s, i + 1);
    } else {
      assert s[..i] == s;
    }
  }

  lemma {:induction false} EscapedHead(s: CString)
    requires s != []
    ensures Escaped(s) == (if s[0] == QUOTE then [QUOTE, QUOTE] else [s[0]]) + Escaped(s[1..])
  {
    var last := |s| - 1;
    if last > 0 {
      EscapedHead(s[..last]);
      assert s[..last][1..] == s[1..][..last - 1];
    }
  }

  /** For this reader, whatever SQL follows the closing quote, the literal reads back as the input and ends there. */
  lemma {:induction false} ReadsBack(s: CString, after: CString)
    requires after == [] || after[0] != QUOTE
    ensures ReadLiteral(Escaped(s) + [QUOTE] + after) == Some((s, after))
  {
    var text := Escaped(s) + [QUOTE] + after;
    if s == [] {
      assert text == [QUOTE] + after;
      assert text[1..] == after;
    } else {
      EscapedHead(s);
      ReadsBack(s[1..], after);
      assert s == [s[0]] + s[1..];
      var rest := Escaped(s[1..]) + [QUOTE] + after;
      if s[0] == QUOTE {
        assert text == [QUOTE, QUOTE] + rest && text[2..] == rest;
      } else {
        assert text == [s[0]] + rest && text[1..] == rest;
      }
    }
  }

  /** Two inputs never escape to the same text. */
  lemma EscapedInjective(s: CString, t: CString)
    requires Escaped(s) == Escaped(t)
    ensures s == t
  {
    ReadsBack(s, []);
    ReadsBack(t, []);
  }

  // ----- readers for which a backslash is an escape, as it is for MySQL by default

  const BACKSLASH: StringByte := 92

  /** What a backslash and this byte stand for; `\%` and `\_` are left as they are. */
  function Means(c: StringByte): seq<Byte> {
    match c
    case 48 => [0]
    case 98 => [8]
    case 110 => [10]
    case 114 => [13]
    case 116 => [9]
    case 90 => [26]
    case 37 => [92, 37]
    case 95 => [92, 95]
    case _ =>
      var same: Byte := c;
      [same]
  }

  function ReadEscaping(text: CString): (r: Option<(seq<Byte>, CString)>)
    ensures r.Some? ==> |r.value.1| < |text|
  {
    if text == [] then None
    else if text[0] == BACKSLASH then
      if |text| == 1 then None else Before(Means(text[1]), ReadEscaping(text[2..]))
    else if text[0] != QUOTE then Before([text[0]], ReadEscaping(text[1..]))
    else if |text| > 1 && text[1] == QUOTE then Before([QUOTE], ReadEscaping(text[2..]))
    else Some(([], text[1..]))
  }

  function Before(v: seq<Byte>, r: Option<(seq<Byte>, CString)>): Option<(seq<Byte>, CString)> {
    if r.None? then None else Some((v + r.value.0, r.value.1))
  }

  /** What such a reader takes an escaped string for, up to its own closing quote; None if it reads
      past that quote or stops short of it. */
  function TakenFor(s: CString): Option<seq<Byte>> {
    if s == [] then Some([])
    else if s[0] != BACKSLASH then
      var rest := TakenFor(s[1..]);
      if rest.None? then None else Some([s[0]] + rest.value)
    else if |s| == 1 || s[1] == QUOTE then None
    else
      var rest := TakenFor(s[2..]);
      if rest.None? then None else Some(Means(s[1]) + rest.value)
  }

  /** One quote of a pair left over: the reader does not end at the closing quote. */
  lemma {:induction false} OneQuoteOff(s: CString, after: CString)
    ensures var r := ReadEscaping([QUOTE] + (Escaped(s) + ([QUOTE] + after))); r.None? || r.value.1 != after
  {
    var rest := Escaped(s) + ([QUOTE] + after);
    var text := [QUOTE] + rest;
    assert text[1..] == rest;
    if s == [] {
      assert text[2..] == after;
    } else {
      EscapedHead(s);
      if s[0] == QUOTE {
        OneQuoteOff(s[1..], after);
        assert text[2..] == [QUOTE] + (Escaped(s[1..]) + ([QUOTE] + after));
      } else {
        assert text[1] == s[0] && |rest| > |after|;
      }
    }
  }

  /** Such a reader ends at the closing quote exactly if `TakenFor` says what it has read. */
  lemma {:induction false} ReadsEscaping(s: CString, after: CString)
    requires after == [] || after[0] != QUOTE
    ensures var r := ReadEscaping(Escaped(s) + ([QUOTE] + after));
            if TakenFor(s).Some? then r == Some((TakenFor(s).value, after)) else r.None? || r.value.1 != after
    decreases |s|, 1
  {
    var text := Escaped(s) + ([QUOTE] + after);
    if s == [] {
      assert text == [QUOTE] + after && text[1..] == after;
    } else {
      EscapedHead(s);
      var rest := Escaped(s[1..]) + ([QUOTE] + after);
      if s[0] == QUOTE {
        ReadsEscaping(s[1..], after);
        assert text == [QUOTE, QUOTE] + rest && text[2..] == rest;
      } else if s[0] != BACKSLASH {
        ReadsEscaping(s[1..], after);
        assert text == [s[0]] + rest && text[1..] == rest;
      } else {
        assert text == [BACKSLASH] + rest;
        AfterBackslash(s, after, text, rest);
      }
    }
  }

  lemma AfterBackslash(s: CString, after: CString, text: CString, rest: CString)
    requires (after == [] || after[0] != QUOTE) && s != [] && s[0] == BACKSLASH
    requires rest == Escaped(s[1..]) + ([QUOTE] + after) && text == [BACKSLASH] + rest
    ensures var r := ReadEscaping(text);
            if TakenFor(s).Some? then r == Some((TakenFor(s).value, after)) else r.None? || r.value.1 != after
    decreases |s|, 0
  {
    if |s| == 1 {
      assert rest == [QUOTE] + after;
      EscapeAhead(QUOTE, after, text);
    } else {
      EscapedHead(s[1..]);
      assert s[1..][1..] == s[2..];
      if s[1] == QUOTE {
        OneQuoteOff(s[2..], after);
        PairAhead(Escaped(s[2..]), [QUOTE] + after);
        EscapeAhead(QUOTE, [QUOTE] + (Escaped(s[2..]) + ([QUOTE] + after)), text);
      } else {
        ReadsEscaping(s[2..], after);
        OneAhead(s[1], Escaped(s[2..]), [QUOTE] + after);
        EscapeAhead(s[1], Escaped(s[2..]) + ([QUOTE] + after), text);
      }
    }
  }

  lemma PairAhead(x: CString, y: CString)
    ensures ([QUOTE, QUOTE] + x) + y == [QUOTE] + ([QUOTE] + (x + y))
  {
  }

  lemma OneAhead(c: StringByte, x: CString, y: CString)
    ensures ([c] + x) + y == [c] + (x + y)
  {
  }

  lemma EscapeAhead(c: StringByte, more: CString, text: CString)
    requires text == [BACKSLASH] + ([c] + more)
    ensures ReadEscaping(text) == Before(Means(c), ReadEscaping(more))
  {
    assert text[1] == c && text[2..] == more;
  }

  /** Every backslash is followed by a percent sign or an underscore. */
  predicate Harmless(s: CString) {
    forall i | 0 <= i < |s| && s[i] == BACKSLASH :: i + 1 < |s| && (s[i + 1] == 37 || s[i + 1] == 95)
  }

  lemma {:induction false} TakenForItself(s: CString)
    ensures TakenFor(s) == Some(s) <==> Harmless(s)
    ensures TakenFor(s).Some? ==> |TakenFor(s).value| <= |s|
  {
    if s != [] {
      if s[0] != BACKSLASH {
        TakenForItself(s[1..]);
        HarmlessBehind(s, 1);
        assert s == [s[0]] + s[1..];
      } else if |s| > 1 {
        TakenForItself(s[2..]);
        HarmlessBehind(s, 2);
        assert s == [s[0], s[1]] + s[2..];
      }
    }
  }

  lemma HarmlessBehind(s: CString, n: nat)
    requires 1 <= n <= |s| && n <= 2
    requires n == 2 ==> s[0] == BACKSLASH
    requires n == 1 ==> s[0] != BACKSLASH
    ensures Harmless(s) <==> Harmless(s[n..]) && (n == 2 ==> s[1] == 37 || s[1] == 95)
  {
    var rest := s[n..];
    if Harmless(rest) {
      forall i | n <= i < |s| && s[i] == BACKSLASH
        ensures i + 1 < |s| && (s[i + 1] == 37 || s[i + 1] == 95)
      {
        assert rest[i - n] == BACKSLASH;
      }
    }
    if Harmless(s) {
      forall i | 0 <= i < |rest| && rest[i] == BACKSLASH
        ensures i + 1 < |rest| && (rest[i + 1] == 37 || rest[i + 1] == 95)
      {
        assert s[i + n] == BACKSLASH;
      }
    }
  }

  ghost predicate ReadsBackEverywhere(s: CString) {
    forall after: CString | after == [] || after[0] != QUOTE ::
      ReadEscaping(Escaped(s) + ([QUOTE] + after)) == Some((s, after))
  }

  /** For such a reader a literal reads back in every context if and only if its only backslashes are
      those before a percent sign or an underscore, which the reader leaves alone; otherwise it does in
      none. */
  lemma EscapingReadsBackIff(s: CString)
    ensures ReadsBackEverywhere(s) <==> Harmless(s)
    ensures !Harmless(s) ==> forall after: CString | after == [] || after[0] != QUOTE ::
              ReadEscaping(Escaped(s) + ([QUOTE] + after)) != Some((s, after))
  {
    TakenForItself(s);
    forall after: CString | after == [] || after[0] != QUOTE
      ensures ReadEscaping(Escaped(s) + ([QUOTE] + after)) == Some((s, after)) <==> Harmless(s)
    {
      ReadsEscaping(s, after);
    }
    var none: CString := [];
    assert ReadsBackEverywhere(s) ==> ReadEscaping(Escaped(s) + ([QUOTE] + none)) == Some((s, none));
  }

  /** A backslash at the end keeps the literal open. */
  lemma BackslashStaysOpen()
    ensures ReadEscaping(Escaped([BACKSLASH]) + ([QUOTE] + [])) == None
  {
    var s: CString := [BACKSLASH];
    EscapedHead(s);
    assert Escaped(s) + ([QUOTE] + []) == [BACKSLASH, QUOTE];
  }

  /** size_t subtraction. */
  function Sub(a: nat, b: nat): nat
    requires a < SIZE_T && b < SIZE_T
  {
    if a >= b then a - b else a + SIZE_T - b
  }

  /** The buffer is `output`; the caller says it has outputSize bytes. */
  method Escape(input: array<Byte>, ghost s: CString, output: array<Byte>, outputSize: nat) returns (ok: bool)
    requires |s| < input.Length && input[..|s| + 1] == WithTerminator(s)
    requires input != output && outputSize <= output.Length && outputSize < SIZE_T
    modifies output
    ensures ok <==> |s| + Quotes(s) < outputSize
    ensures ok ==> output[..|s| + Quotes(s) + 1] == WithTerminator(Escaped(s))
    // beyond what is reported, and outside the buffer in any case, nothing is written
    ensures output[outputSize..] == old(output[outputSize..])
    ensures ok ==> output[|s| + Quotes(s) + 1..] == old(output[|s| + Quotes(s) + 1..])
  {
    EscapedLength(s);
    if outputSize == 0 {
      return false;
    }
    var i, j := 0, 0;
    assert s[..0] == [];
    while input[i] != 0
      invariant 0 <= i <= |s| && 0 <= j < outputSize
      invariant j == |Escaped(s[..i])| && output[..j] == Escaped(s[..i])
      invariant forall k | j <= k < output.Length :: output[k] == old(output[k])
      decreases |s| - i
    {
      assert input[..|s| + 1][i] == input[i];
      assert i < |s| && s[..i + 1][..i] == s[..i];
      ghost var i0, j0 := i, j;
      EscapedMonotone(s, i + 1);
      if j >= Sub(outputSize, 1) {
        return false;
      }
      if input[i] == QUOTE {
        if j >= Sub(outputSize, 2) {
          return false;
        }
        output[j] := QUOTE;
        j := j + 1;
        output[j] := QUOTE;
        j := j + 1;
      } else {
        output[j] := input[i];
        j := j + 1;
      }
      i := i + 1;
      assert output[..j] == output[..j0] + (if s[i0] == QUOTE then [QUOTE, QUOTE] else [s[i0]]);
    }
    assert input[..|s| + 1][i] == 0;
    assert i == |s| && s[..i] == s;
    output[j] := 0;
    ok := true;
  }
}
