/** Eager loading of src/c_orm_api.c: the children of all parents are fetched with one
    `WHERE key IN (?, ..)` per 800 parents and dealt out to the parents as rows arrive. */
module EagerLoading {
  import opened Optional
  import opened Sql
  import opened SqlText

  /** One row the query could return: the child, and the key that says whose child it is (its
      own foreign key, or the local key of the joined link). */
  datatype Entry = Entry(key: Value, child: Row)

  /** Everything the relation's query sees without its IN condition, in the order in which the
      database returns it. */
  type Scan = seq<Entry>

  /** ONE_TO_ONE and BELONGS_TO keep one child, ONE_TO_MANY and MANY_TO_MANY all of them. */
  datatype Arity = One | Many

  datatype TargetColumn = TargetColumn(name: string, isPk: bool)

  /** Related directly, through a foreign key of the target, or through a join table; `columns` is
      what the metadata lists of the target. */
  datatype Relation =
    | Direct(columns: seq<TargetColumn>, foreignKey: string)
    | Linked(columns: seq<TargetColumn>)

  /** k is the first column of that name. */
  predicate FirstNamed(columns: seq<TargetColumn>, name: string, k: nat) {
    k < |columns| && columns[k].name == name && forall i | 0 <= i < k :: columns[i].name != name
  }

  /** The metadata does not list the foreign key, which the database may know all the same. */
  predicate Unlisted(rel: Relation) {
    rel.Direct? && forall i | 0 <= i < |rel.columns| :: rel.columns[i].name != rel.foreignKey
  }

  /** A join needs a primary key of the target. */
  predicate Keyless(rel: Relation) {
    rel.Linked? && forall c | c in rel.columns :: !c.isPk
  }

  /** Unhydrated carries the code of a row that could not be read, expiry among others; Unknown is
      for a join without a primary key to join on. */
  datatype Rc = Ok | Refused | Unknown | Unhydrated(code: nat)

  /** What reading a row into a struct comes to; None if it succeeds. */
  type Hydrate = Row -> Option<nat>

  const CHUNK := 800

  // ----- the two kinds of scan

  /** SELECT * FROM target: each row under its foreign key. */
  function DirectScan(rows: seq<Row>, fk: nat): (s: Scan)
    requires forall r | 0 <= r < |rows| :: fk < |rows[r]|
    ensures |s| == |rows|
  {
    seq(|rows|, r requires 0 <= r < |rows| => Entry(rows[r][fk], rows[r]))
  }

  /** SELECT c.*, j.lk FROM target c JOIN links j ON c.pk = j.fk: each child once for every
      link to it. */
  function JoinScan(rows: seq<Row>, pk: nat, links: seq<(Value, Value)>): Scan
    requires forall r | 0 <= r < |rows| :: pk < |rows[r]|
  {
    if rows == [] then [] else LinksOf(rows[0], rows[0][pk], links) + JoinScan(rows[1..], pk, links)
  }

  /** The rows come with the columns the metadata lists, in its order: where it lists the foreign
      key, that is the key a row is under. */
  ghost predicate InColumnOrder(rel: Relation, scan: Scan) {
    rel.Direct? ==>
      forall k: nat, e | FirstNamed(rel.columns, rel.foreignKey, k) && e in scan :: k < |e.child| && e.child[k] == e.key
  }

  lemma DirectInOrder(rel: Relation, rows: seq<Row>, fk: nat)
    requires rel.Direct? && forall r | 0 <= r < |rows| :: fk < |rows[r]|
    requires Unlisted(rel) || FirstNamed(rel.columns, rel.foreignKey, fk)
    ensures InColumnOrder(rel, DirectScan(rows, fk))
  {
  }

  function LinksOf(child: Row, key: Value, links: seq<(Value, Value)>): Scan {
    if links == [] then []
    else (if SqlEq(key, links[0].1) then [Entry(links[0].0, child)] else []) + LinksOf(child, key, links[1..])
  }

  // ----- what loading means

  /** The rows a lookup for this parent alone returns, in result order. */
  function ChildrenOf(scan: Scan, pk: int): seq<Row> {
    if scan == [] then []
    else (if SqlEq(scan[0].key, Int(pk)) then [scan[0].child] else []) + ChildrenOf(scan[1..], pk)
  }

  /** What the parent's field holds in the end. */
  function Kept(arity: Arity, rows: seq<Row>): seq<Row> {
    if arity.One? && |rows| > 1 then rows[..1] else rows
  }

  // ----- the statement

  function QueryText(key: string, n: nat): seq<Tok> {
    [Where, Name(key), In, LParen] + ListText(n) + [RParen]
  }

  function Ints(pks: seq<int>): (vs: seq<Value>)
    ensures |vs| == |pks| && forall i | 0 <= i < |vs| :: vs[i] == Int(pks[i])
  {
    seq(|pks|, i requires 0 <= i < |pks| => Int(pks[i]))
  }

  /** The IN list of a filled query text. */
  function ParseQuery(ts: seq<Tok>): Option<seq<Value>> {
    if |ts| < 4 || !ts[0].Where? || !ts[1].Name? || !ts[2].In? || !ts[3].LParen? then None
    else
      var list := ParseList(ts[4..]);
      if list.None? || list.value.1 != [RParen] then None else Some(list.value.0)
  }

  function Select(scan: Scan, list: seq<Value>): seq<Entry> {
    if scan == [] then []
    else (if SqlIn(scan[0].key, list) then [scan[0]] else []) + Select(scan[1..], list)
  }

  /** The rows of a filled query text; None is a text the database rejects. */
  function Exec(scan: Scan, ts: seq<Tok>): Option<seq<Entry>> {
    var list := ParseQuery(ts);
    if list.None? then None else Some(Select(scan, list.value))
  }

  lemma QueryTextSelects(scan: Scan, key: string, pks: seq<int>)
    requires pks != []
    ensures Params(QueryText(key, |pks|)) == |pks|
    ensures Exec(scan, Fill(QueryText(key, |pks|), Ints(pks))) == Some(Select(scan, Ints(pks)))
  {
    var vs := Ints(pks);
    var front := [Where, Name(key), In, LParen];
    FillList(vs);
    FillBetween(front, ListText(|vs|), [RParen], vs);
    var ts := Fill(QueryText(key, |pks|), vs);
    assert ts == front + ListLits(vs) + [RParen];
    assert ts[4..] == ListLits(vs) + [RParen];
    ListParses(vs, [RParen]);
    assert MoreValues([RParen]) == Some(([], [RParen])) && vs + [] == vs;
  }

  // ----- a lookup for many, split by parent

  lemma {:induction false} SelectKeepsChildren(scan: Scan, pks: seq<int>, i: nat)
    requires i < |pks|
    ensures ChildrenOf(Select(scan, Ints(pks)), pks[i]) == ChildrenOf(scan, pks[i])
  {
    if scan != [] {
      SelectKeepsChildren(scan[1..], pks, i);
      var rest := Select(scan[1..], Ints(pks));
      if SqlIn(scan[0].key, Ints(pks)) {
        assert ([scan[0]] + rest)[1..] == rest;
      } else {
        assert !SqlEq(scan[0].key, Ints(pks)[i]);
        assert Select(scan, Ints(pks)) == rest;
        assert ChildrenOf(scan, pks[i]) == ChildrenOf(scan[1..], pks[i]);
      }
    }
  }

  lemma {:induction false} SelectOnlyListed(scan: Scan, list: seq<Value>, e: Entry)
    requires e in Select(scan, list)
    ensures SqlIn(e.key, list)
  {
    if SqlIn(scan[0].key, list) && e == scan[0] {
    } else {
      SelectOnlyListed(scan[1..], list, e);
    }
  }

  lemma {:induction false} ChildrenOfNext(entries: seq<Entry>, r: nat, pk: int)
    requires r < |entries|
    ensures ChildrenOf(entries[..r + 1], pk) ==
            ChildrenOf(entries[..r], pk) + (if SqlEq(entries[r].key, Int(pk)) then [entries[r].child] else [])
  {
    assert entries[..r + 1] == entries[..r] + [entries[r]];
    ChildrenOfSplit(entries[..r], [entries[r]], pk);
  }

  lemma {:induction false} ChildrenOfSplit(a: seq<Entry>, b: seq<Entry>, pk: int)
    ensures ChildrenOf(a + b, pk) == ChildrenOf(a, pk) + ChildrenOf(b, pk)
  {
    if a == [] {
      assert a + b == b;
    } else {
      assert (a + b)[1..] == a[1..] + b;
      ChildrenOfSplit(a[1..], b, pk);
    }
  }

  /** Loading for all parents at once gives each what its own query gives. */
  lemma {:induction false} LookupAlone(scan: Scan, pk: int)
    ensures Select(scan, Ints([pk])) == EntriesOf(scan, pk)
    ensures |EntriesOf(scan, pk)| == |ChildrenOf(scan, pk)|
    ensures forall k | 0 <= k < |ChildrenOf(scan, pk)| :: EntriesOf(scan, pk)[k].child == ChildrenOf(scan, pk)[k]
  {
    if scan != [] {
      LookupAlone(scan[1..], pk);
      assert Ints([pk])[0] == Int(pk);
      assert SqlIn(scan[0].key, Ints([pk])) <==> SqlEq(scan[0].key, Int(pk));
    }
  }

  function EntriesOf(scan: Scan, pk: int): seq<Entry> {
    if scan == [] then [] else (if SqlEq(scan[0].key, Int(pk)) then [scan[0]] else []) + EntriesOf(scan[1..], pk)
  }

  /** Directly related: the rows whose foreign key is the parent's key. */
  lemma {:induction false} DirectChildren(rows: seq<Row>, fk: nat, pk: int, child: Row)
    requires forall r | 0 <= r < |rows| :: fk < |rows[r]|
    ensures child in ChildrenOf(DirectScan(rows, fk), pk) <==> child in rows && child[fk] == Int(pk)
  {
    if rows != [] {
      var scan := DirectScan(rows, fk);
      assert scan[1..] == DirectScan(rows[1..], fk);
      DirectChildren(rows[1..], fk, pk, child);
      assert rows == [rows[0]] + rows[1..];
    }
  }

  /** Related through links: the rows some link of the parent points at. */
  lemma {:induction false} JoinedChildren(rows: seq<Row>, key: nat, links: seq<(Value, Value)>, pk: int, child: Row)
    requires forall r | 0 <= r < |rows| :: key < |rows[r]|
    ensures child in ChildrenOf(JoinScan(rows, key, links), pk) <==>
            child in rows && exists l :: l in links && l.0 == Int(pk) && SqlEq(child[key], l.1)
  {
    if rows != [] {
      var first := LinksOf(rows[0], rows[0][key], links);
      JoinedChildren(rows[1..], key, links, pk, child);
      LinkedChild(rows[0], rows[0][key], links, pk, child);
      ChildrenOfSplit(first, JoinScan(rows[1..], key, links), pk);
      assert rows == [rows[0]] + rows[1..];
    }
  }

  lemma {:induction false} LinkedChild(row: Row, key: Value, links: seq<(Value, Value)>, pk: int, child: Row)
    ensures child in ChildrenOf(LinksOf(row, key, links), pk) <==>
            child == row && exists l :: l in links && l.0 == Int(pk) && SqlEq(key, l.1)
  {
    if links != [] {
      var rest := links[1..];
      LinkedChild(row, key, rest, pk, child);
      var first := if SqlEq(key, links[0].1) then [Entry(links[0].0, row)] else [];
      ChildrenOfSplit(first, LinksOf(row, key, rest), pk);
      assert first != [] ==> first[1..] == [];
      assert links == [links[0]] + rest;
      assert (exists l :: l in links && l.0 == Int(pk) && SqlEq(key, l.1)) <==>
             || (links[0].0 == Int(pk) && SqlEq(key, links[0].1))
             || exists l :: l in rest && l.0 == Int(pk) && SqlEq(key, l.1);
    }
  }

  // ----- the code

  datatype Call = Append | Prepare | Bind | Step | ReadKey | Finish

  class Driver {
    /** Which of the coming calls are refused. */
    const refuses: (Call, nat) -> bool
    var clock: nat
    /** How often reading a row's parent key has been refused. */
    ghost var keysRefused: nat

    constructor (refuses: (Call, nat) -> bool)
      ensures this.refuses == refuses && keysRefused == 0
    {
      this.refuses, clock, keysRefused := refuses, 0, 0;
    }

    ghost predicate Willing() {
      forall c, n :: !refuses(c, n)
    }

    /** Exactly the reads of a parent key are refused. */
    ghost predicate RefusesKeys() {
      forall c, n :: refuses(c, n) <==> c == ReadKey
    }

    method Try(call: Call) returns (ok: bool)
      modifies this
      ensures Willing() ==> ok
      ensures RefusesKeys() ==> ok == (call != ReadKey)
      ensures keysRefused == old(keysRefused) + if call == ReadKey && !ok then 1 else 0
    {
      ok := !refuses(call, clock);
      clock := clock + 1;
      if call == ReadKey && !ok {
        keysRefused := keysRefused + 1;
      }
    }
  }

  predicate DistinctKeys(pks: seq<int>) {
    forall i, j | 0 <= i < j < |pks| :: pks[i] != pks[j]
  }

  /** A parent that keeps all its children holds some but not all of them. */
  ghost predicate Short(slots: seq<seq<Row>>, pks: seq<int>, scan: Scan, done: nat)
    requires |slots| == |pks| && done <= |pks|
  {
    exists i :: 0 <= i < done && |slots[i]| < |ChildrenOf(scan, pks[i])|
  }

  /** Some of these parents has a row. */
  ghost predicate HasRows(scan: Scan, pks: seq<int>, from: nat, upto: nat)
    requires from <= upto <= |pks|
  {
    exists i :: from <= i < upto && ChildrenOf(scan, pks[i]) != []
  }

  /** The parents before `done` hold what a lookup returns, or, if rows were lost, its start; and
      where all children are kept, lost rows leave a parent short. */
  ghost predicate Finished(slots: seq<seq<Row>>, pks: seq<int>, arity: Arity, scan: Scan, done: nat, lost: bool)
    requires |slots| == |pks| && done <= |pks|
  {
    && (forall i | 0 <= i < done ::
          && slots[i] <= Kept(arity, ChildrenOf(scan, pks[i]))
          && (!lost ==> slots[i] == Kept(arity, ChildrenOf(scan, pks[i]))))
    && (lost && arity.Many? ==> Short(slots, pks, scan, done))
  }

  /** The parents of the chunk from `done` to `upto` hold the given rows of theirs, and the ones
      behind it nothing. */
  ghost predicate Dealt(slots: seq<seq<Row>>, pks: seq<int>, arity: Arity, done: nat, upto: nat, dealt: seq<Entry>) {
    && |slots| == |pks| && done <= upto <= |pks|
    && Hold(slots, pks, arity, done, upto, dealt)
    && (forall i | upto <= i < |pks| :: slots[i] == [])
  }

  /** Parent by parent from `done` to `upto`. */
  ghost predicate Hold(slots: seq<seq<Row>>, pks: seq<int>, arity: Arity, done: nat, upto: nat, dealt: seq<Entry>)
    requires |slots| == |pks| && done <= upto <= |pks|
    decreases upto - done
  {
    done < upto ==>
      && slots[done] == Kept(arity, ChildrenOf(dealt, pks[done]))
      && Hold(slots, pks, arity, done + 1, upto, dealt)
  }

  lemma {:induction false} HoldIff(slots: seq<seq<Row>>, pks: seq<int>, arity: Arity, done: nat, upto: nat,
                                   dealt: seq<Entry>)
    requires |slots| == |pks| && done <= upto <= |pks|
    ensures Hold(slots, pks, arity, done, upto, dealt) <==>
            forall i | done <= i < upto :: slots[i] == Kept(arity, ChildrenOf(dealt, pks[i]))
    decreases upto - done
  {
    if done < upto {
      HoldIff(slots, pks, arity, done + 1, upto, dealt);
    }
  }

  method RenderQuery(key: string, n: nat) returns (sb: seq<Tok>)
    ensures sb == QueryText(key, n)
  {
    sb := [Where] + [Name(key)] + [In, LParen];
    sb := RenderList(sb, n);
    sb := sb + [RParen];
  }

  method BindParents(db: Driver, chunk: seq<int>) returns (ok: bool, bs: Bindings)
    modifies db
    ensures ok ==> Binds(bs, Ints(chunk))
    ensures db.Willing() || db.RefusesKeys() ==> ok
    ensures db.keysRefused == old(db.keysRefused)
  {
    bs, ok := map[], true;
    ghost var vs := Ints(chunk);
    for i := 0 to |chunk|
      invariant ok && Binds(bs, vs[..i]) && db.keysRefused == old(db.keysRefused)
    {
      ok := db.Try(Bind);
      if !ok {
        return;
      }
      BindNext(bs, vs[..i], Int(chunk[i]));
      assert vs[..i] + [Int(chunk[i])] == vs[..i + 1];
      bs := bs[i + 1 := Int(chunk[i])];
    }
    assert vs[..|chunk|] == vs;
  }

  method FindParent(pks: seq<int>, id: int) returns (r: Option<nat>)
    ensures r.Some? ==> r.value < |pks| && pks[r.value] == id
    ensures r.None? ==> forall i | 0 <= i < |pks| :: pks[i] != id
  {
    for i := 0 to |pks|
      invariant forall j | 0 <= j < i :: pks[j] != id
    {
      if pks[i] == id {
        return Some(i);
      }
    }
    return None;
  }

  /** The parent's key as the row gives it; None ends the loop over the rows, without an error. */
  method ReadParent(db: Driver, rel: Relation, e: Entry) returns (id: Option<Value>)
    requires InColumnOrder(rel, [e])
    modifies db
    ensures id.Some? ==> id.value == e.key && db.keysRefused == old(db.keysRefused)
    ensures id.None? ==> db.keysRefused == old(db.keysRefused) + if Unlisted(rel) then 0 else 1
    ensures Unlisted(rel) ==> id.None?
    ensures db.Willing() && !Unlisted(rel) ==> id.Some?
    ensures db.RefusesKeys() ==> id.None?
  {
    if rel.Linked? {
      // the last column comes from the join table
      var ok := db.Try(ReadKey);
      return if ok then Some(e.key) else None;
    }
    var fkIdx := FindColumn(rel.columns, rel.foreignKey);
    if fkIdx.None? {
      return None;
    }
    assert e in [e];
    var ok := db.Try(ReadKey);
    return if ok then Some(e.child[fkIdx.value]) else None;
  }

  /** The search for the foreign key among the listed columns. */
  method FindColumn(columns: seq<TargetColumn>, name: string) returns (r: Option<nat>)
    ensures r.Some? ==> FirstNamed(columns, name, r.value)
    ensures r.None? ==> forall i | 0 <= i < |columns| :: columns[i].name != name
  {
    var k := 0;
    while k < |columns|
      invariant 0 <= k <= |columns| && forall i | 0 <= i < k :: columns[i].name != name
    {
      if columns[k].name == name {
        return Some(k);
      }
      k := k + 1;
    }
    return None;
  }

  /** Giving one row to its parent, which reads it only if it keeps it; the other parents are
      left alone. */
  method DealRow(id: Value, child: Row, pks: seq<int>, arity: Arity, hydrate: Hydrate, slots: array<seq<Row>>,
                 ghost done: nat, ghost upto: nat, ghost entries: seq<Entry>, ghost r: nat)
    returns (rc: Rc)
    requires slots.Length == |pks| && DistinctKeys(pks) && r < |entries| && entries[r] == Entry(id, child)
    requires Dealt(slots[..], pks, arity, done, upto, entries[..r]) && SqlIn(id, Ints(pks[done..upto]))
    modifies slots
    ensures slots[..done] == old(slots[..done])
    ensures rc == Ok ==> Dealt(slots[..], pks, arity, done, upto, entries[..r + 1])
    ensures rc != Ok ==> hydrate(child).Some? && rc == Unhydrated(hydrate(child).value)
    ensures rc == Ok && arity.Many? ==> hydrate(child).None?
  {
    ListedParent(id, pks, done, upto);
    var parent := FindParent(pks, id.i);
    var i := parent.value;
    DealOne(slots[..], pks, arity, done, upto, entries, r, i);
    if arity.Many? || slots[i] == [] {
      var failure := hydrate(child);
      if failure.Some? {
        return Unhydrated(failure.value);
      }
      ghost var before := slots[..];
      slots[i] := slots[i] + [child];
      assert slots[..] == before[i := before[i] + [child]];
    }
    return Ok;
  }

  /** A key of the IN list is the key of one parent, and of one of this chunk. */
  lemma ListedParent(key: Value, pks: seq<int>, done: nat, upto: nat)
    requires done <= upto <= |pks| && DistinctKeys(pks) && SqlIn(key, Ints(pks[done..upto]))
    ensures key.Int? && exists k :: done <= k < upto && pks[k] == key.i
    ensures forall i | 0 <= i < |pks| && pks[i] == key.i :: done <= i < upto
  {
    var list := Ints(pks[done..upto]);
    var m :| 0 <= m < |list| && SqlEq(key, list[m]);
    assert list[m] == Int(pks[done + m]);
    forall i | 0 <= i < |pks| && pks[i] == key.i ensures done <= i < upto {
      assert i == done + m;
    }
  }

  /** The first r rows are dealt out; where all children are kept, each of them was read. */
  ghost predicate HalfDealt(slots: seq<seq<Row>>, pks: seq<int>, arity: Arity, done: nat, upto: nat,
                            entries: seq<Entry>, r: nat, hydrate: Hydrate)
  {
    && r <= |entries| && Dealt(slots, pks, arity, done, upto, entries[..r])
    && (arity.Many? ==> AllRead(entries, r, hydrate))
  }

  /** Each of the first r rows can be read. */
  ghost predicate AllRead(entries: seq<Entry>, r: nat, hydrate: Hydrate)
    requires r <= |entries|
  {
    r > 0 ==> hydrate(entries[r - 1].child).None? && AllRead(entries, r - 1, hydrate)
  }

  ghost predicate FailsOn(entries: seq<Entry>, hydrate: Hydrate, code: nat) {
    exists r :: 0 <= r < |entries| && hydrate(entries[r].child) == Some(code)
  }

  /** Opening a chunk: nothing is dealt to its parents. */
  lemma OpenSlots(slots: seq<seq<Row>>, pks: seq<int>, arity: Arity, start: nat, n: nat)
    requires Dealt(slots, pks, arity, start, start, []) && start + n <= |pks|
    ensures Dealt(slots, pks, arity, start, start + n, [])
  {
    HoldIff(slots, pks, arity, start, start + n, []);
  }

  lemma NothingDealt(slots: seq<seq<Row>>, pks: seq<int>, arity: Arity, start: nat, n: nat, entries: seq<Entry>)
    requires start + n <= |pks| && Dealt(slots, pks, arity, start, start + n, entries[..0])
    ensures Empty(slots, start, start + n)
  {
    HoldIff(slots, pks, arity, start, start + n, entries[..0]);
  }

  lemma NoneDealt(slots: seq<seq<Row>>, pks: seq<int>, arity: Arity, done: nat, upto: nat, entries: seq<Entry>,
                  hydrate: Hydrate)
    requires Dealt(slots, pks, arity, done, upto, [])
    ensures HalfDealt(slots, pks, arity, done, upto, entries, 0, hydrate)
  {
    assert entries[..0] == [];
  }

  /** What a dealing loop over these rows may rely on. */
  ghost predicate Dealable(rel: Relation, entries: seq<Entry>, pks: seq<int>, done: nat, upto: nat) {
    && DistinctKeys(pks) && done <= upto <= |pks|
    && forall r | 0 <= r < |entries| :: RowDealable(rel, entries, pks, done, upto, r)
  }

  /** The row names a parent of the chunk, and in the column where it is looked for. */
  ghost predicate RowDealable(rel: Relation, entries: seq<Entry>, pks: seq<int>, done: nat, upto: nat, r: nat)
    requires r < |entries| && done <= upto <= |pks|
  {
    InColumnOrder(rel, [entries[r]]) && SqlIn(entries[r].key, Ints(pks[done..upto]))
  }

  /** What is known of a dealing loop in its r-th round, or at its end. */
  ghost predicate Dealing(db: Driver, refusedBefore: nat, was: seq<seq<Row>>, slots: seq<seq<Row>>, pks: seq<int>,
                          arity: Arity, done: nat, upto: nat, entries: seq<Entry>, r: nat, hydrate: Hydrate,
                          stopped: bool)
    reads db`keysRefused
  {
    && |was| == |slots| && done <= |slots| && slots[..done] == was[..done]
    && HalfDealt(slots, pks, arity, done, upto, entries, r, hydrate)
    && db.keysRefused == refusedBefore + if stopped then 1 else 0
  }

  /** Dealing out the rows of one chunk. A key that cannot be read ends the loop, and no error is
      reported: `dealt` says how many rows were dealt out by then. */
  method DealRows(db: Driver, rel: Relation, entries: seq<Entry>, pks: seq<int>, arity: Arity, hydrate: Hydrate,
                  slots: array<seq<Row>>, ghost done: nat, ghost upto: nat)
    returns (rc: Rc, ghost dealt: nat)
    requires slots.Length == |pks| && Dealable(rel, entries, pks, done, upto)
    requires Dealt(slots[..], pks, arity, done, upto, [])
    modifies db, slots
    ensures slots[..done] == old(slots[..done])
    // rows remain if and only if a key read was refused, or the foreign key is not listed
    ensures rc == Ok ==>
              Dealing(db, old(db.keysRefused), old(slots[..]), slots[..], pks, arity, done, upto, entries, dealt,
                      hydrate, dealt < |entries| && !Unlisted(rel))
    ensures Unlisted(rel) || db.RefusesKeys() ==> rc == Ok && dealt == 0
    ensures db.Willing() ==> rc != Refused && (rc == Ok && !Unlisted(rel) ==> dealt == |entries|)
    ensures rc == Ok || rc == Refused || (rc.Unhydrated? && FailsOn(entries, hydrate, rc.code))
  {
    ghost var unlisted, willing, refusing := Unlisted(rel), db.Willing(), db.RefusesKeys();
    ghost var was, refused := slots[..], db.keysRefused;
    dealt := 0;
    NoneDealt(slots[..], pks, arity, done, upto, entries, hydrate);
    for r := 0 to |entries|
      invariant dealt == r && (unlisted || refusing ==> r == 0)
      invariant Dealing(db, refused, was, slots[..], pks, arity, done, upto, entries, r, hydrate, false)
    {
      var more;
      rc, more := DealNext(db, rel, entries, pks, arity, hydrate, slots, done, upto, r, was, refused,
                           unlisted, willing, refusing);
      if rc != Ok || !more {
        return;
      }
      dealt := r + 1;
    }
    return Ok, dealt;
  }

  /** One round of the loop over the rows. */
  method DealNext(db: Driver, rel: Relation, entries: seq<Entry>, pks: seq<int>, arity: Arity, hydrate: Hydrate,
                  slots: array<seq<Row>>, ghost done: nat, ghost upto: nat, r: nat,
                  ghost was: seq<seq<Row>>, ghost refused: nat,
                  ghost unlisted: bool, ghost willing: bool, ghost refusing: bool)
    returns (rc: Rc, more: bool)
    requires slots.Length == |pks| && r < |entries| && Dealable(rel, entries, pks, done, upto)
    requires unlisted == Unlisted(rel) && willing == db.Willing() && refusing == db.RefusesKeys()
    requires Dealing(db, refused, was, slots[..], pks, arity, done, upto, entries, r, hydrate, false)
    modifies db, slots
    ensures done <= |was| == |slots[..]| && slots[..done] == was[..done]
    ensures rc == Ok ==>
              Dealing(db, refused, was, slots[..], pks, arity, done, upto, entries, if more then r + 1 else r, hydrate,
                      !more && !unlisted)
    ensures unlisted || refusing ==> rc == Ok && !more
    ensures willing ==> rc != Refused && (rc == Ok && !unlisted ==> more)
    ensures rc == Ok || rc == Refused || (rc.Unhydrated? && FailsOn(entries, hydrate, rc.code))
  {
    var e := entries[r];
    assert RowDealable(rel, entries, pks, done, upto, r);
    var id := ReadParent(db, rel, e);
    if id.None? {
      return Ok, false;
    }
    rc := DealRow(id.value, e.child, pks, arity, hydrate, slots, done, upto, entries, r);
    if rc != Ok {
      return rc, false;
    }
    var ok := db.Try(Step);
    return if ok then Ok else Refused, true;
  }

  /** Giving row r to the parent it names, unless that parent keeps one child and has it. */
  lemma DealOne(slots: seq<seq<Row>>, pks: seq<int>, arity: Arity, done: nat, upto: nat, entries: seq<Entry>, r: nat,
                i: nat)
    requires r < |entries| && Dealt(slots, pks, arity, done, upto, entries[..r]) && DistinctKeys(pks)
    requires done <= i < upto && entries[r].key == Int(pks[i])
    ensures var slots' := if arity.Many? || slots[i] == [] then slots[i := slots[i] + [entries[r].child]] else slots;
            Dealt(slots', pks, arity, done, upto, entries[..r + 1])
  {
    var slots' := if arity.Many? || slots[i] == [] then slots[i := slots[i] + [entries[r].child]] else slots;
    HoldIff(slots, pks, arity, done, upto, entries[..r]);
    HoldIff(slots', pks, arity, done, upto, entries[..r + 1]);
    forall k | done <= k < upto
      ensures slots'[k] == Kept(arity, ChildrenOf(entries[..r + 1], pks[k]))
    {
      ChildrenOfNext(entries, r, pks[k]);
      if k != i {
        assert pks[k] != pks[i] by {
          assert k < i ==> pks[k] != pks[i];
          assert i < k ==> pks[i] != pks[k];
        }
      }
    }
  }

  method HasKey(columns: seq<TargetColumn>) returns (found: bool)
    ensures found <==> exists c :: c in columns && c.isPk
  {
    for k := 0 to |columns|
      invariant forall c | c in columns[..k] :: !c.isPk
    {
      if columns[k].isPk {
        return true;
      }
      assert columns[..k + 1] == columns[..k] + [columns[k]];
    }
    assert columns[..|columns|] == columns;
    return false;
  }

  /** Rendering, preparing and binding the query of a chunk. */
  method OpenChunk(db: Driver, rel: Relation, scan: Scan, key: string, chunk: seq<int>)
    returns (rc: Rc, entries: seq<Entry>)
    requires chunk != []
    modifies db
    ensures rc == Ok || rc == Refused || (rc == Unknown && Keyless(rel))
    ensures rc == Ok ==> entries == Select(scan, Ints(chunk)) && !Keyless(rel)
    ensures db.Willing() || db.RefusesKeys() ==> rc == if Keyless(rel) then Unknown else Ok
    ensures db.keysRefused == old(db.keysRefused)
  {
    entries := [];
    var ok := db.Try(Append);
    if !ok {
      return Refused, entries;
    }
    if rel.Linked? {
      var found := HasKey(rel.columns);
      if !found {
        return Unknown, entries;
      }
    }
    var sql := RenderQuery(key, |chunk|);
    ok := db.Try(Append);
    if !ok {
      return Refused, entries;
    }
    ok := db.Try(Prepare);
    if !ok {
      return Refused, entries;
    }
    var bs;
    ok, bs := BindParents(db, chunk);
    if !ok {
      return Refused, entries;
    }
    ok := db.Try(Step);
    QueryTextSelects(scan, key, chunk);
    BindsList(bs, Ints(chunk));
    entries := Exec(scan, Fill(sql, ParamList(bs, Params(sql)))).value;
    rc := if ok then Ok else Refused;
  }

  /** One chunk: render, prepare, bind, step, and deal out. `lost` says that rows were left over. */
  method LoadChunk(db: Driver, rel: Relation, scan: Scan, key: string, pks: seq<int>, arity: Arity, hydrate: Hydrate,
                   slots: array<seq<Row>>, start: nat, n: nat)
    returns (rc: Rc, ghost lost: bool)
    requires slots.Length == |pks| && DistinctKeys(pks) && n > 0 && start + n <= |pks| && InColumnOrder(rel, scan)
    requires Dealt(slots[..], pks, arity, start, start, [])
    modifies db, slots
    ensures slots[..start] == old(slots[..start])
    ensures rc == Ok ==> Dealt(slots[..], pks, arity, start + n, start + n, [])
    ensures rc == Ok ==> ChunkFinished(slots[..], pks, arity, scan, start, n, lost)
    // rows are lost if and only if a key read was refused, or the key is not listed and there are rows
    ensures rc == Ok ==> db.keysRefused >= old(db.keysRefused)
    ensures rc == Ok && !Unlisted(rel) ==> (lost <==> db.keysRefused > old(db.keysRefused))
    ensures rc == Ok && Unlisted(rel) ==> (lost <==> HasRows(scan, pks, start, start + n))
    ensures rc == Ok && Unlisted(rel) ==> db.keysRefused == old(db.keysRefused)
    ensures rc == Ok && (Unlisted(rel) || db.RefusesKeys()) ==> Empty(slots[..], start, start + n)
    ensures rc == Unknown ==> Keyless(rel)
    ensures Keyless(rel) ==> rc != Ok
    ensures db.Willing() ==> rc != Refused && (rc == Ok && !Unlisted(rel) ==> !lost)
    ensures db.Willing() && (Unlisted(rel) || forall e | e in scan :: hydrate(e.child).None?) && !Keyless(rel) ==>
              rc == Ok
    ensures db.RefusesKeys() && !Keyless(rel) ==> rc == Ok
  {
    lost := false;
    var chunk := pks[start..start + n];
    var entries;
    rc, entries := OpenChunk(db, rel, scan, key, chunk);
    if rc != Ok {
      return;
    }
    SelectedDealable(rel, scan, pks, start, n, entries);
    ghost var dealt;
    OpenSlots(slots[..], pks, arity, start, n);
    rc, dealt := DealRows(db, rel, entries, pks, arity, hydrate, slots, start, start + n);
    if rc == Ok {
      lost := dealt < |entries|;
      var ok := db.Try(Finish);
      if !ok {
        return Refused, lost;
      }
      ChunkDone(slots[..], pks, arity, scan, start, n, entries, dealt);
      RowsOfChunk(pks, scan, start, n, entries);
      if dealt == 0 {
        NothingDealt(slots[..], pks, arity, start, n, entries);
      }
    }
  }

  lemma SelectedDealable(rel: Relation, scan: Scan, pks: seq<int>, start: nat, n: nat, entries: seq<Entry>)
    requires start + n <= |pks| && entries == Select(scan, Ints(pks[start..start + n])) && InColumnOrder(rel, scan)
    requires DistinctKeys(pks)
    ensures Dealable(rel, entries, pks, start, start + n)
    ensures forall e | e in entries :: e in scan
  {
    var upto := start + n;
    forall r | 0 <= r < |entries|
      ensures RowDealable(rel, entries, pks, start, upto, r)
    {
      SelectOnlyListed(scan, Ints(pks[start..start + n]), entries[r]);
      SelectFromScan(scan, Ints(pks[start..start + n]), entries[r]);
    }
    forall e | e in entries ensures e in scan {
      SelectFromScan(scan, Ints(pks[start..start + n]), e);
    }
  }

  /** The query returns rows exactly if one of the parents has some. */
  lemma RowsOfChunk(pks: seq<int>, scan: Scan, start: nat, n: nat, entries: seq<Entry>)
    requires start + n <= |pks| && entries == Select(scan, Ints(pks[start..start + n]))
    ensures entries != [] <==> HasRows(scan, pks, start, start + n)
  {
    if entries != [] {
      var m := NamedParent(pks, scan, start, n, entries, 0);
      ChildrenSoFar(pks, scan, start, n, m, entries, 0);
    } else if HasRows(scan, pks, start, start + n) {
      var i :| start <= i < start + n && ChildrenOf(scan, pks[i]) != [];
      ChildrenSoFar(pks, scan, start, n, i, entries, 0);
    }
  }

  /** The parents of the chunk hold what a lookup returns, or its start; where all children are
      kept, lost rows leave one of them short. */
  ghost predicate ChunkFinished(slots: seq<seq<Row>>, pks: seq<int>, arity: Arity, scan: Scan, start: nat, n: nat,
                                lost: bool)
    requires |slots| == |pks| && start + n <= |pks|
  {
    && (forall i | start <= i < start + n ::
          && slots[i] <= Kept(arity, ChildrenOf(scan, pks[i]))
          && (!lost ==> slots[i] == Kept(arity, ChildrenOf(scan, pks[i]))))
    && (lost && arity.Many? ==> exists i :: start <= i < start + n && |slots[i]| < |ChildrenOf(scan, pks[i])|)
  }

  lemma {:induction false} SelectFromScan(scan: Scan, list: seq<Value>, e: Entry)
    requires e in Select(scan, list)
    ensures e in scan
  {
    if e != scan[0] {
      SelectFromScan(scan[1..], list, e);
    }
  }

  lemma ChunkDone(slots: seq<seq<Row>>, pks: seq<int>, arity: Arity, scan: Scan, start: nat, n: nat,
                  entries: seq<Entry>, r: nat)
    requires start + n <= |pks| && entries == Select(scan, Ints(pks[start..start + n])) && r <= |entries|
    requires Dealt(slots, pks, arity, start, start + n, entries[..r])
    ensures ChunkFinished(slots, pks, arity, scan, start, n, r < |entries|)
  {
    HoldIff(slots, pks, arity, start, start + n, entries[..r]);
    forall i | start <= i < start + n
      ensures slots[i] <= Kept(arity, ChildrenOf(scan, pks[i]))
      ensures r == |entries| ==> slots[i] == Kept(arity, ChildrenOf(scan, pks[i]))
    {
      ChildrenSoFar(pks, scan, start, n, i, entries, r);
      KeptStart(arity, ChildrenOf(entries[..r], pks[i]), ChildrenOf(scan, pks[i]));
    }
    if r < |entries| && arity.Many? {
      var m := LostShort(slots, pks, scan, start, n, entries, r);
    }
  }

  lemma KeptStart(arity: Arity, a: seq<Row>, b: seq<Row>)
    requires a <= b
    ensures Kept(arity, a) <= Kept(arity, b)
  {
  }

  /** The parent of the next row is short of it. */
  lemma LostShort(slots: seq<seq<Row>>, pks: seq<int>, scan: Scan, start: nat, n: nat, entries: seq<Entry>, r: nat)
    returns (m: nat)
    requires start + n <= |pks| && entries == Select(scan, Ints(pks[start..start + n])) && r < |entries|
    requires Dealt(slots, pks, Many, start, start + n, entries[..r])
    ensures start <= m < start + n && |slots[m]| < |ChildrenOf(scan, pks[m])|
  {
    m := NamedParent(pks, scan, start, n, entries, r);
    HoldIff(slots, pks, Many, start, start + n, entries[..r]);
    ChildrenSoFar(pks, scan, start, n, m, entries, r);
  }

  /** The parent a row names. */
  lemma NamedParent(pks: seq<int>, scan: Scan, start: nat, n: nat, entries: seq<Entry>, r: nat) returns (m: nat)
    requires start + n <= |pks| && entries == Select(scan, Ints(pks[start..start + n])) && r < |entries|
    ensures start <= m < start + n && SqlEq(entries[r].key, Int(pks[m]))
  {
    var list := Ints(pks[start..start + n]);
    SelectOnlyListed(scan, list, entries[r]);
    var i :| 0 <= i < |list| && SqlEq(entries[r].key, list[i]);
    m := start + i;
  }

  /** The rows a parent has of the first r are the start of all its rows; the next row is not among
      them. */
  lemma ChildrenSoFar(pks: seq<int>, scan: Scan, start: nat, n: nat, i: nat, entries: seq<Entry>, r: nat)
    requires start <= i < start + n <= |pks| && entries == Select(scan, Ints(pks[start..start + n])) && r <= |entries|
    ensures ChildrenOf(entries[..r], pks[i]) <= ChildrenOf(scan, pks[i])
    ensures r == |entries| ==> ChildrenOf(entries[..r], pks[i]) == ChildrenOf(scan, pks[i])
    ensures r < |entries| && SqlEq(entries[r].key, Int(pks[i])) ==>
              |ChildrenOf(entries[..r], pks[i])| < |ChildrenOf(scan, pks[i])|
  {
    SelectKeepsChildren(scan, pks[start..start + n], i - start);
    assert pks[start..start + n][i - start] == pks[i];
    assert entries == entries[..r] + entries[r..];
    ChildrenOfSplit(entries[..r], entries[r..], pks[i]);
    if r == |entries| {
      assert entries[r..] == [] && entries[..r] == entries;
    }
  }

  /** Finishing one more chunk; the parents before it are as they were. */
  lemma OneChunkMore(before: seq<seq<Row>>, slots: seq<seq<Row>>, pks: seq<int>, arity: Arity, scan: Scan,
                     start: nat, n: nat, lost: bool, lostNow: bool)
    requires |before| == |slots| == |pks| && start + n <= |pks| && slots[..start] == before[..start]
    requires Finished(before, pks, arity, scan, start, lost)
    requires ChunkFinished(slots, pks, arity, scan, start, n, lostNow)
    ensures Finished(slots, pks, arity, scan, start + n, lost || lostNow)
  {
    assert forall i | 0 <= i < start :: slots[i] == slots[..start][i] == before[i];
    if lost && arity.Many? {
      var i :| 0 <= i < start && |before[i]| < |ChildrenOf(scan, pks[i])|;
      assert |slots[i]| < |ChildrenOf(scan, pks[i])|;
    }
  }

  /** Whether rows are lost so far: a key read was refused, or the key is not listed and some
      parent so far has a row. */
  ghost predicate LossKnown(rel: Relation, scan: Scan, pks: seq<int>, done: nat, refusedBefore: nat, refused: nat,
                            lost: bool)
    requires done <= |pks|
  {
    && refusedBefore <= refused
    && (lost <==> if Unlisted(rel) then HasRows(scan, pks, 0, done) else refused > refusedBefore)
    && (Unlisted(rel) ==> refused == refusedBefore)
  }

  lemma LossKnownNext(rel: Relation, scan: Scan, pks: seq<int>, start: nat, n: nat, refusedBefore: nat, refused: nat,
                      refusedNow: nat, lost: bool, lostNow: bool)
    requires start + n <= |pks| && LossKnown(rel, scan, pks, start, refusedBefore, refused, lost)
    requires refused <= refusedNow && (Unlisted(rel) ==> refused == refusedNow)
    requires lostNow <==> if Unlisted(rel) then HasRows(scan, pks, start, start + n) else refusedNow > refused
    ensures LossKnown(rel, scan, pks, start + n, refusedBefore, refusedNow, lost || lostNow)
  {
    if Unlisted(rel) {
      if lost {
        var i :| 0 <= i < start && ChildrenOf(scan, pks[i]) != [];
        assert HasRows(scan, pks, 0, start + n);
      }
      if lostNow {
        var i :| start <= i < start + n && ChildrenOf(scan, pks[i]) != [];
        assert HasRows(scan, pks, 0, start + n);
      }
      if HasRows(scan, pks, 0, start + n) {
        var i :| 0 <= i < start + n && ChildrenOf(scan, pks[i]) != [];
        assert i < start ==> HasRows(scan, pks, 0, start);
      }
    }
  }

  ghost predicate Empty(slots: seq<seq<Row>>, from: nat, upto: nat)
    requires from <= upto <= |slots|
  {
    forall i | from <= i < upto :: slots[i] == []
  }

  lemma EmptyNext(before: seq<seq<Row>>, slots: seq<seq<Row>>, start: nat, n: nat)
    requires start + n <= |slots| == |before| && slots[..start] == before[..start]
    ensures Empty(before, 0, start) && Empty(slots, start, start + n) ==> Empty(slots, 0, start + n)
  {
    assert forall i | 0 <= i < start :: slots[i] == slots[..start][i] == before[..start][i];
  }

  /** The relation fields before anything is loaded. */
  method ClearFields(slots: array<seq<Row>>)
    modifies slots
    ensures forall k | 0 <= k < slots.Length :: slots[k] == []
  {
    for i := 0 to slots.Length
      invariant forall k | 0 <= k < i :: slots[k] == []
    {
      slots[i] := [];
    }
  }

  /** c_orm_find_all_with_relation, once the parents are fetched: slots[i] is the relation field
      of parent i. */
  method LoadAll(db: Driver, rel: Relation, scan: Scan, key: string, pks: seq<int>, arity: Arity, hydrate: Hydrate,
                 slots: array<seq<Row>>)
    returns (rc: Rc, ghost lost: bool)
    requires slots.Length == |pks| && DistinctKeys(pks) && InColumnOrder(rel, scan)
    modifies db, slots
    // every parent ends up with exactly what a lookup for it alone returns, in result order, unless
    // rows were lost, which happens without an error if and only if a key read was refused, or the
    // metadata does not list the foreign key and there are rows
    ensures rc == Ok && !Unlisted(rel) ==> (lost <==> db.keysRefused > old(db.keysRefused))
    ensures rc == Ok && Unlisted(rel) ==> (lost <==> HasRows(scan, pks, 0, |pks|))
    ensures rc == Ok && !lost ==> forall i | 0 <= i < |pks| :: slots[i] == Kept(arity, ChildrenOf(scan, pks[i]))
    ensures rc == Ok ==> forall i | 0 <= i < |pks| :: slots[i] <= Kept(arity, ChildrenOf(scan, pks[i]))
    ensures rc == Ok && arity.Many? ==> (lost <==> Short(slots[..], pks, scan, |pks|))
    // a foreign key that is not listed, or a driver that refuses these reads: every field empty
    ensures rc == Ok && (Unlisted(rel) || db.RefusesKeys()) ==> forall i | 0 <= i < |pks| :: slots[i] == []
    ensures db.RefusesKeys() && !Keyless(rel) ==> rc == Ok
    ensures db.Willing() ==> rc != Refused && (rc == Ok && !Unlisted(rel) ==> !lost)
    ensures db.Willing() && !Keyless(rel) && (Unlisted(rel) || forall e | e in scan :: hydrate(e.child).None?) ==>
              rc == Ok
    ensures rc == Unknown ==> Keyless(rel)
    ensures Keyless(rel) && pks != [] ==> rc != Ok
  {
    ClearFields(slots);
    lost := false;
    var startIdx := 0;
    while startIdx < |pks|
      invariant 0 <= startIdx <= |pks|
      invariant Dealt(slots[..], pks, arity, startIdx, startIdx, [])
      invariant Finished(slots[..], pks, arity, scan, startIdx, lost)
      invariant LossKnown(rel, scan, pks, startIdx, old(db.keysRefused), db.keysRefused, lost)
      invariant db.Willing() && !Unlisted(rel) ==> !lost
      invariant Unlisted(rel) || db.RefusesKeys() ==> Empty(slots[..], 0, startIdx)
      invariant Keyless(rel) ==> startIdx == 0
    {
      var actualChunk := |pks| - startIdx;
      if actualChunk > CHUNK {
        actualChunk := CHUNK;
      }
      ghost var lostNow;
      ghost var before, refused := slots[..], db.keysRefused;
      rc, lostNow := LoadChunk(db, rel, scan, key, pks, arity, hydrate, slots, startIdx, actualChunk);
      if rc != Ok {
        return;
      }
      OneChunkMore(before, slots[..], pks, arity, scan, startIdx, actualChunk, lost, lostNow);
      LossKnownNext(rel, scan, pks, startIdx, actualChunk, old(db.keysRefused), refused, db.keysRefused, lost, lostNow);
      EmptyNext(before, slots[..], startIdx, actualChunk);
      lost := lost || lostNow;
      startIdx := startIdx + actualChunk;
    }
    return Ok, lost;
  }

  /** A driver that refuses every read of a parent key, and nothing else. */
  method LosesEverything(rel: Relation, scan: Scan, key: string, pks: seq<int>, arity: Arity, hydrate: Hydrate,
                         slots: array<seq<Row>>)
    returns (rc: Rc)
    requires slots.Length == |pks| && DistinctKeys(pks) && InColumnOrder(rel, scan) && !Keyless(rel)
    modifies slots
    ensures rc == Ok && forall i | 0 <= i < |pks| :: slots[i] == []
  {
    var db := new Driver((call: Call, n: nat) => call == ReadKey);
    ghost var lost;
    rc, lost := LoadAll(db, rel, scan, key, pks, arity, hydrate, slots);
  }

  /** A foreign key the metadata does not list: nothing is refused, the call succeeds and every field
      is empty, whatever rows there are. */
  method LosesUnlisted(columns: seq<TargetColumn>, scan: Scan, key: string, pks: seq<int>, arity: Arity,
                       hydrate: Hydrate, slots: array<seq<Row>>)
    returns (rc: Rc)
    requires slots.Length == |pks| && DistinctKeys(pks) && forall i | 0 <= i < |columns| :: columns[i].name != key
    modifies slots
    ensures rc == Ok && forall i | 0 <= i < |pks| :: slots[i] == []
  {
    var db := new Driver((call: Call, n: nat) => false);
    var rel := Direct(columns, key);
    ghost var lost;
    rc, lost := LoadAll(db, rel, scan, key, pks, arity, hydrate, slots);
  }
}
