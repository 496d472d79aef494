/** The identity map of src/c_orm_api.c: per table a hash table of chained entries, so that a row
    read twice gives the same object. Entries never change once linked; chains grow at the head. */
module IdentityMap {
  import opened CTypes
  import opened Optional

  datatype Rc = Ok | NotFound | TypeMismatch | Unsupported | OutOfMemory

  /** Whether the allocator grants a new bucket and a new entry. */
  datatype Memory = Memory(bucketOk: bool, entryOk: bool)

  type Obj = nat

  type Int32 = x: int | -0x8000_0000 <= x < 0x8000_0000

  const CHAINS: nat := 64

  datatype Key = IntKey(i: Int32) | StrKey(s: CString)

  datatype ColumnKind = Int32Column | StringColumn | OtherColumn

  datatype ColumnMeta = ColumnMeta(isPk: bool, kind: ColumnKind)

  datatype Table = Table(id: nat, columns: seq<ColumnMeta>)

  // ----- the map the code stands for

  type Content = map<(Table, Key), Obj>

  datatype Answer = Answer(rc: Rc, out: Option<Obj>, content: Content)

  /** The object already stored under the key; else the offered one, which is stored. */
  function GetOrSet(c: Content, t: Table, k: Key, obj: Option<Obj>): Answer {
    if (t, k) in c then Answer(Ok, Some(c[(t, k)]), c)
    else if obj.None? then Answer(NotFound, None, c)
    else Answer(Ok, obj, c[(t, k) := obj.value])
  }

  // ----- hashing

  /** A size_t made from an int32_t: negative values wrap around. */
  function ToSizeT(i: int): nat {
    i % SIZE_T
  }

  /** djb2 with size_t wrap-around. */
  function Djb2(s: CString): nat {
    if s == [] then 0
    else
      var h := Djb2(s[..|s| - 1]);
      ((h * 32) % SIZE_T + h + s[|s| - 1]) % SIZE_T
  }

  /** The string as a number in base 33. */
  function Base33(s: CString): nat {
    if s == [] then 0 else Base33(s[..|s| - 1]) * 33 + s[|s| - 1]
  }

  lemma ShiftAndAdd(h: nat, n: nat, c: nat)
    requires h == n % SIZE_T
    ensures ((h * 32) % SIZE_T + h + c) % SIZE_T == (n * 33 + c) % SIZE_T
  {
    var q, r := n / SIZE_T, (h * 32) / SIZE_T;
    assert n == q * SIZE_T + h && h * 32 == r * SIZE_T + (h * 32) % SIZE_T;
    var rest := (h * 32) % SIZE_T + h + c;
    assert n * 33 + c == (33 * q + r) * SIZE_T + rest;
    Wraps(33 * q + r, rest);
  }

  lemma Wraps(k: nat, rest: nat)
    ensures (k * SIZE_T + rest) % SIZE_T == rest % SIZE_T
    decreases k
  {
    if k > 0 {
      Wraps(k - 1, rest);
      assert k * SIZE_T + rest == (k - 1) * SIZE_T + rest + SIZE_T;
    }
  }

  /** Wrapping around at every step is wrapping around once at the end. */
  lemma {:induction false} HashIsBase33(s: CString)
    ensures Djb2(s) == Base33(s) % SIZE_T
  {
    if s != [] {
      HashIsBase33(s[..|s| - 1]);
      ShiftAndAdd(Djb2(s[..|s| - 1]), Base33(s[..|s| - 1]), s[|s| - 1]);
    }
  }

  /** The chain a key belongs to. */
  function Slot(k: Key): (n: nat)
    ensures n < CHAINS
  {
    match k
    case IntKey(i) => ToSizeT(i) % CHAINS
    case StrKey(s) => Djb2(s) % CHAINS
  }

  lemma WrapsInto64(n: int)
    ensures (n % SIZE_T) % 64 == n % 64
  {
    var q := n / SIZE_T;
    var part := SIZE_T / 64;
    assert n == q * SIZE_T + n % SIZE_T && SIZE_T == part * 64;
    assert q * SIZE_T == (q * part) * 64;
    Multiples(q * part, n % SIZE_T);
  }

  lemma {:induction false} Multiples(k: int, rest: int)
    ensures (k * 64 + rest) % 64 == rest % 64
    decreases if k < 0 then -k else k
  {
    if k > 0 {
      Multiples(k - 1, rest);
      assert k * 64 + rest == ((k - 1) * 64 + rest) + 64;
    } else if k < 0 {
      Multiples(k + 1, rest);
      assert k * 64 + rest == ((k + 1) * 64 + rest) - 64;
    }
  }

  /** As 64 divides the range of a size_t, the wrap-around does not show: an integer is in the chain of its
      residue, negative ones too, and a string in that of its base 33 value. */
  lemma SlotIs(k: Key)
    ensures Slot(k) == if k.IntKey? then k.i % 64 else Base33(k.s) % 64
  {
    match k
    case IntKey(i) => WrapsInto64(i);
    case StrKey(s) =>
      HashIsBase33(s);
      WrapsInto64(Base33(s));
  }

  // ----- what a run of calls leaves

  /** A string key of the table that an integer lookup of 0 would meet. */
  ghost predicate Clash(content: Content, t: Table, pk: Int32) {
    pk == 0 && exists s :: ClashesWith(content, t, s)
  }

  /** The table has this string key, in the chain of integer key 0. */
  predicate ClashesWith(content: Content, t: Table, s: CString) {
    (t, StrKey(s)) in content && Slot(StrKey(s)) == Slot(IntKey(0))
  }

  /** A call that offers an object, or not, and whether memory is granted where it is needed. */
  datatype Call = Call(table: Table, key: Key, obj: Option<Obj>, granted: bool)

  /** A key that is there stays; key 0 is not stored beside a string key of its chain. */
  ghost function AfterCall(c: Content, call: Call): Content {
    if call.key.IntKey? && Clash(c, call.table, call.key.i) then c
    else if call.granted then GetOrSet(c, call.table, call.key, call.obj).content
    else c
  }

  ghost function RunCalls(calls: seq<Call>): Content {
    if calls == [] then map[] else AfterCall(RunCalls(calls[..|calls| - 1]), calls[|calls| - 1])
  }

  predicate Offers(call: Call, t: Table, k: Key) {
    call.table == t && call.key == k && call.obj.Some? && call.granted
  }

  predicate OfferedStr(calls: seq<Call>, t: Table, s: CString) {
    exists j | 0 <= j < |calls| :: Offers(calls[j], t, StrKey(s))
  }

  /** A string key of chain 0 has been offered. */
  ghost predicate Blocked(calls: seq<Call>, t: Table) {
    exists s :: OfferedStr(calls, t, s) && Slot(StrKey(s)) == Slot(IntKey(0))
  }

  /** The object of the first call that offered one for this key; for key 0 only a call before any
      string key of its chain. */
  ghost function FirstOffered(calls: seq<Call>, t: Table, k: Key): Option<Obj> {
    if calls == [] then None
    else
      var front, last := calls[..|calls| - 1], calls[|calls| - 1];
      var first := FirstOffered(front, t, k);
      if first.Some? then first
      else if Offers(last, t, k) && (k == IntKey(0) ==> !Blocked(front, t)) then last.obj
      else None
  }

  lemma {:induction false} StringsStored(calls: seq<Call>, t: Table, s: CString)
    ensures (t, StrKey(s)) in RunCalls(calls) <==> OfferedStr(calls, t, s)
  {
    if calls != [] {
      var last := |calls| - 1;
      var front := calls[..last];
      StringsStored(front, t, s);
      assert forall j | 0 <= j < last :: front[j] == calls[j];
      assert OfferedStr(calls, t, s) <==> OfferedStr(front, t, s) || Offers(calls[last], t, StrKey(s));
    }
  }

  lemma BlockedIff(calls: seq<Call>, t: Table)
    ensures Clash(RunCalls(calls), t, 0) <==> Blocked(calls, t)
  {
    if Clash(RunCalls(calls), t, 0) {
      var s :| ClashesWith(RunCalls(calls), t, s);
      StringsStored(calls, t, s);
    }
    if Blocked(calls, t) {
      var s :| OfferedStr(calls, t, s) && Slot(StrKey(s)) == Slot(IntKey(0));
      StringsStored(calls, t, s);
      assert ClashesWith(RunCalls(calls), t, s);
    }
  }

  /** Over any run of calls a key holds the first object offered for it, if any, and key 0 holds none
      that was offered after a string key of its chain. */
  lemma {:induction false} FirstObjectIsKept(calls: seq<Call>, t: Table, k: Key)
    ensures var c := RunCalls(calls);
            (if (t, k) in c then Some(c[(t, k)]) else None) == FirstOffered(calls, t, k)
  {
    if calls != [] {
      var last := |calls| - 1;
      FirstObjectIsKept(calls[..last], t, k);
      BlockedIff(calls[..last], t);
    }
  }

  /** The j-th call is the first that offers an object for the key; for key 0, before any string key of its
      chain has been offered. */
  ghost predicate OffersFirst(calls: seq<Call>, t: Table, k: Key, j: nat) {
    && j < |calls| && Offers(calls[j], t, k) && (k == IntKey(0) ==> !Blocked(calls[..j], t))
    && forall i | 0 <= i < j :: !Offers(calls[i], t, k)
  }

  lemma BlockedStays(calls: seq<Call>, t: Table, i: nat, j: nat)
    requires i <= j <= |calls| && Blocked(calls[..i], t)
    ensures Blocked(calls[..j], t)
  {
    var s :| OfferedStr(calls[..i], t, s) && Slot(StrKey(s)) == Slot(IntKey(0));
    var n :| 0 <= n < i && Offers(calls[..i][n], t, StrKey(s));
    assert Offers(calls[..j][n], t, StrKey(s));
    assert OfferedStr(calls[..j], t, s);
  }

  ghost predicate FirstOffer(calls: seq<Call>, t: Table, k: Key, j: nat, obj: Obj) {
    OffersFirst(calls, t, k, j) && calls[j].obj == Some(obj)
  }

  lemma FrontOffers(calls: seq<Call>, t: Table, k: Key, j: nat)
    requires j + 1 < |calls|
    ensures OffersFirst(calls[..|calls| - 1], t, k, j) <==> OffersFirst(calls, t, k, j)
  {
    assert calls[..|calls| - 1][..j] == calls[..j];
  }

  /** The search finds the object of that call. */
  lemma {:induction false} FirstOfferedIff(calls: seq<Call>, t: Table, k: Key, obj: Obj)
    ensures FirstOffered(calls, t, k) == Some(obj) <==> exists j :: FirstOffer(calls, t, k, j, obj)
  {
    if calls != [] {
      var last: nat := |calls| - 1;
      var front := calls[..last];
      FirstOfferedIff(front, t, k, obj);
      if j: nat :| j < last && FirstOffer(front, t, k, j, obj) {
        FrontOffers(calls, t, k, j);
        assert FirstOffer(calls, t, k, j, obj);
      } else if FirstOffered(calls, t, k) == Some(obj) {
        SomeOffered(calls, t, k);
        assert calls[..last] == front;
        assert FirstOffer(calls, t, k, last, obj);
      } else if j: nat :| FirstOffer(calls, t, k, j, obj) {
        if j < last {
          FrontOffers(calls, t, k, j);
          assert FirstOffer(front, t, k, j, obj);
        } else {
          NoneOffered(front, t, k);
        }
        assert false;
      }
    }
  }

  lemma {:induction false} NoneOffered(calls: seq<Call>, t: Table, k: Key)
    requires forall i | 0 <= i < |calls| :: !Offers(calls[i], t, k)
    ensures FirstOffered(calls, t, k).None?
  {
    if calls != [] {
      NoneOffered(calls[..|calls| - 1], t, k);
    }
  }

  /** An earlier call that offers one is either the first or comes too late, as the last would. */
  lemma {:induction false} SomeOffered(calls: seq<Call>, t: Table, k: Key)
    requires calls != [] && FirstOffered(calls[..|calls| - 1], t, k).None?
    requires k == IntKey(0) ==> !Blocked(calls[..|calls| - 1], t)
    ensures forall i | 0 <= i < |calls| - 1 :: !Offers(calls[i], t, k)
    decreases |calls|
  {
    var front := calls[..|calls| - 1];
    if front != [] {
      var m := |front| - 1;
      assert front[..m] == calls[..m];
      if k == IntKey(0) && Blocked(front[..m], t) {
        BlockedStays(calls, t, m, m + 1);
      }
      SomeOffered(front, t, k);
    }
  }

  /** Once there is an object for a key, every later search finds it. */
  lemma {:induction false} FirstOfferedStays(calls: seq<Call>, more: seq<Call>, t: Table, k: Key)
    requires FirstOffered(calls, t, k).Some?
    ensures FirstOffered(calls + more, t, k) == FirstOffered(calls, t, k)
    decreases |more|
  {
    if more == [] {
      assert calls + more == calls;
    } else {
      var last := |more| - 1;
      FirstOfferedStays(calls, more[..last], t, k);
      assert (calls + more)[..|calls + more| - 1] == calls + more[..last];
    }
  }

  // ----- chains

  datatype Chain = Nil | Entry(obj: Obj, pkInt: Int32, pkStr: Option<CString>, next: Chain)

  /** The key an entry was stored under. */
  function KeyOf(e: Chain): Key
    requires e.Entry?
  {
    if e.pkStr.Some? then StrKey(e.pkStr.value) else IntKey(e.pkInt)
  }

  function Find(c: Chain, k: Key): Option<Obj> {
    if c.Nil? then None else if KeyOf(c) == k then Some(c.obj) else Find(c.next, k)
  }

  /** What the integer lookup compares: pk_int alone, which is 0 in every string entry. */
  function FindInt(c: Chain, pk: Int32): Option<Obj> {
    if c.Nil? then None else if c.pkInt == pk then Some(c.obj) else FindInt(c.next, pk)
  }

  function FindStr(c: Chain, pk: CString): Option<Obj> {
    if c.Nil? then None else if c.pkStr == Some(pk) then Some(c.obj) else FindStr(c.next, pk)
  }

  predicate NoStrings(c: Chain) {
    c.Entry? ==> c.pkStr.None? && NoStrings(c.next)
  }

  /** Every entry is in the chain its hash selects, once; string entries have pk_int 0, and one is
      never behind the entry of integer key 0, which is not stored once a string key is there. */
  ghost predicate Sound(c: Chain, slot: nat) {
    c.Entry? ==>
      && Slot(KeyOf(c)) == slot
      && (c.pkStr.Some? ==> c.pkInt == 0)
      && (KeyOf(c) == IntKey(0) ==> NoStrings(c.next))
      && Find(c.next, KeyOf(c)).None?
      && Sound(c.next, slot)
  }

  lemma {:induction false} StrLookupExact(c: Chain, pk: CString)
    ensures FindStr(c, pk) == Find(c, StrKey(pk))
  {
    if c.Entry? { StrLookupExact(c.next, pk); }
  }

  lemma {:induction false} NoStringsIff(c: Chain)
    ensures NoStrings(c) <==> forall s :: Find(c, StrKey(s)).None?
  {
    if c.Entry? {
      NoStringsIff(c.next);
      if c.pkStr.Some? {
        assert Find(c, StrKey(c.pkStr.value)).Some?;
      } else {
        assert forall s :: Find(c, StrKey(s)) == Find(c.next, StrKey(s));
      }
    }
  }

  /** The entry the integer search stops at. */
  function StopsAt(c: Chain, pk: Int32): Chain {
    if c.Nil? || c.pkInt == pk then c else StopsAt(c.next, pk)
  }

  /** The integer search stops at the entry of its own key, or runs off the chain because there is
      none, if and only if the key is not 0 or the chain holds no string key. */
  lemma {:induction false} IntSearchExactIff(c: Chain, slot: nat, pk: Int32)
    requires Sound(c, slot)
    ensures (StopsAt(c, pk).Entry? ==> KeyOf(StopsAt(c, pk)) == IntKey(pk)) <==> pk != 0 || NoStrings(c)
    ensures FindInt(c, pk) == if StopsAt(c, pk).Entry? then Some(StopsAt(c, pk).obj) else None
    ensures pk != 0 || NoStrings(c) ==> FindInt(c, pk) == Find(c, IntKey(pk))
  {
    if c.Entry? { IntSearchExactIff(c.next, slot, pk); }
  }

  /** Otherwise it stops at a string key's entry, whether or not key 0 is stored too. */
  lemma {:induction false} StringAnswersForZero(c: Chain, slot: nat)
    requires Sound(c, slot) && !NoStrings(c)
    ensures exists s :: Find(c, StrKey(s)).Some? && FindInt(c, 0) == Find(c, StrKey(s))
  {
    if c.pkStr.Some? {
      assert Find(c, StrKey(c.pkStr.value)) == FindInt(c, 0);
    } else {
      StringAnswersForZero(c.next, slot);
      var s :| Find(c.next, StrKey(s)).Some? && FindInt(c.next, 0) == Find(c.next, StrKey(s));
      assert Find(c, StrKey(s)) == FindInt(c, 0);
    }
  }

  lemma {:induction false} InItsSlot(c: Chain, slot: nat, k: Key)
    requires Sound(c, slot) && Find(c, k).Some?
    ensures Slot(k) == slot
  {
    if KeyOf(c) != k { InItsSlot(c.next, slot, k); }
  }

  /** The string key whose one byte is '@' falls into chain 0, where a lookup of integer key 0 takes
      its entry. */
  lemma StringTakenForZero()
    ensures var c := Entry(7, 0, Some([64]), Nil);
            && Sound(c, Slot(IntKey(0)))
            && FindInt(c, 0) == Some(7) && Find(c, IntKey(0)) == None
  {
    assert Djb2([]) == 0;
    assert Djb2([64]) == 64 by {
      assert [64 as StringByte][..0] == [];
    }
  }

  // ----- the structure

  class Bucket {
    const table: Table
    const entries: array<Chain>

    constructor (table: Table)
      ensures this.table == table && fresh(entries) && entries.Length == CHAINS
      ensures forall i | 0 <= i < CHAINS :: entries[i] == Nil
    {
      this.table := table;
      entries := new Chain[CHAINS](_ => Nil);
    }

    /** The table's part of the content, chain by chain. */
    ghost predicate Holds(content: Content)
      reads this, entries
    {
      && entries.Length == CHAINS
      && (forall i | 0 <= i < CHAINS :: Sound(entries[i], i))
      && forall k: Key ::
           if (table, k) in content then Find(entries[Slot(k)], k) == Some(content[(table, k)])
           else Find(entries[Slot(k)], k) == None
    }

    /** Walks the key's chain. */
    method SearchStr(pk: CString) returns (out: Option<Obj>)
      requires entries.Length == CHAINS
      ensures out == Find(entries[Slot(StrKey(pk))], StrKey(pk))
    {
      var slot := HashOf(pk);
      var entry := entries[slot];
      StrLookupExact(entry, pk);
      while entry.Entry?
        invariant FindStr(entry, pk) == FindStr(entries[slot], pk)
        decreases entry
      {
        if entry.pkStr == Some(pk) {
          return Some(entry.obj);
        }
        entry := entry.next;
      }
      return None;
    }

    method SearchInt(pk: Int32, ghost content: Content) returns (out: Option<Obj>)
      requires Holds(content)
      ensures !Clash(content, table, pk) ==>
                out == if (table, IntKey(pk)) in content then Some(content[(table, IntKey(pk))]) else None
      ensures Clash(content, table, pk) ==>
                exists s :: ClashesWith(content, table, s) && out == Some(content[(table, StrKey(s))])
    {
      var slot := ToSizeT(pk) % CHAINS;
      var entry := entries[slot];
      while entry.Entry? && entry.pkInt != pk
        invariant FindInt(entry, pk) == FindInt(entries[slot], pk)
        decreases entry
      {
        entry := entry.next;
      }
      out := if entry.Entry? then Some(entry.obj) else None;
      SearchedInt(content, pk, out);
    }

    lemma SearchedInt(content: Content, pk: Int32, out: Option<Obj>)
      requires Holds(content) && out == FindInt(entries[Slot(IntKey(pk))], pk)
      ensures !Clash(content, table, pk) ==>
                out == if (table, IntKey(pk)) in content then Some(content[(table, IntKey(pk))]) else None
      ensures Clash(content, table, pk) ==>
                exists s :: ClashesWith(content, table, s) && out == Some(content[(table, StrKey(s))])
    {
      var slot := Slot(IntKey(pk));
      var c := entries[slot];
      IntSearchExactIff(c, slot, pk);
      if pk == 0 {
        ClashIff(content);
        if !NoStrings(c) {
          StringAnswersForZero(c, slot);
          var s :| Find(c, StrKey(s)).Some? && FindInt(c, 0) == Find(c, StrKey(s));
          InItsSlot(c, slot, StrKey(s));
          assert ClashesWith(content, table, s);
        }
      }
    }

    /** The keys stored say whether chain 0 holds a string entry. */
    lemma ClashIff(content: Content)
      requires Holds(content)
      ensures Clash(content, table, 0) <==> !NoStrings(entries[Slot(IntKey(0))])
    {
      var slot := Slot(IntKey(0));
      NoStringsIff(entries[slot]);
      if !NoStrings(entries[slot]) {
        var s :| Find(entries[slot], StrKey(s)).Some?;
        InItsSlot(entries[slot], slot, StrKey(s));
        assert ClashesWith(content, table, s);
      }
    }

    /** Links a new entry at the head of its chain. */
    method Prepend(obj: Obj, pkInt: Int32, pkStr: Option<CString>, ghost content: Content)
      requires Holds(content) && (if pkStr.Some? then pkInt == 0 else !Clash(content, table, pkInt))
      requires var k := if pkStr.Some? then StrKey(pkStr.value) else IntKey(pkInt); (table, k) !in content
      modifies entries
      ensures var k := if pkStr.Some? then StrKey(pkStr.value) else IntKey(pkInt);
              Holds(content[(table, k) := obj])
    {
      ghost var k := if pkStr.Some? then StrKey(pkStr.value) else IntKey(pkInt);
      var slot;
      if pkStr.Some? {
        slot := HashOf(pkStr.value);
      } else {
        slot := ToSizeT(pkInt) % CHAINS;
      }
      assert slot == Slot(k);
      ClashIff(content);
      entries[slot] := Entry(obj, pkInt, pkStr, entries[slot]);
    }
  }

  method HashOf(s: CString) returns (slot: nat)
    ensures slot == Slot(StrKey(s))
  {
    var h := 0;
    var p := 0;
    while p < |s|
      invariant 0 <= p <= |s| && h == Djb2(s[..p])
    {
      assert s[..p + 1][..p] == s[..p];
      h := ((h * 32) % SIZE_T + h + s[p]) % SIZE_T;
      p := p + 1;
    }
    assert s[..|s|] == s;
    slot := h % CHAINS;
  }

  class IdentityMap {
    /** The list of buckets, newest first. */
    var buckets: seq<Bucket>
    ghost var content: Content
    /** The calls so far. */
    ghost var calls: seq<Call>

    ghost predicate Valid()
      reads this, buckets, set b | b in buckets :: b.entries
    {
      Filed() && content == RunCalls(calls)
    }

    ghost predicate Filed()
      reads this, buckets, set b | b in buckets :: b.entries
    {
      && (forall i, j | 0 <= i < j < |buckets| ::
            buckets[i].table != buckets[j].table && buckets[i].entries != buckets[j].entries)
      && (forall b | b in buckets :: b.Holds(content))
      && forall t, k | (t, k) in content :: exists b :: b in buckets && b.table == t
    }

    constructor ()
      ensures Valid() && content == map[] && buckets == [] && calls == []
    {
      buckets, content, calls := [], map[], [];
    }

    /** One bucket per table, made on first use. */
    method GetOrCreateBucket(table: Table, memory: bool) returns (bucket: Bucket?)
      requires Valid()
      modifies this`buckets
      ensures Valid() && (bucket == null ==> buckets == old(buckets) && !memory)
      ensures bucket != null ==> bucket in buckets && bucket.table == table
      ensures (exists b :: b in old(buckets) && b.table == table) ==> bucket != null && buckets == old(buckets)
      ensures bucket != null && bucket !in old(buckets) ==>
                fresh(bucket) && fresh(bucket.entries) && buckets == [bucket] + old(buckets)
    {
      var i := 0;
      while i < |buckets|
        invariant 0 <= i <= |buckets| && forall j | 0 <= j < i :: buckets[j].table != table
      {
        if buckets[i].table == table {
          return buckets[i];
        }
        i := i + 1;
      }
      if !memory {
        return null;
      }
      bucket := new Bucket(table);
      buckets := [bucket] + buckets;
    }

    /** Adds the entry of a key the table does not have. */
    method Store(bucket: Bucket, obj: Obj, pkInt: Int32, pkStr: Option<CString>)
      requires Filed() && bucket in buckets
      requires if pkStr.Some? then pkInt == 0 else !Clash(content, bucket.table, pkInt)
      requires var k := if pkStr.Some? then StrKey(pkStr.value) else IntKey(pkInt); (bucket.table, k) !in content
      modifies this`content, bucket.entries
      ensures var k := if pkStr.Some? then StrKey(pkStr.value) else IntKey(pkInt);
              Filed() && content == old(content)[(bucket.table, k) := obj]
    {
      ghost var k := if pkStr.Some? then StrKey(pkStr.value) else IntKey(pkInt);
      ghost var was := content;
      bucket.Prepend(obj, pkInt, pkStr, content);
      content := content[(bucket.table, k) := obj];
      forall b | b in buckets
        ensures b.Holds(content)
      {
        if b != bucket {
          assert b.Holds(was);
        }
      }
    }

    /** Notes the call just answered. */
    ghost method Note(call: Call)
      requires Filed() && content == AfterCall(RunCalls(calls), call)
      modifies this`calls
      ensures Valid() && calls == old(calls) + [call]
    {
      assert (calls + [call])[..|calls|] == calls;
      calls := calls + [call];
    }

    /** The answer is the object of the first call that offered one for the key, this call included. */
    method GetOrSetStr(table: Table, pk: CString, obj: Option<Obj>, memory: Memory) returns (rc: Rc, out: Option<Obj>)
      requires Valid()
      modifies this, set b | b in buckets :: b.entries
      ensures Valid() && fresh(set b | b in buckets && b !in old(buckets) :: b.entries)
      ensures calls == old(calls) + [Call(table, StrKey(pk), obj, rc != OutOfMemory)]
      ensures rc != OutOfMemory ==> out == FirstOffered(calls, table, StrKey(pk))
      ensures rc != OutOfMemory ==> rc == if out.Some? then Ok else NotFound
      ensures content == AfterCall(old(content), Call(table, StrKey(pk), obj, rc != OutOfMemory))
      ensures rc == OutOfMemory ==> FirstOffered(old(calls), table, StrKey(pk)).None?
      ensures rc == OutOfMemory ==> content == old(content) && out == None && memory != Memory(true, true)
    {
      FirstObjectIsKept(calls, table, StrKey(pk));
      rc, out := FindOrSetStr(table, pk, obj, memory);
      Note(Call(table, StrKey(pk), obj, rc != OutOfMemory));
      FirstObjectIsKept(calls, table, StrKey(pk));
    }

    method FindOrSetStr(table: Table, pk: CString, obj: Option<Obj>, memory: Memory) returns (rc: Rc, out: Option<Obj>)
      requires Valid()
      modifies this`buckets, this`content, set b | b in buckets :: b.entries
      ensures Filed() && fresh(set b | b in buckets && b !in old(buckets) :: b.entries)
      ensures content == AfterCall(old(content), Call(table, StrKey(pk), obj, rc != OutOfMemory))
      ensures rc != OutOfMemory ==> Answer(rc, out, content) == GetOrSet(old(content), table, StrKey(pk), obj)
      ensures rc == OutOfMemory ==> (table, StrKey(pk)) !in old(content)
      ensures rc == OutOfMemory ==> content == old(content) && out == None && memory != Memory(true, true)
    {
      var bucket := GetOrCreateBucket(table, memory.bucketOk);
      if bucket == null {
        return OutOfMemory, None;
      }
      out := bucket.SearchStr(pk);
      assert bucket.Holds(content);
      if out.Some? {
        return Ok, out;
      }
      if obj.None? {
        return NotFound, None;
      }
      if !memory.entryOk {
        return OutOfMemory, None;
      }
      Store(bucket, obj.value, 0, Some(pk));
      return Ok, obj;
    }

    /** So it is for an integer key, unless key 0 meets a string key of its chain. */
    method GetOrSetInt(table: Table, pk: Int32, obj: Option<Obj>, memory: Memory) returns (rc: Rc, out: Option<Obj>)
      requires Valid()
      modifies this, set b | b in buckets :: b.entries
      ensures Valid() && fresh(set b | b in buckets && b !in old(buckets) :: b.entries)
      ensures calls == old(calls) + [Call(table, IntKey(pk), obj, rc != OutOfMemory)]
      ensures rc != OutOfMemory && !Clash(old(content), table, pk) ==>
                out == FirstOffered(calls, table, IntKey(pk)) && rc == if out.Some? then Ok else NotFound
      // with a clash the answer is always a string key's object, and nothing is stored
      ensures Clash(old(content), table, pk) <==> pk == 0 && Blocked(old(calls), table)
      ensures Clash(old(content), table, pk) ==>
                && rc == Ok && content == old(content)
                && exists s :: && Slot(StrKey(s)) == Slot(IntKey(0)) && out.Some?
                               && out == FirstOffered(calls, table, StrKey(s))
      ensures content == AfterCall(old(content), Call(table, IntKey(pk), obj, rc != OutOfMemory))
      ensures rc == OutOfMemory ==> FirstOffered(old(calls), table, IntKey(pk)).None?
      ensures rc == OutOfMemory ==> content == old(content) && out == None && memory != Memory(true, true)
    {
      BlockedIff(calls, table);
      FirstObjectIsKept(calls, table, IntKey(pk));
      rc, out := FindOrSetInt(table, pk, obj, memory);
      Note(Call(table, IntKey(pk), obj, rc != OutOfMemory));
      FirstObjectIsKept(calls, table, IntKey(pk));
      if Clash(old(content), table, pk) {
        ghost var s :| ClashesWith(content, table, s) && out == Some(content[(table, StrKey(s))]);
        FirstObjectIsKept(calls, table, StrKey(s));
      }
    }

    method FindOrSetInt(table: Table, pk: Int32, obj: Option<Obj>, memory: Memory) returns (rc: Rc, out: Option<Obj>)
      requires Valid()
      modifies this`buckets, this`content, set b | b in buckets :: b.entries
      ensures Filed() && fresh(set b | b in buckets && b !in old(buckets) :: b.entries)
      ensures content == AfterCall(old(content), Call(table, IntKey(pk), obj, rc != OutOfMemory))
      ensures !Clash(old(content), table, pk) && rc != OutOfMemory ==>
                Answer(rc, out, content) == GetOrSet(old(content), table, IntKey(pk), obj)
      ensures Clash(old(content), table, pk) ==>
                && rc == Ok && content == old(content)
                && exists s :: ClashesWith(content, table, s) && out == Some(content[(table, StrKey(s))])
      ensures rc == OutOfMemory ==> (table, IntKey(pk)) !in old(content)
      ensures rc == OutOfMemory ==> content == old(content) && out == None && memory != Memory(true, true)
    {
      var bucket := GetOrCreateBucket(table, memory.bucketOk);
      if bucket == null {
        return OutOfMemory, None;
      }
      out := bucket.SearchInt(pk, content);
      if out.Some? {
        return Ok, out;
      }
      if obj.None? {
        return NotFound, None;
      }
      if !memory.entryOk {
        return OutOfMemory, None;
      }
      Store(bucket, obj.value, pk, None);
      return Ok, obj;
    }
  }

  // ----- rows

  datatype Field = IntField(i: Int32) | StrField(s: Option<CString>) | OtherField

  /** A hydrated row: its fields lie where the table's columns say. */
  datatype Row = Row(obj: Obj, fields: seq<Field>)

  predicate Fits(t: Table, r: Row) {
    && |r.fields| == |t.columns|
    && forall i | 0 <= i < |r.fields| :: Stores(t.columns[i].kind, r.fields[i])
  }

  predicate Stores(kind: ColumnKind, f: Field) {
    match kind
    case Int32Column => f.IntField?
    case StringColumn => f.StrField?
    case OtherColumn => f.OtherField?
  }

  /** The first primary key column. */
  function PkIndex(columns: seq<ColumnMeta>): (i: nat)
    ensures i <= |columns| && (i < |columns| ==> columns[i].isPk)
    ensures forall k | 0 <= k < i :: !columns[k].isPk
  {
    if columns == [] || columns[0].isPk then 0 else 1 + PkIndex(columns[1..])
  }

  /** The key is of the kind the table's primary key column has. */
  predicate Suits(t: Table, k: Key) {
    var i := PkIndex(t.columns);
    i < |t.columns| && t.columns[i].kind == if k.IntKey? then Int32Column else StringColumn
  }

  /** Every stored key is of the kind its table's primary key column has. */
  ghost predicate Uniform(content: Content) {
    forall t, k | (t, k) in content :: Suits(t, k)
  }

  /** Which key a row is cached under, if any. */
  function CacheKey(t: Table, r: Row): Option<Key>
    requires Fits(t, r)
  {
    var i := PkIndex(t.columns);
    if i == |t.columns| then None
    else
      match r.fields[i]
      case IntField(pk) => Some(IntKey(pk))
      case StrField(Some(pk)) => Some(StrKey(pk))
      case _ => None
  }

  /** The key in the first primary key column, if it is an integer or a string that is there. */
  ghost predicate HasKey(t: Table, r: Row, k: Key)
    requires Fits(t, r)
  {
    exists i :: && 0 <= i < |t.columns| && t.columns[i].isPk && (forall j | 0 <= j < i :: !t.columns[j].isPk)
                && r.fields[i] == match k
                                  case IntKey(x) => IntField(x)
                                  case StrKey(x) => StrField(Some(x))
  }

  lemma CacheKeyIff(t: Table, r: Row, k: Key)
    requires Fits(t, r)
    ensures CacheKey(t, r) == Some(k) <==> HasKey(t, r, k)
  {
    var i := PkIndex(t.columns);
    if HasKey(t, r, k) {
      var j :| && 0 <= j < |t.columns| && t.columns[j].isPk && (forall n | 0 <= n < j :: !t.columns[n].isPk)
               && r.fields[j] == match k case IntKey(x) => IntField(x) case StrKey(x) => StrField(Some(x));
      assert j == i;
    }
    if CacheKey(t, r) == Some(k) {
      assert t.columns[i].isPk;
    }
  }

  /** Looking for a row's object under its key, or storing it. */
  method CacheUnder(objects: IdentityMap, meta: Table, key: Key, obj: Obj, memory: Memory)
    returns (rc: Rc, out: Option<Obj>)
    requires objects.Valid() && Uniform(objects.content) && Suits(meta, key)
    modifies objects, set b | b in objects.buckets :: b.entries
    ensures objects.Valid() && Uniform(objects.content)
    ensures fresh(set b | b in objects.buckets && b !in old(objects.buckets) :: b.entries)
    ensures objects.calls == old(objects.calls) + [Call(meta, key, Some(obj), rc != OutOfMemory)]
    ensures rc != OutOfMemory ==> rc == Ok && out.Some? && out == FirstOffered(objects.calls, meta, key)
    ensures rc == OutOfMemory ==> FirstOffered(old(objects.calls), meta, key).None?
    ensures rc == OutOfMemory ==>
              objects.content == old(objects.content) && out == None && memory != Memory(true, true)
  {
    ghost var was := objects.content;
    match key {
      case IntKey(pk) => rc, out := objects.GetOrSetInt(meta, pk, Some(obj), memory);
      case StrKey(pk) => rc, out := objects.GetOrSetStr(meta, pk, Some(obj), memory);
    }
    FirstObjectIsKept(objects.calls, meta, key);
    KeepsUniform(was, Call(meta, key, Some(obj), rc != OutOfMemory));
  }

  lemma KeepsUniform(content: Content, call: Call)
    requires Uniform(content) && Suits(call.table, call.key)
    ensures Uniform(AfterCall(content, call))
    ensures call.key.IntKey? ==> !Clash(content, call.table, call.key.i)
  {
  }

  /** c_orm_hydrate_cache_row: its keys never clash, so rows with equal keys become one object. */
  method HydrateCacheRow(objects: IdentityMap?, meta: Table, row: Row, memory: Memory)
    returns (rc: Rc, out: Option<Obj>)
    requires Fits(meta, row)
    requires objects != null ==> objects.Valid() && Uniform(objects.content)
    modifies if objects == null then {} else {objects} + set b | b in objects.buckets :: b.entries
    ensures objects == null ==> rc == Ok && out == Some(row.obj)
    ensures objects != null ==> objects.Valid() && Uniform(objects.content)
    ensures objects != null ==> fresh(set b | b in objects.buckets && b !in old(objects.buckets) :: b.entries)
    ensures objects != null && rc == OutOfMemory && CacheKey(meta, row).Some? ==>
              FirstOffered(old(objects.calls), meta, CacheKey(meta, row).value).None?
    ensures objects != null && rc == OutOfMemory ==>
              objects.content == old(objects.content) && out == None && memory != Memory(true, true)
    // the object of the first row that was offered with this key, this one included
    ensures objects != null && CacheKey(meta, row).Some? ==>
              objects.calls
              == old(objects.calls) + [Call(meta, CacheKey(meta, row).value, Some(row.obj), rc != OutOfMemory)]
    ensures objects != null && CacheKey(meta, row).Some? && rc != OutOfMemory ==>
              rc == Ok && out.Some? && out == FirstOffered(objects.calls, meta, CacheKey(meta, row).value)
    ensures objects != null && CacheKey(meta, row).None? ==>
              && objects.content == old(objects.content) && objects.calls == old(objects.calls)
              && var i := PkIndex(meta.columns);
                 if i == |meta.columns| then rc == Ok && out == Some(row.obj)
                 else rc == (if meta.columns[i].kind == StringColumn then TypeMismatch else Unsupported) && out == None
  {
    if objects == null {
      return Ok, Some(row.obj);
    }
    var i := 0;
    while i < |meta.columns|
      invariant 0 <= i <= |meta.columns| && PkIndex(meta.columns) == i + PkIndex(meta.columns[i..])
    {
      if meta.columns[i].isPk {
        match row.fields[i] {
          case IntField(pk) =>
            rc, out := CacheUnder(objects, meta, IntKey(pk), row.obj, memory);
            return;
          case StrField(s) =>
            if s.None? {
              return TypeMismatch, None;
            }
            rc, out := CacheUnder(objects, meta, StrKey(s.value), row.obj, memory);
            return;
          case OtherField =>
            return Unsupported, None;
        }
      }
      i := i + 1;
    }
    return Ok, Some(row.obj);
  }

  /** Two rows with the same key give the same object, that of the first row ever offered with it. */
  method CachedTwice(objects: IdentityMap, meta: Table, a: Row, b: Row, key: Key, memoryA: Memory, memoryB: Memory)
    returns (rcA: Rc, outA: Option<Obj>, rcB: Rc, outB: Option<Obj>)
    requires Fits(meta, a) && Fits(meta, b) && HasKey(meta, a, key) && HasKey(meta, b, key)
    requires objects.Valid() && Uniform(objects.content)
    modifies objects, set b | b in objects.buckets :: b.entries
    ensures rcA == Ok && rcB == Ok ==> outA == outB && outA.Some?
    ensures rcA == Ok ==> rcB == Ok
    ensures rcA == Ok && FirstOffered(old(objects.calls), meta, key).None? ==> outA == Some(a.obj)
  {
    CacheKeyIff(meta, a, key);
    CacheKeyIff(meta, b, key);
    ghost var before := objects.calls;
    rcA, outA := HydrateCacheRow(objects, meta, a, memoryA);
    ghost var between := objects.calls;
    rcB, outB := HydrateCacheRow(objects, meta, b, memoryB);
    if rcA == Ok {
      assert between[..|before|] == before;
      FirstOfferedStays(between, [Call(meta, key, Some(b.obj), rcB != OutOfMemory)], meta, key);
    }
  }
}
