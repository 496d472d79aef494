/** Reading a result set of src/c_orm_api.c: all at once into a growing array, or chunk by chunk
    into a caller's array, skipping expired rows either way. */
module RowCursor {
  import opened CTypes
  import opened Optional
  import opened Sequences

  datatype Rc = Ok | Failed(code: nat) | Memory

  /** What stepping to the next row and hydrating it come to. A failure ends the result set. */
  datatype Outcome<R> = Live(row: R) | Expired | StepFails(code: nat) | HydrateFails(code: nat)

  // ----- what reading means

  /** The rows delivered and how the reading ended. */
  datatype Reading<R> = Reading(rc: Rc, rows: seq<R>)

  predicate Fails<R>(o: Outcome<R>) {
    o.StepFails? || o.HydrateFails?
  }

  predicate Clean<R>(rest: seq<Outcome<R>>) {
    forall i | 0 <= i < |rest| :: !Fails(rest[i])
  }

  /** The rows of a result set that have not expired, in order. */
  function LiveRows<R>(rest: seq<Outcome<R>>): seq<R> {
    if rest == [] then []
    else (if rest[0].Live? then [rest[0].row] else []) + LiveRows(rest[1..])
  }

  /** The first failure, if there is one. */
  function FirstFailure<R>(rest: seq<Outcome<R>>): Rc {
    if rest == [] then Ok
    else if Fails(rest[0]) then Failed(rest[0].code)
    else FirstFailure(rest[1..])
  }

  /** How much of the result set a call for up to n rows uses up. */
  function Taken<R>(rest: seq<Outcome<R>>, n: nat): (k: nat)
    ensures k <= |rest|
    decreases |rest|
  {
    if n == 0 || rest == [] then 0
    else if Fails(rest[0]) then 1
    else 1 + Taken(rest[1..], if rest[0].Live? then n - 1 else n)
  }

  /** Calls of c_orm_iterator_next until one fetches nothing. */
  function Chunks<R>(rest: seq<Outcome<R>>, n: nat): seq<seq<R>>
    requires n > 0
    decreases |rest|
  {
    var k := Taken(rest, n);
    var rows := LiveRows(rest[..k]);
    if FirstFailure(rest[..k]) != Ok || rows == [] then []
    else
      TakenSome(rest, n);
      [rows] + Chunks(rest[k..], n)
  }

  /** How those calls end. */
  function ChunksEnd<R>(rest: seq<Outcome<R>>, n: nat): Rc
    requires n > 0
    decreases |rest|
  {
    var k := Taken(rest, n);
    if FirstFailure(rest[..k]) != Ok then FirstFailure(rest[..k])
    else if LiveRows(rest[..k]) == [] then Ok
    else
      TakenSome(rest, n);
      ChunksEnd(rest[k..], n)
  }

  function Flatten<R>(chunks: seq<seq<R>>): seq<R> {
    if chunks == [] then [] else chunks[0] + Flatten(chunks[1..])
  }

  lemma TakenSome<R>(rest: seq<Outcome<R>>, n: nat)
    requires n > 0 && LiveRows(rest[..Taken(rest, n)]) != []
    ensures Taken(rest, n) > 0
  {}

  lemma {:induction false} LiveAppend<R>(a: seq<Outcome<R>>, b: seq<Outcome<R>>)
    ensures LiveRows(a + b) == LiveRows(a) + LiveRows(b)
    ensures FirstFailure(a + b) == if FirstFailure(a) != Ok then FirstFailure(a) else FirstFailure(b)
  {
    if a == [] {
      assert a + b == b;
    } else {
      ConsAppend(a, b);
      LiveAppend(a[1..], b);
      Assoc(if a[0].Live? then [a[0].row] else [], LiveRows(a[1..]), LiveRows(b));
    }
  }

  /** A call takes n rows, or fewer because the result set ended or failed. */
  lemma {:induction false} TakenIs<R>(rest: seq<Outcome<R>>, n: nat)
    ensures |LiveRows(rest[..Taken(rest, n)])| <= n
    ensures FirstFailure(rest[..Taken(rest, n)]) == Ok && |LiveRows(rest[..Taken(rest, n)])| < n ==>
            Taken(rest, n) == |rest|
    decreases |rest|
  {
    if n > 0 && rest != [] && !Fails(rest[0]) {
      var m := if rest[0].Live? then n - 1 else n;
      TakenIs(rest[1..], m);
      assert rest[..Taken(rest, n)][1..] == rest[1..][..Taken(rest[1..], m)];
    } else if n > 0 && rest != [] {
      assert rest[..1][1..] == [];
    }
  }

  lemma {:induction false} CleanIff<R>(rest: seq<Outcome<R>>)
    ensures FirstFailure(rest) == Ok <==> Clean(rest)
  {
    if rest != [] {
      CleanIff(rest[1..]);
      assert forall i | 1 <= i < |rest| :: rest[i] == rest[1..][i - 1];
    }
  }

  /** Chunks laid end to end are the result set's live rows, whatever the chunk size; reading in
      chunks fails exactly when reading all at once does, and with the same code. */
  lemma {:induction false} ChunksAreAllRows<R>(rest: seq<Outcome<R>>, n: nat)
    requires n > 0
    ensures ChunksEnd(rest, n) == FirstFailure(rest)
    ensures FirstFailure(rest) == Ok ==> Flatten(Chunks(rest, n)) == LiveRows(rest)
    ensures Flatten(Chunks(rest, n)) <= LiveRows(rest)
    decreases |rest|
  {
    var k := Taken(rest, n);
    assert rest == rest[..k] + rest[k..];
    LiveAppend(rest[..k], rest[k..]);
    TakenIs(rest, n);
    if FirstFailure(rest[..k]) == Ok {
      if LiveRows(rest[..k]) == [] {
        assert rest[k..] == [];
      } else {
        TakenSome(rest, n);
        ChunksAreAllRows(rest[k..], n);
        var chunks := Chunks(rest[k..], n);
        assert ([LiveRows(rest[..k])] + chunks)[1..] == chunks;
      }
    }
  }

  /** Every chunk but the last is full, and no chunk is empty. */
  lemma {:induction false} ChunksAreFull<R>(rest: seq<Outcome<R>>, n: nat)
    requires n > 0
    ensures forall i | 0 <= i < |Chunks(rest, n)| :: 0 < |Chunks(rest, n)[i]| <= n
    ensures FirstFailure(rest) == Ok ==> forall i | 0 <= i < |Chunks(rest, n)| - 1 :: |Chunks(rest, n)[i]| == n
    decreases |rest|
  {
    var k := Taken(rest, n);
    var rows := LiveRows(rest[..k]);
    TakenIs(rest, n);
    if FirstFailure(rest[..k]) == Ok && rows != [] {
      TakenSome(rest, n);
      ChunksAreFull(rest[k..], n);
      assert rest == rest[..k] + rest[k..];
      LiveAppend(rest[..k], rest[k..]);
      var chunks := Chunks(rest[k..], n);
      if |rows| < n {
        assert rest[k..] == [] && chunks == [];
      }
    }
  }

  /** A call for up to n rows that fetches none, without failing, has reached the end. */
  predicate EmptyMeansEnd<R>(rest: seq<Outcome<R>>, n: nat) {
    var taken := rest[..Taken(rest, n)];
    FirstFailure(taken) == Ok && LiveRows(taken) == [] ==> |taken| == |rest|
  }

  /** That holds of every result set exactly for the chunk sizes other than 0, the one that
      c_orm_find_batch_init refuses. */
  lemma EmptyMeansEndIff<R(!new)>(n: nat)
    ensures (forall rest: seq<Outcome<R>> :: EmptyMeansEnd(rest, n)) <==> n > 0
  {
    if n > 0 {
      forall rest: seq<Outcome<R>> ensures EmptyMeansEnd(rest, n) {
        TakenIs(rest, n);
      }
    } else {
      var one: seq<Outcome<R>> := [Expired];
      assert one[..Taken(one, n)] == [];
      assert !EmptyMeansEnd(one, n);
    }
  }

  // ----- the cursor

  /** A prepared and bound query. */
  class Query<R(==)> {
    /** What is still to come. */
    var rest: seq<Outcome<R>>

    constructor (rest: seq<Outcome<R>>)
      ensures this.rest == rest
    {
      this.rest := rest;
    }

    /** One step and, if there is a row, its hydration. */
    method StepAndHydrate() returns (outcome: Option<Outcome<R>>)
      modifies this
      ensures old(rest) == [] ==> outcome == None && rest == []
      ensures old(rest) != [] ==> outcome == Some(old(rest)[0]) && rest == old(rest)[1..]
    {
      if rest == [] {
        return None;
      }
      outcome := Some(rest[0]);
      rest := rest[1..];
    }
  }

  class BatchIterator<R(==)> {
    const query: Query<R>
    const chunkSize: nat

    constructor (query: Query<R>, chunkSize: nat)
      ensures this.query == query && this.chunkSize == chunkSize
    {
      this.query, this.chunkSize := query, chunkSize;
    }
  }

  /** c_orm_find_batch_init. The iterator it gives delivers the whole result set, and there is one unless
      the chunk size is 0, memory is refused or the statement cannot be prepared. */
  method FindBatchInit<R(==)>(results: seq<Outcome<R>>, chunkSize: nat, memoryOk: bool, prepare: Rc)
    returns (rc: Rc, iter: BatchIterator?<R>)
    ensures rc == if chunkSize == 0 || !memoryOk then Memory else prepare
    ensures rc == Ok <==> iter != null
    ensures rc == Ok ==> fresh(iter) && fresh(iter.query) && iter.query.rest == results && iter.chunkSize > 0
    ensures rc == Ok ==> ChunksEnd(results, iter.chunkSize) == FirstFailure(results)
    ensures rc == Ok && Clean(results) ==> Flatten(Chunks(results, iter.chunkSize)) == LiveRows(results)
    ensures rc == Ok ==> forall c | c in Chunks(results, iter.chunkSize) :: 0 < |c| <= chunkSize
  {
    if chunkSize == 0 || !memoryOk {
      return Memory, null;
    }
    if prepare != Ok {
      return prepare, null;
    }
    ChunksAreAllRows(results, chunkSize);
    ChunksAreFull(results, chunkSize);
    CleanIff(results);
    var query := new Query(results);
    iter := new BatchIterator(query, chunkSize);
    rc := Ok;
  }

  /** c_orm_iterator_next. The counter is a size_t: on an expired first row it goes from 0 to the
      largest value and back. */
  method Next<R(0, ==)>(iter: BatchIterator<R>, out: array<R>) returns (rc: Rc, fetched: nat)
    requires 0 < iter.chunkSize < SIZE_T && out.Length == iter.chunkSize
    modifies iter.query, out
    ensures var all := old(iter.query.rest); var k := Taken(all, iter.chunkSize);
            && rc == FirstFailure(all[..k])
            && iter.query.rest == all[k..]
            && fetched == (if rc == Ok then |LiveRows(all[..k])| else 0)
            && fetched <= iter.chunkSize
            && (rc == Ok ==> out[..fetched] == LiveRows(all[..k]))
  {
    var query, chunkSize := iter.query, iter.chunkSize;
    ghost var all := query.rest;
    ghost var used: nat := 0;
    assert all[..0] == [] && all[0..] == all;
    fetched := 0;
    var count := 0;
    while count < chunkSize
      invariant 0 <= count <= chunkSize && used <= |all|
      invariant query.rest == all[used..]
      invariant Taken(all, chunkSize) == used + Taken(all[used..], chunkSize - count)
      invariant FirstFailure(all[..used]) == Ok && LiveRows(all[..used]) == out[..count]
      decreases |query.rest|
    {
      var outcome := query.StepAndHydrate();
      if outcome.None? {
        break;
      }
      Advance(all, used);
      used := used + 1;
      match outcome.value {
        case StepFails(code) => return Failed(code), 0;
        case HydrateFails(code) => return Failed(code), 0;
        case Expired =>
          count := if count == 0 then SIZE_T - 1 else count - 1;
        case Live(row) =>
          out[count] := row;
      }
      count := Add(count, 1);
    }
    rc, fetched := Ok, count;
  }

  lemma Advance<R>(all: seq<Outcome<R>>, used: nat)
    requires used < |all|
    ensures all[used..][0] == all[used] && all[used..][1..] == all[used + 1..]
    ensures LiveRows(all[..used + 1]) == LiveRows(all[..used]) + (if all[used].Live? then [all[used].row] else [])
    ensures FirstFailure(all[..used]) == Ok ==>
              FirstFailure(all[..used + 1]) == if Fails(all[used]) then Failed(all[used].code) else Ok
  {
    assert all[..used + 1] == all[..used] + [all[used]];
    LiveAppend(all[..used], [all[used]]);
    assert [all[used]][1..] == [];
  }

  /** The struct arrays the library fills: data, its size, and how many of its slots are used. */
  class GenericArray<R(0, ==)> {
    var data: array?<R>
    var capacity: nat
    var length: nat

    constructor ()
      ensures Valid() && data == null
    {
      data, capacity, length := null, 0, 0;
    }

    /** The capacity is that of the data: what a call relies on. */
    predicate Valid()
      reads this
    {
      capacity == Size(data)
    }
  }

  /** Whether realloc grants room for this many rows. */
  type Allows = nat -> bool

  /** A failure among the outcomes used is the first one. */
  lemma FailsWithin<R>(all: seq<Outcome<R>>, used: nat)
    requires used <= |all|
    ensures FirstFailure(all[..used]) != Ok ==> FirstFailure(all) == FirstFailure(all[..used])
  {
    assert all == all[..used] + all[used..];
    LiveAppend(all[..used], all[used..]);
  }

  function Size<R(0)>(data: array?<R>): nat {
    if data == null then 0 else data.Length
  }

  function Filled<R(0)>(data: array?<R>, count: nat): seq<R>
    requires count <= Size(data)
    reads data
  {
    if data == null then [] else data[..count]
  }

  /** realloc when the slots are used up: the old slots and zeroed new ones. */
  method MakeRoom<R(0, ==)>(data: array?<R>, cap: nat, count: nat, allows: Allows)
    returns (room: array?<R>, newCap: nat)
    requires count <= cap == Size(data)
    ensures room != null ==> room == data || fresh(room)
    ensures room != null ==> count < newCap == room.Length && room[..count] == Filled(data, count)
    ensures (forall n :: allows(n)) ==> room != null
  {
    if count < cap {
      return data, cap;
    }
    newCap := if cap == 0 then 16 else cap * 2;
    if !allows(newCap) {
      return null, newCap;
    }
    room := new R[newCap];
    if data != null {
      forall i | 0 <= i < cap {
        room[i] := data[i];
      }
    }
  }

  /** c_orm_hydrate_all. A failure drops the data but not the capacity, so that the array is fit
      for another call exactly if it had none before. */
  method HydrateAll<R(0, ==)>(query: Query<R>, arr: GenericArray<R>, allows: Allows) returns (rc: Rc)
    requires arr.Valid()
    modifies query, arr, arr.data
    ensures rc == Ok || rc == Memory || rc == FirstFailure(old(query.rest))
    ensures rc == Ok ==>
              && FirstFailure(old(query.rest)) == Ok && query.rest == []
              && arr.Valid() && arr.length == |LiveRows(old(query.rest))| <= arr.capacity
              && Filled(arr.data, arr.length) == LiveRows(old(query.rest))
    ensures rc != Ok ==> arr.data == null && arr.capacity == old(arr.capacity) && arr.length == old(arr.length)
    ensures arr.Valid() <==> rc == Ok || old(arr.capacity) == 0
    ensures (forall n :: allows(n)) ==> rc == FirstFailure(old(query.rest))
  {
    ghost var all := query.rest;
    ghost var used: nat := 0;
    assert all[..0] == [] && all[0..] == all;
    var data, cap, count := arr.data, arr.capacity, 0;
    while true
      invariant count <= cap == Size(data) && used <= |all|
      invariant data == old(arr.data) || fresh(data)
      invariant arr.data == old(arr.data) && arr.capacity == old(arr.capacity) && arr.length == old(arr.length)
      invariant query.rest == all[used..]
      invariant FirstFailure(all[..used]) == Ok
      invariant LiveRows(all[..used]) == Filled(data, count)
      decreases |query.rest|
    {
      var outcome := query.StepAndHydrate();
      if outcome.None? {
        break;
      }
      Advance(all, used);
      used := used + 1;
      FailsWithin(all, used);
      if outcome.value.StepFails? {
        arr.data := null;
        return Failed(outcome.value.code);
      }
      var room, newCap := MakeRoom(data, cap, count, allows);
      if room == null {
        arr.data := null;
        return Memory;
      }
      data, cap := room, newCap;
      match outcome.value {
        case HydrateFails(code) =>
          arr.data := null;
          return Failed(code);
        case Expired =>
        case Live(row) =>
          data[count] := row;
          assert data[..count + 1] == data[..count] + [row];
          count := count + 1;
      }
    }
    assert all[..used] == all;
    arr.data, arr.capacity, arr.length := data, cap, count;
    rc := Ok;
  }
}
