/** The memory arena of src/c_orm_arena.c: blocks are bumped from the front, never reused, and
    freed together. Sizes are size_t and wrap around. */
module Arena {
  import opened CTypes
  import opened Optional

  const BLOCK_SIZE: int := 4096

  /** Bytes of a block in front of its data. */
  const HEADER: int := 16

  // ----- where a request goes

  /** Whether a new block is made, where in the block the request starts, how much of it is taken,
      and how many data bytes the block has. */
  datatype Placement = Placement(newBlock: bool, offset: int, used: int, capacity: int)

  /** A block as the allocator sees it. */
  datatype Head = Head(used: int, capacity: int)

  function Align(size: int): int {
    var s := Add(size, 7);
    s - s % 8
  }

  /** The arithmetic of c_orm_arena_alloc. */
  function Place(head: Option<Head>, request: int): Placement {
    var size := Align(request);
    if head.Some? && Add(head.value.used, size) <= BLOCK_SIZE then
      Placement(false, head.value.used, Add(head.value.used, size), head.value.capacity)
    else
      var capacity := if size > BLOCK_SIZE then Add(HEADER, size) - HEADER else BLOCK_SIZE;
      Placement(true, 0, size, capacity)
  }

  /** The request is aligned, inside the block, and inside what the block counts as taken. */
  predicate Sound(p: Placement, request: int) {
    && p.offset % 8 == 0 && p.used % 8 == 0
    && p.offset + request <= p.used <= p.capacity
  }

  predicate HeadOk(head: Option<Head>) {
    head.Some? ==>
      && 0 <= head.value.used <= head.value.capacity
      && BLOCK_SIZE <= head.value.capacity < SIZE_T - HEADER && head.value.used % 8 == 0
  }

  /** No sum wraps around to a size that looks as if it fitted. Beside a head block, a sum that wraps and
      is still larger than the block does no harm: the request gets a block of its own. */
  predicate NoWrap(head: Option<Head>, request: int) {
    var rounded := (request + 7) / 8 * 8;
    && rounded + HEADER < SIZE_T
    && (head.Some? ==> head.value.used + rounded < SIZE_T || head.value.used + rounded > SIZE_T + BLOCK_SIZE)
  }

  /** Exactly the requests for which no wrapped size looks as if it fitted are placed soundly. */
  lemma PlacementSoundIff(head: Option<Head>, request: int)
    requires HeadOk(head) && 0 < request < SIZE_T
    ensures Sound(Place(head, request), request) <==> NoWrap(head, request)
  {
    var rounded := (request + 7) / 8 * 8;
    if request + 7 < SIZE_T {
      assert Align(request) == rounded;
    } else {
      assert rounded == SIZE_T && Align(request) == 0;
    }
  }

  /** Where nothing wraps, the request is rounded up to a multiple of 8. It goes behind what is taken of the
      head block if that leaves at most 4096 bytes taken, and otherwise to a new block, of 4096 bytes or as
      many as it needs. */
  lemma PlacedWhere(head: Option<Head>, request: int, rounded: int)
    requires HeadOk(head) && 0 < request < SIZE_T && NoWrap(head, request)
    requires request <= rounded < request + 8 && rounded % 8 == 0
    ensures var p := Place(head, request);
            if head.Some? && head.value.used + rounded <= 4096 then
              p == Placement(false, head.value.used, head.value.used + rounded, head.value.capacity)
            else
              p == Placement(true, 0, rounded, if rounded > 4096 then rounded else 4096)
  {
    assert rounded == (request + 7) / 8 * 8;
    assert Align(request) == rounded;
  }

  /** Ordinary requests, on any arena whose blocks are, never wrap. */
  lemma ModestRequestsNeverWrap(head: Option<Head>, request: int)
    requires HeadOk(head) && 0 < request < SIZE_T / 2 && (head.Some? ==> head.value.capacity < SIZE_T / 2 - 8)
    ensures NoWrap(head, request) && Place(head, request).capacity < SIZE_T / 2 + 8
  {
    PlacementSoundIff(head, request);
  }

  // ----- the arena

  class Block {
    const data: array<Byte>
    var used: int

    constructor (capacity: nat)
      ensures fresh(data) && data.Length == capacity && used == 0
    {
      data := new Byte[capacity];
      used := 0;
    }
  }

  /** `len` bytes handed out at `from` of a block. */
  datatype Range = Range(block: Block, from: nat, len: nat)

  predicate Disjoint(a: Range, b: Range) {
    a.block == b.block ==> a.from + a.len <= b.from || b.from + b.len <= a.from
  }

  /** memcpy. */
  method CopyInto(data: array<Byte>, from: nat, s: seq<Byte>)
    requires from + |s| <= data.Length
    modifies data
    ensures data[from..from + |s|] == s
    ensures forall k | 0 <= k < data.Length && !(from <= k < from + |s|) :: data[k] == old(data[k])
  {
    forall i | 0 <= i < |s| {
      data[from + i] := s[i];
    }
  }

  class Arena {
    /** The list of blocks, newest first. */
    var blocks: seq<Block>
    /** Everything handed out so far. */
    ghost var granted: seq<Range>

    ghost predicate Valid()
      reads this, blocks
    {
      && (forall i, j | 0 <= i < j < |blocks| :: blocks[i] != blocks[j] && blocks[i].data != blocks[j].data)
      && (forall b | b in blocks :: HeadOk(Some(Head(b.used, b.data.Length))))
      && (forall r | r in granted :: r.block in blocks && r.from % 8 == 0 && r.from + r.len <= r.block.used)
      && forall i, j | 0 <= i < j < |granted| :: Disjoint(granted[i], granted[j])
    }

    function HeadBlock(): Option<Head>
      reads this, blocks
    {
      if blocks == [] then None else Some(Head(blocks[0].used, blocks[0].data.Length))
    }

    constructor ()
      ensures Valid() && blocks == [] && granted == []
    {
      blocks, granted := [], [];
    }

    method PushBlock(capacity: nat)
      requires Valid()
      modifies this`blocks
      ensures blocks != [] && fresh(blocks[0]) && fresh(blocks[0].data) && blocks == [blocks[0]] + old(blocks)
      ensures blocks[0].used == 0 && blocks[0].data.Length == capacity
      ensures HeadOk(Some(Head(0, capacity))) ==> Valid()
    {
      var block := new Block(capacity);
      blocks := [block] + blocks;
      assert forall r | r in granted :: r.block in blocks[1..];
    }

    /** Hands out the front of what is left in the head block. */
    method Bump(head: Block, request: nat, size: nat) returns (range: Range)
      requires blocks != [] && head == blocks[0] && 0 <= head.used
      modifies this`granted, head`used
      ensures range == Range(blocks[0], old(blocks[0].used), request) && granted == old(granted) + [range]
      ensures blocks[0].used == Add(old(blocks[0].used), size)
      ensures old(Valid()) && Sound(Placement(false, range.from, blocks[0].used, blocks[0].data.Length), request) ==>
              Valid()
    {
      range := Range(head, head.used, request);
      granted := granted + [range];
      head.used := Add(head.used, size);
    }

    /** Makes the head block the one the request goes into. */
    method Reserve(size: nat, memory: bool, ghost request: nat) returns (ok: bool)
      requires Valid() && 0 < request < SIZE_T && size == Align(request)
      modifies this`blocks
      ensures !ok <==> !memory && Place(old(HeadBlock()), request).newBlock
      ensures !ok ==> blocks == old(blocks)
      ensures ok ==>
                var p := Place(old(HeadBlock()), request);
                && blocks != [] && (p.newBlock ==> fresh(blocks[0]) && fresh(blocks[0].data))
                && blocks == (if p.newBlock then [blocks[0]] else []) + old(blocks)
                && blocks[0].used == p.offset && p.used == Add(p.offset, size)
                && (NoWrap(old(HeadBlock()), request) ==> Valid() && blocks[0].data.Length == p.capacity)
    {
      PlacementSoundIff(HeadBlock(), request);
      if blocks == [] || Add(blocks[0].used, size) > BLOCK_SIZE {
        var allocSize := HEADER + BLOCK_SIZE;
        if size > BLOCK_SIZE {
          allocSize := Add(HEADER, size);
        }
        if !memory {
          return false;
        }
        PushBlock(if allocSize < HEADER then 0 else allocSize - HEADER);
      }
      return true;
    }

    /** c_orm_arena_alloc; `memory` is malloc's answer. No byte of any block changes. */
    method Alloc(request: nat, memory: bool) returns (range: Option<Range>)
      requires Valid() && request < SIZE_T
      modifies this, blocks
      ensures range.None? <==> request == 0 || (!memory && Place(old(HeadBlock()), request).newBlock)
      ensures range.None? ==> Valid() && blocks == old(blocks) && granted == old(granted)
      ensures range.Some? && NoWrap(old(HeadBlock()), request) ==>
                && Valid() && range.value.len == request && granted == old(granted) + [range.value]
                && range.value.from + request <= range.value.block.data.Length
                && blocks == (if Place(old(HeadBlock()), request).newBlock then [range.value.block] else [])
                   + old(blocks)
      ensures forall b | b in blocks && b !in old(blocks) :: fresh(b) && fresh(b.data)
    {
      if request == 0 {
        return None;
      }
      PlacementSoundIff(HeadBlock(), request);
      var size := Add(request, 7);
      size := size - size % 8;
      var ok := Reserve(size, memory, request);
      if !ok {
        return None;
      }
      var r := Bump(blocks[0], request, size);
      range := Some(r);
    }

    /** c_orm_arena_strdup: the copy is new memory; everything handed out before keeps its bytes. */
    method Strdup(str: Option<CString>, memory: bool) returns (ok: bool, copy: Option<Range>)
      requires Valid() && (str.Some? ==> |str.value| + 1 < SIZE_T && NoWrap(HeadBlock(), |str.value| + 1))
      modifies this, blocks, set b | b in blocks :: b.data
      ensures Valid()
      ensures str.None? ==> ok && copy == None && granted == old(granted)
      ensures str.Some? ==> (ok <==> copy.Some?)
      ensures str.Some? && !ok ==> blocks == old(blocks) && granted == old(granted)
      ensures str.Some? && !ok ==> !memory
      ensures copy.Some? ==>
                && granted == old(granted) + [copy.value]
                && copy.value.from + |str.value| + 1 == copy.value.from + copy.value.len <= copy.value.block.data.Length
                && copy.value.block.data[copy.value.from..copy.value.from + copy.value.len] == WithTerminator(str.value)
      ensures forall r | r in old(granted) :: forall k | r.from <= k < r.from + r.len && k < r.block.data.Length ::
                r.block.data[k] == old(r.block.data[k])
    {
      if str.None? {
        return true, None;
      }
      var len := |str.value| + 1;
      copy := Alloc(len, memory);
      if copy.None? {
        return false, None;
      }
      ok := true;
      var s := WithTerminator(str.value);
      var data, from := copy.value.block.data, copy.value.from;
      assert forall r | r in old(granted) :: Disjoint(r, copy.value) by {
        forall r | r in old(granted)
          ensures Disjoint(r, copy.value)
        {
          var i :| 0 <= i < |old(granted)| && old(granted)[i] == r;
          assert granted[i] == r && granted[|old(granted)|] == copy.value;
        }
      }
      CopyInto(data, from, s);
    }
  }
}
