/** The in-memory driver of src/c_orm_memory.c: who owns each bound cell, and the cursor a SELECT
    walks over a table that may grow meanwhile. */
module MemoryDriver {
  import opened Optional
  import Sql

  const MAX_BOUND: nat := 32

  datatype Rc = Ok | BindError | OutOfMemory

  /** Whether the allocator grants a cell, and the copy of a text or a blob. */
  datatype CellMemory = CellMemory(cellOk: bool, copyOk: bool)

  /** Whether it grants a new table and a new row. */
  datatype RowMemory = RowMemory(tableOk: bool, rowOk: bool)

  datatype Kind = SelectAll | SelectPk | Insert | Update | Delete | Raw

  /** A cell is one allocation; `id` tells it from every other. */
  datatype Cell = Cell(id: nat, value: Sql.Value)

  /** The rows of a table, newest first; a row never changes once it is linked. */
  datatype Rows = NoRow | Row(columns: seq<Option<Cell>>, next: Rows)

  datatype MemTable = MemTable(name: string, head: Rows)

  /** Who must free a cell: a parameter slot of a query, a column of a row, or nobody any more. */
  datatype Owner = Slot(query: nat, index: nat) | Stored(table: string, row: nat, column: nat) | Freed

  function Depth(rows: Rows): nat {
    if rows.NoRow? then 0 else 1 + Depth(rows.next)
  }

  function Listed(rows: Rows): seq<seq<Option<Cell>>> {
    if rows.NoRow? then [] else [rows.columns] + Listed(rows.next)
  }

  /** Every cell of these rows is owned by its place in them, and so is in no other place. */
  ghost predicate RowsOwned(owner: map<nat, Owner>, table: string, rows: Rows) {
    rows.Row? ==>
      && CellsOwned(owner, table, rows.columns, rows.next)
      && RowsOwned(owner, table, rows.next)
  }

  /** Changing the owner of other cells leaves rows as they are owned. */
  lemma {:induction false} RowsOwnedKept(owner: map<nat, Owner>, owner': map<nat, Owner>, table: string, rows: Rows)
    requires RowsOwned(owner, table, rows)
    requires forall c | c in owner && owner[c].Stored? :: c in owner' && owner'[c] == owner[c]
    ensures RowsOwned(owner', table, rows)
  {
    if rows.Row? { RowsOwnedKept(owner, owner', table, rows.next); }
  }

  /** The index of the first table of that name. */
  function TableIndex(tables: seq<MemTable>, name: string): (i: nat)
    ensures i <= |tables|
  {
    if tables == [] || tables[0].name == name then 0 else 1 + TableIndex(tables[1..], name)
  }

  lemma {:induction false} TableIndexFirst(tables: seq<MemTable>, name: string)
    ensures TableIndex(tables, name) < |tables| ==> tables[TableIndex(tables, name)].name == name
    ensures forall j | 0 <= j < TableIndex(tables, name) :: tables[j].name != name
  {
    if tables != [] && tables[0].name != name {
      TableIndexFirst(tables[1..], name);
      assert forall j | 1 <= j < |tables| :: tables[j] == tables[1..][j - 1];
    }
  }

  function HeadOf(tables: seq<MemTable>, name: string): Rows {
    var i := TableIndex(tables, name);
    if i < |tables| then tables[i].head else NoRow
  }

  ghost predicate TablesOwned(owner: map<nat, Owner>, tables: seq<MemTable>) {
    && (forall i, j | 0 <= i < j < |tables| :: tables[i].name != tables[j].name)
    && forall i | 0 <= i < |tables| :: RowsOwned(owner, tables[i].name, tables[i].head)
  }

  lemma TablesOwnedKept(owner: map<nat, Owner>, owner': map<nat, Owner>, tables: seq<MemTable>)
    requires TablesOwned(owner, tables)
    requires forall c | c in owner && owner[c].Stored? :: c in owner' && owner'[c] == owner[c]
    ensures TablesOwned(owner', tables)
  {
    forall i | 0 <= i < |tables|
      ensures RowsOwned(owner', tables[i].name, tables[i].head)
    {
      RowsOwnedKept(owner, owner', tables[i].name, tables[i].head);
    }
  }

  /** The cells of a row about to be linked in front of these rows. */
  ghost predicate CellsOwned(owner: map<nat, Owner>, table: string, columns: seq<Option<Cell>>, rows: Rows) {
    forall j | 0 <= j < |columns| && columns[j].Some? ::
      columns[j].value.id in owner && owner[columns[j].value.id] == Stored(table, Depth(rows), j)
  }

  /** A table without rows changes nothing that can be read. */
  lemma NewTable(owner: map<nat, Owner>, tables: seq<MemTable>, name: string)
    requires TablesOwned(owner, tables) && TableIndex(tables, name) == |tables|
    ensures var tables' := [MemTable(name, NoRow)] + tables;
            && TablesOwned(owner, tables') && TableIndex(tables', name) == 0
            && forall other :: HeadOf(tables', other) == HeadOf(tables, other)
  {
    TableIndexFirst(tables, name);
    var tables' := [MemTable(name, NoRow)] + tables;
    assert tables'[1..] == tables;
  }

  lemma NewHead(owner: map<nat, Owner>, tables: seq<MemTable>, t: nat, columns: seq<Option<Cell>>)
    requires t < |tables| && TablesOwned(owner, tables) && TableIndex(tables, tables[t].name) == t
    requires CellsOwned(owner, tables[t].name, columns, tables[t].head)
    ensures var tables' := tables[t := MemTable(tables[t].name, Row(columns, tables[t].head))];
            && TablesOwned(owner, tables') && HeadOf(tables', tables[t].name) == Row(columns, tables[t].head)
            && forall other | other != tables[t].name :: HeadOf(tables', other) == HeadOf(tables, other)
  {
    HeadsAfterUpdate(tables, t, Row(columns, tables[t].head));
    assert RowsOwned(owner, tables[t].name, Row(columns, tables[t].head));
  }

  class MemDb {
    /** Newest first. */
    var tables: seq<MemTable>
    var nextCell: nat
    ghost var owner: map<nat, Owner>

    constructor ()
      ensures Valid() && tables == [] && owner == map[]
    {
      tables, nextCell, owner := [], 0, map[];
    }

    ghost predicate Valid()
      reads this
    {
      && (forall c | c in owner :: c < nextCell)
      && TablesOwned(owner, tables)
    }

    /** malloc of a cell for a slot. */
    method NewCell(value: Sql.Value, ghost slot: Owner) returns (cell: Cell)
      requires Valid() && slot.Slot?
      modifies this`nextCell, this`owner
      ensures Valid() && cell.value == value && cell.id !in old(owner) && owner == old(owner)[cell.id := slot]
    {
      cell := Cell(nextCell, value);
      owner := owner[nextCell := slot];
      nextCell := nextCell + 1;
      TablesOwnedKept(old(owner), owner, tables);
    }

    /** free_mem_cell: a cell can be freed by its slot only, hence once only. */
    method FreeCell(cell: Cell)
      requires Valid() && cell.id in owner && owner[cell.id].Slot?
      modifies this`owner
      ensures Valid() && owner == old(owner)[cell.id := Freed]
    {
      owner := owner[cell.id := Freed];
      TablesOwnedKept(old(owner), owner, tables);
    }

    /** The table of that name, made if it is not there. */
    method GetTable(name: string, tableOk: bool) returns (t: Option<nat>)
      requires Valid()
      modifies this`tables
      ensures Valid() && forall other :: HeadOf(tables, other) == HeadOf(old(tables), other)
      ensures t.None? ==> !tableOk && tables == old(tables)
      ensures t.Some? ==> t.value < |tables| && tables[t.value].name == name && TableIndex(tables, name) == t.value
      ensures t.Some? <==> tableOk || TableIndex(old(tables), name) < |old(tables)|
    {
      TableIndexFirst(tables, name);
      var i := FindTable(name);
      if i < |tables| {
        return Some(i);
      }
      if !tableOk {
        return None;
      }
      NewTable(owner, tables, name);
      tables := [MemTable(name, NoRow)] + tables;
      return Some(0);
    }

    /** Links a row at the head of its table. */
    method LinkRow(t: nat, columns: seq<Option<Cell>>, ghost owner': map<nat, Owner>)
      requires Valid() && owner.Keys == owner'.Keys
      requires t < |tables| && TableIndex(tables, tables[t].name) == t
      requires forall c | c in owner && owner[c].Stored? :: owner'[c] == owner[c]
      requires CellsOwned(owner', tables[t].name, columns, tables[t].head)
      modifies this`tables, this`owner
      ensures Valid() && owner == owner'
      ensures HeadOf(tables, old(tables[t].name)) == Row(columns, old(tables[t].head))
      ensures forall other | other != old(tables[t].name) :: HeadOf(tables, other) == HeadOf(old(tables), other)
    {
      TablesOwnedKept(owner, owner', tables);
      NewHead(owner', tables, t, columns);
      tables := tables[t := MemTable(tables[t].name, Row(columns, tables[t].head))];
      owner := owner';
    }

    method FindTable(name: string) returns (t: nat)
      ensures t == TableIndex(tables, name)
    {
      t := 0;
      while t < |tables| && tables[t].name != name
        invariant t <= |tables| && TableIndex(tables, name) == t + TableIndex(tables[t..], name)
      {
        t := t + 1;
      }
    }
  }

  lemma {:induction false} IndexAfterUpdate(tables: seq<MemTable>, t: nat, head: Rows, name: string)
    requires t < |tables|
    ensures TableIndex(tables[t := MemTable(tables[t].name, head)], name) == TableIndex(tables, name)
  {
    var tables' := tables[t := MemTable(tables[t].name, head)];
    if tables[0].name != name && t > 0 {
      assert tables'[1..] == tables[1..][t - 1 := MemTable(tables[t].name, head)];
      IndexAfterUpdate(tables[1..], t - 1, head, name);
    } else if tables[0].name != name {
      assert tables'[1..] == tables[1..];
    }
  }

  lemma HeadsAfterUpdate(tables: seq<MemTable>, t: nat, head: Rows)
    requires t < |tables| && TableIndex(tables, tables[t].name) == t
    ensures var tables' := tables[t := MemTable(tables[t].name, head)];
            && HeadOf(tables', tables[t].name) == head
            && forall other | other != tables[t].name :: HeadOf(tables', other) == HeadOf(tables, other)
  {
    var tables' := tables[t := MemTable(tables[t].name, head)];
    forall other
      ensures HeadOf(tables', other) == if other == tables[t].name then head else HeadOf(tables, other)
    {
      IndexAfterUpdate(tables, t, head, other);
      TableIndexFirst(tables, other);
    }
  }

  /** The driver keeps its own copy of these. */
  predicate Copied(value: Sql.Value) {
    value.Text? || value.Blob?
  }

  class MemQuery {
    const id: nat
    const kind: Kind
    const table: string
    const db: MemDb
    const bound: array<Option<Cell>>
    var numBound: nat
    var currentRow: Rows
    var stepStarted: bool

    constructor (id: nat, kind: Kind, table: string, db: MemDb)
      requires db.Valid()
      ensures this.id == id && this.kind == kind && this.table == table && this.db == db
      ensures Valid() && fresh(bound) && numBound == 0 && !stepStarted
      ensures forall i | 0 <= i < MAX_BOUND :: bound[i].None?
    {
      this.id, this.kind, this.table, this.db := id, kind, table, db;
      bound := new Option<Cell>[MAX_BOUND](_ => None);
      numBound, currentRow, stepStarted := 0, NoRow, false;
    }

    /** A bound slot owns its cell, and lies below num_bound. */
    ghost predicate Valid()
      reads this, db, bound
    {
      && db.Valid() && bound.Length == MAX_BOUND && numBound <= MAX_BOUND
      && forall i | 0 <= i < MAX_BOUND && bound[i].Some? ::
           i < numBound && bound[i].value.id in db.owner && db.owner[bound[i].value.id] == Slot(id, i)
    }

    /** The rows this cursor has still to return. */
    function Rest(): Rows
      reads this, db
    {
      if !stepStarted then HeadOf(db.tables, table)
      else if currentRow.Row? then currentRow.next
      else NoRow
    }

    /** mem_bind_*: the cell bound before is freed, every other cell keeps its owner. Without memory
        for a cell the slot is left empty; without memory for the copy it reads as NULL. */
    method Bind(index: int, value: Sql.Value, memory: CellMemory) returns (rc: Rc)
      requires Valid()
      modifies this`numBound, bound, db`nextCell, db`owner
      ensures Valid()
      ensures rc == BindError <==> index < 1 || index > MAX_BOUND
      ensures rc == BindError ==> bound[..] == old(bound[..]) && numBound == old(numBound) && db.owner == old(db.owner)
      ensures rc != BindError ==>
                && (rc == Ok <==> memory.cellOk && (Copied(value) ==> memory.copyOk))
                && (bound[index - 1].Some? <==> memory.cellOk)
                && (memory.cellOk ==>
                      && bound[index - 1].value.value == (if rc == Ok then value else Sql.Null)
                      && bound[index - 1].value.id !in old(db.owner))
                && numBound == (if index > old(numBound) && memory.cellOk then index else old(numBound))
                && (forall i | 0 <= i < MAX_BOUND && i != index - 1 :: bound[i] == old(bound[i]))
                && (old(bound[index - 1]).Some? ==>
                      old(bound[index - 1]).value.id in db.owner && db.owner[old(bound[index - 1]).value.id] == Freed)
                && forall c | c in old(db.owner) && old(db.owner)[c] != Slot(id, index - 1) ::
                     c in db.owner && db.owner[c] == old(db.owner)[c]
    {
      if index < 1 || index > MAX_BOUND {
        return BindError;
      }
      var replaced := bound[index - 1];
      if replaced.Some? {
        db.FreeCell(replaced.value);
        bound[index - 1] := None;
      }
      if !memory.cellOk {
        return OutOfMemory;
      }
      var copied := Copied(value) ==> memory.copyOk;
      var cell := db.NewCell(if copied then value else Sql.Null, Slot(id, index - 1));
      bound[index - 1] := Some(cell);
      if index > numBound {
        numBound := index;
      }
      return if copied then Ok else OutOfMemory;
    }

    /** mem_step of an INSERT: the bound cells become the new row's, and no cell is lost or shared.
        Without memory nothing changes but, at most, that the table is there without a row. */
    method StepInsert(memory: RowMemory) returns (rc: Rc)
      requires Valid() && kind == Insert
      modifies this`numBound, bound, db`tables, db`owner
      ensures Valid() && rc != BindError
      ensures rc == Ok <==> memory.rowOk && (memory.tableOk || TableIndex(old(db.tables), table) < |old(db.tables)|)
      ensures rc == Ok ==> numBound == 0 && forall i | 0 <= i < MAX_BOUND :: bound[i].None?
      ensures rc == Ok ==> HeadOf(db.tables, table) == Row(old(bound[..numBound]), HeadOf(old(db.tables), table))
      ensures rc != Ok ==> bound[..] == old(bound[..]) && numBound == old(numBound) && db.owner == old(db.owner)
      ensures rc != Ok ==> HeadOf(db.tables, table) == HeadOf(old(db.tables), table)
      ensures forall other | other != table :: HeadOf(db.tables, other) == HeadOf(old(db.tables), other)
      ensures db.owner.Keys == old(db.owner).Keys
      ensures forall c | c in old(db.owner) && !(old(db.owner)[c].Slot? && old(db.owner)[c].query == id) ::
                db.owner[c] == old(db.owner)[c]
    {
      var t := db.GetTable(table, memory.tableOk);
      if t.None? || !memory.rowOk {
        return OutOfMemory;
      }
      var columns := bound[..numBound];
      ghost var owner' := MovedToRow(db.owner, id, columns, table, Depth(HeadOf(db.tables, table)));
      for i := 0 to numBound
        modifies bound
        invariant forall k | 0 <= k < i :: bound[k].None?
        invariant forall k | i <= k < MAX_BOUND :: bound[k] == old(bound[k])
      {
        bound[i] := None;
      }
      numBound := 0;
      db.LinkRow(t.value, columns, owner');
      return Ok;
    }

    /** mem_step of a SELECT. */
    method StepSelect() returns (hasRow: bool)
      requires Valid() && (kind == SelectAll || kind == SelectPk)
      modifies this`currentRow, this`stepStarted
      ensures Valid() && stepStarted
      ensures hasRow <==> old(Rest()).Row?
      ensures hasRow ==> currentRow == old(Rest()) && Rest() == old(Rest()).next
      ensures !hasRow ==> currentRow == NoRow && Rest() == NoRow
    {
      if !stepStarted {
        stepStarted := true;
        var t := db.FindTable(table);
        currentRow := if t < |db.tables| then db.tables[t].head else NoRow;
      } else if currentRow.Row? {
        currentRow := currentRow.next;
      }
      hasRow := currentRow.Row?;
    }

    /** mem_reset: the next step starts over, at what the table holds by then. */
    method Reset()
      requires Valid()
      modifies this`currentRow, this`stepStarted
      ensures Valid() && Rest() == HeadOf(db.tables, table)
    {
      currentRow, stepStarted := NoRow, false;
    }

    /** mem_finalize frees what is still bound, and nothing else. */
    method Finalize()
      requires Valid()
      modifies db`owner
      ensures db.Valid() && db.owner.Keys == old(db.owner).Keys
      ensures forall i | 0 <= i < MAX_BOUND && bound[i].Some? :: db.owner[bound[i].value.id] == Freed
      ensures forall c | c in old(db.owner) && !(old(db.owner)[c].Slot? && old(db.owner)[c].query == id) ::
                db.owner[c] == old(db.owner)[c]
    {
      for i := 0 to MAX_BOUND
        invariant db.Valid() && db.owner.Keys == old(db.owner).Keys
        invariant forall k | 0 <= k < i && bound[k].Some? :: db.owner[bound[k].value.id] == Freed
        invariant forall k | i <= k < MAX_BOUND && bound[k].Some? :: db.owner[bound[k].value.id] == Slot(id, k)
        invariant forall c | c in old(db.owner) && !(old(db.owner)[c].Slot? && old(db.owner)[c].query == id) ::
                    db.owner[c] == old(db.owner)[c]
      {
        if bound[i].Some? {
          db.FreeCell(bound[i].value);
        }
      }
    }
  }

  /** The owners once the cells of the slots belong to a row. */
  ghost function MovedToRow(owner: map<nat, Owner>, query: nat, columns: seq<Option<Cell>>, table: string,
                            row: nat): map<nat, Owner>
  {
    map c | c in owner ::
      if owner[c].Slot? && owner[c].query == query && owner[c].index < |columns| && columns[owner[c].index].Some?
         && columns[owner[c].index].value.id == c
      then Stored(table, row, owner[c].index)
      else owner[c]
  }

  /** An insertion leaves a started cursor where it is. */
  method InsertBeside(q: MemQuery, insert: MemQuery, memory: RowMemory)
    requires q.Valid() && insert.Valid() && q.db == insert.db && q != insert && q.bound != insert.bound
             && q.id != insert.id
    requires q.stepStarted && insert.kind == Insert
    modifies insert`numBound, insert.bound, q.db`tables, q.db`owner
    ensures q.Valid() && insert.Valid() && q.Rest() == old(q.Rest())
  {
    var _ := insert.StepInsert(memory);
  }

  /** Reads a started cursor to its end, another query inserting a row before every step: the rows
      are those the table held when the cursor started, in order, and no others. */
  method ReadWhileInserting(q: MemQuery, insert: MemQuery, memory: RowMemory) returns (rows: seq<seq<Option<Cell>>>)
    requires q.Valid() && insert.Valid() && q.db == insert.db && q != insert && q.bound != insert.bound
             && q.id != insert.id
    requires q.stepStarted && (q.kind == SelectAll || q.kind == SelectPk) && insert.kind == Insert
    modifies q`currentRow, q`stepStarted, insert`numBound, insert.bound, q.db`tables, q.db`owner
    ensures q.Valid() && insert.Valid()
    ensures rows == Listed(old(q.Rest())) && q.Rest() == NoRow
  {
    rows := [];
    ghost var start := q.Rest();
    var hasRow := true;
    while hasRow
      invariant q.Valid() && insert.Valid() && q.stepStarted
      invariant rows + Listed(q.Rest()) == Listed(start)
      invariant !hasRow ==> q.Rest() == NoRow
      decreases hasRow, q.Rest()
    {
      ghost var rest := q.Rest();
      InsertBeside(q, insert, memory);
      hasRow := q.StepSelect();
      if hasRow {
        rows := rows + [q.currentRow.columns];
      }
    }
  }
}
