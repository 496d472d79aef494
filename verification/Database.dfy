/** One table behind a driver that may refuse any call, with transactions. */
module Database {
  import opened Optional
  import opened Sql

  /** Where an operation was refused. */
  datatype Stage = Arguments | View | Begin | Build | GetText | Prepare | Hook | Bind | Step | Finalize | Commit

  datatype Rc = Ok | Failed(at: Stage)

  /** Whether an operation refused there leaves its transaction open. Its text builder's failure
      and COMMIT's are returned without a ROLLBACK; a refused ROLLBACK is not noticed. */
  predicate LeavesOpen(rollsBack: bool, at: Stage) {
    at in {GetText, Commit} || (!rollsBack && at !in {Arguments, View, Begin})
  }

  /** That is: it was refused before its transaction began, or ROLLBACK is granted and asked for. */
  lemma ClosedWhen(rollsBack: bool, at: Stage)
    ensures !LeavesOpen(rollsBack, at) <==>
            || at.Arguments? || at.View? || at.Begin?
            || (rollsBack && (at.Build? || at.Prepare? || at.Hook? || at.Bind? || at.Step? || at.Finalize?))
  {
  }

  class Db {
    var table: Table
    /** The table as it was when the open transaction began. */
    var saved: Option<Table>
    /** Which of the coming calls the driver, the allocator or a hook will refuse. */
    const refuses: nat -> bool
    var clock: nat
    /** Whether the driver grants ROLLBACK. */
    const rollsBack: bool

    constructor (table: Table, refuses: nat -> bool, rollsBack: bool)
      ensures this.table == table && saved.None? && this.refuses == refuses && this.rollsBack == rollsBack
    {
      this.table, saved := table, None;
      this.refuses, clock, this.rollsBack := refuses, 0, rollsBack;
    }

    /** No call is ever refused. */
    ghost predicate Willing() {
      forall n :: !refuses(n)
    }

    /** None of the calls in this span is refused. */
    ghost predicate Granted(from: nat, to: nat) {
      forall n | from <= n < to :: !refuses(n)
    }

    /** One call that has no effect on the data and may be refused. */
    method Call() returns (ok: bool)
      modifies this`clock
      ensures clock == old(clock) + 1 && ok == !refuses(old(clock))
    {
      ok := !refuses(clock);
      clock := clock + 1;
    }

    /** So many calls of hooks, in turn. */
    method Hooks(n: nat) returns (ok: bool)
      modifies this`clock
      ensures Willing() ==> ok
    {
      ok := true;
      for j := 0 to n
        invariant ok
      {
        ok := Call();
        if !ok {
          return;
        }
      }
    }

    /** Opens a transaction, unless one is open already. */
    method BeginTx() returns (ok: bool)
      modifies this`clock, this`saved
      ensures table == old(table)
      ensures ok ==> old(saved).None? && saved == Some(table)
      ensures Willing() && old(saved).None? ==> ok
      ensures !ok ==> saved == old(saved)
    {
      ok := Call();
      ok := ok && saved.None?;
      if ok {
        saved := Some(table);
      }
    }

    method CommitTx() returns (ok: bool)
      modifies this`clock, this`saved
      ensures table == old(table)
      ensures Willing() ==> ok
      ensures ok ==> saved.None?
      ensures !ok ==> saved == old(saved)
    {
      ok := Call();
      if ok {
        saved := None;
      }
    }

    method RollbackTx() returns (ok: bool)
      modifies this`table, this`saved
      ensures ok <==> rollsBack
      ensures ok ==> saved.None? && table == if old(saved).Some? then old(saved).value else old(table)
      ensures !ok ==> saved == old(saved) && table == old(table)
    {
      ok := rollsBack;
      if ok {
        if saved.Some? {
          table := saved.value;
        }
        saved := None;
      }
    }

    /** Runs a statement whose effect on the table would be `result`; None is a statement the
        table's constraints reject. A refused statement changes nothing. */
    method StepTo(result: Option<Table>) returns (ok: bool)
      modifies this`clock, this`table
      ensures Willing() && result.Some? ==> ok
      ensures ok ==> result == Some(table)
      ensures !ok ==> table == old(table)
    {
      ok := Call();
      ok := ok && result.Some?;
      if ok {
        table := result.value;
      }
    }
  }
}
