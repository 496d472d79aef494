# Verified model of c-orm's core

c-orm turns simple meanings into faster or batched forms: one statement for many rows, one query
for many parents, a pool of prepared statements, a hash table of objects. This Dafny project models
the code that does so and proves that the fast form still means the simple one, for all inputs and
for every way in which the driver, the allocator or a hook may refuse a call.

SQL is modelled as text made of tokens, with a parser and a meaning over tables of rows. A statement
is judged by what its text and its parameters, bound in the order in which the code binds them, do
to the tables. A database is an object whose calls can be refused one by one (`refuses`); "willing"
means that none is.

| component | files |
|---|---|
| batch UPDATE and INSERT | `Sql`, `SqlText`, `Hydration`, `Database`, `BatchLimits`, `BatchUpdate`, `BatchUpdateText`, `BatchUpdateMeaning`, `BatchUpdateRun`, `BatchInsert`, `BatchInsertRun` |
| eager loading of relations | `EagerLoading` |
| filtering by a relation path | `CaseFolding`, `ExistsQuery`, `ExistsMeaning`, `ExistsText`, `SelectBuilder` |
| cascading delete, sync | `Cascade`, `CascadeEffects`, `CascadeRun` |
| statement cache | `StatementCache`, `StatementCacheRuns`, `StatementCacheLoans`, `StatementCacheList` |
| topological sort, relation validation | `Graph`, `TopologicalSort`, `RelationCycles` |
| migrations, schema difference | `Migrations`, `MigrationRunner`, `SchemaDiff`, `SchemaDiffMeaning` |
| identity map, arena, row cursor, memory driver, escaping | `IdentityMap`, `Arena`, `RowCursor`, `MemoryDriver`, `EscapeString`, `CTypes` |
| shared | `Optional`, `Sequences` |

The code updates arrays, lists and counters in place; so does the model. Each such method is proved
to compute a specification function, and the theorems are about that function or about every run.

## Where the code does not do what one expects

Each of these is a fact about the code. The members named prove it, together with the condition under
which the expectation holds.

- A chunked update with repeated keys takes the first item of the last chunk that has the key; one
  update per item takes the last item. With several key columns the batch statement compares only
  the first of them, and rewrites rows that no item names (`BatchUpdateMeaning.BatchEqualsOneByOneIff`,
  `BatchUpdateMeaning.RewritesUnnamed`). An item with an empty text key updates the row that has that
  key in a batch, and not by itself (`BatchUpdateRun.EmptyKeyIsReplaced`).
- If the text of a batch statement cannot be fetched from the builder, or COMMIT is refused, or
  ROLLBACK is, the transaction is left open (`BatchUpdateRun.UpdateBatch`, `BatchInsertRun.InsertBatch`).
- A relation filter on a base table named `t1` (or `j_t1`, when the path starts with a many-to-many
  relation) compares the inner row with itself; so it does for `T1` where the database does not
  distinguish case in names (`ExistsMeaning.FilterExactIff`, `ExistsMeaning.UpperCaseIsCaptured`).
- Eager loading loses rows in two ways, and the call still succeeds: a refused read of a parent key ends
  the loop over the rows, and so does a foreign key that the target's metadata does not list. Rows are
  lost if and only if one of these meets a row (`EagerLoading.LoadAll`, `EagerLoading.LosesEverything`,
  `EagerLoading.LosesUnlisted`).
- When two many-to-many relations share a join table, the first to run takes away the links through
  which the second would have deleted its targets (`Cascade.SharedJoinTableIff`).
- A cascade binds keys of integer and text columns only; for any other type the parameter stays NULL
  and the children stay (`Cascade.OwnCascadeClearsIff`, `Cascade.NothingRefersIff`,
  `CascadeRun.UnboundKeyLeavesChild`). A row whose own key cannot be bound is not deleted although its
  children are (`CascadeRun.DeleteObject`). A cascade statement that is refused is passed over, and the
  call succeeds without it (`CascadeRun.PassedOver`).
- A cache hit whose reset is refused, or an eviction whose finalize is, leaves an entry in use that
  nobody holds: it is never reused or evicted, and the cache outgrows both its capacity and the
  number of statements ever held at once (`StatementCacheLoans.InUseMeansLentIff`,
  `StatementCacheLoans.StrandedOutgrows`).
- Disabling the statement cache while the driver refuses a finalize leaves the list with handles that
  were finalized, and, behind the first entry, with entries that were freed
  (`StatementCacheList.Connection.DisableStatementCaching`).
- A rollback of 0 steps rolls back everything (`MigrationRunner.Rollback`). A refused lookup reads as
  "not applied": the up script of a logged migration is then run again before recording it fails, and
  only then (`MigrationRunner.MigrateAll`, `MigrationRunner.LookupRefused`).
- The scripts of a schema difference are not always accepted. A column that changes its type needs
  PostgreSQL and a cast, and DOWN does not change it back; a change of case only adds a name that is
  taken; outside PostgreSQL a table's only column cannot be replaced and put back; SQLite does not drop
  the key column; a dropped key or reference comes back as a plain column
  (`SchemaDiffMeaning.UpMigrates`, `SchemaDiffMeaning.DownReverts`, `SchemaDiffMeaning.RoundTripIff`, and
  the inputs in `RetypedColumnIsNotReverted`, `CaseRenameRefused`, `OnlyColumnStays`, `KeyComesBackPlain`).
- An escaped string is a literal for readers of standard SQL. A reader for which a backslash is an escape,
  MySQL's default, reads it back if and only if every backslash stands before a percent sign or an
  underscore; a backslash at the end keeps the literal open (`EscapeString.EscapingReadsBackIff`,
  `EscapeString.BackslashStaysOpen`).
- Once a table has a string key in chain 0, an integer lookup of key 0 answers with a string key's
  object and key 0 is never stored (`IdentityMap.IntSearchExactIff`, `IdentityMap.IdentityMap.GetOrSetInt`);
  rows cached by hydration never meet this.
- A null text, or a blob of no bytes, in a column that is not nullable is bound as NULL, which reading it
  back reports as a type mismatch (`Hydration.RoundTripIff`).
- An arena request so large that a size_t sum wraps to a size that seems to fit is placed outside its
  block (`Arena.PlacementSoundIff`).
- A failed `c_orm_hydrate_all` drops the array's data but keeps its capacity, so that the array is fit
  for another call only if it had no capacity before (`RowCursor.HydrateAll`).

## Model

| member | source | states |
|---|---|---|
| `BatchUpdateText.TextAndParametersAgree` | src/c_orm_api.c:4079-4265 | for every chunk, the rendered text has exactly as many placeholders as the bind loops supply values, and filled with them in loop order it parses as the intended UPDATE: one CASE per non-key column with one arm per item, and the keys as IN list |
| `BatchUpdateMeaning.ExecRowTakesFirst` | src/c_orm_api.c:4098-4182 | that statement, run on a row, overwrites the non-key columns with the data of the first item of the chunk whose key matches, and leaves other rows alone |
| `BatchUpdateMeaning.ChunkText` | src/c_orm_api.c:4079-4265 | on any table, executing the filled text of a chunk gives the table in which each row took its first matching item |
| `BatchUpdateMeaning.ChunksTakeWinner` | src/c_orm_api.c:4055-4313 | after all chunks a row holds the data of the first match in the last chunk that has its key |
| `BatchUpdateMeaning.OneByOneTakesLast` | src/c_orm_api.c:3613-3689 | with one key column, updating the items one at a time leaves the data of the last item with the row's key |
| `BatchUpdateMeaning.BatchEqualsOneByOne` | src/c_orm_api.c:4055-4265 | for one key column, pairwise distinct keys and every chunk size, the batch equals one update per item, in order |
| `BatchUpdateMeaning.BatchEqualsOneByOneIff` | src/c_orm_api.c:4055-4265 | in general: with one key column they are equal on every table if and only if, for each key, the chunk-wise winner and the last item carry the same data; with several, if and only if the batch writes nothing |
| `BatchUpdateMeaning.DisagreeShows` | src/c_orm_api.c:4131-4145 | with one key column, otherwise there is a table on which they differ |
| `BatchUpdateMeaning.RewritesUnnamed` | src/c_orm_api.c:4026-4031 | with several key columns, a table of one row that no item names and that the batch rewrites |
| `BatchUpdateMeaning.OtherRowsUntouched` | src/c_orm_api.c:4147-4187 | rows whose first key column no item carries are unchanged, and no row is added or removed |
| `BatchUpdateRun.SingleUpdateMeans` | src/c_orm_api.c:3613-3689 | and that update of one item is what c_orm_update does to a row, as it sets every column where all key columns are the struct's, if no key is secure or empty text |
| `BatchUpdateRun.EmptyKeyIsReplaced` | src/c_orm_api.c:2573-2582 | an empty text key is replaced by a generated one before the WHERE is bound: c_orm_update leaves the row with the empty key, to which the batch applies the item |
| `BatchUpdateRun.AutoChunkFits` | src/c_orm_api.c:4039-4047 | an automatically chosen chunk binds at most 30000 parameters |
| `BatchUpdateRun.AutoChunkPositive` | src/c_orm_api.c:4042-4047 | it is at least 1 exactly when one row needs at most 30000 parameters; at 0 the loop would not advance |
| `BatchUpdateRun.AutoChunk` | src/c_orm_api.c:4042-4047 | it is the largest number of rows that fits, or 500 |
| `BatchUpdateRun.SyntaxCheck` | src/c_orm_api.c:4194-4203 | preparing fails for want of anything to set exactly when every column is a key column |
| `BatchUpdateRun.RenderUpdate` | src/c_orm_api.c:4079-4187 | the rendering loops produce the statement text, token for token |
| `BatchUpdateRun.BindChunk` | src/c_orm_api.c:4205-4265 | the bind loops supply the parameters in the order of the placeholders, and succeed exactly when every value has a binding and no call is refused |
| `BatchUpdateRun.BindableIff` | src/c_orm_api.c:4216-4239 | an item can be bound exactly if its first key column is an integer that is there, or text, and each other column can; the key bound reads back as the item's key |
| `BatchUpdateRun.RunChunk` | src/c_orm_api.c:4068-4305 | one chunk, when it succeeds, has the meaning of its items on the table |
| `BatchUpdateRun.UpdateChunks` | src/c_orm_api.c:4055-4313 | the loop covers every item exactly once for every chunk size |
| `BatchUpdateRun.UpdateBatch` | src/c_orm_api.c:3996-4323 | c_orm_update_batch: on success every item was applied and the transaction closed, each value written is what the driver is to hold for the item's field, and with one key column and agreeing or distinct keys the table is that of one update per item; on failure the table is as at BEGIN, or, exactly where named, the transaction is still open on that table; no failure without a cause, an item that cannot be bound being one |
| `Database.Db.BeginTx` | src/c_orm_api.c:4049-4053 | a transaction opens only if none is open, and remembers the table |
| `Database.Db.RollbackTx` | src/c_orm_api.c:4310-4312 | rolling back restores the table as at BEGIN; refused, it leaves the transaction open |
| `Database.Db.CommitTx` | src/c_orm_api.c:4315-4317 | a refused commit leaves the transaction open |
| `Database.ClosedWhen` | src/c_orm_api.c:4305-4323 | a failed batch leaves no transaction open exactly if it failed before BEGIN, or elsewhere than in fetching the text or in COMMIT with ROLLBACK granted |
| `Hydration.BindFieldIff` | src/c_orm_api.c:2553-2795 | a field can be bound exactly if its type is one that is bound, or it is a null pointer, and its encryption hook does not fail; the value bound reads back through the column's type as the field, or is the bytes the hook makes of the value that does, a timestamp being shifted and an empty text key replaced before |
| `Hydration.StandsOne` | src/c_orm_api.c:97-475 | only one value reads back as a given field |
| `Hydration.RoundTripIff` | src/c_orm_api.c:97-475 | without hooks and time zone, a field that was bound is read back if and only if its column is nullable or the field is neither a null pointer nor a blob of no bytes |
| `SqlText.ListParses` | src/c_orm_api.c:4166-4187 | a rendered placeholder list, filled, reads back as exactly the bound values |
| `Sql.BindsList` | src/c_orm_api.c:4205-4265 | a parameter index that runs in step with the values makes the driver see exactly that list |
| `BatchInsert.ParameterOf` | src/c_orm_api.c:3006-3038 | column k of the j-th item in a chunk is parameter j * columns + k + 1 |
| `BatchInsert.CountInsertParams` | src/c_orm_api.c:2935-2972 | a chunk has columns * items parameters |
| `BatchInsert.ChunkText` | src/c_orm_api.c:2894-2988 | the filled text of a chunk inserts exactly its rows, in order, skipping conflicts under DO NOTHING and failing as a whole otherwise |
| `BatchInsert.InsertSplit` | src/c_orm_api.c:2871-2881 | inserting chunk after chunk is inserting all rows in order |
| `BatchInsert.InsertKeepsAll` | src/c_orm_api.c:2935-2972 | if inserting succeeds without skipping, the rows stand behind the old ones, each once and in order |
| `BatchInsert.InsertAllIff` | src/c_orm_api.c:2935-2972 | and it succeeds without skipping if and only if no row has the primary key of a row in the table or before it |
| `BatchInsert.SkippingTakesNew` | src/c_orm_api.c:2973-2988 | under DO NOTHING the table is followed by exactly the rows that had no such key when their turn came, unchanged and in order |
| `BatchInsertRun.AutoChunkFits` | src/c_orm_api.c:2859-2863 | an automatically chosen chunk binds at most 30000 parameters and is positive exactly up to 30000 columns |
| `BatchInsertRun.AutoChunk` | src/c_orm_api.c:2859-2863 | it is the largest number of rows that fits, or 1000 |
| `BatchInsertRun.BindRow` | src/c_orm_api.c:2553-2795 | one parameter per column, from the running index on, each being what the driver is to hold for the field: it reads back as the field, or is what the hook made of such a value; the row is bound only if every field can be, and no call is refused |
| `BatchInsertRun.RenderInsert` | src/c_orm_api.c:2894-2988 | the rendering loops produce the statement text |
| `BatchInsertRun.InsertChunks` | src/c_orm_api.c:2871-3083 | for every chunk size, all items go in once, and the reported progress ends at the number of items |
| `BatchInsertRun.InsertBatch` | src/c_orm_api.c:2831-3093 | c_orm_insert_batch_ext: on success the table is the old one with a row for every item behind it, or for every one that was new under DO NOTHING, and each of its values is what the driver is to hold for the item's field; after a failure the table is as at BEGIN, or, exactly where named, the transaction is still open on that table; no failure without a cause |
| `EagerLoading.QueryTextSelects` | src/c_orm_api.c:1761-1779 | the query text for n parents, filled with their keys, selects the rows whose key is one of them |
| `EagerLoading.SelectKeepsChildren` | src/c_orm_api.c:1728-1759 | selecting for many parents keeps each one's rows, in result order |
| `EagerLoading.LookupAlone` | src/c_orm_api.c:1734-1759 | the rows dealt to a parent are those its own query returns |
| `EagerLoading.DirectChildren` | src/c_orm_api.c:1733-1759 | for direct relations these are exactly the rows whose foreign key is the parent's key |
| `EagerLoading.DirectInOrder` | src/c_orm_api.c:1733-1759 | the rows of the target, read under its foreign key in the order of the metadata, are a scan as LoadAll asks for |
| `EagerLoading.JoinedChildren` | src/c_orm_api.c:1650-1732 | for many-to-many relations, exactly the rows some link of the parent points at |
| `EagerLoading.DealRow` | src/c_orm_api.c:1875-1962 | a row goes to the one parent it names; a single-valued field keeps the first; a row that cannot be hydrated is an error |
| `EagerLoading.FindColumn` | src/c_orm_api.c:1858-1866 | the search finds the first listed column with the foreign key's name, and none only if there is none |
| `EagerLoading.DealRows` | src/c_orm_api.c:1846-1972 | the rows of a chunk are dealt out in order; some are left over, without an error, if and only if a key read is refused or the relation is direct and the metadata does not list its foreign key |
| `EagerLoading.LoadChunk` | src/c_orm_api.c:1642-1984 | a chunk finishes its own parents and leaves the earlier ones as they are; its rows are lost if and only if a key read is refused, or the foreign key is not listed and the chunk has rows |
| `EagerLoading.LoadAll` | src/c_orm_api.c:1613-1985 | for any number of parents with unique keys, each ends with exactly what a lookup for it alone returns, or its first row; rows are lost, without an error, if and only if a key read is refused, or the relation is direct, no listed column has the foreign key's name and some parent has rows, and then some list is short; none is invented |
| `EagerLoading.LosesEverything` | src/c_orm_api.c:1846-1860 | a driver that refuses just these reads: the call succeeds and every field is empty |
| `EagerLoading.LosesUnlisted` | src/c_orm_api.c:1858-1871 | a foreign key that is no listed column, with nothing refused: the call succeeds and every field is empty |
| `ExistsMeaning.AliasesDiffer` | src/c_orm_query_builder.c:415-418 | t1, t2, .. and j_t1, j_t2, .. are pairwise different names |
| `ExistsMeaning.BuildMeansPath` | src/c_orm_query_builder.c:350-540 | over any database, for a path of any length, the nested EXISTS holds for a row exactly when following the relations reaches a row that compares as asked, unless the first alias hides the row's own name |
| `ExistsQuery.HopIs` | src/c_orm_query_builder.c:388-408 | a path continues with the first relation of that name, and ends in an error if it has no target |
| `ExistsQuery.KeyNameIs` | src/c_orm_query_builder.c:391-415 | the key a join compares is the first primary key column, and id where there is none |
| `ExistsQuery.RelatedIff` | src/c_orm_query_builder.c:417-520 | two rows are related if the foreign key is the local key, or some row of the join table has both keys; NULL relates nothing |
| `ExistsMeaning.CapturedMeansOtherwise` | src/c_orm_query_builder.c:415-440 | if it does, then for every comparison that some value meets there is a database on which the filter selects a row that the path does not, for databases that fold the case of names and for those that do not |
| `ExistsMeaning.FilterExactIff` | src/c_orm_query_builder.c:543-567 | for every comparison that can be met, the filter means the path over every database if and only if the base table's name is not the first alias, compared as the database compares names |
| `ExistsMeaning.UpperCaseIsCaptured` | src/c_orm_query_builder.c:415-440 | a table `T1` is captured exactly where case does not count |
| `ExistsMeaning.KeysDiffer` | src/c_orm_query_builder.c:415-418 | two generated aliases stay different names where case does not count |
| `ExistsText.CondParses` | src/c_orm_query_builder.c:350-540 | the text of a condition reads back as that condition, whatever follows it |
| `ExistsText.BalancedWithOneParam` | src/c_orm_query_builder.c:350-540 | its parentheses balance and it has exactly one placeholder, at any depth |
| `SelectBuilder.BuildExistsQuery` | src/c_orm_query_builder.c:350-540 | the recursive appending code writes the text of that condition behind what is there; with memory it fails exactly when a hop is unknown or has no target, and it never takes text away |
| `SelectBuilder.SelectBuilderInit` | src/c_orm_query_builder.c:33-75 | a new builder holds the SELECT of the base table and no condition; there is none only if memory is refused |
| `SelectBuilder.Select.AppendWhere` | src/c_orm_query_builder.c:129-157 | one more test behind WHERE or AND, with no, one or two placeholders; out of memory the clauses stay and the text only grows |
| `SelectBuilder.Select.WhereIn` | src/c_orm_query_builder.c:257-300 | one more IN list with so many placeholders; an empty one is refused before anything is appended |
| `SelectBuilder.Select.WhereRelation` | src/c_orm_query_builder.c:542-568 | one more relation condition behind WHERE or AND, or a reported failure after which the text is no longer that of the clauses |
| `SelectBuilder.QueryParses` | src/c_orm_query_builder.c:542-568 | after any number of calls the text reads back as exactly the conditions asked for, in order, the AND of a BETWEEN included |
| `SelectBuilder.QueryPlaceholders` | src/c_orm_query_builder.c:129-568 | the query has exactly as many placeholders as its conditions take values |
| `SelectBuilder.QueryMeansRequests` | src/c_orm_query_builder.c:542-568 | with the values bound in order, a row passes exactly when it meets every request with the values at that request's positions |
| `Cascade.ApplyKeepsFree` | src/c_orm_api.c:4387-4475 | no cascade statement ever creates a reference |
| `Cascade.NoDanglingKeys` | src/c_orm_api.c:4371-4496 | after the cascade no row of a cascaded child table and no join row refers to the deleted row through a relation whose key is bound or NULL, whatever the other relations do |
| `Cascade.OwnCascadeClearsIff` | src/c_orm_api.c:4371-4496 | a relation's own statements clear its references in every database if and only if the key's type is one the code binds, or the key is NULL |
| `Cascade.NothingRefersIff` | src/c_orm_api.c:4371-4496 | the whole cascade leaves no reference in any database if and only if each relation's key is NULL or some relation's statements, its own or another's, clear it |
| `Cascade.CascadeClears` | src/c_orm_api.c:4371-4496 | in particular when every key is bound or NULL |
| `Cascade.OthersUntouched` | src/c_orm_api.c:4387-4475 | statements leave every table they do not name as it was |
| `Cascade.LinkedTargetsGone` | src/c_orm_api.c:4425-4496 | with a key that is bound, the targets a many-to-many relation linked before the delete are all gone after it, if no earlier relation takes links away without deleting the same targets |
| `Cascade.SharedJoinTableIff` | src/c_orm_api.c:4425-4496 | of two many-to-many relations with the same key, the later one deletes its linked targets in every database if and only if the earlier is harmless to it |
| `Cascade.LeftBehind` | src/c_orm_api.c:4425-4496 | otherwise a database with one link and one target shows a target left behind |
| `CascadeEffects.DirectEffect` | src/c_orm_api.c:4387-4424 | a child table that only one relation writes: under DELETE exactly the rows that held the key are gone, the others in order and unchanged; under SET NULL all rows are there, in their places, changed in the foreign key alone, which is NULL exactly where it held the key; otherwise nothing changes |
| `CascadeEffects.JoinEffect` | src/c_orm_api.c:4465-4496 | exactly the rows of the join table that held the key are gone |
| `CascadeEffects.TargetEffect` | src/c_orm_api.c:4425-4464 | under DELETE exactly the targets are gone that the join table linked before the delete; otherwise none |
| `CascadeEffects.DeletedEffects` | src/c_orm_api.c:4371-4553 | after the whole delete this holds for every relation whose tables no other statement writes, tables nobody writes are as they were, and of the object's own table exactly the rows with its primary key, column by column, are gone |
| `CascadeRun.CascadeRelation` | src/c_orm_api.c:4371-4496 | the statements of one relation, targets before join rows |
| `CascadeRun.DeleteRow` | src/c_orm_api.c:4498-4553 | the DELETE by primary key, of one or several columns: success only when every key column can be bound, and then with no failure unless something is refused |
| `CascadeRun.DeleteObject` | src/c_orm_api.c:4333-4569 | c_orm_delete: no reference ever appears; success means the row is gone and, unless a cascade statement was passed over, that every table is as its relation asks, row by row (`CascadeEffects.Effects`), and with every key bound nothing refers to the row |
| `CascadeRun.PassedOver` | src/c_orm_api.c:4400-4425 | a driver that refuses cascade statements only: the call succeeds and no other table has changed |
| `CascadeRun.UnboundKeyLeavesChild` | src/c_orm_api.c:4387-4475 | a key of another type: the delete succeeds and the child still refers to the row |
| `CascadeRun.SyncReplacesLinks` | src/c_orm_api.c:8033-8097 | after a sync the parent's links are exactly the given children, in order, and every other parent's links are unchanged |
| `CascadeRun.SyncLinks` | src/c_orm_api.c:8015-8106 | c_orm_sync on a join table: success means that the other parents' rows are left, in order, followed by one row for each child, with the parent's and the child's integer keys, and that no other table changed; a failure leaves the old table, or the parent's old links gone and the first few new ones present |
| `CascadeRun.GetIntField` | src/c_orm_api.c:2488-2539 | the value of the first column of that name, if it is an integer column and not NULL; TYPE_MISMATCH exactly for a column of another type |
| `CascadeRun.IntFieldIff` | src/c_orm_api.c:2488-2539 | it is found exactly where the object holds it |
| `StatementCacheList.StmtCache.Unlink` | src/c_orm_cache.c:269-276 | removing an entry other than the head keeps a well-formed doubly linked list of the others in order |
| `StatementCacheList.StmtCache.LinkFirst` | src/c_orm_cache.c:330-339 | inserting at the head keeps it well formed |
| `StatementCacheList.StmtCache.Reuse` | src/c_orm_cache.c:264-285 | a hit is marked in use and moved to the head, the others keep their order |
| `StatementCacheList.StmtCache.FindReusable` | src/c_orm_cache.c:262-297 | the search finds the first free entry for exactly this SQL |
| `StatementCacheList.StmtCache.FindVictim` | src/c_orm_cache.c:342-371 | the search from the tail finds the last free entry |
| `StatementCacheList.StmtCache.Trim` | src/c_orm_cache.c:341-372 | over capacity exactly that entry leaves the list, and never the head |
| `StatementCacheList.Connection.EnableStatementCaching` | src/c_orm_cache.c:134-179 | enabling twice changes nothing; capacity 0 means 128 |
| `StatementCacheList.Connection.Prepare` | src/c_orm_cache.c:233-378 | the linked list does exactly what the state machine says, on every path |
| `StatementCacheList.Connection.FinalizeQuery` | src/c_orm_cache.c:399-464 | a cached handle becomes free where it stands, any other goes to the driver |
| `StatementCacheList.Connection.DisableStatementCaching` | src/c_orm_cache.c:187-223 | every entry is finalized and freed; after a refusal the list still holds all of them, those before the refused one freed |
| `StatementCacheRuns.StepKeeps` | src/c_orm_cache.c:134-464 | every legal event keeps the invariant |
| `StatementCache.ReuseMeans` | src/c_orm_cache.c:260-298 | a free entry for the SQL is given out and the driver is not asked; only a refused reset fails |
| `StatementCache.MissMeans` | src/c_orm_cache.c:300-378 | otherwise the driver prepares; an entry that gets no memory is no failure, one that does goes to the head, and over capacity a free entry is finalized, the only thing that can still fail |
| `StatementCache.GiveBackMeans` | src/c_orm_cache.c:399-464 | giving back a cached statement never fails and frees its entry; any other is finalized by the driver |
| `StatementCache.EnableMeans` | src/c_orm_cache.c:134-178 | enabling makes an empty cache of the size asked for, 128 for 0, unless there is one or memory is refused |
| `StatementCache.DisableMeans` | src/c_orm_cache.c:187-225 | disabling finalizes the handles from the head on, up to the first refusal |
| `StatementCacheRuns.LentOnceAndExactly` | src/c_orm_cache.c:262-339 | over every run, a handle is held by at most one borrower, was compiled from exactly the SQL asked for, and has not been finalized |
| `StatementCacheRuns.ReusedOnlyWhenFree` | src/c_orm_cache.c:262-295 | a handle given out is not held by anybody |
| `StatementCacheRuns.CountWithinFlagged` | src/c_orm_cache.c:330-372 | over every run the cache never holds more than the larger of its capacity and the peak number of entries flagged in use |
| `StatementCacheLoans.InUseMeansLentIff` | src/c_orm_cache.c:262-372 | over every run, every entry in use is held by a caller if and only if, since the last enable, no reset of a hit and no finalize of an eviction was refused |
| `StatementCacheLoans.CountStaysBounded` | src/c_orm_cache.c:330-372 | then the cache never holds more than the larger of its capacity and the peak number of cached statements held at once |
| `StatementCacheLoans.StrandedOutgrows` | src/c_orm_cache.c:262-295 | otherwise not: a run with capacity 1 and never more than one statement held that ends with two entries |
| `StatementCacheRuns.FinalizedExactlyOnce` | src/c_orm_cache.c:202-220 | no handle is finalized twice; after a successful disable with nothing on loan every handle ever prepared has been finalized, including those the cache could not store |
| `StatementCacheRuns.VictimIsLeastRecent` | src/c_orm_cache.c:341-372 | an eviction takes a free entry, and of all free entries the one prepared longest ago |
| `Graph.RankedIsAcyclic` | src/c_orm_c_to_sql.c:397-456 | a rank that falls along every edge rules out cycles |
| `Graph.StuckIsCyclic` | src/c_orm_c_to_sql.c:452-454 | a nonempty set of nodes each with an edge inside the set contains a cycle |
| `TopologicalSort.ReferencesIff` | src/c_orm_c_to_sql.c:399-410 | the code takes a column for a foreign key exactly if its name is that of a table followed by _id |
| `TopologicalSort.CountInDegrees` | src/c_orm_c_to_sql.c:397-414 | each schema's in-degree is the number of its `_id` columns that name a schema |
| `TopologicalSort.SeedQueue` | src/c_orm_c_to_sql.c:417-422 | the queue starts with exactly the schemas that reference nobody |
| `TopologicalSort.QueueHasRoom` | src/c_orm_c_to_sql.c:394-441 | no index is enqueued twice, so the queue array never overflows |
| `TopologicalSort.TellAll` | src/c_orm_c_to_sql.c:428-446 | one pass updates every in-degree and enqueues exactly those that reach zero |
| `TopologicalSort.Drain` | src/c_orm_c_to_sql.c:424-447 | the output is the front of the queue, and what it holds is exactly what is done |
| `TopologicalSort.Sort` | src/c_orm_c_to_sql.c:382-456 | cdd_c_meta_topological_sort: 0 exactly if the columns named after a schema with _id behind form no cycle, and then the output is a permutation with each schema so named before those that have the column; 2 exactly if there is a cycle |
| `RelationCycles.DfsValidateTable` | src/c_orm_api.c:5221-5287 | the recursion terminates; colour-1 tables are the current path, colour-2 tables lead only to tables finished before them |
| `RelationCycles.BackEdgeIsCycle` | src/c_orm_api.c:5243-5249 | meeting a colour-1 table closes a cycle |
| `RelationCycles.AllFinished` | src/c_orm_api.c:5250-5282 | when all tables are finished, the finishing order is a rank, so there is no cycle |
| `RelationCycles.TargetIff` | src/c_orm_api.c:5257-5268 | a relation leads to the first listed table with its target's name and, if it gives none or no table has it, to what its pointer points to |
| `RelationCycles.ValidateRelations` | src/c_orm_api.c:5364-5409 | c_orm_validate_relations: OK exactly when every target is listed and the relation graph is acyclic; with every target listed, RECURSION exactly when it has a cycle; NOT_FOUND only with a target that is not listed |
| `Migrations.PendingIsNew` | src/c_orm_migrations.c:191-212 | what is applied is new: no version is logged twice even if the array repeats it |
| `Migrations.PendingCovers` | src/c_orm_migrations.c:191-212 | in the end every version of the array is logged, and nothing else is added |
| `Migrations.NothingPendingAfter` | src/c_orm_migrations.c:191-212 | a second call has nothing to do |
| `Migrations.PendingAt` | src/c_orm_migrations.c:191-212 | what is applied are the migrations whose version is neither logged nor at an earlier place of the array, in array order |
| `Migrations.RunUpsTrace` | src/c_orm_migrations.c:246-258 | the schema after them is reached exactly if each script succeeds on the schema before it, its own result being the next |
| `Migrations.RunDownsTrace` | src/c_orm_migrations.c:376-407 | so it is for the down scripts, of the first migration with each version, last version first |
| `Migrations.RoundTrip` | src/c_orm_migrations.c:358-411 | if each down script undoes its up script, rolling back as many steps as were applied restores the schema and the log |
| `MigrationRunner.Db.GetApplied` | src/c_orm_migrations.c:677-797 | the applied versions, oldest first |
| `MigrationRunner.ApplyOne` | src/c_orm_migrations.c:221-296 | a step either logs its version or leaves the log, succeeds only with its script run, and a logged migration is refused after its script has run |
| `MigrationRunner.MigrateAll` | src/c_orm_migrations.c:154-310 | c_orm_migrate_all: whatever fails, the log is the old one and a prefix of what was pending, in array order and without repeats, and the schema is that of this prefix or has the next script on top; on success it is all of it, and each script's own result is the schema the next one starts from; a logged migration is run again only if its lookup is refused, and then the call fails; dry_run changes nothing |
| `MigrationRunner.LookupRefused` | src/c_orm_migrations.c:191-216 | a driver that refuses just the lookups: the up script of a logged migration runs a second time and the call fails |
| `MigrationRunner.RollBackOne` | src/c_orm_migrations.c:389-419 | one step back removes exactly the last log entry, or nothing |
| `MigrationRunner.Rollback` | src/c_orm_migrations.c:321-433 | c_orm_migrate_rollback: success removes exactly the last min(steps, applied) entries, running their down scripts in reverse; a failure removes only entries from the end |
| `SchemaDiff.Diff` | src/c_orm_c_to_sql.c:205-258 | the loops compute the added, dropped and altered columns |
| `SchemaDiff.DifferenceCovers` | src/c_orm_c_to_sql.c:205-258 | the three are disjoint and cover exactly the columns that differ |
| `SchemaDiff.DifferenceInOrder` | src/c_orm_c_to_sql.c:205-258 | each list names its columns in the order of the schema they come from |
| `SchemaDiff.SqlTypeIs` | src/c_orm_c_to_sql.c:21-66 | the first line of the mapping with a pattern that occurs in the C type gives the SQL type of the dialect; without one it is BLOB |
| `SchemaDiff.DiffToSql` | src/c_orm_c_to_sql.c:260-322 | one pass over each list writes both scripts |
| `SchemaDiffMeaning.UpMigrates` | src/c_orm_c_to_sql.c:275-316 | on the table CREATE TABLE made, every statement of UP is accepted if and only if no column changes its case only, the added types exist, outside PostgreSQL a column is left, each dropped column can be dropped in its role, and each altered one has a cast in PostgreSQL; then UP leads to the columns of the new schema with their types, those added being plain |
| `SchemaDiffMeaning.MigratedIff` | src/c_orm_c_to_sql.c:161-185 | and that is the table which CREATE TABLE makes of the new schema if and only if no added column is a key or a reference |
| `SchemaDiffMeaning.RolesAre` | src/c_orm_c_to_sql.c:161-185 | the key is the column id; a reference is a column named after a table with _id behind |
| `SchemaDiffMeaning.DownReverts` | src/c_orm_c_to_sql.c:275-316 | after UP, DOWN is accepted if and only if the dropped types exist and, outside PostgreSQL, nothing was added or a column is common to both schemas; it brings every column back, altered ones with the new type, dropped ones plain |
| `SchemaDiffMeaning.RoundTripIff` | src/c_orm_c_to_sql.c:275-316 | UP then DOWN is the identity if and only if both are accepted, every altered column keeps its SQL type, and no dropped column was a key or a reference |
| `SchemaDiffMeaning.RoundTripWhenNothingAltered` | src/c_orm_c_to_sql.c:275-300 | in particular, in every dialect, when nothing was altered, a column is kept and plain columns are dropped |
| `SchemaDiffMeaning.RetypedColumnIsNotReverted` | src/c_orm_c_to_sql.c:301-316 | in PostgreSQL both scripts are accepted and a column whose SQL type changes, from int to char for one, is not turned back |
| `SchemaDiffMeaning.IntToChar` | src/c_orm_c_to_sql.c:24-41 | int and char are such types |
| `SchemaDiffMeaning.OnlyColumnStays` | src/c_orm_c_to_sql.c:275-300 | in SQLite and MySQL, replacing a table's only column is accepted and cannot be taken back |
| `SchemaDiffMeaning.CaseRenameRefused` | src/c_orm_c_to_sql.c:205-258 | a change of case only counts as a drop and an addition, and every dialect refuses the UP script |
| `SchemaDiffMeaning.KeyComesBackPlain` | src/c_orm_c_to_sql.c:171-179 | dropping the column id is refused by SQLite only; after DOWN it is there again and not the key |
| `SchemaDiff.ContainsIff` | src/c_orm_c_to_sql.c:21-66 | the search behind the type mapping finds a pattern exactly where the C type has it |
| `IdentityMap.FirstObjectIsKept` | src/c_orm_api.c:6109-6151 | over any sequence of calls a key holds the first object ever offered for it, and key 0 only one offered before any string key of its chain |
| `IdentityMap.StringAnswersForZero` | src/c_orm_api.c:6109-6121 | with a string key in its chain, the search for key 0 always stops at a string key's entry |
| `IdentityMap.IntSearchExactIff` | src/c_orm_api.c:6109-6121 | the integer search stops at the entry of its own key, or at none, if and only if the key is not 0 or the chain holds no string key |
| `IdentityMap.StrLookupExact` | src/c_orm_api.c:6192-6202 | the string search is exact |
| `IdentityMap.StringTakenForZero` | src/c_orm_api.c:6109-6121 | a string entry that is taken for integer key 0 |
| `IdentityMap.HashOf` | src/c_orm_api.c:6186-6190 | the string hash, with size_t wrap-around, selects the key's chain |
| `IdentityMap.HashIsBase33` | src/c_orm_api.c:6186-6189 | wrapping around at every step is wrapping once at the end |
| `IdentityMap.SlotIs` | src/c_orm_api.c:6108-6109 | an integer is in the chain of its residue modulo 64, negative ones too, a string in that of its value in base 33 |
| `IdentityMap.FirstOfferedIff` | src/c_orm_api.c:6086-6244 | the object a key answers with is that of the first call that offered one; for key 0, before a string key of its chain was offered |
| `IdentityMap.FirstOfferedStays` | src/c_orm_api.c:6086-6244 | and stays so whatever calls follow |
| `IdentityMap.IdentityMap.GetOrCreateBucket` | src/c_orm_api.c:6038-6075 | one bucket per table, made on first use if memory is granted |
| `IdentityMap.IdentityMap.GetOrSetStr` | src/c_orm_api.c:6162-6244 | the answer is the object of the first call of the run that offered one for the key, this call included; NOT_FOUND exactly if there was none; refused memory is possible only then, and changes nothing |
| `IdentityMap.IdentityMap.GetOrSetInt` | src/c_orm_api.c:6086-6151 | so it is for integer keys, negative ones too, unless key 0 was preceded by a string key of its chain; then a string key's object is the answer and nothing is stored |
| `IdentityMap.HydrateCacheRow` | src/c_orm_api.c:6297-6362 | a row is cached under its first primary key column and answered with the object of the first row that had its key; without a usable key it is passed through or refused |
| `IdentityMap.CacheKeyIff` | src/c_orm_api.c:6326-6352 | the key is the integer, or the string that is there, in the first primary key column |
| `IdentityMap.CachedTwice` | src/c_orm_api.c:6297-6362 | two rows with the same key give the same object |
| `Arena.PlacementSoundIff` | src/c_orm_arena.c:88-119 | a request is placed aligned, inside its block and inside what the block counts as used if and only if no size_t sum wraps to a size that seems to fit; one that wraps and still exceeds the block does no harm |
| `Arena.PlacedWhere` | src/c_orm_arena.c:88-119 | where nothing wraps, the request is rounded up to a multiple of 8; it goes behind what is taken of the head block if at most 4096 bytes are then taken, and otherwise to a new block of 4096 bytes or as many as it needs |
| `Arena.ModestRequestsNeverWrap` | src/c_orm_arena.c:88-119 | requests below half the address space never do |
| `Arena.Arena.Alloc` | src/c_orm_arena.c:76-123 | all ranges handed out are pairwise disjoint, 8-byte aligned and inside their block, for requests larger than a block too; no byte changes; it fails exactly for size 0 or when a new block is needed and not granted |
| `Arena.Arena.Strdup` | src/c_orm_arena.c:132-168 | the copy is new memory holding the string and its terminator; everything handed out before keeps its contents |
| `RowCursor.Next` | src/c_orm_api.c:3193-3250 | a call delivers the next live rows up to the chunk size, or the first failure, even when the counter wraps below zero |
| `RowCursor.FindBatchInit` | src/c_orm_api.c:3135-3180 | a refused size, allocation or prepare is reported and gives no iterator; otherwise the chunks it will deliver, end to end, are the live rows of the whole result set, none is empty, and they end as the result set does |
| `RowCursor.EmptyMeansEndIff` | src/c_orm_api.c:3135-3180 | a call that fetches nothing has reached the end, for every result set, if and only if the chunk size is not 0, the one size that is refused |
| `RowCursor.HydrateAll` | src/c_orm_api.c:2003-2090 | all rows that have not expired, in order, in an array grown by doubling; a failure, of the driver or of memory, drops the data and keeps capacity and length |
| `RowCursor.ChunksAreAllRows` | src/c_orm_api.c:3216-3242 | for every chunk size the chunks laid end to end are the rows hydrate_all gives, and they end with the same failure |
| `RowCursor.ChunksAreFull` | src/c_orm_api.c:3216-3242 | every chunk but the last is full |
| `MemoryDriver.MemQuery.Bind` | src/c_orm_memory.c:350-376 | binding frees the cell bound before and owns a new one; no other cell changes hands; without memory the slot is empty, or reads as NULL |
| `MemoryDriver.MemQuery.StepInsert` | src/c_orm_memory.c:525-566 | the bound cells become the columns of a new first row, and none is lost or shared; without memory nothing that can be read changes |
| `MemoryDriver.MemQuery.StepSelect` | src/c_orm_memory.c:568-582 | the cursor returns the rows from the head on, one a step, and then stays at the end |
| `MemoryDriver.MemQuery.Reset` | src/c_orm_memory.c:740-748 | the cursor starts over, at what the table holds by then |
| `MemoryDriver.MemQuery.Finalize` | src/c_orm_memory.c:718-733 | exactly the cells still bound are freed, each once |
| `MemoryDriver.MemDb.FreeCell` | src/c_orm_memory.c:129-140 | a cell is freed by the slot that owns it, hence at most once |
| `MemoryDriver.ReadWhileInserting` | src/c_orm_memory.c:525-582 | rows inserted while a cursor is open are not seen by it |
| `EscapeString.Escape` | src/c_orm_api.c:7135-7183 | success exactly when length plus quotes is below the buffer size; nothing outside the buffer, or behind the terminator, is written |
| `EscapeString.EscapedLength` | src/c_orm_api.c:7156-7173 | the escaped text is longer by the number of quotes |
| `EscapeString.ReadsBack` | src/c_orm_api.c:7156-7177 | as the body of a quoted literal, a reader of standard SQL reads it back as the input and ends where it should, whatever SQL follows |
| `EscapeString.EscapingReadsBackIff` | src/c_orm_api.c:7156-7177 | a reader that takes a backslash for an escape does so in every context if and only if every backslash stands before a percent sign or an underscore, and otherwise in none |
| `EscapeString.BackslashStaysOpen` | src/c_orm_api.c:7156-7177 | for it, the input of one backslash leaves the literal unclosed |
| `EscapeString.EscapedInjective` | src/c_orm_api.c:7156-7177 | two inputs never escape to the same text |

## Left out

- SQLite, PostgreSQL and MySQL drivers and schema inspection: foreign libraries; rows and result sets
  stand for them. Reading a column back is modelled without hooks and time zone, a FLOAT being the double
  that was stored; the struct around the columns is not.
- JSON, the generation of identifiers, decryption, logging, the command line and code emission.
- `src/abstract_struct.c`: its dictionary would only repeat the identity map in a simpler form.
- Mutexes: the cache is a sequence of steps under its lock. `c_orm_pool_*` is only declared.
- Stub functions that return an error (`c_orm_select_raw`, `c_orm_resolve_n_plus_one`, the insert
  builder) and the DO UPDATE policy, which adds nothing to the text.
- `c_orm_string_builder` is append to a sequence; its memory management is not part of this model.
  Refused memory is modelled for it, the statement cache, the arena, the identity map, the row
  arrays and the memory driver; in the batch operations one refusal stands for all those of a text.
- Names and generated statements are assumed to fit the fixed `char` buffers, including relation
  names of up to 63 characters, the 64 bytes for a referenced schema's name and the 4096 bytes of a
  migration script.
- Quoting of names and the bytes of a statement are not part of this model. Names are compared letter
  by letter, except in relation filters and schema differences, where the case of ASCII letters may not
  count.
- Hooks: they may fail; what else they may do is not part of this model.
- Batch loops: the sum `i + chunk_size` is taken not to exceed a size_t.
- Binding a row: how a timestamp is shifted and what the encryption hook does are functions the connection
  supplies, so that one value always gives the same bytes. A generated identifier is also written into
  the caller's struct, which is not part of this model.
- Batch update: what is compared with one update per item is, for a secure key, not what c_orm_update
  does, which also writes the key column. Constraints other than the primary key are not part of this
  model. Spatial values are opaque bytes.
- Eager loading: the rows are taken to have the columns the metadata lists, in its order. Fetching the
  parents, the checks on the relation before it, and the text of `custom_filter` and `order_by`. A filter
  without an OR at its top level only decides what the scan contains; one with it would escape the IN
  list, and is not part of this model.
- Cascades: nullable key columns, which the code reads as if they held the value itself, and bind
  calls that fail.
- SyncLinks: the ONE_TO_MANY branch of c_orm_sync needs c_orm_save and is not modelled; bind calls
  are taken to succeed.
- Topological sort: requires distinct schema names, since counting stops at the first match while
  releasing does not.
- Migrations: what a script does to the schema when it fails is left open, and a step whose recording
  fails is not claimed to be undone: the code does not roll back to its savepoint. The lock is three
  calls that may be refused.
- Schema difference: the text of `CREATE TABLE` and of indexes, the rows in the table, and references from
  other tables. No schema names a column twice, case aside, as `CREATE TABLE` demands. Whether SQLite
  drops a referencing column is a parameter of its dialect, and PostgreSQL is taken not to change the
  type of one.
- Identity map: freeing it.
- HydrateAll: the array's capacity is taken to be that of its data, as the code needs it; with the stale
  capacity a failed call leaves, the next call would write through a null pointer.
- GetOrSetInt: with a string key in the chain of key 0 the answer is a string key's object; with
  several there, which one depends on the order in the chain, which the map of keys to objects does
  not record.
- Memory driver: the parsing of SQL by prefix, UPDATE and DELETE (no-ops there), and the WHERE of a
  SELECT, which the driver ignores.
