# MemTable model

A Dafny model of the storage engine's `MemTable`: the in-memory write buffer of one
tablet (`be/src/olap/memtable.cpp`). Its lifecycle has three steps:

- The memtable is built with a memory pool. It draws one scratch row buffer of the
  schema's row size from that pool. Its ordered index starts empty and draws its head
  node from the same pool.
- Each `insert` decodes a tuple into the scratch buffer, column by column, and hands the
  buffer to the index. The index either merges it into a resident row with the same key
  (unique and aggregate key tables) or keeps it as a new entry. In the second case the
  index draws a node from the pool and owns the buffer, and a fresh one is drawn from
  the pool. A unique or aggregate key index therefore holds at most one row per key.
- `flush` (and `close`, which is `flush`) walks the index in ascending key order. It
  finalizes each row in place and passes it to the rowset writer. The first add_row
  error ends the walk and is returned. After the last row the writer is sealed, and
  only a successful seal increments the flush counter.

Modules:

- `Rows`: cells, rows, the schema, and the row comparator (`RowCursorComparator`).
  Rows compare lexicographically over the key columns, with nulls first. `Sorted` is
  the index invariant, and `KeysDistinct` (at most one row per key) is the further
  invariant of unique and aggregate key tables.
- `SkipList`: the index, a sequence kept sorted by the comparator. A new row goes in at
  its lower bound. An equal key is merged for non-duplicate key types.
- `Arena`: the memory pool as a class that records every allocation. Its modelled
  consumption is the sum of those allocations.
- `Writer`: the rowset writer as a class that logs the calls it receives. Its statuses
  are parameters: the status of its n-th `add_row` call and the status of its seal.
- `Memtable`:
  - the `MemTable` class: its array scratch buffer, index, pool, writer and flush counter;
  - the specification functions that its methods are proved against: `BuildRow`,
    `ConsumeAllocations`, `FinalizeRow`, `Walked`, `Handed` and `Drain`.

Column decoding (`consume`), the equal-key merge and `agg_finalize_row` belong to the
column types. They are not part of this model, so they are parameters (`ColumnOps`).
The model proves its properties for every choice of them.

## Model

| member | source | states |
|---|---|---|
| Rows.CompareCell | be/src/olap/memtable.cpp:57 | cell order of the comparator: zero exactly on equal cells, null sorts before any value and any value after null, values by their order |
| Rows.CompareKeys | be/src/olap/memtable.cpp:57 | the comparator's result is always -1, 0 or 1 |
| Rows.CompareKeysZeroIff | be/src/olap/memtable.cpp:57 | the key comparison is zero exactly when the two key sequences are equal |
| Rows.CompareKeysAntisymmetric | be/src/olap/memtable.cpp:57 | swapping the operands negates the comparison |
| Rows.CompareKeysTransitive | be/src/olap/memtable.cpp:57 | not-greater is transitive |
| Rows.CompareRow | be/src/olap/memtable.cpp:54-58 | the row comparator views both buffers as rows of the schema; zero exactly when their keys are equal; result in -1..1 |
| Rows.CompareRowIsTotalPreorder | be/src/olap/memtable.cpp:54-58 | the row comparator is a total preorder (antisymmetric sign, transitive), so a sorted index is well defined |
| SkipList.Merge | be/src/olap/memtable.cpp:77 | merging an incoming row into a resident one keeps the resident key cells and sets the value cells to the update of both rows' values |
| SkipList.LowerBound | be/src/olap/memtable.cpp:77 | the insertion point: every entry before it compares less than the row, the entry at it does not |
| SkipList.LowerBoundSplits | be/src/olap/memtable.cpp:77 | in a sorted index every entry from the insertion point on is not less than the row |
| SkipList.LowerBoundFindsEqualKey | be/src/olap/memtable.cpp:77 | in a sorted index a resident row with an equal key exists exactly when the entry at the insertion point has it |
| SkipList.InsertAtLowerBoundSorted | be/src/olap/memtable.cpp:77 | inserting at the insertion point keeps the index sorted and adds exactly that row |
| SkipList.ReplaceSameKeySorted | be/src/olap/memtable.cpp:77 | replacing an entry by one with the same key keeps the index sorted |
| SkipList.IndexInsert | be/src/olap/memtable.cpp:76-77 | the index stays sorted; `overwritten` holds exactly when the keys type is not duplicate and an equal key is resident; then that entry is replaced by the merge, otherwise the index gains exactly the row |
| SkipList.InsertNewKeyDistinct | be/src/olap/memtable.cpp:77 | adding a row whose key is not resident keeps at most one entry per key |
| SkipList.IndexInsertKeepsKeysDistinct | be/src/olap/memtable.cpp:76-77 | for unique and aggregate key tables the insert keeps at most one entry per key, and a merge replaces exactly the one resident entry with the row's key |
| Arena.SumAppend | be/src/olap/memtable.cpp:60-62 | consumption of a sequence of allocations is additive, so appending allocations never lowers it |
| Arena.MemPool.constructor | be/src/olap/memtable.cpp:42 | a new pool has made no allocation |
| Arena.MemPool.Allocate | be/src/olap/memtable.cpp:43 | an allocation is appended to the pool's record and raises the modelled consumption by exactly its size |
| Writer.RowsetWriter.AddRow | be/src/olap/memtable.cpp:92 | add_row logs the row it receives and returns the status of that numbered call |
| Writer.RowsetWriter.Flush | be/src/olap/memtable.cpp:94 | the seal logs one seal call and returns the seal status |
| Memtable.ConsumeAllocationsBounded | be/src/olap/memtable.cpp:73 | decoding n slots records at most n pool allocations, none empty, totalling the bytes the n consume steps report |
| Memtable.BuildRow | be/src/olap/memtable.cpp:65-74 | after decoding n slots, cell i (i < n) holds decoded slot i, read through its descriptor's null-indicator and tuple offsets; every other cell is unchanged |
| Memtable.FinalizeKeepsKey | be/src/olap/memtable.cpp:91 | finalization leaves the key cells untouched and replaces the value cells by their finalized form |
| Memtable.Walked | be/src/olap/memtable.cpp:88-91 | the index after the walk has finalized its first n entries in place: entry i < n is the finalized entry i, every later entry is untouched |
| Memtable.Handed | be/src/olap/memtable.cpp:88-92 | the add_row calls for the first n entries: exactly n calls, call i adds finalized entry i |
| Memtable.Drain | be/src/olap/memtable.cpp:87-98 | the flush walk as a function of the index and the writer's statuses; it never finalizes more rows than the index holds or than it makes calls |
| Memtable.DrainSealsAfterAllRows | be/src/olap/memtable.cpp:87-98 | if every add_row succeeds, each row is finalized and added in index order, then the writer is sealed once and the seal's status is the result; an empty index gives a single seal and no add_row |
| Memtable.DrainStopsAtFirstFailure | be/src/olap/memtable.cpp:92 | if row k's add_row is the first to fail, only rows 0..k are finalized and added, the writer is not sealed, and that error is the result |
| Memtable.DrainSealsIffAllAdded | be/src/olap/memtable.cpp:92-94 | the writer is sealed exactly when every add_row succeeded |
| Memtable.DrainHandsRowsInOrder | be/src/olap/memtable.cpp:87-92 | call i hands over finalized entry i, from the first entry on; in a sorted index the rows therefore reach the writer in ascending comparator order |
| Memtable.WalkedSorted | be/src/olap/memtable.cpp:88-91 | finalizing a prefix of a sorted index in place keeps it sorted, because finalization never touches key cells |
| Memtable.WalkedKeysDistinct | be/src/olap/memtable.cpp:88-91 | finalizing a prefix in place keeps at most one entry per key |
| Memtable.WalkOutcome | be/src/olap/memtable.cpp:87-94 | the state the walk leaves (which rows were finalized, which calls were made, the last status) is exactly what Drain prescribes, with the seal still to come when every add_row succeeded; the index is still sorted, and still has one entry per key in unique and aggregate key tables |
| Memtable.MemTable.constructor | be/src/olap/memtable.cpp:28-44 | the pool has made exactly two allocations: the scratch buffer of the schema's row size, then the index's head node; the scratch buffer is fresh with one cell per column; the index is empty; the flush counter is zero |
| Memtable.MemTable.MemoryUsage | be/src/olap/memtable.cpp:60-62 | memory usage is the tracker's consumption: the total of every pool allocation |
| Memtable.MemTable.Decode | be/src/olap/memtable.cpp:65-74 | the decode loop leaves the scratch buffer equal to BuildRow of its old contents (cell i = slot i, all other cells untouched); the pool gains exactly the column types' allocations, in slot order; consumption does not decrease |
| Memtable.MemTable.Insert | be/src/olap/memtable.cpp:64-81 | the index becomes the index insert of the decoded row and keeps its invariants; if it was merged, the same scratch buffer is kept holding the decoded row and only decoding allocated; otherwise the index draws the row's node and then a fresh buffer of the schema's row size is drawn; memory usage never decreases |
| Memtable.MemTable.FinalizeAndAdd | be/src/olap/memtable.cpp:89-92 | one step of the walk: entry i is finalized in place and immediately added, so the walk and the writer's log each advance by exactly that row; the status of that add_row is returned |
| Memtable.MemTable.AddRows | be/src/olap/memtable.cpp:87-93 | the walk finalizes and adds a prefix of the index in order; success means every row was added; a failure is the status of the last add_row, and all earlier ones succeeded |
| Memtable.MemTable.Seal | be/src/olap/memtable.cpp:94-98 | the writer receives one seal and its add_row counter is unchanged; its status is returned, and the flush counter grows by one exactly when it succeeded |
| Memtable.MemTable.Flush | be/src/olap/memtable.cpp:83-99 | the writer receives exactly the calls of Drain over the index, its add_row counter grows by the rows handed over, the result is Drain's status, the index holds the finalized rows Drain handed over and is otherwise unchanged, it keeps its invariants (sorted, one entry per key for unique and aggregate key tables), and the flush counter grows exactly on success |
| Memtable.MemTable.Close | be/src/olap/memtable.cpp:101-103 | close has the same effect and result as flush |

## Left out

- Skip-list internals (node heights, links, random levels) are not modelled. The index is the sequence of resident rows in iteration order. The model places a new row first among entries with an equal key, but the contracts do not promise that position; the skip list's own tie order for duplicate keys is not part of this model. be/src/olap/skiplist.h is not part of this model.
- Rows.CompareRow: the type-specific `compare_row` of each column is abstracted. Cell values are integers, and nulls sort first. The index uses only the sign of the comparison; the model's result is normalised to -1, 0 or 1, which the real comparator does not promise.
- `consume`, the equal-key merge inside the index insert, and `agg_finalize_row` are parameters (`ColumnOps`). Their bodies belong to the column types, which are not part of this model. `consume` reports the bytes it draws from the pool; `_agg_object_pool` is not modelled.
- Memtable.MemTable.Flush: the pool memory that `agg_finalize_row` may use is not counted, so flush leaves the modelled consumption unchanged.
- Memtable.MemTable.constructor: the size of the index's head node is a parameter (`headBytes`), because the skip list's node layout is not part of this model.
- Memtable.MemTable.Insert: the size of a new index node is a parameter (`nodeBytes`), because it depends on the node's random height. A merge is modelled as drawing no node; any pool memory the equal-key merge itself uses is not counted.
- Memtable.MemTable.Insert: a freshly drawn scratch buffer is modelled with all cells null. Its contents in the pool are unspecified.
- SkipList.Merge: the equal-key update and `agg_finalize_row` are not constrained to keep the width of the value cells; none of the proved properties depends on the row width beyond its key cells.
- Arena.MemPool.Allocate: the pool's chunking and alignment padding are not modelled. The real pool charges its tracker once per chunk it acquires, so one allocation may leave consumption unchanged or raise it by more than its size; the model charges exactly the requested size.
- Memtable.MemTable.MemoryUsage: it is modelled as the total of every pool allocation, not the chunk-level figure the tracker reports; only the growth direction carries over to the real `memory_usage()`. The exact growth stated by Memtable.MemTable.Insert and Memtable.MemTable.Decode is about this modelled total.
- Memtable.ConsumeAllocationsBounded: each `consume` step is modelled as drawing from the pool at most once (the bytes it reports); a column type that makes several draws is summarised as one, so the bound of n allocations for n slots comes from this modelling choice.
- The parent/child `MemTracker` hierarchy and its shared limit are not modelled. Only this memtable's own consumption is.
- The flush timer and the duration metric (wall clock) are left out. The flush-total metric is the memtable's `flushTotal` field.
- The tablet id, tablet schema and tuple descriptor are stored by the constructor but never used by the modelled operations, so they are not fields. The destructor is not modelled.
- The writer's failures come from parameters: the status of its n-th add_row call and the status of its seal. Its storage is not modelled.
- fe/src/main/java/org/apache/doris/load/loadv2/BrokerLoadJob.java (load-job orchestration) is not part of this model.
