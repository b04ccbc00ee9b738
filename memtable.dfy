/** The in-memory write buffer of one tablet. Each incoming tuple is decoded into a
    scratch row, which is inserted into (or merged into) the ordered index; on flush
    the index is walked in key order, every row is finalized and handed to the
    rowset writer, and the writer is sealed. */
module Memtable {
  import opened Rows
  import opened SkipList
  import opened Arena
  import opened Writer

  /** Where one slot's null bit and value sit in an incoming tuple. */
  datatype SlotDescriptor = SlotDescriptor(nullIndicatorOffset: nat, tupleOffset: nat)

  /** An incoming tuple: its null bits and its slot values. */
  datatype Tuple = Tuple(nullBits: seq<bool>, slots: seq<int>)

  /** Every slot descriptor points inside the tuple. */
  predicate Readable(tuple: Tuple, slotDescs: seq<SlotDescriptor>) {
    forall i :: 0 <= i < |slotDescs| ==>
      slotDescs[i].nullIndicatorOffset < |tuple.nullBits| && slotDescs[i].tupleOffset < |tuple.slots|
  }

  /** What a column's consume step produces: the cell, and the bytes it drew from
      the pool for variable-length contents. */
  datatype Consumed = Consumed(cell: Cell, pooled: nat)

  /** The column-type operations the memtable calls but does not define: decoding
      one slot into a cell, the equal-key value update done by the index, and the
      flush-time finalization of a row's value cells. */
  datatype ColumnOps = ColumnOps(
    consume: (nat, int, bool) -> Consumed,
    aggUpdate: AggUpdate,
    aggFinalize: seq<Cell> -> seq<Cell>)

  /** Decoding slot `i` of the tuple as column `i`: its null bit and its value. */
  function ConsumeSlot(ops: ColumnOps, tuple: Tuple, slotDescs: seq<SlotDescriptor>, i: nat): (c: Consumed)
    requires Readable(tuple, slotDescs) && i < |slotDescs|
  {
    var slot := slotDescs[i];
    ops.consume(i, tuple.slots[slot.tupleOffset], tuple.nullBits[slot.nullIndicatorOffset])
  }

  /** The scratch row after the first `n` slots were decoded into it, one cell at a
      time: cell i holds decoded column i, every later cell is as it was. */
  function BuildRow(ops: ColumnOps, tuple: Tuple, slotDescs: seq<SlotDescriptor>, buf: Row, n: nat): (r: Row)
    requires Readable(tuple, slotDescs) && n <= |slotDescs| && n <= |buf|
    ensures |r| == |buf|
    ensures forall i :: 0 <= i < n ==> r[i] == ConsumeSlot(ops, tuple, slotDescs, i).cell
    ensures forall i :: n <= i < |buf| ==> r[i] == buf[i]
    decreases n
  {
    if n == 0 then buf
    else BuildRow(ops, tuple, slotDescs, buf, n - 1)[n - 1 := ConsumeSlot(ops, tuple, slotDescs, n - 1).cell]
  }

  /** The pool allocations made while decoding the first `n` slots, in order. */
  function ConsumeAllocations(ops: ColumnOps, tuple: Tuple, slotDescs: seq<SlotDescriptor>, n: nat): (a: seq<nat>)
    requires Readable(tuple, slotDescs) && n <= |slotDescs|
    decreases n
  {
    if n == 0 then []
    else
      var pooled := ConsumeSlot(ops, tuple, slotDescs, n - 1).pooled;
      ConsumeAllocations(ops, tuple, slotDescs, n - 1) + (if pooled > 0 then [pooled] else [])
  }

  /** Every slot draws from the pool at most once, and only non-empty draws are
      recorded: the decode of n slots makes at most n allocations, each of at least
      one byte, and together they are what the n consume steps report. */
  lemma {:induction false} ConsumeAllocationsBounded(ops: ColumnOps, tuple: Tuple, slotDescs: seq<SlotDescriptor>, n: nat)
    requires Readable(tuple, slotDescs) && n <= |slotDescs|
    ensures var a := ConsumeAllocations(ops, tuple, slotDescs, n);
      && |a| <= n
      && (forall k :: 0 <= k < |a| ==> a[k] > 0)
      && Sum(a) == Pooled(ops, tuple, slotDescs, n)
    decreases n
  {
    if n > 0 {
      ConsumeAllocationsBounded(ops, tuple, slotDescs, n - 1);
      var pooled := ConsumeSlot(ops, tuple, slotDescs, n - 1).pooled;
      SumAppend(ConsumeAllocations(ops, tuple, slotDescs, n - 1), if pooled > 0 then [pooled] else []);
    }
  }

  /** The bytes the first `n` consume steps report drawing, slot by slot. */
  function Pooled(ops: ColumnOps, tuple: Tuple, slotDescs: seq<SlotDescriptor>, n: nat): (bytes: nat)
    requires Readable(tuple, slotDescs) && n <= |slotDescs|
    decreases n
  {
    if n == 0 then 0 else Pooled(ops, tuple, slotDescs, n - 1) + ConsumeSlot(ops, tuple, slotDescs, n - 1).pooled
  }

  /** Flush-time finalization of one row: value cells resolve their running state;
      key cells are left alone. */
  function FinalizeRow(schema: Schema, ops: ColumnOps, row: Row): (f: Row)
    requires KeyFits(schema, row)
  {
    var nk := schema.numKeyColumns;
    row[..nk] + ops.aggFinalize(row[nk..])
  }

  /** Finalization leaves the key cells untouched and replaces the value cells by
      their finalized form, so it never moves a row in the comparator order. */
  lemma FinalizeKeepsKey(schema: Schema, ops: ColumnOps, row: Row)
    requires KeyFits(schema, row)
    ensures var f := FinalizeRow(schema, ops, row);
      && KeyFits(schema, f) && Key(schema, f) == Key(schema, row)
      && f[schema.numKeyColumns..] == ops.aggFinalize(row[schema.numKeyColumns..])
  {
    var nk := schema.numKeyColumns;
    assert FinalizeRow(schema, ops, row)[..nk] == row[..nk];
  }

  /** The index after the flush walk has finalized its first `n` entries in place:
      entry i (i < n) is finalized, every later entry is as it was. */
  function Walked(schema: Schema, ops: ColumnOps, rows: seq<Row>, n: nat): (t: seq<Row>)
    requires KeysFit(schema, rows) && n <= |rows|
    ensures |t| == |rows|
    ensures forall i :: 0 <= i < n ==> t[i] == FinalizeRow(schema, ops, rows[i])
    ensures forall i :: n <= i < |rows| ==> t[i] == rows[i]
    decreases n
  {
    if n == 0 then rows
    else Walked(schema, ops, rows, n - 1)[n - 1 := FinalizeRow(schema, ops, rows[n - 1])]
  }

  /** The add_row calls made for the first `n` entries: call i adds finalized entry i. */
  function Handed(schema: Schema, ops: ColumnOps, rows: seq<Row>, n: nat): (calls: seq<WriterCall>)
    requires KeysFit(schema, rows) && n <= |rows|
    ensures |calls| == n
    ensures forall i :: 0 <= i < n ==> calls[i] == AddRowCall(FinalizeRow(schema, ops, rows[i]))
    decreases n
  {
    if n == 0 then []
    else Handed(schema, ops, rows, n - 1) + [AddRowCall(FinalizeRow(schema, ops, rows[n - 1]))]
  }

  /** The calls for a non-empty prefix are the first row's call followed by the calls
      for the rest. */
  lemma HandedCons(schema: Schema, ops: ColumnOps, rows: seq<Row>, n: nat)
    requires KeysFit(schema, rows) && 0 < n <= |rows|
    ensures KeysFit(schema, rows[1..])
    ensures Handed(schema, ops, rows, n)
         == [AddRowCall(FinalizeRow(schema, ops, rows[0]))] + Handed(schema, ops, rows[1..], n - 1)
  {
    assert KeysFit(schema, rows[1..]) by {
      forall i | 0 <= i < |rows| - 1 ensures KeyFits(schema, rows[1..][i]) {
        assert rows[1..][i] == rows[i + 1];
      }
    }
    var h := Handed(schema, ops, rows, n);
    var h' := [AddRowCall(FinalizeRow(schema, ops, rows[0]))] + Handed(schema, ops, rows[1..], n - 1);
    forall i | 0 <= i < n ensures h[i] == h'[i] {
      if i > 0 {
        assert rows[1..][i - 1] == rows[i];
      }
    }
  }

  /** The add_row calls numbered `from` up to `from + k` (exclusive) all succeed. */
  ghost predicate AddsSucceed(addRowStatus: nat -> Status, from: nat, k: int) {
    forall n :: from <= n < from + k ==> addRowStatus(n).Success?
  }

  /** The outcome of draining the index: the writer calls made, the status
      returned, and how many rows were finalized. */
  datatype Drained = Drained(calls: seq<WriterCall>, status: Status, finalized: nat)

  /** Draining `rows` into a writer that has already taken `adds` add_row calls:
      each row is finalized and added in turn; the first failing add_row ends the
      walk with its status; after the last row the writer is sealed and the seal's
      status is the result. */
  function Drain(schema: Schema, ops: ColumnOps, rows: seq<Row>, adds: nat,
                 addRowStatus: nat -> Status, sealStatus: Status): (d: Drained)
    requires KeysFit(schema, rows)
    ensures d.finalized <= |rows| && d.finalized <= |d.calls|
    decreases |rows|
  {
    if rows == [] then Drained([SealCall], sealStatus, 0)
    else
      var row := FinalizeRow(schema, ops, rows[0]);
      var st := addRowStatus(adds);
      if st.Failure? then Drained([AddRowCall(row)], st, 1)
      else
        var rest := Drain(schema, ops, rows[1..], adds + 1, addRowStatus, sealStatus);
        Drained([AddRowCall(row)] + rest.calls, rest.status, rest.finalized + 1)
  }

  /** When every add_row succeeds, each row is finalized and added in index order,
      then the writer is sealed exactly once and its status is the result. With no
      rows this is a single seal. */
  lemma {:induction false} DrainSealsAfterAllRows(schema: Schema, ops: ColumnOps, rows: seq<Row>, adds: nat,
                                                  addRowStatus: nat -> Status, sealStatus: Status)
    requires KeysFit(schema, rows)
    requires forall n :: adds <= n < adds + |rows| ==> addRowStatus(n).Success?
    ensures Drain(schema, ops, rows, adds, addRowStatus, sealStatus)
         == Drained(Handed(schema, ops, rows, |rows|) + [SealCall], sealStatus, |rows|)
    decreases |rows|
  {
    if rows != [] {
      assert addRowStatus(adds).Success?;
      HandedCons(schema, ops, rows, |rows|);
      DrainSealsAfterAllRows(schema, ops, rows[1..], adds + 1, addRowStatus, sealStatus);
      var first := [AddRowCall(FinalizeRow(schema, ops, rows[0]))];
      var later := Handed(schema, ops, rows[1..], |rows| - 1);
      assert first + (later + [SealCall]) == (first + later) + [SealCall];
    }
  }

  /** When the add_row for row k is the first to fail, rows 0..k are finalized and
      added, nothing after row k is, the writer is never sealed, and that add_row's
      error is the result. */
  lemma {:induction false} DrainStopsAtFirstFailure(schema: Schema, ops: ColumnOps, rows: seq<Row>, adds: nat,
                                                    addRowStatus: nat -> Status, sealStatus: Status, k: nat)
    requires KeysFit(schema, rows) && k < |rows|
    requires forall n :: adds <= n < adds + k ==> addRowStatus(n).Success?
    requires addRowStatus(adds + k).Failure?
    ensures Drain(schema, ops, rows, adds, addRowStatus, sealStatus)
         == Drained(Handed(schema, ops, rows, k + 1), addRowStatus(adds + k), k + 1)
    ensures SealCall !in Drain(schema, ops, rows, adds, addRowStatus, sealStatus).calls
    decreases k
  {
    HandedCons(schema, ops, rows, k + 1);
    if k > 0 {
      assert addRowStatus(adds).Success?;
      DrainStopsAtFirstFailure(schema, ops, rows[1..], adds + 1, addRowStatus, sealStatus, k - 1);
    }
  }

  /** The writer is sealed exactly when every row was added successfully. */
  lemma {:induction false} DrainSealsIffAllAdded(schema: Schema, ops: ColumnOps, rows: seq<Row>, adds: nat,
                                                 addRowStatus: nat -> Status, sealStatus: Status)
    requires KeysFit(schema, rows)
    ensures SealCall in Drain(schema, ops, rows, adds, addRowStatus, sealStatus).calls
        <==> forall n :: adds <= n < adds + |rows| ==> addRowStatus(n).Success?
    decreases |rows|
  {
    if rows != [] && addRowStatus(adds).Success? {
      DrainSealsIffAllAdded(schema, ops, rows[1..], adds + 1, addRowStatus, sealStatus);
      var rest := Drain(schema, ops, rows[1..], adds + 1, addRowStatus, sealStatus);
      assert SealCall in Drain(schema, ops, rows, adds, addRowStatus, sealStatus).calls <==> SealCall in rest.calls;
    }
  }

  /** The rows handed to the writer are the index entries from the first one on,
      each finalized, in index order; in a sorted index they therefore reach the
      writer in ascending key order. */
  lemma {:induction false} DrainHandsRowsInOrder(schema: Schema, ops: ColumnOps, rows: seq<Row>, adds: nat,
                                                 addRowStatus: nat -> Status, sealStatus: Status)
    requires Sorted(schema, rows)
    ensures var d := Drain(schema, ops, rows, adds, addRowStatus, sealStatus);
      && (forall i :: 0 <= i < d.finalized ==> d.calls[i] == AddRowCall(FinalizeRow(schema, ops, rows[i])))
      && (forall i, j :: 0 <= i < j < d.finalized ==>
            CompareRow(schema, FinalizeRow(schema, ops, rows[i]), FinalizeRow(schema, ops, rows[j])) <= 0)
    decreases |rows|
  {
    var d := Drain(schema, ops, rows, adds, addRowStatus, sealStatus);
    if rows != [] && addRowStatus(adds).Success? {
      var rest := Drain(schema, ops, rows[1..], adds + 1, addRowStatus, sealStatus);
      assert Sorted(schema, rows[1..]) by {
        forall i, j | 0 <= i < j < |rows| - 1
          ensures KeyFits(schema, rows[1..][i]) && CompareRow(schema, rows[1..][i], rows[1..][j]) <= 0
        {
          assert rows[1..][i] == rows[i + 1] && rows[1..][j] == rows[j + 1];
        }
      }
      DrainHandsRowsInOrder(schema, ops, rows[1..], adds + 1, addRowStatus, sealStatus);
      forall i | 0 < i < d.finalized ensures d.calls[i] == AddRowCall(FinalizeRow(schema, ops, rows[i])) {
        assert d.calls[i] == rest.calls[i - 1] && rows[1..][i - 1] == rows[i];
      }
    }
    forall i, j | 0 <= i < j < d.finalized
      ensures CompareRow(schema, FinalizeRow(schema, ops, rows[i]), FinalizeRow(schema, ops, rows[j])) <= 0
    {
      assert CompareRow(schema, FinalizeRow(schema, ops, rows[i]), FinalizeRow(schema, ops, rows[j]))
          == CompareRow(schema, rows[i], rows[j]);
    }
  }

  /** Finalizing a prefix of a sorted index in place leaves it sorted: finalization
      never touches key cells. */
  lemma WalkedSorted(schema: Schema, ops: ColumnOps, rows: seq<Row>, n: nat)
    requires Sorted(schema, rows) && n <= |rows|
    ensures Sorted(schema, Walked(schema, ops, rows, n))
  {
    var t := Walked(schema, ops, rows, n);
    forall i, j | 0 <= i < j < |t|
      ensures KeyFits(schema, t[i]) && CompareRow(schema, t[i], t[j]) <= 0
    {
      assert CompareRow(schema, t[i], t[j]) == CompareRow(schema, rows[i], rows[j]);
    }
    assert KeysFit(schema, t) by {
      forall i | 0 <= i < |t| ensures KeyFits(schema, t[i]) {
        if i < n { assert t[i] == FinalizeRow(schema, ops, rows[i]); }
      }
    }
  }

  /** Finalizing a prefix in place keeps at most one entry per key. */
  lemma WalkedKeysDistinct(schema: Schema, ops: ColumnOps, rows: seq<Row>, n: nat)
    requires KeysDistinct(schema, rows) && n <= |rows|
    ensures KeysDistinct(schema, Walked(schema, ops, rows, n))
  {
    var t := Walked(schema, ops, rows, n);
    forall i | 0 <= i < |t|
      ensures KeyFits(schema, t[i]) && Key(schema, t[i]) == Key(schema, rows[i])
    {
      if i < n { FinalizeKeepsKey(schema, ops, rows[i]); }
    }
  }

  /** What the flush walk leaves behind, in terms of Drain: after `count` rows were
      finalized and added with final status `added` (a failure of the last add_row,
      or success once every row was added), the index is still sorted, and Drain
      prescribes exactly these add_row calls, followed by the seal when every
      add_row succeeded. */
  lemma WalkOutcome(schema: Schema, ops: ColumnOps, keysType: KeysType, rows: seq<Row>, adds: nat,
                    addRowStatus: nat -> Status, sealStatus: Status, count: nat, added: Status,
                    index: seq<Row>, calls: seq<WriterCall>)
    requires Sorted(schema, rows) && count <= |rows|
    requires keysType != DupKeys ==> KeysDistinct(schema, rows)
    requires added.Success? ==> count == |rows|
    requires added.Success? ==> AddsSucceed(addRowStatus, adds, count)
    requires added.Failure? ==> 0 < count && added == addRowStatus(adds + count - 1)
    requires added.Failure? ==> AddsSucceed(addRowStatus, adds, count - 1)
    requires index == Walked(schema, ops, rows, count)
    requires calls == Handed(schema, ops, rows, count)
    ensures Sorted(schema, index)
    ensures keysType != DupKeys ==> KeysDistinct(schema, index)
    ensures var d := Drain(schema, ops, rows, adds, addRowStatus, sealStatus);
      && d.finalized == count
      && (added.Failure? ==> d.calls == calls && d.status == added)
      && (added.Success? ==> d.calls == calls + [SealCall] && d.status == sealStatus)
  {
    WalkedSorted(schema, ops, rows, count);
    if keysType != DupKeys { WalkedKeysDistinct(schema, ops, rows, count); }
    if added.Failure? {
      DrainStopsAtFirstFailure(schema, ops, rows, adds, addRowStatus, sealStatus, count - 1);
    } else {
      DrainSealsAfterAllRows(schema, ops, rows, adds, addRowStatus, sealStatus);
    }
  }

  /** The memtable of one tablet. */
  class MemTable {
    const schema: Schema
    const slotDescs: seq<SlotDescriptor>
    const keysType: KeysType
    const ops: ColumnOps
    const writer: RowsetWriter
    const pool: MemPool
    /** The scratch buffer the next tuple is decoded into. */
    var tupleBuf: array<Cell>
    /** The index's resident rows, in iteration order. */
    var index: seq<Row>
    /** Successful flushes: this memtable's share of the flush-total metric. */
    var flushTotal: nat

    ghost predicate Valid()
      reads this
    {
      && schema.Valid()
      && |slotDescs| <= schema.numColumns
      && tupleBuf.Length == schema.numColumns
      && Sorted(schema, index)
      && (keysType != DupKeys ==> KeysDistinct(schema, index))
    }

    /** Sets up the pool, draws one scratch buffer of the schema's row size from it,
        and starts with an empty index, which draws its head node (`headBytes`) from
        the same pool. */
    constructor (schema: Schema, slotDescs: seq<SlotDescriptor>, keysType: KeysType,
                 ops: ColumnOps, writer: RowsetWriter, headBytes: nat)
      requires schema.Valid() && |slotDescs| <= schema.numColumns
      ensures Valid()
      ensures this.schema == schema && this.slotDescs == slotDescs && this.keysType == keysType
      ensures this.ops == ops && this.writer == writer
      ensures fresh(pool) && pool.allocations == [schema.schemaSize, headBytes]
      ensures fresh(tupleBuf) && index == [] && flushTotal == 0
    {
      this.schema := schema;
      this.slotDescs := slotDescs;
      this.keysType := keysType;
      this.ops := ops;
      this.writer := writer;
      var p := new MemPool();
      p.Allocate(schema.schemaSize);
      p.Allocate(headBytes);
      pool := p;
      tupleBuf := new Cell[schema.numColumns];
      index := [];
      flushTotal := 0;
    }

    /** The pool tracker's consumption: every byte drawn from the pool. */
    function MemoryUsage(): (bytes: nat)
      reads this, pool
      ensures bytes == Sum(pool.allocations)
    {
      pool.Consumption()
    }

    /** The decode loop of insert: slot i of the tuple is consumed into cell i of the
        scratch buffer, in slot order; the pool records what the column types draw. */
    method Decode(tuple: Tuple)
      requires Readable(tuple, slotDescs) && |slotDescs| <= tupleBuf.Length
      modifies tupleBuf, pool
      ensures tupleBuf[..] == BuildRow(ops, tuple, slotDescs, old(tupleBuf[..]), |slotDescs|)
      ensures pool.allocations == old(pool.allocations) + ConsumeAllocations(ops, tuple, slotDescs, |slotDescs|)
      ensures pool.Consumption() >= old(pool.Consumption())
    {
      var i := 0;
      while i < |slotDescs|
        invariant i <= |slotDescs|
        invariant tupleBuf[..] == BuildRow(ops, tuple, slotDescs, old(tupleBuf[..]), i)
        invariant pool.allocations == old(pool.allocations) + ConsumeAllocations(ops, tuple, slotDescs, i)
      {
        var consumed := ConsumeSlot(ops, tuple, slotDescs, i);
        tupleBuf[i] := consumed.cell;
        if consumed.pooled > 0 {
          pool.Allocate(consumed.pooled);
        }
        i := i + 1;
      }
      SumAppend(old(pool.allocations), ConsumeAllocations(ops, tuple, slotDescs, |slotDescs|));
    }

    /** Decodes the tuple into the scratch buffer and inserts it into the index. If
        the index merged it into a resident row the buffer is kept for the next
        tuple; otherwise the index draws a node for it (`nodeBytes`, which depends
        on the node's random height), owns the buffer, and a fresh one is drawn from
        the pool. */
    method Insert(tuple: Tuple, nodeBytes: nat)
      requires Valid() && Readable(tuple, slotDescs)
      modifies this, tupleBuf, pool
      ensures Valid()
      ensures flushTotal == old(flushTotal)
      ensures var row := BuildRow(ops, tuple, slotDescs, old(tupleBuf[..]), |slotDescs|);
              var r := IndexInsert(schema, ops.aggUpdate, keysType, old(index), row);
              var decoded := old(pool.allocations) + ConsumeAllocations(ops, tuple, slotDescs, |slotDescs|);
              && index == r.index
              && (r.overwritten ==> tupleBuf == old(tupleBuf) && tupleBuf[..] == row && pool.allocations == decoded)
              && (!r.overwritten ==> fresh(tupleBuf) && pool.allocations == decoded + [nodeBytes, schema.schemaSize])
      ensures MemoryUsage() >= old(MemoryUsage())
    {
      Decode(tuple);
      var r := IndexInsert(schema, ops.aggUpdate, keysType, index, tupleBuf[..]);
      if keysType != DupKeys {
        IndexInsertKeepsKeysDistinct(schema, ops.aggUpdate, keysType, index, tupleBuf[..]);
      }
      index := r.index;
      if !r.overwritten {
        pool.Allocate(nodeBytes);
        pool.Allocate(schema.schemaSize);
        tupleBuf := new Cell[schema.numColumns];
      }
    }

    /** One iteration of the flush walk over `rows`, the index as it was before the
        walk: entry i is finalized in place and immediately handed to the writer, so
        the walk and the writer's log advance by one row. */
    method FinalizeAndAdd(ghost rows: seq<Row>, ghost log0: seq<WriterCall>, i: nat) returns (st: Status)
      requires KeysFit(schema, rows) && i < |rows|
      requires index == Walked(schema, ops, rows, i) && writer.log == log0 + Handed(schema, ops, rows, i)
      modifies this, writer
      ensures index == Walked(schema, ops, rows, i + 1)
      ensures writer.log == log0 + Handed(schema, ops, rows, i + 1)
      ensures writer.adds == old(writer.adds) + 1 && st == writer.addRowStatus(old(writer.adds))
      ensures tupleBuf == old(tupleBuf) && flushTotal == old(flushTotal)
    {
      var row := FinalizeRow(schema, ops, index[i]);
      index := index[i := row];
      st := writer.AddRow(row);
    }

    /** The walk over the index: finalizes each entry in place and adds it to the
        writer, stopping at the first add_row error. Reports that status (success
        when every row was added) and how many rows were finalized and added. */
    method AddRows() returns (st: Status, count: nat)
      requires KeysFit(schema, index)
      modifies this, writer
      ensures count <= |old(index)|
      ensures index == Walked(schema, ops, old(index), count)
      ensures writer.log == old(writer.log) + Handed(schema, ops, old(index), count)
      ensures writer.adds == old(writer.adds) + count
      ensures st.Success? ==> count == |old(index)|
      ensures st.Success? ==> AddsSucceed(writer.addRowStatus, old(writer.adds), count)
      ensures st.Failure? ==> 0 < count && st == writer.addRowStatus(old(writer.adds) + count - 1)
      ensures st.Failure? ==> AddsSucceed(writer.addRowStatus, old(writer.adds), count - 1)
      ensures tupleBuf == old(tupleBuf) && flushTotal == old(flushTotal)
    {
      ghost var rows := index;
      ghost var log0 := writer.log;
      ghost var a0 := writer.adds;
      count := 0;
      while count < |index|
        invariant count <= |rows| == |index|
        invariant index == Walked(schema, ops, rows, count)
        invariant writer.log == log0 + Handed(schema, ops, rows, count)
        invariant writer.adds == a0 + count
        invariant AddsSucceed(writer.addRowStatus, a0, count)
        invariant tupleBuf == old(tupleBuf) && flushTotal == old(flushTotal)
      {
        st := FinalizeAndAdd(rows, log0, count);
        count := count + 1;
        if st.Failure? {
          return;
        }
      }
      return Success, count;
    }

    /** Walks the index in order: finalizes each row in place and adds it to the
        writer, returning the first add_row error; then seals the writer and returns
        its status. Only a successful flush counts towards the metric. */
    method Flush() returns (st: Status)
      requires Valid()
      modifies this, writer
      ensures Valid()
      ensures tupleBuf == old(tupleBuf)
      ensures var d := Drain(schema, ops, old(index), old(writer.adds), writer.addRowStatus, writer.sealStatus);
              && writer.log == old(writer.log) + d.calls
              && writer.adds == old(writer.adds) + d.finalized
              && st == d.status
              && index == Walked(schema, ops, old(index), d.finalized)
      ensures flushTotal == old(flushTotal) + (if st.Success? then 1 else 0)
    {
      var added, count := AddRows();
      WalkOutcome(schema, ops, keysType, old(index), old(writer.adds), writer.addRowStatus, writer.sealStatus, count, added,
                  index, Handed(schema, ops, old(index), count));
      if added.Failure? {
        return added;
      }
      st := Seal();
    }

    /** The end of a flush whose rows were all added: seals the writer and, when the
        seal succeeds, counts the flush. */
    method Seal() returns (st: Status)
      modifies this, writer
      ensures writer.log == old(writer.log) + [SealCall] && st == writer.sealStatus
      ensures writer.adds == old(writer.adds)
      ensures flushTotal == old(flushTotal) + (if st.Success? then 1 else 0)
      ensures index == old(index) && tupleBuf == old(tupleBuf)
    {
      st := writer.Flush();
      if st.Failure? {
        return;
      }
      flushTotal := flushTotal + 1;
      return Success;
    }

    /** Closing a memtable is flushing it. */
    method Close() returns (st: Status)
      requires Valid()
      modifies this, writer
      ensures Valid()
      ensures tupleBuf == old(tupleBuf)
      ensures var d := Drain(schema, ops, old(index), old(writer.adds), writer.addRowStatus, writer.sealStatus);
              && writer.log == old(writer.log) + d.calls
              && writer.adds == old(writer.adds) + d.finalized
              && st == d.status
              && index == Walked(schema, ops, old(index), d.finalized)
      ensures flushTotal == old(flushTotal) + (if st.Success? then 1 else 0)
    {
      st := Flush();
    }
  }
}
