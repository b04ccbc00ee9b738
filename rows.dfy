/** Rows as the memtable sees them, and the row comparator that orders the index.
    A row is one cell per schema column; the comparator looks only at the key
    columns, in schema order, with nulls ordered before every non-null value. */
module Rows {

  /** One cell of a contiguous row: either its null indicator is set, or it holds a
      value. Type-specific orderings (numeric, byte-lexicographic) are abstracted to
      the order of integers. */
  datatype Cell = Null | Val(v: int)

  type Row = seq<Cell>

  /** The part of the tablet schema the memtable uses: the number of columns, how
      many leading columns form the key, and the byte footprint of one row. */
  datatype Schema = Schema(numColumns: nat, numKeyColumns: nat, schemaSize: nat)
  {
    predicate Valid() { numKeyColumns <= numColumns }
  }

  /** Compares two cells of the same column: nulls first, then by value. */
  function CompareCell(a: Cell, b: Cell): (r: int)
    ensures -1 <= r <= 1
    ensures r == 0 <==> a == b
    ensures a.Null? && b.Val? ==> r < 0
    ensures a.Val? && b.Null? ==> r > 0
    ensures a.Val? && b.Val? ==> (r < 0 <==> a.v < b.v)
  {
    match (a, b)
    case (Null, Null) => 0
    case (Null, Val(_)) => -1
    case (Val(_), Null) => 1
    case (Val(x), Val(y)) => if x < y then -1 else if x > y then 1 else 0
  }

  /** Lexicographic comparison of two key-cell sequences: the first column that
      differs decides. */
  function CompareKeys(a: seq<Cell>, b: seq<Cell>): (r: int)
    requires |a| == |b|
    ensures -1 <= r <= 1
    decreases |a|
  {
    if a == [] then 0
    else
      var c := CompareCell(a[0], b[0]);
      if c != 0 then c else CompareKeys(a[1..], b[1..])
  }

  lemma {:induction false} CompareKeysZeroIff(a: seq<Cell>, b: seq<Cell>)
    requires |a| == |b|
    ensures CompareKeys(a, b) == 0 <==> a == b
    decreases |a|
  {
    if a != [] {
      CompareKeysZeroIff(a[1..], b[1..]);
      assert a == [a[0]] + a[1..];
      assert b == [b[0]] + b[1..];
    }
  }

  lemma {:induction false} CompareKeysAntisymmetric(a: seq<Cell>, b: seq<Cell>)
    requires |a| == |b|
    ensures CompareKeys(a, b) == -CompareKeys(b, a)
    decreases |a|
  {
    if a != [] {
      CompareKeysAntisymmetric(a[1..], b[1..]);
    }
  }

  lemma {:induction false} CompareKeysTransitive(a: seq<Cell>, b: seq<Cell>, c: seq<Cell>)
    requires |a| == |b| == |c|
    requires CompareKeys(a, b) <= 0 && CompareKeys(b, c) <= 0
    ensures CompareKeys(a, c) <= 0
    decreases |a|
  {
    if a != [] {
      if CompareCell(a[0], b[0]) == 0 && CompareCell(b[0], c[0]) == 0 {
        CompareKeysTransitive(a[1..], b[1..], c[1..]);
      }
    }
  }

  predicate KeyFits(schema: Schema, row: Row) {
    schema.numKeyColumns <= |row|
  }

  /** The key of a row: its leading key cells. */
  function Key(schema: Schema, row: Row): (key: seq<Cell>)
    requires KeyFits(schema, row)
  {
    row[..schema.numKeyColumns]
  }

  /** The memtable's row comparator: it views both buffers as rows of the schema and
      compares their keys. Zero exactly when the two keys are equal. */
  function CompareRow(schema: Schema, left: Row, right: Row): (r: int)
    requires KeyFits(schema, left) && KeyFits(schema, right)
    ensures -1 <= r <= 1
    ensures r == 0 <==> Key(schema, left) == Key(schema, right)
  {
    CompareKeysZeroIff(Key(schema, left), Key(schema, right));
    CompareKeys(Key(schema, left), Key(schema, right))
  }

  /** The comparator is a total preorder on rows: antisymmetric in sign, and its
      non-strict order is transitive. */
  lemma CompareRowIsTotalPreorder(schema: Schema, a: Row, b: Row, c: Row)
    requires KeyFits(schema, a) && KeyFits(schema, b) && KeyFits(schema, c)
    ensures CompareRow(schema, a, b) == -CompareRow(schema, b, a)
    ensures CompareRow(schema, a, b) <= 0 && CompareRow(schema, b, c) <= 0 ==> CompareRow(schema, a, c) <= 0
  {
    CompareKeysAntisymmetric(Key(schema, a), Key(schema, b));
    if CompareRow(schema, a, b) <= 0 && CompareRow(schema, b, c) <= 0 {
      CompareKeysTransitive(Key(schema, a), Key(schema, b), Key(schema, c));
    }
  }

  predicate KeysFit(schema: Schema, s: seq<Row>) {
    forall i :: 0 <= i < |s| ==> KeyFits(schema, s[i])
  }

  /** Entries in non-decreasing comparator order. */
  ghost predicate Sorted(schema: Schema, s: seq<Row>) {
    && KeysFit(schema, s)
    && forall i, j :: 0 <= i < j < |s| ==> CompareRow(schema, s[i], s[j]) <= 0
  }

  /** At most one entry per key: what the index of a unique or aggregate key table
      holds. */
  ghost predicate KeysDistinct(schema: Schema, s: seq<Row>) {
    && KeysFit(schema, s)
    && forall i, j :: 0 <= i < j < |s| ==> Key(schema, s[i]) != Key(schema, s[j])
  }
}
