/** The memtable's ordered index (the skip list `Table`), modelled as a sequence kept
    sorted by the row comparator. Node heights and links are not modelled; only the
    sequence of resident rows in iteration order is. */
module SkipList {
  import opened Rows

  /** The tablet's conflict-resolution semantics for rows with equal keys. */
  datatype KeysType = DupKeys | UniqueKeys | AggKeys

  /** The value-cell update applied to a resident row when an equal-keyed row
      arrives (replace for unique keys, per-column aggregation for aggregate keys).
      Its body belongs to the column types and is a parameter of the model. */
  type AggUpdate = (KeysType, seq<Cell>, seq<Cell>) -> seq<Cell>

  /** Merges an incoming row into the resident row with the same key. Key cells are
      never touched; only the value cells are updated. */
  function Merge(schema: Schema, update: AggUpdate, keysType: KeysType, resident: Row, incoming: Row): (m: Row)
    requires KeyFits(schema, resident) && KeyFits(schema, incoming)
    ensures KeyFits(schema, m) && Key(schema, m) == Key(schema, resident)
    ensures m[schema.numKeyColumns..] == update(keysType, resident[schema.numKeyColumns..], incoming[schema.numKeyColumns..])
  {
    var nk := schema.numKeyColumns;
    resident[..nk] + update(keysType, resident[nk..], incoming[nk..])
  }

  /** Position of the first entry not less than `row` (the skip list's
      find-greater-or-equal search). */
  function LowerBound(schema: Schema, s: seq<Row>, row: Row): (k: nat)
    requires KeysFit(schema, s) && KeyFits(schema, row)
    ensures k <= |s|
    ensures forall i :: 0 <= i < k ==> CompareRow(schema, s[i], row) < 0
    ensures k < |s| ==> CompareRow(schema, s[k], row) >= 0
    decreases |s|
  {
    if s == [] || CompareRow(schema, s[0], row) >= 0 then 0
    else 1 + LowerBound(schema, s[1..], row)
  }

  /** In a sorted index every entry from the lower bound on is not less than `row`. */
  lemma LowerBoundSplits(schema: Schema, s: seq<Row>, row: Row)
    requires Sorted(schema, s) && KeyFits(schema, row)
    ensures forall i :: LowerBound(schema, s, row) <= i < |s| ==> CompareRow(schema, row, s[i]) <= 0
  {
    var k := LowerBound(schema, s, row);
    forall i | k <= i < |s|
      ensures CompareRow(schema, row, s[i]) <= 0
    {
      CompareRowIsTotalPreorder(schema, row, s[k], s[i]);
    }
  }

  /** In a sorted index an equal key exists exactly when the entry at the lower
      bound has it. */
  lemma LowerBoundFindsEqualKey(schema: Schema, s: seq<Row>, row: Row)
    requires Sorted(schema, s) && KeyFits(schema, row)
    ensures var k := LowerBound(schema, s, row);
      (exists i :: 0 <= i < |s| && CompareRow(schema, s[i], row) == 0)
      <==> (k < |s| && CompareRow(schema, s[k], row) == 0)
  {
    var k := LowerBound(schema, s, row);
    if i :| 0 <= i < |s| && CompareRow(schema, s[i], row) == 0 {
      assert k <= i;
      CompareRowIsTotalPreorder(schema, s[k], s[i], row);
    }
  }

  /** Inserting a row at its lower bound keeps the index sorted and adds exactly
      that row. */
  lemma InsertAtLowerBoundSorted(schema: Schema, s: seq<Row>, row: Row)
    requires Sorted(schema, s) && KeyFits(schema, row)
    ensures var k := LowerBound(schema, s, row);
      && Sorted(schema, s[..k] + [row] + s[k..])
      && multiset(s[..k] + [row] + s[k..]) == multiset(s) + multiset{row}
  {
    var k := LowerBound(schema, s, row);
    var t := s[..k] + [row] + s[k..];
    LowerBoundSplits(schema, s, row);
    InsertedKeysFit(schema, s, row, k);
    forall i, j | 0 <= i < j < |t|
      ensures CompareRow(schema, t[i], t[j]) <= 0
    {
      InsertedPairOrdered(schema, s, row, k, i, j);
    }
    assert s == s[..k] + s[k..];
  }

  lemma InsertedKeysFit(schema: Schema, s: seq<Row>, row: Row, k: nat)
    requires KeysFit(schema, s) && KeyFits(schema, row) && k <= |s|
    ensures KeysFit(schema, s[..k] + [row] + s[k..])
  {
    var t := s[..k] + [row] + s[k..];
    forall i | 0 <= i < |t| ensures KeyFits(schema, t[i]) {
      if i < k { assert t[i] == s[i]; } else if i > k { assert t[i] == s[i - 1]; }
    }
  }

  lemma InsertedPairOrdered(schema: Schema, s: seq<Row>, row: Row, k: nat, i: nat, j: nat)
    requires Sorted(schema, s) && KeyFits(schema, row) && k <= |s|
    requires forall n :: 0 <= n < k ==> CompareRow(schema, s[n], row) < 0
    requires forall n :: k <= n < |s| ==> CompareRow(schema, row, s[n]) <= 0
    requires i < j < |s| + 1
    ensures var t := s[..k] + [row] + s[k..]; KeysFit(schema, t) && CompareRow(schema, t[i], t[j]) <= 0
  {
    InsertedKeysFit(schema, s, row, k);
    var t := s[..k] + [row] + s[k..];
    var a := if i < k then s[i] else if i == k then row else s[i - 1];
    var b := if j < k then s[j] else if j == k then row else s[j - 1];
    assert t[i] == a && t[j] == b;
    if i != k && j != k {
      var i', j' := if i < k then i else i - 1, if j < k then j else j - 1;
      assert i' < j';
      assert a == s[i'] && b == s[j'];
    }
  }

  /** Replacing one entry by a row with the same key keeps the index sorted. */
  lemma ReplaceSameKeySorted(schema: Schema, s: seq<Row>, k: nat, m: Row)
    requires Sorted(schema, s) && k < |s| && KeyFits(schema, m) && Key(schema, m) == Key(schema, s[k])
    ensures Sorted(schema, s[k := m])
  {
    var t := s[k := m];
    forall i, j | 0 <= i < j < |t|
      ensures CompareRow(schema, t[i], t[j]) <= 0
    {
      assert CompareRow(schema, t[i], t[j]) == CompareRow(schema, s[i], s[j]);
    }
  }

  /** What the index insert reports: the new index and whether the row was merged
      into an existing entry instead of becoming a node of its own. */
  datatype Inserted = Inserted(index: seq<Row>, overwritten: bool)

  /** Insert-or-merge. For duplicate-key tables every row becomes a new node; for
      unique- and aggregate-key tables a row whose key is already resident is merged
      into that entry, and the index reports `overwritten`. */
  function IndexInsert(schema: Schema, update: AggUpdate, keysType: KeysType, s: seq<Row>, row: Row): (r: Inserted)
    requires Sorted(schema, s) && KeyFits(schema, row)
    ensures Sorted(schema, r.index)
    ensures r.overwritten <==> keysType != DupKeys && exists i :: 0 <= i < |s| && CompareRow(schema, s[i], row) == 0
    ensures !r.overwritten ==> multiset(r.index) == multiset(s) + multiset{row}
    ensures r.overwritten ==> exists i :: 0 <= i < |s| && CompareRow(schema, s[i], row) == 0
                                         && r.index == s[i := Merge(schema, update, keysType, s[i], row)]
  {
    var k := LowerBound(schema, s, row);
    LowerBoundFindsEqualKey(schema, s, row);
    if keysType != DupKeys && k < |s| && CompareRow(schema, s[k], row) == 0 then
      var m := Merge(schema, update, keysType, s[k], row);
      ReplaceSameKeySorted(schema, s, k, m);
      Inserted(s[k := m], true)
    else
      InsertAtLowerBoundSorted(schema, s, row);
      Inserted(s[..k] + [row] + s[k..], false)
  }

  /** Inserting a row whose key is not resident keeps at most one entry per key. */
  lemma InsertNewKeyDistinct(schema: Schema, s: seq<Row>, row: Row, k: nat)
    requires KeysDistinct(schema, s) && KeyFits(schema, row) && k <= |s|
    requires forall n :: 0 <= n < |s| ==> CompareRow(schema, s[n], row) != 0
    ensures KeysDistinct(schema, s[..k] + [row] + s[k..])
  {
    InsertedKeysFit(schema, s, row, k);
    var t := s[..k] + [row] + s[k..];
    forall i, j | 0 <= i < j < |t|
      ensures Key(schema, t[i]) != Key(schema, t[j])
    {
      if i == k {
        assert t[i] == row && t[j] == s[j - 1] && CompareRow(schema, s[j - 1], row) != 0;
      } else if j == k {
        assert t[j] == row && t[i] == s[i] && CompareRow(schema, s[i], row) != 0;
      } else {
        var i', j' := if i < k then i else i - 1, if j < k then j else j - 1;
        assert t[i] == s[i'] && t[j] == s[j'] && i' < j';
      }
    }
  }

  /** For unique- and aggregate-key tables the index insert keeps at most one entry
      per key, and a merge lands on the one resident entry with the row's key. */
  lemma IndexInsertKeepsKeysDistinct(schema: Schema, update: AggUpdate, keysType: KeysType, s: seq<Row>, row: Row)
    requires Sorted(schema, s) && KeyFits(schema, row)
    requires keysType != DupKeys && KeysDistinct(schema, s)
    ensures var r := IndexInsert(schema, update, keysType, s, row);
      && KeysDistinct(schema, r.index)
      && forall i :: 0 <= i < |s| && CompareRow(schema, s[i], row) == 0 ==>
           r.index == s[i := Merge(schema, update, keysType, s[i], row)]
  {
    var k := LowerBound(schema, s, row);
    LowerBoundFindsEqualKey(schema, s, row);
    if k < |s| && CompareRow(schema, s[k], row) == 0 {
      var m := Merge(schema, update, keysType, s[k], row);
      var t := s[k := m];
      assert KeysFit(schema, t) by {
        forall i | 0 <= i < |t| ensures KeyFits(schema, t[i]) { }
      }
      forall i, j | 0 <= i < j < |t|
        ensures Key(schema, t[i]) != Key(schema, t[j])
      {
        assert Key(schema, t[i]) == Key(schema, s[i]) && Key(schema, t[j]) == Key(schema, s[j]);
      }
      forall i | 0 <= i < |s| && CompareRow(schema, s[i], row) == 0
        ensures i == k
      {
        if i != k {
          assert false;
        }
      }
    } else {
      InsertNewKeyDistinct(schema, s, row, k);
    }
  }
}

