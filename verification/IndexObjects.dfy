/**
 The stored form of an index object: its key, a row count and one column per order field, with the
 rows in the definition's order.
 */
module IndexObjects {
  import opened Results
  import opened IndexCells
  import opened IndexRows
  import opened Sorting
  import Lexicographic

  const MAX_ROWS: nat := 0x7FFF_FFFF

  datatype Columns = Columns(rowCount: nat, columns: seq<seq<IndexCell>>)

  datatype IndexMessage = IndexMessage(key: Option<KeyMessage>, value: Option<Columns>)

  predicate KeyComplete(def: IndexDefinition, key: KeyMessage) {
    forall n :: 1 <= n <= def.keySize ==> n in key
  }

  /** A column of the given type can hold the cell. */
  predicate Fits(kind: Kind, c: IndexCell) {
    KindOf(c) == kind && !IsNaN(c)
  }

  predicate RowFits(order: seq<OrderField>, row: IndexRow) {
    |row.values| == |order| && forall i :: 0 <= i < |order| ==> Fits(order[i].kind, row.values[i])
  }

  ghost predicate RowsFit(order: seq<OrderField>, rows: seq<IndexRow>) {
    forall k :: 0 <= k < |rows| ==> RowFits(order, rows[k])
  }

  /** What can be stored. */
  ghost predicate Accepts(def: IndexDefinition, o: IndexObject) {
    && OrderOk(def.order)
    && KeyComplete(def, o.key)
    && |o.rows| <= MAX_ROWS
    && RowsShaped(def.order, IdPosition(def.order), o.rows)
    && RowsFit(def.order, o.rows)
  }

  function ColumnOf(rows: seq<IndexRow>, i: nat): (c: seq<IndexCell>)
    requires forall k :: 0 <= k < |rows| ==> i < |rows[k].values|
  {
    seq(|rows|, k requires 0 <= k < |rows| => rows[k].values[i])
  }

  function ColumnsOf(n: nat, rows: seq<IndexRow>): seq<seq<IndexCell>>
    requires forall k :: 0 <= k < |rows| ==> |rows[k].values| == n
  {
    seq(n, i requires 0 <= i < n => ColumnOf(rows, i))
  }

  function SortedRows(def: IndexDefinition, rows: seq<IndexRow>): seq<IndexRow> {
    Sort(RowOrder(def.order), rows)
  }

  /** The stored form of an acceptable object. */
  ghost function Encoded(def: IndexDefinition, o: IndexObject): IndexMessage
    requires Accepts(def, o)
  {
    SortKeepsShape(def, o);
    var rows := SortedRows(def, o.rows);
    IndexMessage(Some(o.key), Some(Columns(|rows|, ColumnsOf(|def.order|, rows))))
  }

  lemma SameFits(order: seq<OrderField>, rows: seq<IndexRow>, rows': seq<IndexRow>)
    requires multiset(rows) == multiset(rows') && RowsFit(order, rows)
    ensures RowsFit(order, rows') && |rows| == |rows'|
  {
    SameElements(rows, rows');
    forall k | 0 <= k < |rows'|
      ensures RowFits(order, rows'[k])
    {
      assert rows'[k] in Elements(rows);
    }
  }

  lemma SortKeepsShape(def: IndexDefinition, o: IndexObject)
    requires Accepts(def, o)
    ensures |SortedRows(def, o.rows)| == |o.rows| && RowsFit(def.order, SortedRows(def, o.rows))
  {
    SameFits(def.order, o.rows, SortedRows(def, o.rows));
  }

  lemma {:induction false} FitRowsCompare(order: seq<OrderField>, a: seq<IndexCell>, b: seq<IndexCell>)
    requires |a| == |b| == |order|
    requires forall i :: 0 <= i < |order| ==> Fits(order[i].kind, a[i]) && Fits(order[i].kind, b[i])
    ensures CompareByOrder(order, a, b).Ok?
  {
    if order != [] {
      CompareByRank(a[0], b[0]);
      FitRowsCompare(order[1..], a[1..], b[1..]);
    }
  }

  lemma AcceptedRowsCompare(order: seq<OrderField>, rows: seq<IndexRow>)
    requires RowsFit(order, rows)
    ensures PairwiseComparable(order, rows)
  {
    forall i, j | 0 <= i < j < |rows|
      ensures PairComparable(order, rows[i], rows[j])
    {
      assert RowFits(order, rows[i]) && RowFits(order, rows[j]);
      FitRowsCompare(order, rows[i].values, rows[j].values);
    }
  }

  /** The sort puts acceptable rows in strictly increasing order and loses none. */
  lemma AcceptedRowsSort(def: IndexDefinition, o: IndexObject)
    requires Accepts(def, o)
    ensures OrdersStrictly(RowOrder(def.order), Elements(o.rows)) && Distinct(o.rows)
    ensures Sorted(RowOrder(def.order), SortedRows(def, o.rows))
      && Elements(SortedRows(def, o.rows)) == Elements(o.rows)
  {
    AcceptedRowsCompare(def.order, o.rows);
    RowOrderIsStrict(def.order, IdPosition(def.order), o.rows);
    SortSorts(RowOrder(def.order), o.rows);
  }

  // -------------------------------------------------------------------------
  // Serializing
  // -------------------------------------------------------------------------

  method WriteRows(order: seq<OrderField>, rows: seq<IndexRow>) returns (r: Result<seq<seq<IndexCell>>>)
    requires forall k :: 0 <= k < |rows| ==> |rows[k].values| == |order|
    ensures match r
            case Ok(columns) => RowsFit(order, rows) && columns == ColumnsOf(|order|, rows)
            case Err(s) => !RowsFit(order, rows) && s == InvalidArgument
  {
    var columns := seq(|order|, i => []);
    for k := 0 to |rows|
      invariant |columns| == |order| && RowsFit(order, rows[..k])
      invariant forall i :: 0 <= i < |order| ==> columns[i] == ColumnOf(rows[..k], i)
    {
      for i := 0 to |order|
        invariant |columns| == |order|
        invariant forall j :: 0 <= j < i ==>
          Fits(order[j].kind, rows[k].values[j]) && columns[j] == ColumnOf(rows[..k], j) + [rows[k].values[j]]
        invariant forall j :: i <= j < |order| ==> columns[j] == ColumnOf(rows[..k], j)
      {
        if !Fits(order[i].kind, rows[k].values[i]) {
          assert !RowFits(order, rows[k]);
          return Err(InvalidArgument);
        }
        columns := columns[i := columns[i] + [rows[k].values[i]]];
      }
      assert rows[..k + 1] == rows[..k] + [rows[k]];
      forall j | 0 <= j < |order|
        ensures columns[j] == ColumnOf(rows[..k + 1], j)
      {
      }
    }
    assert rows[..|rows|] == rows;
    assert columns == ColumnsOf(|order|, rows);
    return Ok(columns);
  }

  /** Serialization succeeds on exactly the acceptable objects; every refusal is an invalid argument. */
  method SerializeIndexObject(def: IndexDefinition, o: IndexObject) returns (r: Result<IndexMessage>)
    ensures match r
            case Ok(w) => Accepts(def, o) && w == Encoded(def, o)
            case Err(s) => !Accepts(def, o) && s == InvalidArgument
    ensures r.Ok? ==> forall n :: 1 <= n <= def.keySize ==> n in o.key
  {
    hide CompareByOrder, RowLess, Fits;
    var id := FindIdOrder(def.order);
    if id.Err? {
      return Err(InvalidArgument);
    }
    if def.keySize > 0 && o.key == map[] {
      assert 1 !in o.key;
      return Err(InvalidArgument);
    }
    if !KeyComplete(def, o.key) {
      return Err(InvalidArgument);
    }
    if |o.rows| > MAX_ROWS {
      return Err(InvalidArgument);
    }
    var shaped := CheckRows(def.order, id.value, o.rows);
    if !shaped {
      return Err(InvalidArgument);
    }
    var comparable := CheckPairs(def.order, o.rows);
    if !comparable {
      if RowsFit(def.order, o.rows) {
        AcceptedRowsCompare(def.order, o.rows);
      }
      return Err(InvalidArgument);
    }
    var rows := SortedRows(def, o.rows);
    SortKeepsWidths(def, o.rows);
    var columns := WriteRows(def.order, rows);
    if RowsFit(def.order, rows) {
      SameFits(def.order, rows, o.rows);
    }
    if columns.Err? {
      if RowsFit(def.order, o.rows) {
        SortKeepsShape(def, o);
      }
      return Err(InvalidArgument);
    }
    SortKeepsShape(def, o);
    return Ok(IndexMessage(Some(o.key), Some(Columns(|rows|, columns.value))));
  }

  lemma SortKeepsWidths(def: IndexDefinition, rows: seq<IndexRow>)
    requires forall k :: 0 <= k < |rows| ==> |rows[k].values| == |def.order|
    ensures forall k :: 0 <= k < |SortedRows(def, rows)| ==> |SortedRows(def, rows)[k].values| == |def.order|
  {
    var rows' := SortedRows(def, rows);
    SameElements(rows, rows');
    forall k | 0 <= k < |rows'|
      ensures |rows'[k].values| == |def.order|
    {
      assert rows'[k] in Elements(rows);
    }
  }

  // -------------------------------------------------------------------------
  // Deserializing
  // -------------------------------------------------------------------------

  function KeyIn(w: IndexMessage): KeyMessage {
    if w.key.Some? then w.key.value else map[]
  }

  function RowAt(columns: seq<seq<IndexCell>>, p: nat, k: nat): IndexRow
    requires p < |columns| && (forall i :: 0 <= i < |columns| ==> k < |columns[i]|) && columns[p][k].Uint64?
  {
    IndexRow(columns[p][k].u64, seq(|columns|, i requires 0 <= i < |columns| => columns[i][k]))
  }

  /** The columns have one cell per row and field, each of the column's type. */
  ghost predicate ColumnsFit(order: seq<OrderField>, v: Columns) {
    && |v.columns| == |order|
    && (forall i :: 0 <= i < |order| ==> |v.columns[i]| == v.rowCount)
    && forall i, k :: 0 <= i < |order| && 0 <= k < v.rowCount ==> Fits(order[i].kind, v.columns[i][k])
  }

  ghost predicate ValueReadable(order: seq<OrderField>, p: nat, v: Columns) {
    && v.rowCount <= MAX_ROWS && ColumnsFit(order, v) && p < |order|
    && (v.rowCount > 0 ==> order[p].kind == KUint64)
    && forall j, k :: 0 <= j < k < v.rowCount ==> v.columns[p][j] != v.columns[p][k]
  }

  ghost predicate Readable(def: IndexDefinition, w: IndexMessage) {
    && OrderOk(def.order) && KeyComplete(def, KeyIn(w))
    && (w.value.Some? ==> ValueReadable(def.order, IdPosition(def.order), w.value.value))
  }

  ghost function RowsIn(order: seq<OrderField>, p: nat, v: Columns): seq<IndexRow>
    requires ValueReadable(order, p, v)
  {
    seq(v.rowCount, k requires 0 <= k < v.rowCount => RowAt(v.columns, p, k))
  }

  ghost function Decoded(def: IndexDefinition, w: IndexMessage): IndexObject
    requires Readable(def, w)
  {
    IndexObject(KeyIn(w), if w.value.Some? then RowsIn(def.order, IdPosition(def.order), w.value.value) else [])
  }

  method ReadRow(order: seq<OrderField>, p: nat, v: Columns, k: nat) returns (r: Result<IndexRow>)
    requires k < v.rowCount && |v.columns| == |order| && (forall i :: 0 <= i < |order| ==> |v.columns[i]| == v.rowCount)
    requires IdAt(order, p)
    ensures r.Ok? <==> order[p].kind == KUint64 && forall i :: 0 <= i < |order| ==> Fits(order[i].kind, v.columns[i][k])
    ensures r.Ok? ==> v.columns[p][k].Uint64? && r.value == RowAt(v.columns, p, k)
    ensures r.Err? ==> r.status == InvalidArgument || (r.status == Internal && order[p].kind != KUint64)
  {
    var row := IndexRow(0, []);
    for i := 0 to |order|
      invariant forall j :: 0 <= j < i ==> Fits(order[j].kind, v.columns[j][k])
      invariant row.values == seq(i, j requires 0 <= j < i => v.columns[j][k])
      invariant i > p ==> order[p].kind == KUint64 && v.columns[p][k] == Uint64(row.id)
    {
      var cell := v.columns[i][k];
      if !Fits(order[i].kind, cell) {
        return Err(InvalidArgument);
      }
      row := row.(values := row.values + [cell]);
      if order[i].field == ARTIFACT_ID {
        if !cell.Uint64? {
          return Err(Internal);
        }
        row := row.(id := cell.u64);
      }
    }
    return Ok(row);
  }

  /** The first `k` rows can be read, and name different artifacts. */
  ghost predicate ReadableUpTo(order: seq<OrderField>, p: nat, v: Columns, k: nat)
    requires |v.columns| == |order| && (forall i :: 0 <= i < |order| ==> |v.columns[i]| == v.rowCount) && p < |order|
    requires k <= v.rowCount
  {
    && (k > 0 ==> order[p].kind == KUint64)
    && (forall i, j :: 0 <= i < |order| && 0 <= j < k ==> Fits(order[i].kind, v.columns[i][j]))
    && forall i, j :: 0 <= i < j < k ==> v.columns[p][i] != v.columns[p][j]
  }

  lemma ReadableFrom(order: seq<OrderField>, p: nat, v: Columns, k: nat)
    requires |v.columns| == |order| && (forall i :: 0 <= i < |order| ==> |v.columns[i]| == v.rowCount) && p < |order|
    requires k <= v.rowCount && ValueReadable(order, p, v)
    ensures ReadableUpTo(order, p, v, k)
  {
  }

  method ReadRows(order: seq<OrderField>, p: nat, v: Columns) returns (r: Result<seq<IndexRow>>)
    requires IdAt(order, p)
    ensures r.Ok? <==> ValueReadable(order, p, v)
    ensures r.Ok? ==> r.value == RowsIn(order, p, v)
    ensures r.Err? ==> r.status == InvalidArgument || (r.status == Internal && order[p].kind != KUint64)
  {
    if v.rowCount > MAX_ROWS || |v.columns| != |order| {
      return Err(InvalidArgument);
    }
    for i := 0 to |order|
      invariant forall j :: 0 <= j < i ==> |v.columns[j]| == v.rowCount
    {
      if |v.columns[i]| != v.rowCount {
        return Err(InvalidArgument);
      }
    }
    r := ReadEachRow(order, p, v);
  }

  method ReadEachRow(order: seq<OrderField>, p: nat, v: Columns) returns (r: Result<seq<IndexRow>>)
    requires IdAt(order, p) && v.rowCount <= MAX_ROWS
    requires |v.columns| == |order| && forall i :: 0 <= i < |order| ==> |v.columns[i]| == v.rowCount
    ensures r.Ok? <==> ValueReadable(order, p, v)
    ensures r.Ok? ==> r.value == RowsIn(order, p, v)
    ensures r.Err? ==> r.status == InvalidArgument || (r.status == Internal && order[p].kind != KUint64)
  {
    hide Fits;
    var rows: seq<IndexRow> := [];
    var seen: set<Bits64> := {};
    for k := 0 to v.rowCount
      invariant ReadableUpTo(order, p, v, k)
      invariant |rows| == k && forall j :: 0 <= j < k ==> v.columns[p][j].Uint64? && rows[j] == RowAt(v.columns, p, j)
      invariant forall j :: 0 <= j < k ==> v.columns[p][j].u64 in seen
      invariant forall x :: x in seen ==> exists j :: 0 <= j < k && v.columns[p][j] == Uint64(x)
    {
      if ValueReadable(order, p, v) {
        ReadableFrom(order, p, v, k + 1);
      }
      var row := ReadRow(order, p, v, k);
      if row.Err? {
        return Err(row.status);
      }
      if row.value.id in seen {
        return Err(InvalidArgument);
      }
      seen := seen + {row.value.id};
      rows := rows + [row.value];
    }
    return Ok(rows);
  }

  method DeserializeIndexObject(def: IndexDefinition, w: IndexMessage) returns (r: Result<IndexObject>)
    ensures r.Ok? <==> Readable(def, w)
    ensures r.Ok? ==> r.value == Decoded(def, w)
    ensures r.Ok? ==> forall n :: 1 <= n <= def.keySize ==> n in r.value.key
    ensures r.Err? ==>
      || r.status == InvalidArgument
      || (r.status == Internal && OrderOk(def.order) && def.order[IdPosition(def.order)].kind != KUint64)
  {
    var id := FindIdOrder(def.order);
    if id.Err? {
      return Err(InvalidArgument);
    }
    var out := IndexObject(map[], []);
    if w.key.Some? {
      out := out.(key := w.key.value);
      if !KeyComplete(def, out.key) {
        return Err(InvalidArgument);
      }
    }
    if def.keySize > 0 && out.key == map[] {
      assert 1 !in out.key;
      return Err(InvalidArgument);
    }
    if w.value.None? {
      return Ok(out);
    }
    var rows := ReadRows(def.order, id.value, w.value.value);
    if rows.Err? {
      return Err(rows.status);
    }
    return Ok(out.(rows := rows.value));
  }

  // -------------------------------------------------------------------------
  // Canonical form and round trips
  // -------------------------------------------------------------------------

  /** Reading back what was stored gives the same key and the same rows, strictly sorted. */
  lemma StoredObjectReadsBack(def: IndexDefinition, o: IndexObject)
    requires Accepts(def, o)
    ensures Readable(def, Encoded(def, o))
      && Decoded(def, Encoded(def, o)) == IndexObject(o.key, SortedRows(def, o.rows))
    ensures Sorted(RowOrder(def.order), SortedRows(def, o.rows))
      && multiset(SortedRows(def, o.rows)) == multiset(o.rows)
  {
    hide RowLess, CompareByOrder;
    AcceptedRowsSort(def, o);
    SortKeepsShape(def, o);
    ColumnsReadBack(def.order, IdPosition(def.order), o.rows, SortedRows(def, o.rows));
  }

  /**
   Rows are stored in the definition's order: of two stored rows, the first column in which they differ
   increases if its direction is ascending and decreases if it is descending.
   */
  lemma StoredRowsFollowDirections(def: IndexDefinition, o: IndexObject, a: nat, b: nat, i: nat)
    requires Accepts(def, o) && Readable(def, Encoded(def, o))
    requires var rows := Decoded(def, Encoded(def, o)).rows;
      && a < b < |rows| && i < |def.order| && |rows[a].values| == |rows[b].values| == |def.order|
      && (forall j :: 0 <= j < i ==> RankOf(rows[a].values[j]) == RankOf(rows[b].values[j]))
      && RankOf(rows[a].values[i]) != RankOf(rows[b].values[i])
    ensures
      var rows := Decoded(def, Encoded(def, o)).rows;
      && (def.order[i].direction == Ascending ==>
            Lexicographic.Less(RankOf(rows[a].values[i]), RankOf(rows[b].values[i])))
      && (def.order[i].direction == Descending ==>
            Lexicographic.Less(RankOf(rows[b].values[i]), RankOf(rows[a].values[i])))
  {
    hide CompareByOrder, Fits, Encoded, Decoded, Readable;
    StoredObjectReadsBack(def, o);
    var rows, p := SortedRows(def, o.rows), IdPosition(def.order);
    ShapeUpToOrder(def.order, p, o.rows, rows);
    SortKeepsShape(def, o);
    AcceptedRowsCompare(def.order, rows);
    assert PairComparable(def.order, rows[a], rows[b]);
    RowLessFlips(def.order, p, rows[a], rows[b]);
    assert RowOrder(def.order)(rows[a], rows[b]);
    FirstDifferenceDecides(def.order, rows[a].values, rows[b].values, i);
  }

  /** Stored rows have a cell for every column. */
  lemma StoredRowsAreComplete(def: IndexDefinition, o: IndexObject, k: nat)
    requires Accepts(def, o) && Readable(def, Encoded(def, o)) && k < |Decoded(def, Encoded(def, o)).rows|
    ensures |Decoded(def, Encoded(def, o)).rows[k].values| == |def.order|
  {
    StoredObjectReadsBack(def, o);
    SortKeepsShape(def, o);
    assert RowFits(def.order, SortedRows(def, o.rows)[k]);
  }

  lemma ColumnsReadBack(order: seq<OrderField>, p: nat, rows: seq<IndexRow>, sorted: seq<IndexRow>)
    requires RowsShaped(order, p, rows) && RowsFit(order, sorted) && p < |order| && |sorted| <= MAX_ROWS
    requires multiset(sorted) == multiset(rows)
    ensures
      var v := Columns(|sorted|, ColumnsOf(|order|, sorted));
      ValueReadable(order, p, v) && RowsIn(order, p, v) == sorted
  {
    ShapeUpToOrder(order, p, rows, sorted);
    var v := Columns(|sorted|, ColumnsOf(|order|, sorted));
    forall i, k | 0 <= i < |order| && 0 <= k < v.rowCount
      ensures Fits(order[i].kind, v.columns[i][k])
    {
      assert RowFits(order, sorted[k]);
    }
    forall k | 0 <= k < |sorted|
      ensures v.columns[p][k] == Uint64(sorted[k].id) && order[p].kind == KUint64 && RowAt(v.columns, p, k) == sorted[k]
    {
      assert RowFits(order, sorted[k]) && RowShaped(order, p, sorted[k]);
      assert RowAt(v.columns, p, k).values == sorted[k].values;
    }
    assert v.rowCount > 0 ==> v.columns[p][0] == Uint64(sorted[0].id);
  }

  lemma ShapeUpToOrder(order: seq<OrderField>, p: nat, rows: seq<IndexRow>, rows': seq<IndexRow>)
    requires RowsShaped(order, p, rows) && multiset(rows') == multiset(rows)
    ensures RowsShaped(order, p, rows')
  {
    hide RowShaped;
    SameElements(rows, rows');
    forall k | 0 <= k < |rows'|
      ensures RowShaped(order, p, rows'[k])
    {
      assert rows'[k] in Elements(rows);
    }
    DistinctUpToOrder(rows, rows');
  }

  /**
   The stored form is canonical: two acceptable objects are stored alike exactly when they have the
   same key and the same rows in any order.
   */
  lemma StoredFormIsCanonical(def: IndexDefinition, o: IndexObject, o': IndexObject)
    requires Accepts(def, o) && Accepts(def, o')
    ensures Encoded(def, o) == Encoded(def, o') <==> o.key == o'.key && multiset(o.rows) == multiset(o'.rows)
  {
    hide RowLess, CompareByOrder, Accepts, Decoded;
    if Encoded(def, o) == Encoded(def, o') {
      StoredObjectReadsBack(def, o);
      StoredObjectReadsBack(def, o');
    }
    if multiset(o.rows) == multiset(o'.rows) {
      SameElements(o.rows, o'.rows);
      AcceptedRowsSort(def, o);
      AcceptedRowsSort(def, o');
      SortedUnique(RowOrder(def.order), SortedRows(def, o.rows), SortedRows(def, o'.rows));
    }
  }

  /** Reordering the rows does not change whether an object can be stored. */
  lemma AcceptanceIgnoresOrder(def: IndexDefinition, o: IndexObject, rows: seq<IndexRow>)
    requires Accepts(def, o) && multiset(rows) == multiset(o.rows)
    ensures Accepts(def, o.(rows := rows))
  {
    SameFits(def.order, o.rows, rows);
    ShapeUpToOrder(def.order, IdPosition(def.order), o.rows, rows);
  }

  lemma ReadObjectIsAcceptable(def: IndexDefinition, w: IndexMessage)
    requires Readable(def, w)
    ensures Accepts(def, Decoded(def, w))
    ensures w.value.Some? ==> ColumnsOf(|def.order|, Decoded(def, w).rows) == w.value.value.columns
  {
    var o, p := Decoded(def, w), IdPosition(def.order);
    if w.value.Some? {
      var v := w.value.value;
      forall k | 0 <= k < |o.rows|
        ensures RowFits(def.order, o.rows[k]) && RowShaped(def.order, p, o.rows[k])
      {
        assert o.rows[k] == RowAt(v.columns, p, k);
      }
      forall i | 0 <= i < |def.order|
        ensures ColumnOf(o.rows, i) == v.columns[i]
      {
      }
    }
  }

  /** Whatever can be read can be stored again, and comes out unchanged exactly when its rows were in order. */
  lemma ReadObjectStoresBack(def: IndexDefinition, w: IndexMessage)
    requires Readable(def, w) && w.key.Some? && w.value.Some?
    ensures Accepts(def, Decoded(def, w))
    ensures Sorted(RowOrder(def.order), Decoded(def, w).rows) <==> Encoded(def, Decoded(def, w)) == w
  {
    hide RowLess, CompareByOrder, ColumnsOf, ValueReadable, RowFits;
    var o := Decoded(def, w);
    ReadObjectIsAcceptable(def, w);
    StoredObjectReadsBack(def, o);
    if Sorted(RowOrder(def.order), o.rows) {
      AcceptedRowsSort(def, o);
      SortedUnique(RowOrder(def.order), o.rows, SortedRows(def, o.rows));
    }
  }
}
