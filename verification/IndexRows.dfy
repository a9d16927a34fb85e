/** Index definitions, index rows, and the order in which an index object keeps its rows. */
module IndexRows {
  import opened Results
  import opened IndexCells
  import opened Sorting
  import opened Lexicographic

  const ARTIFACT_ID := "artifact_id"

  datatype Direction = Unspecified | Ascending | Descending

  /** An order field; `kind` is the type of the column generated for it. */
  datatype OrderField = OrderField(field: string, direction: Direction, kind: Kind)

  datatype IndexDefinition = IndexDefinition(keySize: nat, order: seq<OrderField>, unique: bool)

  datatype IndexRow = IndexRow(id: Bits64, values: seq<IndexCell>)

  /** Key fields present, by field number. */
  type KeyMessage = map<nat, IndexCell>

  datatype IndexObject = IndexObject(key: KeyMessage, rows: seq<IndexRow>)

  // -------------------------------------------------------------------------
  // The artifact_id column
  // -------------------------------------------------------------------------

  ghost predicate IdAt(order: seq<OrderField>, p: nat) {
    && p < |order| && order[p].field == ARTIFACT_ID
    && forall i :: 0 <= i < |order| && order[i].field == ARTIFACT_ID ==> i == p
  }

  /** Every direction is explicit and artifact_id appears exactly once. */
  ghost predicate OrderOk(order: seq<OrderField>) {
    && (forall i :: 0 <= i < |order| ==> order[i].direction != Unspecified)
    && exists p :: IdAt(order, p)
  }

  ghost function IdPosition(order: seq<OrderField>): (p: nat)
    requires OrderOk(order)
    ensures IdAt(order, p)
  {
    var p: nat :| IdAt(order, p);
    p
  }

  method FindIdOrder(order: seq<OrderField>) returns (r: Result<nat>)
    ensures match r
            case Ok(p) => OrderOk(order) && p == IdPosition(order)
            case Err(s) => !OrderOk(order) && s == InvalidArgument
  {
    var count, last := 0, 0;
    ghost var first := 0;
    for i := 0 to |order|
      invariant forall j :: 0 <= j < i ==> order[j].direction != Unspecified
      invariant count >= 0 && (count == 0 ==> forall j :: 0 <= j < i ==> order[j].field != ARTIFACT_ID)
      invariant count >= 1 ==> first <= last < i && order[first].field == order[last].field == ARTIFACT_ID
      invariant count == 1 ==> forall j :: 0 <= j < i && order[j].field == ARTIFACT_ID ==> j == last
      invariant count >= 2 ==> first < last
    {
      if order[i].direction == Unspecified {
        return Err(InvalidArgument);
      }
      if order[i].field == ARTIFACT_ID {
        count := count + 1;
        last := i;
        first := if count == 1 then i else first;
      }
    }
    if count != 1 {
      return Err(InvalidArgument);
    }
    assert IdAt(order, last);
    return Ok(last);
  }

  /** The row has a cell for every order field and names its own artifact. */
  predicate RowShaped(order: seq<OrderField>, p: nat, row: IndexRow) {
    |row.values| == |order| && p < |order| && row.values[p] == Uint64(row.id)
  }

  ghost predicate DistinctIds(rows: seq<IndexRow>) {
    forall i, j :: 0 <= i < j < |rows| ==> rows[i].id != rows[j].id
  }

  ghost predicate RowsShaped(order: seq<OrderField>, p: nat, rows: seq<IndexRow>) {
    && DistinctIds(rows)
    && forall i :: 0 <= i < |rows| ==> RowShaped(order, p, rows[i])
  }

  // -------------------------------------------------------------------------
  // Comparing rows
  // -------------------------------------------------------------------------

  function Directed(f: OrderField, n: int): int {
    if f.direction == Descending then -n else n
  }

  /** Field by field, each in its own direction; the first difference decides. */
  function CompareByOrder(order: seq<OrderField>, a: seq<IndexCell>, b: seq<IndexCell>): Result<int>
    requires |a| == |b| == |order|
  {
    if order == [] then Ok(0)
    else
      match CompareIndexCellAscending(a[0], b[0])
      case Err(s) => Err(s)
      case Ok(n) => if n != 0 then Ok(Directed(order[0], n)) else CompareByOrder(order[1..], a[1..], b[1..])
  }

  lemma {:induction false} CompareByOrderFlips(order: seq<OrderField>, a: seq<IndexCell>, b: seq<IndexCell>)
    requires |a| == |b| == |order|
    ensures match CompareByOrder(order, a, b)
            case Ok(n) => CompareByOrder(order, b, a) == Ok(-n)
            case Err(s) => s == InvalidArgument && CompareByOrder(order, b, a) == Err(s)
  {
    if order != [] {
      CompareFlips(a[0], b[0]);
      CompareByRank(a[0], b[0]);
      CompareByOrderFlips(order[1..], a[1..], b[1..]);
    }
  }

  /** Tied cells cannot be told apart by any comparison. */
  lemma TiedCellsCompareAlike(a: IndexCell, b: IndexCell, c: IndexCell)
    requires CompareIndexCellAscending(a, b) == Ok(0)
    ensures CompareIndexCellAscending(a, c) == CompareIndexCellAscending(b, c)
    ensures CompareIndexCellAscending(c, a) == CompareIndexCellAscending(c, b)
  {
    CompareFlips(a, b);
    CompareByRank(a, b);
    CompareByRank(a, c);
    CompareByRank(b, c);
    CompareByRank(c, a);
    CompareByRank(c, b);
  }

  lemma CellTransitive(a: IndexCell, b: IndexCell, c: IndexCell, n: int)
    requires n != 0 && CompareIndexCellAscending(a, b) == Ok(n) && CompareIndexCellAscending(b, c) == Ok(n)
    ensures CompareIndexCellAscending(a, c) == Ok(n)
  {
    CompareByRank(a, b);
    CompareByRank(b, c);
    CompareByRank(a, c);
    if n < 0 {
      Transitive(RankOf(a), RankOf(b), RankOf(c));
    } else {
      CompareFlips(a, b);
      CompareFlips(b, c);
      CompareByRank(b, a);
      CompareByRank(c, b);
      Transitive(RankOf(c), RankOf(b), RankOf(a));
      Asymmetric(RankOf(c), RankOf(a));
    }
  }

  /** Transitivity needs no agreement on types beyond the cells that were compared. */
  lemma {:induction false} CompareByOrderTransitive(order: seq<OrderField>, a: seq<IndexCell>, b: seq<IndexCell>,
                                                    c: seq<IndexCell>)
    requires |a| == |b| == |c| == |order|
    requires CompareByOrder(order, a, b).Ok? && CompareByOrder(order, a, b).value < 0
    requires CompareByOrder(order, b, c).Ok? && CompareByOrder(order, b, c).value < 0
    ensures CompareByOrder(order, a, c).Ok? && CompareByOrder(order, a, c).value < 0
  {
    hide CompareIndexCellAscending;
    var m, n := CompareIndexCellAscending(a[0], b[0]), CompareIndexCellAscending(b[0], c[0]);
    CompareByRank(a[0], b[0]);
    CompareByRank(b[0], c[0]);
    if m == Ok(0) && n == Ok(0) {
      TiedCellsCompareAlike(a[0], b[0], c[0]);
      CompareByOrderTransitive(order[1..], a[1..], b[1..], c[1..]);
    } else if m == Ok(0) {
      TiedCellsCompareAlike(a[0], b[0], c[0]);
    } else if n == Ok(0) {
      TiedCellsCompareAlike(b[0], c[0], a[0]);
    } else {
      CellTransitive(a[0], b[0], c[0], m.value);
    }
  }

  /** The first column whose cells differ decides, upwards or downwards as its direction says. */
  lemma {:induction false} FirstDifferenceDecides(order: seq<OrderField>, a: seq<IndexCell>, b: seq<IndexCell>, i: nat)
    requires |a| == |b| == |order| && i < |order| && order[i].direction != Unspecified
    requires forall j :: 0 <= j < i ==> RankOf(a[j]) == RankOf(b[j])
    requires RankOf(a[i]) != RankOf(b[i])
    requires CompareByOrder(order, a, b).Ok? && CompareByOrder(order, a, b).value < 0
    ensures order[i].direction == Ascending ==> Less(RankOf(a[i]), RankOf(b[i]))
    ensures order[i].direction == Descending ==> Less(RankOf(b[i]), RankOf(a[i]))
  {
    CompareByRank(a[0], b[0]);
    CompareFlips(a[0], b[0]);
    if i == 0 {
      Trichotomy(RankOf(a[0]), RankOf(b[0]));
    } else {
      FirstDifferenceDecides(order[1..], a[1..], b[1..], i - 1);
    }
  }

  /** A tie means that every pair of cells tied. */
  lemma {:induction false} TieMeansCellsTie(order: seq<OrderField>, a: seq<IndexCell>, b: seq<IndexCell>, i: nat)
    requires |a| == |b| == |order| && i < |order| && CompareByOrder(order, a, b) == Ok(0)
    ensures CompareIndexCellAscending(a[i], b[i]) == Ok(0)
  {
    if i > 0 {
      TieMeansCellsTie(order[1..], a[1..], b[1..], i - 1);
    }
  }

  /** The comparator given to the sort; ties fall back to the artifact id. */
  predicate RowLess(order: seq<OrderField>, x: IndexRow, y: IndexRow) {
    && |x.values| == |y.values| == |order|
    && var c := CompareByOrder(order, x.values, y.values);
       if c.Ok? && c.value != 0 then c.value < 0 else x.id < y.id
  }

  function RowOrder(order: seq<OrderField>): (IndexRow, IndexRow) -> bool {
    (x, y) => RowLess(order, x, y)
  }

  ghost predicate PairComparable(order: seq<OrderField>, x: IndexRow, y: IndexRow) {
    |x.values| == |y.values| == |order| && CompareByOrder(order, x.values, y.values).Ok?
  }

  /** Every two rows of the listing can be compared. */
  ghost predicate PairwiseComparable(order: seq<OrderField>, rows: seq<IndexRow>) {
    forall i, j :: 0 <= i < j < |rows| ==> PairComparable(order, rows[i], rows[j])
  }

  method CheckRows(order: seq<OrderField>, p: nat, rows: seq<IndexRow>) returns (ok: bool)
    ensures ok <==> RowsShaped(order, p, rows)
  {
    var seen: set<Bits64> := {};
    for i := 0 to |rows|
      invariant seen == set k | 0 <= k < i :: rows[k].id
      invariant RowsShaped(order, p, rows[..i])
    {
      assert RowsShaped(order, p, rows) ==> rows[i].id !in seen && RowShaped(order, p, rows[i]);
      if rows[i].id in seen || !RowShaped(order, p, rows[i]) {
        return false;
      }
      seen := seen + {rows[i].id};
      assert rows[..i + 1] == rows[..i] + [rows[i]];
    }
    assert rows[..] == rows;
    return true;
  }

  method CheckPairs(order: seq<OrderField>, rows: seq<IndexRow>) returns (ok: bool)
    requires forall i :: 0 <= i < |rows| ==> |rows[i].values| == |order|
    ensures ok <==> PairwiseComparable(order, rows)
  {
    for i := 0 to |rows|
      invariant forall k, j :: 0 <= k < i && k < j < |rows| ==> PairComparable(order, rows[k], rows[j])
    {
      for j := i + 1 to |rows|
        invariant forall k :: i < k < j ==> PairComparable(order, rows[i], rows[k])
      {
        if CompareByOrder(order, rows[i].values, rows[j].values).Err? {
          assert !PairComparable(order, rows[i], rows[j]);
          return false;
        }
      }
    }
    return true;
  }

  lemma RowLessFlips(order: seq<OrderField>, p: nat, x: IndexRow, y: IndexRow)
    requires RowShaped(order, p, x) && RowShaped(order, p, y) && PairComparable(order, x, y) && x.id != y.id
    ensures RowLess(order, x, y) <==> !RowLess(order, y, x)
    ensures RowLess(order, x, y) <==> CompareByOrder(order, x.values, y.values).value < 0
  {
    CompareByOrderFlips(order, x.values, y.values);
    if CompareByOrder(order, x.values, y.values) == Ok(0) {
      TieMeansCellsTie(order, x.values, y.values, p);
    }
  }

  /**
   The mixed-direction comparator is a strict total order on rows that passed the checks, so the sort
   never meets a comparison error and has only one possible outcome.
   */
  lemma RowOrderIsStrict(order: seq<OrderField>, p: nat, rows: seq<IndexRow>)
    requires RowsShaped(order, p, rows) && PairwiseComparable(order, rows)
    ensures OrdersStrictly(RowOrder(order), Elements(rows)) && Distinct(rows)
  {
    hide CompareByOrder, RowLess;
    var less := RowOrder(order);
    forall x, y | x in Elements(rows) && y in Elements(rows) && x != y
      ensures less(x, y) <==> !less(y, x)
      ensures PairComparable(order, x, y) && (less(x, y) <==> CompareByOrder(order, x.values, y.values).value < 0)
    {
      DistinctRowsCompare(order, p, rows, x, y);
      RowLessFlips(order, p, x, y);
    }
    forall x | x in Elements(rows)
      ensures !less(x, x)
    {
      SelfNotLess(order, x);
    }
    forall x, y, z | x in Elements(rows) && y in Elements(rows) && z in Elements(rows) && less(x, y) && less(y, z)
      ensures less(x, z)
    {
      assert x != y && y != z;
      CompareByOrderTransitive(order, x.values, y.values, z.values);
      CompareByOrderFlips(order, x.values, y.values);
      assert x != z;
    }
  }

  lemma SelfNotLess(order: seq<OrderField>, x: IndexRow)
    ensures !RowLess(order, x, x)
  {
    if |x.values| == |order| {
      CompareByOrderFlips(order, x.values, x.values);
    }
  }

  lemma DistinctRowsCompare(order: seq<OrderField>, p: nat, rows: seq<IndexRow>, x: IndexRow, y: IndexRow)
    requires RowsShaped(order, p, rows) && PairwiseComparable(order, rows) && x in rows && y in rows && x != y
    ensures RowShaped(order, p, x) && RowShaped(order, p, y) && x.id != y.id
    ensures PairComparable(order, x, y)
  {
    hide CompareByOrder;
    var i :| 0 <= i < |rows| && rows[i] == x;
    var j :| 0 <= j < |rows| && rows[j] == y;
    CompareByOrderFlips(order, x.values, y.values);
    assert i < j ==> PairComparable(order, rows[i], rows[j]);
    assert j < i ==> PairComparable(order, rows[j], rows[i]);
  }

  // -------------------------------------------------------------------------
  // Reordering
  // -------------------------------------------------------------------------

  lemma TwiceIn<T>(s: seq<T>, i: nat, j: nat)
    requires i < j < |s| && s[i] == s[j]
    ensures multiset(s)[s[i]] >= 2
  {
    assert s == s[..j] + [s[j]] + s[j + 1..];
    assert s[i] in multiset(s[..j]);
  }

  lemma {:induction false} OnceIn(rows: seq<IndexRow>, x: IndexRow)
    requires DistinctIds(rows)
    ensures multiset(rows)[x] <= 1
  {
    if rows != [] {
      var n := |rows| - 1;
      assert rows == rows[..n] + [rows[n]];
      OnceIn(rows[..n], x);
      assert rows[n] !in rows[..n];
      assert multiset(rows[..n])[rows[n]] == 0;
    }
  }

  lemma DistinctUpToOrder(rows: seq<IndexRow>, rows': seq<IndexRow>)
    requires DistinctIds(rows) && multiset(rows') == multiset(rows)
    ensures DistinctIds(rows')
  {
    SameElements(rows, rows');
    forall i, j | 0 <= i < j < |rows'|
      ensures rows'[i].id != rows'[j].id
    {
      if rows'[i].id == rows'[j].id {
        assert rows'[i] in Elements(rows) && rows'[j] in Elements(rows);
        assert rows'[i] == rows'[j];
        TwiceIn(rows', i, j);
        OnceIn(rows, rows'[i]);
      }
    }
  }
}
