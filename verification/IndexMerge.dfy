/** Three-way merge of index objects, row by row. */
module IndexMerge {
  import opened Results
  import opened IndexCells
  import opened IndexRows
  import opened Sorting
  import Lexicographic

  type RowMap = map<Bits64, IndexRow>

  function RowIn(m: RowMap, id: Bits64): Option<IndexRow> {
    if id in m then Some(m[id]) else None
  }

  ghost predicate Keyed(m: RowMap) {
    forall id :: id in m ==> m[id].id == id
  }

  /** The rows by artifact. */
  ghost function RowMapOf(rows: seq<IndexRow>): RowMap {
    if rows == [] then map[]
    else
      var last := rows[|rows| - 1];
      RowMapOf(rows[..|rows| - 1])[last.id := last]
  }

  /** Every row is found under its artifact, and nothing else is. */
  ghost predicate Holds(m: RowMap, rows: seq<IndexRow>) {
    && Keyed(m)
    && (forall k :: 0 <= k < |rows| ==> RowIn(m, rows[k].id) == Some(rows[k]))
    && (forall id :: id in m ==> m[id] in rows)
  }

  lemma HoldsGrows(m: RowMap, rows: seq<IndexRow>, row: IndexRow)
    requires Holds(m, rows) && DistinctIds(rows + [row])
    ensures row.id !in m && Holds(m[row.id := row], rows + [row])
  {
    var rows' := rows + [row];
    assert rows'[|rows|] == row;
    assert forall k :: 0 <= k < |rows| ==> rows'[k] == rows[k] && rows'[k].id != row.id;
    forall k | 0 <= k < |rows'|
      ensures RowIn(m[row.id := row], rows'[k].id) == Some(rows'[k])
    {
      if k < |rows| {
        assert rows'[k] == rows[k] && rows[k].id != row.id;
      }
    }
  }

  lemma {:induction false} RowMapHolds(rows: seq<IndexRow>)
    requires DistinctIds(rows)
    ensures Holds(RowMapOf(rows), rows) && |RowMapOf(rows)| == |rows|
    decreases |rows|
  {
    hide Holds, DistinctIds;
    if rows != [] {
      var n := |rows| - 1;
      var m := RowMapOf(rows[..n]);
      assert rows == rows[..n] + [rows[n]];
      DistinctPrefix(rows, n);
      RowMapHolds(rows[..n]);
      HoldsGrows(m, rows[..n], rows[n]);
      assert RowMapOf(rows).Keys == m.Keys + {rows[n].id};
    } else {
      HoldsNothing();
    }
  }

  lemma HoldsNothing()
    ensures Holds(map[], [])
  {
  }

  lemma DistinctPrefix(rows: seq<IndexRow>, n: nat)
    requires DistinctIds(rows) && n <= |rows|
    ensures DistinctIds(rows[..n])
  {
  }

  lemma RowMapStep(rows: seq<IndexRow>, row: IndexRow)
    ensures RowMapOf(rows + [row]) == RowMapOf(rows)[row.id := row]
  {
    assert (rows + [row])[..|rows|] == rows;
  }

  lemma RowMapGrows(rows: seq<IndexRow>, row: IndexRow)
    requires DistinctIds(rows) && row.id !in RowMapOf(rows)
    ensures DistinctIds(rows + [row]) && RowMapOf(rows + [row]) == RowMapOf(rows)[row.id := row]
  {
    RowMapStep(rows, row);
    hide RowMapOf;
    RowMapHolds(rows);
    assert forall k :: 0 <= k < |rows| ==> RowIn(RowMapOf(rows), rows[k].id) == Some(rows[k]);
  }

  lemma RowMapIgnoresOrder(rows: seq<IndexRow>, rows': seq<IndexRow>)
    requires DistinctIds(rows) && multiset(rows') == multiset(rows)
    ensures DistinctIds(rows') && RowMapOf(rows') == RowMapOf(rows)
  {
    DistinctUpToOrder(rows, rows');
    SameElements(rows, rows');
    RowMapHolds(rows);
    RowMapHolds(rows');
    RowMapWithin(rows, rows');
    RowMapWithin(rows', rows);
  }

  lemma RowMapWithin(rows: seq<IndexRow>, rows': seq<IndexRow>)
    requires DistinctIds(rows) && DistinctIds(rows') && Elements(rows) == Elements(rows')
    ensures forall id :: id in RowMapOf(rows) ==> RowIn(RowMapOf(rows'), id) == Some(RowMapOf(rows)[id])
  {
    RowMapHolds(rows);
    RowMapHolds(rows');
    forall id | id in RowMapOf(rows)
      ensures RowIn(RowMapOf(rows'), id) == Some(RowMapOf(rows)[id])
    {
      var row := RowMapOf(rows)[id];
      assert row in Elements(rows');
      var k :| 0 <= k < |rows'| && rows'[k] == row;
    }
  }

  predicate RowsEqual(a: IndexRow, b: IndexRow) {
    && a.id == b.id && |a.values| == |b.values|
    && forall i :: 0 <= i < |a.values| ==> CellsEqual(a.values[i], b.values[i])
  }

  function AllAscending(n: nat): (order: seq<OrderField>)
    ensures |order| == n
  {
    seq(n, i => OrderField("", Ascending, KMessage))
  }

  /** The order that settles which of two modifications wins. */
  function CompareRowsCanonical(a: IndexRow, b: IndexRow): Result<int> {
    if |a.values| != |b.values| then Err(InvalidArgument)
    else CompareByOrder(AllAscending(|a.values|), a.values, b.values)
  }

  // -------------------------------------------------------------------------
  // What the merge does to one artifact
  // -------------------------------------------------------------------------

  predicate Changed(base: Option<IndexRow>, head: Option<IndexRow>) {
    if base.Some? && head.Some? then !RowsEqual(base.value, head.value) else base.Some? || head.Some?
  }

  /**
   Unchanged rows stay, a one-sided change wins, a modification beats a removal, and of two
   modifications the canonically smaller one wins.
   */
  function Resolve(base: Option<IndexRow>, ours: Option<IndexRow>, theirs: Option<IndexRow>): Result<Option<IndexRow>> {
    if !Changed(base, theirs) then Ok(if Changed(base, ours) then ours else base)
    else if !Changed(base, ours) then Ok(theirs)
    else if ours.None? then Ok(theirs)
    else if theirs.None? then Ok(ours)
    else
      match CompareRowsCanonical(theirs.value, ours.value)
      case Err(s) => Err(s)
      case Ok(n) => Ok(if n < 0 then theirs else ours)
  }

  ghost predicate Resolvable(base: RowMap, ours: RowMap, theirs: RowMap) {
    forall id :: Resolve(RowIn(base, id), RowIn(ours, id), RowIn(theirs, id)).Ok?
  }

  ghost function MergedRows(base: RowMap, ours: RowMap, theirs: RowMap): (m: RowMap)
    requires Resolvable(base, ours, theirs)
    ensures forall id :: Ok(RowIn(m, id)) == Resolve(RowIn(base, id), RowIn(ours, id), RowIn(theirs, id))
  {
    map id | id in base.Keys + ours.Keys + theirs.Keys
      && Resolve(RowIn(base, id), RowIn(ours, id), RowIn(theirs, id)).value.Some?
      :: Resolve(RowIn(base, id), RowIn(ours, id), RowIn(theirs, id)).value.value
  }

  lemma MergedIsKeyed(base: RowMap, ours: RowMap, theirs: RowMap)
    requires Keyed(base) && Keyed(ours) && Keyed(theirs) && Resolvable(base, ours, theirs)
    ensures Keyed(MergedRows(base, ours, theirs))
  {
    var m := MergedRows(base, ours, theirs);
    forall id | id in m
      ensures m[id].id == id
    {
      assert Ok(RowIn(m, id)) == Resolve(RowIn(base, id), RowIn(ours, id), RowIn(theirs, id));
    }
  }

  // -------------------------------------------------------------------------
  // What the merge returns
  // -------------------------------------------------------------------------

  predicate NoNaN(row: IndexRow) {
    forall i :: 0 <= i < |row.values| ==> !IsNaN(row.values[i])
  }

  ghost predicate Mergeable(def: IndexDefinition, base: IndexObject, ours: IndexObject, theirs: IndexObject) {
    && base.key == ours.key == theirs.key && OrderOk(def.order)
    && DistinctIds(base.rows) && DistinctIds(ours.rows) && DistinctIds(theirs.rows)
    && Resolvable(RowMapOf(base.rows), RowMapOf(ours.rows), RowMapOf(theirs.rows))
  }

  /** The merged rows can be listed in the index's order. */
  ghost predicate Listable(order: seq<OrderField>, m: RowMap) {
    && OrderOk(order)
    && (forall id :: id in m ==> RowShaped(order, IdPosition(order), m[id]) && NoNaN(m[id]))
    && forall id, id' :: id in m && id' in m && id != id' ==> PairComparable(order, m[id], m[id'])
  }

  ghost predicate IsListing(order: seq<OrderField>, m: RowMap, rows: seq<IndexRow>) {
    Sorted(RowOrder(order), rows) && DistinctIds(rows) && RowMapOf(rows) == m
  }

  /** The outcome of merging: the merged rows in order, or the reason why there is none. */
  ghost predicate MergesTo(def: IndexDefinition, base: IndexObject, ours: IndexObject, theirs: IndexObject,
                           r: Result<IndexObject>) {
    if !Mergeable(def, base, ours, theirs) then r == Err(InvalidArgument)
    else
      var m := MergedRows(RowMapOf(base.rows), RowMapOf(ours.rows), RowMapOf(theirs.rows));
      if !Listable(def.order, m) then r == Err(InvalidArgument)
      else if def.unique && |m| > 1 then r == Err(Aborted)
      else r.Ok? && r.value.key == base.key && IsListing(def.order, m, r.value.rows)
  }

  // -------------------------------------------------------------------------
  // The algorithm
  // -------------------------------------------------------------------------

  method ToRowMap(rows: seq<IndexRow>) returns (r: Result<RowMap>)
    ensures match r
            case Ok(m) => DistinctIds(rows) && m == RowMapOf(rows) && Keyed(m)
            case Err(s) => !DistinctIds(rows) && s == InvalidArgument
  {
    hide RowMapOf, Holds, DistinctIds;
    var out: RowMap := map[];
    NoRowsAreDistinct();
    RowMapEmpty();
    for k := 0 to |rows|
      invariant DistinctIds(rows[..k]) && out == RowMapOf(rows[..k])
    {
      if rows[k].id in out {
        FoundTwice(rows, k);
        return Err(InvalidArgument);
      }
      RowMapGrows(rows[..k], rows[k]);
      assert rows[..k + 1] == rows[..k] + [rows[k]];
      out := out[rows[k].id := rows[k]];
    }
    assert rows[..|rows|] == rows;
    RowMapIsKeyed(rows);
    return Ok(out);
  }

  lemma NoRowsAreDistinct()
    ensures DistinctIds([])
  {
  }

  lemma RowMapIsKeyed(rows: seq<IndexRow>)
    requires DistinctIds(rows)
    ensures Keyed(RowMapOf(rows))
  {
    hide RowMapOf;
    RowMapHolds(rows);
  }

  lemma FoundTwice(rows: seq<IndexRow>, k: nat)
    requires k < |rows| && DistinctIds(rows[..k]) && rows[k].id in RowMapOf(rows[..k])
    ensures !DistinctIds(rows)
  {
    hide RowMapOf;
    RowMapHolds(rows[..k]);
    var row := RowMapOf(rows[..k])[rows[k].id];
    var j :| 0 <= j < k && rows[..k][j] == row;
    assert rows[j].id == rows[k].id;
  }

  datatype Delta = Delta(removes: set<Bits64>, adds: seq<IndexRow>)

  /** The row that a side adds or rewrites. */
  function AddedRow(base: Option<IndexRow>, head: Option<IndexRow>): Option<IndexRow> {
    if head.Some? && Changed(base, head) then head else None
  }

  method ComputeDelta(base: RowMap, head: RowMap) returns (delta: Delta)
    requires Keyed(base) && Keyed(head)
    ensures forall id :: id in delta.removes <==> id in base && Changed(RowIn(base, id), RowIn(head, id))
    ensures DistinctIds(delta.adds)
    ensures forall id :: RowIn(RowMapOf(delta.adds), id) == AddedRow(RowIn(base, id), RowIn(head, id))
  {
    hide RowsEqual, RowMapOf;
    delta := Delta({}, []);
    RowMapEmpty();
    var todo := base.Keys;
    while todo != {}
      invariant todo <= base.Keys
      invariant forall id :: id in delta.removes <==>
        id in base && id !in todo && Changed(RowIn(base, id), RowIn(head, id))
      invariant DistinctIds(delta.adds)
      invariant forall id :: RowIn(RowMapOf(delta.adds), id) ==
                             if id in base && id !in todo then AddedRow(RowIn(base, id), RowIn(head, id)) else None
    {
      var id :| id in todo;
      todo := todo - {id};
      if id !in head {
        delta := delta.(removes := delta.removes + {id});
      } else if !RowsEqual(base[id], head[id]) {
        assert RowIn(RowMapOf(delta.adds), id) == None;
        RowMapGrows(delta.adds, head[id]);
        delta := Delta(delta.removes + {id}, delta.adds + [head[id]]);
      }
    }
    todo := head.Keys;
    while todo != {}
      invariant todo <= head.Keys && DistinctIds(delta.adds)
      invariant forall id :: id in delta.removes <==> id in base && Changed(RowIn(base, id), RowIn(head, id))
      invariant forall id :: RowIn(RowMapOf(delta.adds), id) ==
                             if id in base || id !in todo then AddedRow(RowIn(base, id), RowIn(head, id)) else None
    {
      var id :| id in todo;
      todo := todo - {id};
      if id !in base {
        assert RowIn(RowMapOf(delta.adds), id) == None;
        RowMapGrows(delta.adds, head[id]);
        delta := delta.(adds := delta.adds + [head[id]]);
      }
    }
  }

  lemma RowMapEmpty()
    ensures RowMapOf([]) == map[]
  {
  }

  type Candidates = map<Bits64, seq<IndexRow>>

  function CandidatesFor(c: Candidates, id: Bits64): seq<IndexRow> {
    if id in c then c[id] else []
  }

  function AsList(r: Option<IndexRow>): seq<IndexRow> {
    if r.Some? then [r.value] else []
  }

  /** The new candidates are the old ones followed by the given rows. */
  ghost predicate Appended(c: Candidates, m: RowMap, c': Candidates) {
    forall id :: CandidatesFor(c', id) == CandidatesFor(c, id) + AsList(RowIn(m, id))
  }

  lemma AppendedOne(c: Candidates, m: RowMap, c': Candidates, row: IndexRow)
    requires Appended(c, m, c') && row.id !in m
    ensures Appended(c, m[row.id := row], c'[row.id := CandidatesFor(c', row.id) + [row]])
  {
    var c'' := c'[row.id := CandidatesFor(c', row.id) + [row]];
    forall id
      ensures CandidatesFor(c'', id) == CandidatesFor(c, id) + AsList(RowIn(m[row.id := row], id))
    {
      assert CandidatesFor(c', id) == CandidatesFor(c, id) + AsList(RowIn(m, id));
    }
  }

  method AppendCandidates(c: Candidates, adds: seq<IndexRow>) returns (c': Candidates)
    requires DistinctIds(adds) && forall id :: id in c ==> c[id] != []
    ensures Appended(c, RowMapOf(adds), c') && forall id :: id in c' ==> c'[id] != []
  {
    hide RowMapOf, Appended, Holds, DistinctIds;
    c' := c;
    AppendedNone(c);
    for k := 0 to |adds|
      invariant Appended(c, RowMapOf(adds[..k]), c') && forall id :: id in c' ==> c'[id] != []
    {
      assert adds[..k + 1] == adds[..k] + [adds[k]];
      DistinctPrefix(adds, k);
      DistinctPrefix(adds, k + 1);
      RowMapHolds(adds[..k]);
      HoldsGrows(RowMapOf(adds[..k]), adds[..k], adds[k]);
      RowMapGrows(adds[..k], adds[k]);
      AppendedOne(c, RowMapOf(adds[..k]), c', adds[k]);
      c' := c'[adds[k].id := CandidatesFor(c', adds[k].id) + [adds[k]]];
    }
    assert adds[..|adds|] == adds;
  }

  lemma AppendedNone(c: Candidates)
    ensures Appended(c, RowMapOf([]), c)
  {
  }

  /** Keep the smaller one, scanning left to right. */
  function Smallest(chosen: IndexRow, rest: seq<IndexRow>): Result<IndexRow>
    decreases |rest|
  {
    if rest == [] then Ok(chosen)
    else
      match CompareRowsCanonical(rest[0], chosen)
      case Err(s) => Err(s)
      case Ok(n) => Smallest(if n < 0 then rest[0] else chosen, rest[1..])
  }

  method ChooseCandidate(candidates: seq<IndexRow>) returns (r: Result<IndexRow>)
    requires candidates != []
    ensures r == Smallest(candidates[0], candidates[1..])
  {
    var chosen := candidates[0];
    for i := 1 to |candidates|
      invariant Smallest(candidates[0], candidates[1..]) == Smallest(chosen, candidates[i..])
    {
      assert candidates[i..][1..] == candidates[i + 1..];
      var c := CompareRowsCanonical(candidates[i], chosen);
      if c.Err? {
        return Err(c.status);
      }
      if c.value < 0 {
        chosen := candidates[i];
      }
    }
    return Ok(chosen);
  }

  /** A base row stays if neither side touched it. */
  function KeptRow(base: Option<IndexRow>, ours: Option<IndexRow>, theirs: Option<IndexRow>): Option<IndexRow> {
    if Changed(base, ours) || Changed(base, theirs) then None else base
  }

  function CandidateRows(base: Option<IndexRow>, ours: Option<IndexRow>, theirs: Option<IndexRow>): seq<IndexRow> {
    AsList(AddedRow(base, ours)) + AsList(AddedRow(base, theirs))
  }

  /** What was kept and the candidates determine the outcome for one artifact. */
  lemma CandidatesResolve(base: Option<IndexRow>, ours: Option<IndexRow>, theirs: Option<IndexRow>)
    ensures
      var c := CandidateRows(base, ours, theirs);
      Resolve(base, ours, theirs) ==
      if c == [] then Ok(KeptRow(base, ours, theirs))
      else match Smallest(c[0], c[1..]) { case Ok(row) => Ok(Some(row)) case Err(s) => Err(s) }
  {
    hide RowsEqual, CompareRowsCanonical;
    var o, t := AddedRow(base, ours), AddedRow(base, theirs);
    var c := CandidateRows(base, ours, theirs);
    if o.Some? && t.Some? {
      assert c[1..] == [t.value] && c[1..][1..] == [];
      assert Smallest(t.value, []) == Ok(t.value) && Smallest(o.value, []) == Ok(o.value);
    } else {
      assert c != [] ==> c[1..] == [];
    }
  }

  method ApplyCandidates(kept: RowMap, c: Candidates, ghost base: RowMap, ghost ours: RowMap, ghost theirs: RowMap)
    returns (r: Result<RowMap>)
    requires forall id :: RowIn(kept, id) == KeptRow(RowIn(base, id), RowIn(ours, id), RowIn(theirs, id))
    requires forall id :: CandidatesFor(c, id) == CandidateRows(RowIn(base, id), RowIn(ours, id), RowIn(theirs, id))
    requires forall id :: id in c ==> c[id] != []
    ensures match r
            case Ok(m) => Resolvable(base, ours, theirs) && m == MergedRows(base, ours, theirs)
            case Err(s) => !Resolvable(base, ours, theirs) && s == InvalidArgument
  {
    hide Resolve, Smallest, CandidateRows, KeptRow;
    var merged := kept;
    var todo := c.Keys;
    while todo != {}
      invariant todo <= c.Keys
      invariant forall id :: id !in c || id in todo ==> RowIn(merged, id) == RowIn(kept, id)
      invariant forall id :: id in c && id !in todo ==>
        Resolve(RowIn(base, id), RowIn(ours, id), RowIn(theirs, id)) == Ok(RowIn(merged, id))
    {
      var id :| id in todo;
      todo := todo - {id};
      CandidatesResolve(RowIn(base, id), RowIn(ours, id), RowIn(theirs, id));
      assert CandidatesFor(c, id) == c[id];
      var chosen := ChooseCandidate(c[id]);
      if chosen.Err? {
        ChoiceErrors(c[id][0], c[id][1..]);
        return Err(chosen.status);
      }
      merged := merged[id := chosen.value];
    }
    forall id
      ensures Resolve(RowIn(base, id), RowIn(ours, id), RowIn(theirs, id)) == Ok(RowIn(merged, id))
    {
      if id !in c {
        assert CandidatesFor(c, id) == [];
        CandidatesResolve(RowIn(base, id), RowIn(ours, id), RowIn(theirs, id));
      }
    }
    SameRows(merged, MergedRows(base, ours, theirs));
    return Ok(merged);
  }

  lemma SameRows(m: RowMap, m': RowMap)
    requires forall id :: RowIn(m, id) == RowIn(m', id)
    ensures m == m'
  {
    forall id
      ensures id in m <==> id in m'
      ensures id in m ==> m[id] == m'[id]
    {
      assert RowIn(m, id) == RowIn(m', id);
    }
  }

  lemma {:induction false} ChoiceErrors(chosen: IndexRow, rest: seq<IndexRow>)
    ensures Smallest(chosen, rest).Err? ==> Smallest(chosen, rest).status == InvalidArgument
    decreases |rest|
  {
    if rest != [] {
      if |rest[0].values| == |chosen.values| {
        CompareByOrderFlips(AllAscending(|chosen.values|), rest[0].values, chosen.values);
      }
      var c := CompareRowsCanonical(rest[0], chosen);
      if c.Ok? {
        ChoiceErrors(if c.value < 0 then rest[0] else chosen, rest[1..]);
      }
    }
  }

  ghost predicate CompleteRows(order: seq<OrderField>, p: nat, m: RowMap) {
    forall id :: id in m ==> RowShaped(order, p, m[id]) && NoNaN(m[id])
  }

  /** Lists the merged rows, provided that each is complete and has no NaN. */
  method ListRows(order: seq<OrderField>, p: nat, m: RowMap) returns (r: Result<seq<IndexRow>>)
    requires Keyed(m)
    ensures match r
            case Ok(rows) => DistinctIds(rows) && RowMapOf(rows) == m && CompleteRows(order, p, m)
            case Err(s) => s == InvalidArgument && !CompleteRows(order, p, m)
  {
    hide RowMapOf, RowShaped, NoNaN;
    var rows: seq<IndexRow> := [];
    RowMapEmpty();
    var todo := m.Keys;
    while todo != {}
      invariant todo <= m.Keys && DistinctIds(rows)
      invariant forall id :: RowIn(RowMapOf(rows), id) == if id in todo then None else RowIn(m, id)
      invariant forall id :: id in m && id !in todo ==> RowShaped(order, p, m[id]) && NoNaN(m[id])
    {
      var id :| id in todo;
      if !RowShaped(order, p, m[id]) || !NoNaN(m[id]) {
        return Err(InvalidArgument);
      }
      assert RowIn(RowMapOf(rows), id) == None;
      RowMapGrows(rows, m[id]);
      rows := rows + [m[id]];
      todo := todo - {id};
    }
    SameRows(RowMapOf(rows), m);
    return Ok(rows);
  }

  lemma ListedRowsShaped(order: seq<OrderField>, p: nat, rows: seq<IndexRow>)
    requires DistinctIds(rows) && OrderOk(order) && p == IdPosition(order) && CompleteRows(order, p, RowMapOf(rows))
    ensures RowsShaped(order, p, rows) && (PairwiseComparable(order, rows) <==> Listable(order, RowMapOf(rows)))
  {
    hide PairComparable, RowShaped, RowMapOf;
    var m := RowMapOf(rows);
    RowMapHolds(rows);
    assert forall k :: 0 <= k < |rows| ==> RowIn(m, rows[k].id) == Some(rows[k]);
    if PairwiseComparable(order, rows) {
      forall id, id' | id in m && id' in m && id != id'
        ensures PairComparable(order, m[id], m[id'])
      {
        var i :| 0 <= i < |rows| && rows[i] == m[id];
        var j :| 0 <= j < |rows| && rows[j] == m[id'];
        ComparableFlips(order, rows[i], rows[j]);
      }
    }
  }

  lemma ComparableFlips(order: seq<OrderField>, x: IndexRow, y: IndexRow)
    ensures PairComparable(order, x, y) <==> PairComparable(order, y, x)
  {
    if |x.values| == |y.values| == |order| {
      CompareByOrderFlips(order, x.values, y.values);
    }
  }

  method MergeIndexObjects(def: IndexDefinition, base: IndexObject, ours: IndexObject, theirs: IndexObject)
    returns (r: Result<IndexObject>)
    ensures MergesTo(def, base, ours, theirs, r)
  {
    hide Resolvable, Listable, PairwiseComparable;
    if base.key != ours.key || base.key != theirs.key {
      return Err(InvalidArgument);
    }
    var id := FindIdOrder(def.order);
    if id.Err? {
      return Err(InvalidArgument);
    }
    var baseMap := ToRowMap(base.rows);
    if baseMap.Err? {
      return Err(InvalidArgument);
    }
    var oursMap := ToRowMap(ours.rows);
    if oursMap.Err? {
      return Err(InvalidArgument);
    }
    var theirsMap := ToRowMap(theirs.rows);
    if theirsMap.Err? {
      return Err(InvalidArgument);
    }
    var merged := MergeRowMaps(baseMap.value, oursMap.value, theirsMap.value);
    if merged.Err? {
      return Err(InvalidArgument);
    }
    MergedIsKeyed(baseMap.value, oursMap.value, theirsMap.value);
    var rows := SortMerged(def, id.value, merged.value);
    if rows.Err? {
      return Err(InvalidArgument);
    }
    if def.unique && |rows.value| > 1 {
      return Err(Aborted);
    }
    return Ok(IndexObject(base.key, rows.value));
  }

  method MergeRowMaps(base: RowMap, ours: RowMap, theirs: RowMap) returns (r: Result<RowMap>)
    requires Keyed(base) && Keyed(ours) && Keyed(theirs)
    ensures match r
            case Ok(m) => Resolvable(base, ours, theirs) && m == MergedRows(base, ours, theirs)
            case Err(s) => !Resolvable(base, ours, theirs) && s == InvalidArgument
  {
    hide Resolvable, RowMapOf, Changed, Appended, AddedRow, CandidateRows, KeptRow;
    var oursDelta := ComputeDelta(base, ours);
    var theirsDelta := ComputeDelta(base, theirs);
    var kept := base - oursDelta.removes - theirsDelta.removes;
    forall id
      ensures RowIn(kept, id) == KeptRow(RowIn(base, id), RowIn(ours, id), RowIn(theirs, id))
    {
      KeptIs(RowIn(base, id), RowIn(ours, id), RowIn(theirs, id));
    }
    var c := AppendCandidates(map[], oursDelta.adds);
    var c' := AppendCandidates(c, theirsDelta.adds);
    forall id
      ensures CandidatesFor(c', id) == CandidateRows(RowIn(base, id), RowIn(ours, id), RowIn(theirs, id))
    {
      CandidatesAre(c, RowMapOf(oursDelta.adds), RowMapOf(theirsDelta.adds), c', id, RowIn(base, id), RowIn(ours, id),
                    RowIn(theirs, id));
    }
    r := ApplyCandidates(kept, c', base, ours, theirs);
  }

  lemma KeptIs(base: Option<IndexRow>, ours: Option<IndexRow>, theirs: Option<IndexRow>)
    ensures KeptRow(base, ours, theirs) == if base.Some? && !Changed(base, ours) && !Changed(base, theirs) then base
      else None
  {
  }

  lemma CandidatesAre(c: Candidates, m: RowMap, m': RowMap, c': Candidates, id: Bits64,
                      base: Option<IndexRow>, ours: Option<IndexRow>, theirs: Option<IndexRow>)
    requires Appended(map[], m, c) && Appended(c, m', c')
    requires RowIn(m, id) == AddedRow(base, ours) && RowIn(m', id) == AddedRow(base, theirs)
    ensures CandidatesFor(c', id) == CandidateRows(base, ours, theirs)
  {
    hide AddedRow;
    assert CandidatesFor(c, id) == CandidatesFor(map[], id) + AsList(RowIn(m, id));
  }

  method SortMerged(def: IndexDefinition, p: nat, m: RowMap) returns (r: Result<seq<IndexRow>>)
    requires Keyed(m) && OrderOk(def.order) && p == IdPosition(def.order)
    ensures match r
            case Ok(rows) => Listable(def.order, m) && IsListing(def.order, m, rows) && |rows| == |m|
            case Err(s) => !Listable(def.order, m) && s == InvalidArgument
  {
    hide RowLess, CompareByOrder, PairComparable, RowMapOf;
    r := ListRows(def.order, p, m);
    if r.Err? {
      return;
    }
    ListedRowsShaped(def.order, p, r.value);
    var comparable := CheckPairs(def.order, r.value);
    if !comparable {
      return Err(InvalidArgument);
    }
    var rows := Sort(RowOrder(def.order), r.value);
    RowOrderIsStrict(def.order, p, r.value);
    SortSorts(RowOrder(def.order), r.value);
    RowMapIgnoresOrder(r.value, rows);
    RowMapHolds(rows);
    return Ok(rows);
  }

  // -------------------------------------------------------------------------
  // Laws
  // -------------------------------------------------------------------------

  /** What becomes of a row that not both sides rewrote. */
  lemma ResolveRule(base: Option<IndexRow>, ours: Option<IndexRow>, theirs: Option<IndexRow>)
    ensures !Changed(base, ours) && !Changed(base, theirs) ==> Resolve(base, ours, theirs) == Ok(base)
    ensures Changed(base, ours) && !Changed(base, theirs) ==> Resolve(base, ours, theirs) == Ok(ours)
    ensures !Changed(base, ours) && Changed(base, theirs) ==> Resolve(base, ours, theirs) == Ok(theirs)
    ensures Changed(base, ours) && Changed(base, theirs) && theirs.None? ==> Resolve(base, ours, theirs) == Ok(ours)
    ensures Changed(base, ours) && Changed(base, theirs) && ours.None? ==> Resolve(base, ours, theirs) == Ok(theirs)
  {
    hide RowsEqual, CompareRowsCanonical;
  }

  ghost predicate SameCell(a: IndexCell, b: IndexCell) {
    KindOf(a) == KindOf(b) && !IsNaN(a) && !IsNaN(b) && RankOf(a) == RankOf(b)
  }

  ghost predicate SameRow(a: IndexRow, b: IndexRow) {
    && a.id == b.id && |a.values| == |b.values|
    && forall i :: 0 <= i < |a.values| ==> SameCell(a.values[i], b.values[i])
  }

  /** A row is unchanged iff it is absent on both sides, or holds the same numbers and strings. */
  lemma ChangedMeans(base: Option<IndexRow>, head: Option<IndexRow>)
    ensures !Changed(base, head) <==>
            (base.None? && head.None?) || (base.Some? && head.Some? && SameRow(base.value, head.value))
  {
    hide CompareIndexCellAscending;
    if base.Some? && head.Some? && |base.value.values| == |head.value.values| {
      forall i | 0 <= i < |base.value.values|
        ensures CellsEqual(base.value.values[i], head.value.values[i]) <==>
                SameCell(base.value.values[i], head.value.values[i])
      {
        CompareByRank(base.value.values[i], head.value.values[i]);
        CompareFlips(base.value.values[i], head.value.values[i]);
      }
    }
  }

  /** Of two rewritten rows the smaller one wins: where they first differ, its cell is smaller. */
  lemma SmallerModificationWins(base: Option<IndexRow>, ours: IndexRow, theirs: IndexRow, m: IndexRow, i: nat)
    requires Changed(base, Some(ours)) && Changed(base, Some(theirs))
    requires Resolve(base, Some(ours), Some(theirs)) == Ok(Some(m))
    requires |ours.values| == |theirs.values| && i < |ours.values|
    requires forall j :: 0 <= j < i ==> RankOf(ours.values[j]) == RankOf(theirs.values[j])
    requires RankOf(ours.values[i]) != RankOf(theirs.values[i])
    ensures m == if Lexicographic.Less(RankOf(theirs.values[i]), RankOf(ours.values[i])) then theirs else ours
  {
    hide CompareByOrder, RowsEqual;
    var order := AllAscending(|ours.values|);
    CompareByOrderFlips(order, theirs.values, ours.values);
    var n := CompareByOrder(order, theirs.values, ours.values).value;
    if n < 0 {
      FirstDifferenceDecides(order, theirs.values, ours.values, i);
    } else if n > 0 {
      FirstDifferenceDecides(order, ours.values, theirs.values, i);
      Lexicographic.Asymmetric(RankOf(ours.values[i]), RankOf(theirs.values[i]));
    } else {
      TieMeansCellsTie(order, theirs.values, ours.values, i);
      CompareFlips(theirs.values[i], ours.values[i]);
    }
  }

  /** Two rewritten rows cannot be reconciled iff they have different lengths or meet incomparable cells. */
  lemma ModificationsClash(base: Option<IndexRow>, ours: IndexRow, theirs: IndexRow)
    requires Changed(base, Some(ours)) && Changed(base, Some(theirs))
    ensures Resolve(base, Some(ours), Some(theirs)).Err? <==>
            |ours.values| != |theirs.values| || exists i: nat :: IncomparableAt(theirs.values, ours.values, i)
  {
    hide RowsEqual;
    if |ours.values| == |theirs.values| {
      ComparisonFails(AllAscending(|ours.values|), theirs.values, ours.values);
    }
  }

  /** The cells tie before position `i`, and there have different types or a NaN among them. */
  ghost predicate IncomparableAt(a: seq<IndexCell>, b: seq<IndexCell>, i: nat) {
    i < |a| && i < |b| && (forall j :: 0 <= j < i ==> SameCell(a[j], b[j])) && !Comparable(a[i], b[i])
  }

  lemma {:induction false} ComparisonFails(order: seq<OrderField>, a: seq<IndexCell>, b: seq<IndexCell>)
    requires |a| == |b| == |order|
    ensures CompareByOrder(order, a, b).Err? <==> exists i: nat :: IncomparableAt(a, b, i)
  {
    hide CompareIndexCellAscending;
    if order != [] {
      CompareByRank(a[0], b[0]);
      CompareFlips(a[0], b[0]);
      ComparisonFails(order[1..], a[1..], b[1..]);
      if !Comparable(a[0], b[0]) {
        assert IncomparableAt(a, b, 0);
      } else if i: nat :| IncomparableAt(a[1..], b[1..], i) && SameCell(a[0], b[0]) {
        assert IncomparableAt(a, b, i + 1);
      }
      if i: nat :| IncomparableAt(a, b, i) && i > 0 {
        assert SameCell(a[0], b[0]);
        assert forall j :: 0 <= j < i - 1 ==> a[1..][j] == a[j + 1] && b[1..][j] == b[j + 1];
        assert IncomparableAt(a[1..], b[1..], i - 1);
      }
    }
  }

  /** Merged rows come in the definition's order, column by column in its direction. */
  lemma MergedRowsFollowDirections(def: IndexDefinition, base: IndexObject, ours: IndexObject, theirs: IndexObject,
                                   m: IndexObject, a: nat, b: nat, i: nat)
    requires MergesTo(def, base, ours, theirs, Ok(m)) && a < b < |m.rows| && i < |def.order|
    requires |m.rows[a].values| == |m.rows[b].values| == |def.order|
    requires forall j :: 0 <= j < i ==> RankOf(m.rows[a].values[j]) == RankOf(m.rows[b].values[j])
    requires RankOf(m.rows[a].values[i]) != RankOf(m.rows[b].values[i])
    ensures def.order[i].direction == Ascending ==>
      Lexicographic.Less(RankOf(m.rows[a].values[i]), RankOf(m.rows[b].values[i]))
    ensures def.order[i].direction == Descending ==>
      Lexicographic.Less(RankOf(m.rows[b].values[i]), RankOf(m.rows[a].values[i]))
  {
    hide CompareByOrder, RowMapOf, Resolve;
    var p := IdPosition(def.order);
    CompleteListing(def.order, RowMapOf(m.rows));
    ListedRowsShaped(def.order, p, m.rows);
    assert PairComparable(def.order, m.rows[a], m.rows[b]);
    RowLessFlips(def.order, p, m.rows[a], m.rows[b]);
    assert RowOrder(def.order)(m.rows[a], m.rows[b]);
    FirstDifferenceDecides(def.order, m.rows[a].values, m.rows[b].values, i);
  }

  /** The inputs determine the outcome. */
  lemma OutcomeIsUnique(def: IndexDefinition, base: IndexObject, ours: IndexObject, theirs: IndexObject,
                        r: Result<IndexObject>, r': Result<IndexObject>)
    requires MergesTo(def, base, ours, theirs, r) && MergesTo(def, base, ours, theirs, r')
    ensures r == r'
  {
    hide Mergeable, Listable, MergedRows;
    if r.Ok? {
      ListingIsUnique(def.order, MergedRows(RowMapOf(base.rows), RowMapOf(ours.rows), RowMapOf(theirs.rows)),
                      r.value.rows, r'.value.rows);
    }
  }

  lemma ListingIsUnique(order: seq<OrderField>, m: RowMap, a: seq<IndexRow>, b: seq<IndexRow>)
    requires Listable(order, m) && IsListing(order, m, a) && IsListing(order, m, b)
    ensures a == b
  {
    hide Listable, PairwiseComparable, RowsShaped, RowMapOf, RowLess;
    CompleteListing(order, m);
    ListedRowsShaped(order, IdPosition(order), a);
    RowOrderIsStrict(order, IdPosition(order), a);
    RowMapHolds(a);
    RowMapHolds(b);
    SameListed(m, a, b);
    SortedUnique(RowOrder(order), a, b);
  }

  lemma CompleteListing(order: seq<OrderField>, m: RowMap)
    requires Listable(order, m)
    ensures OrderOk(order) && CompleteRows(order, IdPosition(order), m)
  {
  }

  lemma SameListed(m: RowMap, a: seq<IndexRow>, b: seq<IndexRow>)
    requires Holds(m, a) && Holds(m, b)
    ensures Elements(a) == Elements(b)
  {
    forall row
      ensures row in a <==> row in b
    {
      if row in a {
        var k :| 0 <= k < |a| && a[k] == row;
        assert RowIn(m, a[k].id) == Some(row);
      }
      if row in b {
        var k :| 0 <= k < |b| && b[k] == row;
        assert RowIn(m, b[k].id) == Some(row);
      }
    }
  }

  /** Both sides rewrote the row, to versions that compare equal and yet differ. */
  ghost predicate HiddenTie(base: Option<IndexRow>, ours: Option<IndexRow>, theirs: Option<IndexRow>) {
    && ours.Some? && theirs.Some? && ours != theirs && Changed(base, ours) && Changed(base, theirs)
    && CompareRowsCanonical(theirs.value, ours.value) == Ok(0)
  }

  ghost predicate NoHiddenTies(base: IndexObject, ours: IndexObject, theirs: IndexObject) {
    forall id :: !HiddenTie(RowIn(RowMapOf(base.rows), id), RowIn(RowMapOf(ours.rows), id),
                            RowIn(RowMapOf(theirs.rows), id))
  }

  lemma ResolveFlips(base: Option<IndexRow>, ours: Option<IndexRow>, theirs: Option<IndexRow>)
    ensures Resolve(base, ours, theirs).Ok? <==> Resolve(base, theirs, ours).Ok?
    ensures Resolve(base, ours, theirs).Ok? ==>
      (Resolve(base, ours, theirs) == Resolve(base, theirs, ours) <==> !HiddenTie(base, ours, theirs))
  {
    hide RowsEqual;
    if ours.Some? && theirs.Some? && |ours.value.values| == |theirs.value.values| {
      CompareByOrderFlips(AllAscending(|ours.value.values|), ours.value.values, theirs.value.values);
    }
  }

  /**
   Which side is called ours does not matter, for results and for errors alike, unless both sides
   rewrote a row to versions that differ only in the sign of a zero.
   */
  lemma MergeCommutes(def: IndexDefinition, base: IndexObject, ours: IndexObject, theirs: IndexObject,
                      r: Result<IndexObject>)
    requires MergesTo(def, base, ours, theirs, r) && NoHiddenTies(base, ours, theirs)
    ensures MergesTo(def, base, theirs, ours, r)
  {
    hide Resolve, HiddenTie, Listable, RowMapOf;
    if DistinctIds(base.rows) && DistinctIds(ours.rows) && DistinctIds(theirs.rows) {
      var b, o, t := RowMapOf(base.rows), RowMapOf(ours.rows), RowMapOf(theirs.rows);
      forall id
        ensures Resolve(RowIn(b, id), RowIn(o, id), RowIn(t, id)).Ok? <==>
          Resolve(RowIn(b, id), RowIn(t, id), RowIn(o, id)).Ok?
        ensures Resolve(RowIn(b, id), RowIn(o, id), RowIn(t, id)).Ok? ==>
          Resolve(RowIn(b, id), RowIn(o, id), RowIn(t, id)) == Resolve(RowIn(b, id), RowIn(t, id), RowIn(o, id))
      {
        ResolveFlips(RowIn(b, id), RowIn(o, id), RowIn(t, id));
      }
      if Resolvable(b, o, t) {
        SameRows(MergedRows(b, o, t), MergedRows(b, t, o));
      }
    }
  }

  /** And a successful merge commutes only then. */
  lemma CommutesOnlyWithoutTies(def: IndexDefinition, base: IndexObject, ours: IndexObject, theirs: IndexObject,
                                m: IndexObject)
    requires MergesTo(def, base, ours, theirs, Ok(m)) && MergesTo(def, base, theirs, ours, Ok(m))
    ensures NoHiddenTies(base, ours, theirs)
  {
    hide Resolve, HiddenTie, Listable, RowMapOf;
    var b, o, t := RowMapOf(base.rows), RowMapOf(ours.rows), RowMapOf(theirs.rows);
    forall id
      ensures !HiddenTie(RowIn(b, id), RowIn(o, id), RowIn(t, id))
    {
      ResolveFlips(RowIn(b, id), RowIn(o, id), RowIn(t, id));
      assert MergedRows(b, o, t) == MergedRows(b, t, o);
    }
  }

  /** Such ties exist: with two zeros of different sign, the side called ours wins either way. */
  lemma SignedZerosTie(id: Bits64)
    ensures
      var x, y := IndexRow(id, [Uint64(id), Float(0)]), IndexRow(id, [Uint64(id), Float(FLOAT_SIGN)]);
      && HiddenTie(None, Some(x), Some(y))
      && Resolve(None, Some(x), Some(y)) == Ok(Some(x)) && Resolve(None, Some(y), Some(x)) == Ok(Some(y))
  {
    var x, y := IndexRow(id, [Uint64(id), Float(0)]), IndexRow(id, [Uint64(id), Float(FLOAT_SIGN)]);
    assert CompareIndexCellAscending(Float(0), Float(FLOAT_SIGN)) == Ok(0);
    assert x.values[1..] == [Float(0)] && y.values[1..] == [Float(FLOAT_SIGN)];
    CompareByOrderFlips(AllAscending(2), x.values, y.values);
    var rest := AllAscending(2)[1..];
    assert CompareByOrder(rest[1..], x.values[1..][1..], y.values[1..][1..]) == Ok(0);
    assert CompareByOrder(rest, x.values[1..], y.values[1..]) == Ok(0);
  }

  ghost predicate Normalised(o: IndexObject) {
    forall k, i :: 0 <= k < |o.rows| && 0 <= i < |o.rows[k].values| ==> !IsNegativeZero(o.rows[k].values[i])
  }

  /** Cells as derivation produces them, without negative zeros, never tie in disguise. */
  lemma NormalisedHasNoHiddenTies(base: IndexObject, ours: IndexObject, theirs: IndexObject)
    requires DistinctIds(ours.rows) && DistinctIds(theirs.rows) && Normalised(ours) && Normalised(theirs)
    ensures NoHiddenTies(base, ours, theirs)
  {
    hide RowMapOf, CompareByOrder;
    var b, o, t := RowMapOf(base.rows), RowMapOf(ours.rows), RowMapOf(theirs.rows);
    RowMapHolds(ours.rows);
    RowMapHolds(theirs.rows);
    forall id
      ensures !HiddenTie(RowIn(b, id), RowIn(o, id), RowIn(t, id))
    {
      if id in o && id in t && CompareRowsCanonical(t[id], o[id]) == Ok(0) {
        var x, y := t[id], o[id];
        assert x in theirs.rows && y in ours.rows;
        forall i | 0 <= i < |x.values|
          ensures x.values[i] == y.values[i]
        {
          TieMeansCellsTie(AllAscending(|x.values|), x.values, y.values, i);
          TiesAreEqual(x.values[i], y.values[i]);
        }
        assert x.values == y.values;
      }
    }
  }

  lemma {:induction false} CompareWithItself(order: seq<OrderField>, a: seq<IndexCell>)
    requires |a| == |order| && forall i :: 0 <= i < |a| ==> !IsNaN(a[i])
    ensures CompareByOrder(order, a, a) == Ok(0)
  {
    if a != [] {
      CompareByRank(a[0], a[0]);
      CompareFlips(a[0], a[0]);
      CompareWithItself(order[1..], a[1..]);
    }
  }

  lemma CleanRowEqualsItself(row: IndexRow)
    requires NoNaN(row)
    ensures RowsEqual(row, row) && CompareRowsCanonical(row, row) == Ok(0)
  {
    forall i | 0 <= i < |row.values|
      ensures CellsEqual(row.values[i], row.values[i])
    {
      CompareByRank(row.values[i], row.values[i]);
      CompareFlips(row.values[i], row.values[i]);
    }
    CompareWithItself(AllAscending(|row.values|), row.values);
  }

  lemma ResolveAbsorbs(base: Option<IndexRow>, ours: Option<IndexRow>, theirs: Option<IndexRow>, m: Option<IndexRow>)
    requires Resolve(base, ours, theirs) == Ok(m) && (m.Some? ==> NoNaN(m.value))
    ensures Resolve(base, m, theirs) == Ok(m) && Resolve(base, ours, m) == Ok(m)
  {
    hide RowsEqual, CompareRowsCanonical;
    if m.Some? {
      CleanRowEqualsItself(m.value);
    }
  }

  /** Merging a result with either of its sources again gives that result: resolution is a fixed point. */
  lemma MergeAbsorbs(def: IndexDefinition, base: IndexObject, ours: IndexObject, theirs: IndexObject, m: IndexObject)
    requires MergesTo(def, base, ours, theirs, Ok(m))
    ensures MergesTo(def, base, m, theirs, Ok(m)) && MergesTo(def, base, ours, m, Ok(m))
  {
    hide Resolve, RowMapOf, NoNaN, RowLess;
    var b, o, t, x := RowMapOf(base.rows), RowMapOf(ours.rows), RowMapOf(theirs.rows), RowMapOf(m.rows);
    forall id
      ensures Resolve(RowIn(b, id), RowIn(x, id), RowIn(t, id)) == Ok(RowIn(x, id))
      ensures Resolve(RowIn(b, id), RowIn(o, id), RowIn(x, id)) == Ok(RowIn(x, id))
    {
      ResolveAbsorbs(RowIn(b, id), RowIn(o, id), RowIn(t, id), RowIn(x, id));
    }
    SameRows(MergedRows(b, x, t), x);
    SameRows(MergedRows(b, o, x), x);
  }
}
