/** Deriving the index entries of an artifact: nested expansion of repeated fields, then deduplication. */
module IndexDerivation {
  import opened Results
  import opened IndexCells
  import opened FieldPaths
  import opened RepeatedChains
  import opened KeyEncoding
  import opened Expansion
  import Sorting

  /** A resolved field path. */
  datatype FieldInfo = FieldInfo(path: Path, segs: seq<Segment>)

  ghost predicate Resolved(d: Descriptor, info: FieldInfo) {
    Accepted(d, info.path) && info.segs == Segments(d, info.path, |info.path|)
  }

  function Prepend(es: seq<Entry>, r: Result<seq<Entry>>): Result<seq<Entry>> {
    match r
    case Ok(x) => Ok(es + x)
    case Err(s) => Err(s)
  }

  /** Repeated fields above a position are known by their place in the chain. */
  lemma IndexKnown(d: Descriptor, path: Path, i: nat, chain: seq<Path>)
    requires i < |path| && RepeatedAt(d, path, i) && Ancestors(d, path, i + 1) <= chain
    ensures |Ancestors(d, path, i)| < |chain| && chain[|Ancestors(d, path, i)|] == path[..i + 1]
  {
    assert Ancestors(d, path, i + 1)[|Ancestors(d, path, i)|] == path[..i + 1];
  }

  lemma AlongCovers(j: Job, path: Path, i: nat)
    requires Along(j, path) && i < RealLength(path)
    ensures Ancestors(j.d, path, i + 1) <= j.chain
  {
    AncestorsGrow(j.d, path, i + 1, RealLength(path));
  }

  /** The fields above a chain element are known, and the repeated ones come earlier in the chain. */
  lemma ChainPath(j: Job, k: nat, i: nat)
    requires JobOk(j) && k < |j.chain| && i + 1 < |j.chain[k]|
    ensures FieldAt(j.d, j.chain[k], i).Some? && Ancestors(j.d, j.chain[k], i + 1) <= j.chain[..k]
  {
    hide Along, FieldAt, TypeAt, Ancestors;
    ChainElement(j.d, j.keys, j.chain, k);
    var q :| 0 <= q < |j.keys| && AllAncestors(j.d, j.keys[q]) == j.chain;
    var p, n := j.keys[q], |j.chain[k]|;
    assert Along(j, p);
    AlongIsUsable(j, p, i, k);
    AncestorIs(j.d, p, RealLength(p), k);
    PrefixFields(j.d, p, n, i);
    PrefixAncestors(j.d, p, n, i + 1);
    AncestorsGrow(j.d, p, i + 1, n - 1);
    assert j.chain[k] == p[..n];
  }

  lemma PositionKnown(j: Job, indices: map<Path, nat>, v: Vector, i: nat)
    requires JobOk(j) && |v| < |j.chain| && i + 1 < |j.chain[|v|]| && BoundTo(j.chain, indices, v)
    requires RepeatedAt(j.d, j.chain[|v|], i)
    ensures
      var path := j.chain[|v|];
      var k := |Ancestors(j.d, path, i)|;
      k < |v| && path[..i + 1] in indices && indices[path[..i + 1]] == v[k]
  {
    hide JobOk, FieldAt, TypeAt, Ancestors;
    ChainPath(j, |v|, i);
    IndexKnown(j.d, j.chain[|v|], i, j.chain[..|v|]);
    var k := |Ancestors(j.d, j.chain[|v|], i)|;
    assert j.chain[k] == j.chain[..|v|][k];
  }

  lemma CountIs(j: Job, v: Vector)
    requires JobOk(j) && |v| < |j.chain|
    ensures
      var p := j.chain[|v|];
      && p != []
      && Count(j, v) == match Reach(j, p, |p| - 1, v) { case None => 0 case Some(m) => |ValuesOf(m, p[|p| - 1])| }
  {
    hide Reach, Along, ChainOf;
    ChainElement(j.d, j.keys, j.chain, |v|);
  }

  lemma AlongIsUsable(j: Job, p: Path, i: nat, k: nat)
    requires Along(j, p) && AllAncestors(j.d, p) == j.chain && k < |j.chain| && i + 1 < |j.chain[k]|
    ensures i < RealLength(p) && FieldAt(j.d, p, i).Some?
  {
    hide TypeAt, FieldAt;
    AncestorIs(j.d, p, RealLength(p), k);
    assert Usable(j.d, p, i);
  }

  // -------------------------------------------------------------------------
  // Positions by chain element
  // -------------------------------------------------------------------------

  /** The positions are those of `v`, one for each of the first elements of the chain. */
  ghost predicate BoundTo(chain: seq<Path>, indices: map<Path, nat>, v: Vector) {
    && |v| <= |chain|
    && (forall k :: 0 <= k < |v| ==> chain[k] in indices && indices[chain[k]] == v[k])
    && forall p :: p in indices ==> p in chain[..|v|]
  }

  /** The same, except that the next element may have a position as well. */
  ghost predicate BoundBelow(chain: seq<Path>, indices: map<Path, nat>, v: Vector) {
    && |v| < |chain|
    && (forall k :: 0 <= k < |v| ==> chain[k] in indices && indices[chain[k]] == v[k])
    && forall p :: p in indices ==> p in chain[..|v| + 1]
  }

  lemma BoundIsBelow(chain: seq<Path>, indices: map<Path, nat>, v: Vector)
    requires BoundTo(chain, indices, v) && |v| < |chain|
    ensures BoundBelow(chain, indices, v)
  {
    assert chain[..|v| + 1] == chain[..|v|] + [chain[|v|]];
  }

  lemma BoundStep(chain: seq<Path>, indices: map<Path, nat>, v: Vector, i: nat)
    requires BoundBelow(chain, indices, v) && Sorting.Distinct(chain)
    ensures BoundTo(chain, indices[chain[|v|] := i], v + [i])
  {
  }

  lemma BoundAgain(chain: seq<Path>, indices: map<Path, nat>, v: Vector, i: nat)
    requires BoundTo(chain, indices, v + [i])
    ensures BoundBelow(chain, indices, v)
  {
    var w := v + [i];
    forall k | 0 <= k < |v|
      ensures chain[k] in indices && indices[chain[k]] == v[k]
    {
      assert w[k] == v[k];
    }
  }

  lemma BoundRestored(chain: seq<Path>, indices: map<Path, nat>, v: Vector)
    requires BoundBelow(chain, indices, v) && Sorting.Distinct(chain)
    ensures BoundTo(chain, indices - {chain[|v|]}, v)
  {
    assert chain[..|v| + 1] == chain[..|v|] + [chain[|v|]];
  }

  lemma ChainIsDistinct(j: Job)
    requires JobOk(j)
    ensures Sorting.Distinct(j.chain)
  {
    forall a, b | 0 <= a < b < |j.chain|
      ensures j.chain[a] != j.chain[b]
    {
      ChainGrows(j.d, j.keys, j.chain, a, b);
    }
  }

  // -------------------------------------------------------------------------
  // Rows accumulated by the expansion
  // -------------------------------------------------------------------------

  lemma ExpansionStart(j: Job, v: Vector)
    requires JobOk(j) && |v| < |j.chain|
    ensures Rows(j, Vectors(j, v)) == Prepend([], Rows(j, VectorsFrom(j, v, 0)))
  {
    hide JobOk, Rows, VectorsFrom;
    var r := Rows(j, Vectors(j, v));
    if r.Ok? {
      assert [] + r.value == r.value;
    }
  }

  lemma OneRow(j: Job, v: Vector)
    requires JobOk(j) && |v| == |j.chain|
    ensures Rows(j, Vectors(j, v)) ==
            match EntryAt(j, v) { case Ok(e) => Ok(Listed(e)) case Err(s) => Err(s) }
  {
    hide JobOk, EntryAt;
    assert [v][1..] == [];
    assert Rows(j, []) == Ok([]);
    if EntryAt(j, v).Ok? {
      assert Listed(EntryAt(j, v).value) + [] == Listed(EntryAt(j, v).value);
    }
  }

  lemma ExpansionStep(j: Job, v: Vector, i: nat, acc: seq<Entry>)
    requires JobOk(j) && |v| < |j.chain| && i < Count(j, v)
    requires Rows(j, Vectors(j, v)) == Prepend(acc, Rows(j, VectorsFrom(j, v, i)))
    ensures match Rows(j, Vectors(j, v + [i]))
            case Ok(x) => Rows(j, Vectors(j, v)) == Prepend(acc + x, Rows(j, VectorsFrom(j, v, i + 1)))
            case Err(s) => Rows(j, Vectors(j, v)) == Err(s)
  {
    hide JobOk, Count, Rows, Vectors;
    RowsAppend(j, Vectors(j, v + [i]), VectorsFrom(j, v, i + 1));
    var x, y := Rows(j, Vectors(j, v + [i])), Rows(j, VectorsFrom(j, v, i + 1));
    if x.Ok? && y.Ok? {
      assert acc + (x.value + y.value) == (acc + x.value) + y.value;
    }
  }

  lemma NothingLeft(j: Job, v: Vector, i: nat, acc: seq<Entry>)
    requires JobOk(j) && |v| < |j.chain| && i == Count(j, v)
    requires Rows(j, Vectors(j, v)) == Prepend(acc, Rows(j, VectorsFrom(j, v, i)))
    ensures Rows(j, Vectors(j, v)) == Ok(acc)
  {
    hide JobOk, Count;
    assert acc + [] == acc;
  }

  /** Expanding from `v` turned `before` into `after`. */
  ghost predicate Expanded(j: Job, v: Vector, before: seq<Entry>, r: Result<()>, after: seq<Entry>)
    requires JobOk(j) && |v| <= |j.chain|
  {
    match Rows(j, Vectors(j, v))
    case Ok(es) => r.Ok? && after == before + es
    case Err(s) => r == Err(s)
  }

  class Expander {
    const job: Job
    const keyFields: seq<FieldInfo>
    const orderFields: seq<FieldInfo>
    /** The current position in every repeated field that is being iterated. */
    var repeatedIndices: map<Path, nat>
    var out: seq<Entry>

    ghost predicate Valid() {
      && JobOk(job) && |keyFields| == |job.keys| && |orderFields| == |job.orders|
      && (forall k :: 0 <= k < |keyFields| ==> keyFields[k].path == job.keys[k] && Resolved(job.d, keyFields[k]))
      && forall k :: 0 <= k < |orderFields| ==>
           orderFields[k].path == job.orders[k] && (job.orders[k] == ID_PATH || Resolved(job.d, orderFields[k]))
    }

    /** The current positions are the vector `v`. */
    ghost predicate Bound(v: Vector)
      reads this
    {
      BoundTo(job.chain, repeatedIndices, v)
    }

    constructor (job: Job, keyFields: seq<FieldInfo>, orderFields: seq<FieldInfo>)
      ensures this.job == job && this.keyFields == keyFields && this.orderFields == orderFields
      ensures repeatedIndices == map[] && out == []
    {
      this.job := job;
      this.keyFields := keyFields;
      this.orderFields := orderFields;
      repeatedIndices := map[];
      out := [];
    }

    /** Follows a path to the message that holds its last field. A missing position cannot occur. */
    method NavigateToLeafParent(info: FieldInfo, ghost v: Vector) returns (r: Option<Msg>)
      requires JobOk(job) && Resolved(job.d, info) && Along(job, info.path) && !IsVirtual(info.path)
      requires Bound(v) && |v| == |job.chain|
      ensures r == Reach(job, info.path, |info.path| - 1, v)
    {
      hide JobOk, FieldAt, TypeAt, Ancestors;
      var path := info.path;
      var current := job.root;
      var prefix: Path := [];
      for i := 0 to |info.segs| - 1
        invariant Reach(job, path, i, v) == Some(current) && prefix == path[..i]
      {
        var f := info.segs[i].field;
        assert Usable(job.d, path, i) && FieldAt(job.d, path, i) == Some(f);
        prefix := prefix + [path[i]];
        assert prefix == path[..i + 1];
        var values := ValuesOf(current, path[i]);
        if f.repeated {
          AlongCovers(job, path, i);
          IndexKnown(job.d, path, i, job.chain);
          var index := repeatedIndices[prefix];
          if index >= |values| {
            ReachStopsAtNone(job, path, i + 1, |path| - 1, v);
            return None;
          }
          current := AsMessage(values[index]);
        } else {
          if f.presence && values == [] {
            ReachStopsAtNone(job, path, i + 1, |path| - 1, v);
            return None;
          }
          current := if values == [] then EMPTY else AsMessage(values[0]);
        }
      }
      return Some(current);
    }

    method ExtractFieldValueInContext(info: FieldInfo, ghost v: Vector) returns (r: Result<Option<IndexCell>>)
      requires JobOk(job) && Resolved(job.d, info) && Along(job, info.path) && Bound(v) && |v| == |job.chain|
      ensures r == ValueAt(job, info.path, v)
    {
      hide JobOk, FieldAt, TypeAt, Ancestors;
      var path := info.path;
      if info.segs[|info.segs| - 1].VirtualIndex? {
        VirtualHasParent(job.d, path);
        var parent := path[..|path| - 1];
        assert job.chain[|AllAncestors(job.d, path)| - 1] == parent;
        return Ok(Some(Uint32(repeatedIndices[parent] % 0x1_0000_0000)));
      }
      var message := NavigateToLeafParent(info, v);
      if message.None? {
        return Ok(None);
      }
      var f := info.segs[|info.segs| - 1].field;
      assert Usable(job.d, path, |path| - 1) && FieldAt(job.d, path, |path| - 1) == Some(f);
      var values := ValuesOf(message.value, path[|path| - 1]);
      if f.repeated {
        AlongCovers(job, path, |path| - 1);
        IndexKnown(job.d, path, |path| - 1, job.chain);
        assert path[..|path| - 1 + 1] == path;
        var index := repeatedIndices[path];
        if index >= |values| {
          return Ok(None);
        }
        return Cell(AsCell(f.typ.kind, values[index]));
      }
      if f.presence && values == [] {
        return Ok(None);
      }
      return Cell(if values == [] then DefaultCell(f.typ.kind) else AsCell(f.typ.kind, values[0]));
    }

    /** The entry for the current positions. */
    method EmitEntry(ghost v: Vector) returns (r: Result<Option<Entry>>)
      requires Valid() && Bound(v) && |v| == |job.chain|
      ensures r == EntryAt(job, v)
    {
      hide ValueAt, ChainOf, Segments, Accepted, AllAncestors;
      var keyValues: seq<IndexCell> := [];
      for k := 0 to |keyFields|
        invariant KeyValues(job, k, v) == Ok(Some(keyValues))
      {
        assert Along(job, job.keys[k]);
        var val := ExtractFieldValueInContext(keyFields[k], v);
        if val.Err? || val.value.None? {
          StopsEarly(job, k + 1, |keyFields|, v);
          return if val.Err? then Err(val.status) else Ok(None);
        }
        keyValues := keyValues + [val.value.value];
      }
      var orderValues: seq<IndexCell> := [];
      for k := 0 to |orderFields|
        invariant OrderValues(job, k, v) == Ok(Some(orderValues))
      {
        if orderFields[k].path == ID_PATH {
          orderValues := orderValues + [Uint64(job.id)];
        } else {
          assert Along(job, job.orders[k]);
          var val := ExtractFieldValueInContext(orderFields[k], v);
          if val.Err? || val.value.None? {
            OrderStopsEarly(job, k + 1, |orderFields|, v);
            return if val.Err? then Err(val.status) else Ok(None);
          }
          orderValues := orderValues + [val.value.value];
        }
      }
      var encodedKey := EncodeCells(keyValues);
      return Ok(Some(Entry(encodedKey, orderValues, keyValues)));
    }

    /** How many elements the next repeated field of the chain has here. */
    method GetChainFieldCount(depth: nat, ghost v: Vector) returns (count: nat)
      requires JobOk(job) && depth == |v| < |job.chain| && Bound(v)
      ensures count == Count(job, v)
    {
      hide JobOk, FieldAt, TypeAt, Ancestors, BoundTo, Count;
      var path := job.chain[depth];
      CountIs(job, v);
      var current := job.root;
      var prefix: Path := [];
      for i := 0 to |path| - 1
        invariant Reach(job, path, i, v) == Some(current) && prefix == path[..i]
      {
        prefix := prefix + [path[i]];
        assert prefix == path[..i + 1];
        ChainPath(job, depth, i);
        var f := FieldAt(job.d, path, i).value;
        var values := ValuesOf(current, path[i]);
        if f.repeated {
          PositionKnown(job, repeatedIndices, v, i);
          var index := repeatedIndices[prefix];
          if index >= |values| {
            ReachStopsAtNone(job, path, i + 1, |path| - 1, v);
            return 0;
          }
          current := AsMessage(values[index]);
        } else {
          if f.presence && values == [] {
            ReachStopsAtNone(job, path, i + 1, |path| - 1, v);
            return 0;
          }
          current := if values == [] then EMPTY else AsMessage(values[0]);
        }
      }
      return |ValuesOf(current, path[|path| - 1])|;
    }

    /** Appends the rows of every way to complete the current positions, or fails with the first error. */
    method ExpandNestedRepeated(depth: nat, ghost v: Vector) returns (r: Result<()>)
      requires Valid() && depth == |v| && Bound(v) && ValidVector(job, v)
      modifies this
      ensures Expanded(job, v, old(out), r, out) && (r.Ok? ==> Bound(v))
      decreases |job.chain| - depth, 1
    {
      if depth == |job.chain| {
        r := EmitCurrent(v);
      } else {
        r := ExpandElements(depth, v);
      }
    }

    method EmitCurrent(ghost v: Vector) returns (r: Result<()>)
      requires Valid() && Bound(v) && |v| == |job.chain|
      modifies this`out
      ensures Expanded(job, v, old(out), r, out)
    {
      hide EntryAt, BoundTo, Rows, Vectors;
      var entry := EmitEntry(v);
      OneRow(job, v);
      if entry.Err? {
        return Err(entry.status);
      }
      if entry.value.Some? {
        out := out + [entry.value.value];
      }
      return Ok(());
    }

    method ExpandElements(depth: nat, ghost v: Vector) returns (r: Result<()>)
      requires Valid() && depth == |v| < |job.chain| && Bound(v) && ValidVector(job, v)
      modifies this
      ensures Expanded(job, v, old(out), r, out) && (r.Ok? ==> Bound(v))
      decreases |job.chain| - depth, 0
    {
      hide Resolved, ChainOf, Along, ValidVector, Count, BoundTo, BoundBelow, Rows, Vectors, VectorsFrom, Prepend;
      var count := GetChainFieldCount(depth, v);
      var prefix := job.chain[depth];
      ghost var acc: seq<Entry> := [];
      ExpansionStart(job, v);
      ChainIsDistinct(job);
      BoundIsBelow(job.chain, repeatedIndices, v);
      for i := 0 to count
        invariant BoundBelow(job.chain, repeatedIndices, v) && out == old(out) + acc
        invariant Rows(job, Vectors(job, v)) == Prepend(acc, Rows(job, VectorsFrom(job, v, i)))
      {
        BoundStep(job.chain, repeatedIndices, v, i);
        ValidGrows(job, v, i);
        ExpansionStep(job, v, i, acc);
        repeatedIndices := repeatedIndices[prefix := i];
        r := ExpandNestedRepeated(depth + 1, v + [i]);
        if r.Err? {
          return;
        }
        BoundAgain(job.chain, repeatedIndices, v, i);
        acc := acc + Rows(job, Vectors(job, v + [i])).value;
      }
      BoundRestored(job.chain, repeatedIndices, v);
      repeatedIndices := repeatedIndices - {prefix};
      NothingLeft(job, v, count, acc);
      return Ok(());
    }
  }

  lemma {:induction false} StopsEarly(j: Job, m: nat, n: nat, v: Vector)
    requires JobOk(j) && m <= n <= |j.keys| && (KeyValues(j, m, v).Err? || KeyValues(j, m, v).value.None?)
    ensures KeyValues(j, n, v) == KeyValues(j, m, v)
    decreases n
  {
    hide ValueAt, ChainOf;
    if m < n {
      assert Along(j, j.keys[n - 1]);
      StopsEarly(j, m, n - 1, v);
    }
  }

  lemma {:induction false} OrderStopsEarly(j: Job, m: nat, n: nat, v: Vector)
    requires JobOk(j) && m <= n <= |j.orders| && (OrderValues(j, m, v).Err? || OrderValues(j, m, v).value.None?)
    ensures OrderValues(j, n, v) == OrderValues(j, m, v)
    decreases n
  {
    hide ValueAt, ChainOf;
    if m < n {
      assert j.orders[n - 1] == ID_PATH || Along(j, j.orders[n - 1]);
      OrderStopsEarly(j, m, n - 1, v);
    }
  }

  method EncodeCells(cells: seq<IndexCell>) returns (out: seq<Byte>)
    ensures out == TupleBytes(cells)
  {
    hide CellBytes;
    out := [];
    for i := 0 to |cells|
      invariant out == TupleBytes(cells[..i])
    {
      var next := EncodeIndexCell(cells[i], out);
      assert cells[..i + 1] == cells[..i] + [cells[i]];
      TupleGrows(cells[..i], cells[i]);
      out := next.value;
    }
    assert cells[..|cells|] == cells;
  }

  // -------------------------------------------------------------------------
  // Deduplication
  // -------------------------------------------------------------------------

  /** The bytes by which two entries are taken for the same. */
  function Fingerprint(e: Entry): seq<Byte> {
    e.encodedKey + TupleBytes(e.order)
  }

  function Fingerprints(es: seq<Entry>): set<seq<Byte>> {
    set i | 0 <= i < |es| :: Fingerprint(es[i])
  }

  /** Entries whose fingerprint has not occurred before. */
  function FirstByFingerprint(es: seq<Entry>): seq<Entry> {
    if es == [] then []
    else
      var n := |es| - 1;
      FirstByFingerprint(es[..n]) + if Fingerprint(es[n]) in Fingerprints(es[..n]) then [] else [es[n]]
  }

  /** First occurrences, in order. */
  function FirstOccurrences(es: seq<Entry>): seq<Entry> {
    if es == [] then []
    else
      var n := |es| - 1;
      FirstOccurrences(es[..n]) + if es[n] in es[..n] then [] else [es[n]]
  }

  lemma {:induction false} FirstOccurrencesKeepAll(es: seq<Entry>)
    ensures Sorting.Elements(FirstOccurrences(es)) == Sorting.Elements(es) && Sorting.Distinct(FirstOccurrences(es))
  {
    if es != [] {
      var n := |es| - 1;
      FirstOccurrencesKeepAll(es[..n]);
      assert es == es[..n] + [es[n]];
      var before := FirstOccurrences(es[..n]);
      forall x
        ensures x in before <==> x in es[..n]
      {
        assert x in Sorting.Elements(before) <==> x in Sorting.Elements(es[..n]);
      }
      assert forall x :: x in es <==> x in es[..n] || x == es[n];
      assert es[n] in es[..n] ==> FirstOccurrences(es) == before;
    }
  }

  /** What comes later adds to the end, so entries are listed in the order in which they first occur. */
  lemma {:induction false} FirstOccurrencesGrow(es: seq<Entry>, n: nat)
    requires n <= |es|
    ensures FirstOccurrences(es[..n]) <= FirstOccurrences(es)
  {
    if n == |es| {
      assert es[..n] == es;
    } else {
      var most := es[..|es| - 1];
      FirstOccurrencesGrow(most, n);
      assert most[..n] == es[..n];
    }
  }

  /** Compacts the entries in place and returns how many are left. */
  method DeduplicateEntries(entries: array<Entry>) returns (n: nat)
    modifies entries
    ensures n <= entries.Length && entries[..n] == FirstByFingerprint(old(entries[..]))
  {
    hide TupleBytes, FirstByFingerprint, Fingerprints;
    var seen: set<seq<Byte>> := {};
    n := 0;
    ghost var was := entries[..];
    NoEntries(was[..0]);
    for read := 0 to entries.Length
      invariant n <= read && entries[..n] == FirstByFingerprint(was[..read]) && seen == Fingerprints(was[..read])
      invariant forall k :: read <= k < entries.Length ==> entries[k] == was[k]
    {
      var order := EncodeCells(entries[read].order);
      var fingerprint := entries[read].encodedKey + order;
      OneMoreEntry(was, read);
      if fingerprint !in seen {
        seen := seen + {fingerprint};
        if n != read {
          entries[n] := entries[read];
        }
        n := n + 1;
        assert entries[..n] == entries[..n - 1] + [was[read]];
      }
    }
    assert was[..entries.Length] == was;
  }

  lemma NoEntries(es: seq<Entry>)
    requires es == []
    ensures FirstByFingerprint(es) == [] && Fingerprints(es) == {}
  {
  }

  lemma OneMoreEntry(es: seq<Entry>, n: nat)
    requires n < |es|
    ensures Fingerprints(es[..n + 1]) == Fingerprints(es[..n]) + {Fingerprint(es[n])}
    ensures FirstByFingerprint(es[..n + 1]) ==
            FirstByFingerprint(es[..n]) + if Fingerprint(es[n]) in Fingerprints(es[..n]) then [] else [es[n]]
  {
    hide Fingerprint, Fingerprints;
    assert es[..n + 1][..n] == es[..n];
    FingerprintsGrow(es[..n], es[n]);
    assert es[..n + 1] == es[..n] + [es[n]];
  }

  lemma FingerprintsGrow(es: seq<Entry>, e: Entry)
    ensures Fingerprints(es + [e]) == Fingerprints(es) + {Fingerprint(e)}
  {
    hide Fingerprint;
    var es' := es + [e];
    assert es'[|es|] == e;
    forall f | f in Fingerprints(es)
      ensures f in Fingerprints(es')
    {
      var i :| 0 <= i < |es| && Fingerprint(es[i]) == f;
      assert es'[i] == es[i];
    }
  }

  lemma {:induction false} TupleJoins(a: seq<IndexCell>, b: seq<IndexCell>)
    ensures TupleBytes(a + b) == TupleBytes(a) + TupleBytes(b)
  {
    hide CellBytes;
    if a == [] {
      assert a + b == b;
    } else {
      assert (a + b)[1..] == a[1..] + b;
      TupleJoins(a[1..], b);
    }
  }

  /** Rows of one definition with equal fingerprints are equal, so deduplication loses nothing. */
  lemma FingerprintIsExact(j: Job, v: Vector, w: Vector, e: Entry, f: Entry)
    requires JobOk(j) && IsRow(j, v, e) && IsRow(j, w, f)
    ensures Fingerprint(e) == Fingerprint(f) <==> e == f
  {
    hide JobOk, TupleBytes, ValueAt, OrderValueAt, Along;
    if Fingerprint(e) == Fingerprint(f) {
      RowsShareSignature(j, v, w, e, f);
      TupleJoins(e.key, e.order);
      TupleJoins(f.key, f.order);
      assert TupleBytes(e.key + e.order) + [] == TupleBytes(f.key + f.order) + [];
      TuplePrefixFree(e.key + e.order, f.key + f.order, [], []);
      assert e.key == (e.key + e.order)[..|e.key|] && f.key == (f.key + f.order)[..|f.key|];
      assert e.order == (e.key + e.order)[|e.key|..] && f.order == (f.key + f.order)[|f.key|..];
    }
  }

  ghost predicate SomeRow(j: Job, e: Entry)
    requires JobOk(j)
  {
    exists v :: IsRow(j, v, e)
  }

  lemma {:induction false} FingerprintsDeduplicate(j: Job, es: seq<Entry>)
    requires JobOk(j) && forall i :: 0 <= i < |es| ==> SomeRow(j, es[i])
    ensures FirstByFingerprint(es) == FirstOccurrences(es)
  {
    hide JobOk, IsRow, Fingerprint;
    if es != [] {
      var n := |es| - 1;
      FingerprintsDeduplicate(j, es[..n]);
      forall i | 0 <= i < n
        ensures Fingerprint(es[i]) == Fingerprint(es[n]) <==> es[i] == es[n]
      {
        assert SomeRow(j, es[i]) && SomeRow(j, es[n]);
        var v :| IsRow(j, v, es[i]);
        var w :| IsRow(j, w, es[n]);
        FingerprintIsExact(j, v, w, es[i], es[n]);
      }
      assert forall i :: 0 <= i < n ==> es[..n][i] == es[i];
    }
  }

  // -------------------------------------------------------------------------
  // One index definition
  // -------------------------------------------------------------------------

  function FieldOrders(orders: seq<Path>): seq<Path> {
    if orders == [] then []
    else
      var n := |orders| - 1;
      FieldOrders(orders[..n]) + if orders[n] == ID_PATH then [] else [orders[n]]
  }

  lemma {:induction false} FieldOrdersAre(orders: seq<Path>)
    ensures forall p :: p in FieldOrders(orders) <==> p in orders && p != ID_PATH
  {
    if orders != [] {
      var n := |orders| - 1;
      FieldOrdersAre(orders[..n]);
      assert orders == orders[..n] + [orders[n]];
    }
  }

  /** The definition's chain makes a job exactly when the analysis accepts it. */
  lemma ChainMakesJob(j: Job)
    ensures JobOk(j) <==> HasChain(j.d, j.keys, FieldOrders(j.orders), j.chain)
  {
    hide Accepted, AllAncestors;
    var fields := FieldOrders(j.orders);
    FieldOrdersAre(j.orders);
    if HasChain(j.d, j.keys, fields, j.chain) {
      forall k | 0 <= k < |j.keys|
        ensures Along(j, j.keys[k])
      {
      }
      forall k | 0 <= k < |j.orders| && j.orders[k] != ID_PATH
        ensures Along(j, j.orders[k])
      {
        assert j.orders[k] in fields;
        var i :| 0 <= i < |fields| && fields[i] == j.orders[k];
        assert Accepted(j.d, fields[i]) && Covered(j.d, j.chain, fields[i]);
        CoveredIsPrefix(j.d, j.keys, j.chain, fields[i]);
      }
    }
    if JobOk(j) {
      forall i | 0 <= i < |fields|
        ensures Accepted(j.d, fields[i]) && Covered(j.d, j.chain, fields[i])
      {
        assert fields[i] in j.orders;
        var k :| 0 <= k < |j.orders| && j.orders[k] == fields[i];
        assert Along(j, j.orders[k]);
      }
      assert forall k :: 0 <= k < |j.keys| ==> Along(j, j.keys[k]);
    }
  }

  /** Resolves the paths of a definition; the artifact id is no field, so an order may name it unresolved. */
  method ResolveFields(d: Descriptor, paths: seq<Path>, idAllowed: bool) returns (r: Result<seq<FieldInfo>>)
    ensures match r
            case Ok(infos) =>
              |infos| == |paths| && forall k :: 0 <= k < |paths| ==>
                infos[k].path == paths[k] && ((idAllowed && paths[k] == ID_PATH) || Resolved(d, infos[k]))
            case Err(s) =>
              && s == InvalidArgument
              && exists k :: 0 <= k < |paths| && !(idAllowed && paths[k] == ID_PATH) && !Accepted(d, paths[k])
  {
    hide Accepted, Segments;
    var infos: seq<FieldInfo> := [];
    for i := 0 to |paths|
      invariant |infos| == i
      invariant forall k :: 0 <= k < i ==>
        infos[k].path == paths[k] && ((idAllowed && paths[k] == ID_PATH) || Resolved(d, infos[k]))
    {
      if idAllowed && paths[i] == ID_PATH {
        infos := infos + [FieldInfo(paths[i], [])];
      } else {
        var segs := ResolveIndexFieldPath(d, paths[i]);
        if segs.Err? {
          return Err(InvalidArgument);
        }
        infos := infos + [FieldInfo(paths[i], segs.value)];
      }
    }
    return Ok(infos);
  }

  method OrdersForAnalysis(orders: seq<Path>) returns (fields: seq<Path>)
    ensures fields == FieldOrders(orders)
  {
    fields := [];
    for i := 0 to |orders|
      invariant fields == FieldOrders(orders[..i])
    {
      assert orders[..i + 1][..i] == orders[..i];
      if orders[i] != ID_PATH {
        fields := fields + [orders[i]];
      }
    }
    assert orders[..|orders|] == orders;
  }

  /** The outcome for a job: the first occurrences of all its rows. */
  ghost predicate Derived(j: Job, r: Result<seq<Entry>>)
    requires JobOk(j)
  {
    match Rows(j, Vectors(j, []))
    case Ok(all) => r == Ok(FirstOccurrences(all))
    case Err(s) => r == Err(s)
  }

  lemma AllAreRows(j: Job, es: seq<Entry>)
    requires JobOk(j) && Rows(j, Vectors(j, [])) == Ok(es)
    ensures forall i :: 0 <= i < |es| ==> SomeRow(j, es[i])
  {
    hide JobOk, IsRow, Rows, Vectors;
    VectorsIncrease(j, []);
    var ws := RowsFollowVectors(j, Vectors(j, []), es);
  }

  /** Expands and deduplicates; without repeated fields there is just one entry to emit. */
  method ExpandJob(job: Job, keyFields: seq<FieldInfo>, orderFields: seq<FieldInfo>) returns (r: Result<seq<Entry>>)
    requires JobOk(job) && |keyFields| == |job.keys| && |orderFields| == |job.orders|
    requires forall k :: 0 <= k < |keyFields| ==> keyFields[k].path == job.keys[k] && Resolved(job.d, keyFields[k])
    requires forall k :: 0 <= k < |orderFields| ==>
      orderFields[k].path == job.orders[k] && (job.orders[k] == ID_PATH || Resolved(job.d, orderFields[k]))
    ensures Derived(job, r)
  {
    hide Resolved, ChainOf, Along, Rows, Vectors, EntryAt, FirstOccurrences, FirstByFingerprint;
    var expander := new Expander(job, keyFields, orderFields);
    if job.chain == [] {
      var e := expander.EmitEntry([]);
      OneRow(job, []);
      if e.Err? {
        return Err(e.status);
      }
      FirstOfOne(e.value);
      return Ok(if e.value.Some? then [e.value.value] else []);
    }
    var status := expander.ExpandNestedRepeated(0, []);
    if status.Err? {
      return Err(status.status);
    }
    var es := expander.out;
    assert es == [] + Rows(job, Vectors(job, [])).value == Rows(job, Vectors(job, [])).value;
    AllAreRows(job, es);
    FingerprintsDeduplicate(job, es);
    var entries := new Entry[|es|](i requires 0 <= i < |es| => es[i]);
    assert entries[..] == es;
    var n := DeduplicateEntries(entries);
    return Ok(entries[..n]);
  }

  lemma FirstOfOne(e: Option<Entry>)
    ensures FirstOccurrences(Listed(e)) == Listed(e)
  {
    if e.Some? {
      assert [e.value][..0] == [];
      assert FirstOccurrences([]) == [];
    }
  }

  /** The outcome for a definition: that of the job with its chain, or a refusal if it has none. */
  ghost predicate DerivedBy(d: Descriptor, keys: seq<Path>, orders: seq<Path>, root: Msg, id: Bits64,
                            r: Result<seq<Entry>>) {
    && (forall chain :: JobOk(Job(d, keys, orders, chain, root, id)) ==>
      Derived(Job(d, keys, orders, chain, root, id), r))
    && ((forall chain :: !JobOk(Job(d, keys, orders, chain, root, id))) ==> r == Err(InvalidArgument))
  }

  /**
   Derives the entries of one index definition. A definition without a single chain of repeated
   fields is refused; otherwise the entries are the first occurrences of the rows of every valid
   position vector, and the only possible error is a NaN in an indexed field.
   */
  method DeriveForIndex(d: Descriptor, keys: seq<Path>, orders: seq<Path>, root: Msg, id: Bits64)
    returns (r: Result<seq<Entry>>)
    ensures DerivedBy(d, keys, orders, root, id, r)
    ensures r.Err? ==> r.status == InvalidArgument
  {
    hide HasChain, JobOk, Resolved, FieldOrders, Derived;
    forall chain
      ensures JobOk(Job(d, keys, orders, chain, root, id)) <==> HasChain(d, keys, FieldOrders(orders), chain)
    {
      ChainMakesJob(Job(d, keys, orders, chain, root, id));
    }
    var keyFields := ResolveFields(d, keys, false);
    var orderFields := ResolveFields(d, orders, true);
    if keyFields.Err? || orderFields.Err? {
      forall chain | JobOk(Job(d, keys, orders, chain, root, id)) ensures false {
        JobPathsAccepted(Job(d, keys, orders, chain, root, id));
      }
      return Err(InvalidArgument);
    }
    var fields := OrdersForAnalysis(orders);
    var analysis := AnalyzeRepeatedChain(d, keys, fields);
    if analysis.Err? {
      return Err(InvalidArgument);
    }
    var job := Job(d, keys, orders, analysis.value.chain, root, id);
    r := ExpandJob(job, keyFields.value, orderFields.value);
    DerivedErrors(job, r);
    forall chain | JobOk(Job(d, keys, orders, chain, root, id))
      ensures Derived(Job(d, keys, orders, chain, root, id), r)
    {
      JobChainUnique(job, Job(d, keys, orders, chain, root, id));
    }
  }

  lemma JobPathsAccepted(j: Job)
    requires JobOk(j)
    ensures forall k :: 0 <= k < |j.keys| ==> Accepted(j.d, j.keys[k])
    ensures forall k :: 0 <= k < |j.orders| ==> j.orders[k] == ID_PATH || Accepted(j.d, j.orders[k])
  {
    hide ChainOf, Accepted;
    assert forall k :: 0 <= k < |j.keys| ==> Along(j, j.keys[k]);
    assert forall k :: 0 <= k < |j.orders| ==> j.orders[k] == ID_PATH || Along(j, j.orders[k]);
  }

  lemma JobChainUnique(j: Job, j': Job)
    requires JobOk(j) && JobOk(j') && j.d == j'.d && j.keys == j'.keys
    ensures j.chain == j'.chain
  {
    ChainIsUnique(j.d, j.keys, j.chain, j'.chain);
  }

  lemma DerivedErrors(j: Job, r: Result<seq<Entry>>)
    requires JobOk(j) && Derived(j, r)
    ensures r.Err? ==> r.status == InvalidArgument
  {
    hide JobOk, Rows, Vectors;
    RowErrors(j, Vectors(j, []));
  }

  // -------------------------------------------------------------------------
  // All definitions of a type
  // -------------------------------------------------------------------------

  datatype IndexDef = IndexDef(keyType: string, keys: seq<Path>, orders: seq<Path>)

  datatype DerivedEntry = DerivedEntry(defId: nat, keyType: string, entry: Entry)

  /** Entries carry the id of their definition, or zero if it is not known. */
  function Tagged(def: IndexDef, ids: map<string, nat>, es: seq<Entry>): (ts: seq<DerivedEntry>)
    ensures |ts| == |es|
  {
    var defId := if def.keyType in ids then ids[def.keyType] else 0;
    seq(|es|, i requires 0 <= i < |es| => DerivedEntry(defId, def.keyType, es[i]))
  }

  function Concatenated(defs: seq<IndexDef>, ids: map<string, nat>, parts: seq<seq<Entry>>): seq<DerivedEntry>
    requires |parts| == |defs|
  {
    if defs == [] then []
    else
      var n := |defs| - 1;
      Concatenated(defs[..n], ids, parts[..n]) + Tagged(defs[n], ids, parts[n])
  }

  ghost predicate AllDerived(d: Descriptor, defs: seq<IndexDef>, root: Msg, id: Bits64, parts: seq<seq<Entry>>) {
    && |parts| == |defs|
    && forall k :: 0 <= k < |defs| ==> DerivedBy(d, defs[k].keys, defs[k].orders, root, id, Ok(parts[k]))
  }

  /** The entries of all definitions one after the other; the first definition that fails decides. */
  method DeriveIndexEntries(d: Descriptor, defs: seq<IndexDef>, root: Msg, id: Bits64, ids: map<string, nat>)
    returns (r: Result<seq<DerivedEntry>>)
    ensures match r
            case Ok(out) =>
              exists parts :: AllDerived(d, defs, root, id, parts) && out == Concatenated(defs, ids, parts)
            case Err(s) =>
              && s == InvalidArgument
              && exists k ::
                   0 <= k < |defs| && DerivedBy(d, defs[k].keys, defs[k].orders, root, id, Err(InvalidArgument))
  {
    hide DerivedBy, Tagged;
    var out: seq<DerivedEntry> := [];
    ghost var parts: seq<seq<Entry>> := [];
    for k := 0 to |defs|
      invariant AllDerived(d, defs[..k], root, id, parts) && out == Concatenated(defs[..k], ids, parts)
    {
      var es := DeriveForIndex(d, defs[k].keys, defs[k].orders, root, id);
      if es.Err? {
        return Err(es.status);
      }
      assert defs[..k + 1][..k] == defs[..k] && (parts + [es.value])[..k] == parts;
      parts := parts + [es.value];
      out := out + Tagged(defs[k], ids, es.value);
    }
    assert defs[..|defs|] == defs;
    assert AllDerived(d, defs, root, id, parts);
    return Ok(out);
  }

  // -------------------------------------------------------------------------
  // What the entries are
  // -------------------------------------------------------------------------

  /** Every entry carries the id and the key type of the definition it was derived by. */
  lemma {:induction false} EntriesAreTagged(defs: seq<IndexDef>, ids: map<string, nat>, parts: seq<seq<Entry>>,
                                            t: DerivedEntry)
    requires |parts| == |defs|
    ensures t in Concatenated(defs, ids, parts) <==>
            exists k ::
              && 0 <= k < |defs| && t.entry in parts[k] && t.keyType == defs[k].keyType
              && t.defId == (if defs[k].keyType in ids then ids[defs[k].keyType] else 0)
  {
    if defs != [] {
      var n := |defs| - 1;
      EntriesAreTagged(defs[..n], ids, parts[..n], t);
      assert forall k :: 0 <= k < n ==> defs[..n][k] == defs[k] && parts[..n][k] == parts[k];
      TaggedIs(defs[n], ids, parts[n], t);
    }
  }

  lemma TaggedIs(def: IndexDef, ids: map<string, nat>, es: seq<Entry>, t: DerivedEntry)
    ensures t in Tagged(def, ids, es) <==>
            && t.entry in es && t.keyType == def.keyType
            && t.defId == (if def.keyType in ids then ids[def.keyType] else 0)
  {
    var ts := Tagged(def, ids, es);
    if t.entry in es {
      var i :| 0 <= i < |es| && es[i] == t.entry;
      assert ts[i].entry == t.entry;
    }
  }

  /** A complete vector of positions that all exist. */
  ghost predicate Complete(j: Job, v: Vector)
    requires JobOk(j)
  {
    |v| == |j.chain| && ValidVector(j, v)
  }

  ghost predicate RowOfSome(j: Job, e: Entry)
    requires JobOk(j)
  {
    exists v :: Complete(j, v) && IsRow(j, v, e)
  }

  /**
   The derived entries are exactly the rows of the complete valid vectors, each listed once; and the
   expansion lists them in the lexicographic order of their vectors.
   */
  lemma DerivedEntriesAreExact(j: Job, es: seq<Entry>)
    requires JobOk(j) && Derived(j, Ok(es))
    ensures Sorting.Distinct(es) && forall e :: e in es <==> RowOfSome(j, e)
  {
    hide JobOk, IsRow, Rows, Vectors, ValidVector, EntryAt, FirstOccurrences;
    var all := Rows(j, Vectors(j, [])).value;
    FirstOccurrencesKeepAll(all);
    VectorsStartValid(j);
    VectorsIncrease(j, []);
    var ws := RowsFollowVectors(j, Vectors(j, []), all);
    forall e
      ensures e in es <==> RowOfSome(j, e)
    {
      assert e in es <==> e in Sorting.Elements(all);
      if e in all {
        var i :| 0 <= i < |all| && all[i] == e;
        VectorsAreExact(j, [], ws[i]);
        assert Complete(j, ws[i]) && IsRow(j, ws[i], e);
      }
      if RowOfSome(j, e) {
        var v :| Complete(j, v) && IsRow(j, v, e);
        VectorsAreExact(j, [], v);
        EntryIsRow(j, v, e);
        assert v in ws;
        var i :| 0 <= i < |ws| && ws[i] == v;
        EntryIsRow(j, ws[i], all[i]);
        assert all[i] == e;
      }
    }
  }

  lemma VectorsStartValid(j: Job)
    requires JobOk(j)
    ensures ValidVector(j, [])
  {
  }
}
