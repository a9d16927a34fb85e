/**
 What an index definition derives from a message, stated without reference to how it is computed:
 one row for every vector of element positions down the chain of repeated fields.
 */
module Expansion {
  import opened Results
  import opened IndexCells
  import opened FieldPaths
  import opened RepeatedChains
  import opened KeyEncoding
  import opened Lexicographic

  const ID_PATH: Path := ["artifact_id"]

  /** An accepted index definition with its chain, applied to one message. */
  datatype Job = Job(d: Descriptor, keys: seq<Path>, orders: seq<Path>, chain: seq<Path>, root: Msg, id: Bits64)

  type Vector = seq<nat>

  /** The path may be indexed and runs along the chain. */
  ghost predicate Along(j: Job, path: Path) {
    Accepted(j.d, path) && AllAncestors(j.d, path) <= j.chain
  }

  ghost predicate JobOk(j: Job) {
    && ChainOf(j.d, j.keys, j.chain)
    && (forall k :: 0 <= k < |j.keys| ==> Along(j, j.keys[k]))
    && forall k :: 0 <= k < |j.orders| ==> j.orders[k] == ID_PATH || Along(j, j.orders[k])
  }

  // -------------------------------------------------------------------------
  // Following a path
  // -------------------------------------------------------------------------

  /** The message that the first `n` segments lead to, taking positions in repeated fields from `v`. */
  function Reach(j: Job, path: Path, n: nat, v: Vector): Option<Msg>
    requires n <= |path|
  {
    if n == 0 then Some(j.root)
    else
      match Reach(j, path, n - 1, v)
      case None => None
      case Some(m) => Child(j, path, n - 1, v, m)
  }

  /** One step, through the field that segment `i` names. */
  function Child(j: Job, path: Path, i: nat, v: Vector, m: Msg): Option<Msg>
    requires i < |path|
  {
    match FieldAt(j.d, path, i)
    case None => None
    case Some(f) =>
      var values := ValuesOf(m, path[i]);
      if f.repeated then
        var k := |Ancestors(j.d, path, i)|;
        if k < |v| && v[k] < |values| then Some(AsMessage(values[v[k]])) else None
      else if values != [] then Some(AsMessage(values[0]))
      else if f.presence then None
      else Some(EMPTY)
  }

  lemma {:induction false} ReachStopsAtNone(j: Job, path: Path, m: nat, n: nat, v: Vector)
    requires m <= n <= |path| && Reach(j, path, m, v).None?
    ensures Reach(j, path, n, v).None?
    decreases n
  {
    if m < n {
      ReachStopsAtNone(j, path, m, n - 1, v);
    }
  }

  /** Only the segments passed and the positions they use matter. */
  lemma {:induction false} ReachByPrefix(j: Job, path: Path, p: nat, n: nat, v: Vector, k: nat)
    requires n <= p <= |path| && |Ancestors(j.d, path, n)| <= k <= |v|
    ensures Reach(j, path[..p], n, v[..k]) == Reach(j, path, n, v)
  {
    if n > 0 {
      AncestorsGrow(j.d, path, n - 1, n);
      ReachByPrefix(j, path, p, n - 1, v, k);
      PrefixFields(j.d, path, p, n - 1);
      PrefixAncestors(j.d, path, p, n - 1);
    }
  }

  function Cell(raw: IndexCell): Result<Option<IndexCell>> {
    match ScalarValue(raw)
    case Ok(c) => Ok(Some(c))
    case Err(s) => Err(s)
  }

  /** The value at the end of a path; none if an optional field on the way is absent. */
  ghost function ValueAt(j: Job, path: Path, v: Vector): Result<Option<IndexCell>>
    requires Accepted(j.d, path)
  {
    if IsVirtual(path) then
      var k := |AllAncestors(j.d, path)|;
      if 0 < k <= |v| then Ok(Some(Uint32(v[k - 1] % 0x1_0000_0000))) else Ok(None)
    else
      match Reach(j, path, |path| - 1, v)
      case None => Ok(None)
      case Some(m) => LeafValue(j, path, v, m)
  }

  ghost function LeafValue(j: Job, path: Path, v: Vector, m: Msg): Result<Option<IndexCell>>
    requires Accepted(j.d, path) && !IsVirtual(path)
  {
    match RawLeaf(j, path, v, m)
    case None => Ok(None)
    case Some(c) => Cell(c)
  }

  /** The value that the last segment names, as it is stored; an unset field without presence has its default. */
  ghost function RawLeaf(j: Job, path: Path, v: Vector, m: Msg): Option<IndexCell>
    requires Accepted(j.d, path) && !IsVirtual(path)
  {
    var f := FieldAt(j.d, path, |path| - 1).value;
    var values := ValuesOf(m, path[|path| - 1]);
    if f.repeated then
      var k := |Ancestors(j.d, path, |path| - 1)|;
      if k < |v| && v[k] < |values| then Some(AsCell(f.typ.kind, values[v[k]])) else None
    else if values != [] then Some(AsCell(f.typ.kind, values[0]))
    else if f.presence then None
    else Some(DefaultCell(f.typ.kind))
  }

  ghost function OrderValueAt(j: Job, path: Path, v: Vector): Result<Option<IndexCell>>
    requires path == ID_PATH || Accepted(j.d, path)
  {
    if path == ID_PATH then Ok(Some(Uint64(j.id))) else ValueAt(j, path, v)
  }

  // -------------------------------------------------------------------------
  // Position vectors
  // -------------------------------------------------------------------------

  /** How many elements the next repeated field has, once positions for the outer ones are chosen. */
  ghost function Count(j: Job, v: Vector): nat
    requires JobOk(j) && |v| < |j.chain|
  {
    ChainElement(j.d, j.keys, j.chain, |v|);
    var p := j.chain[|v|];
    match Reach(j, p, |p| - 1, v)
    case None => 0
    case Some(m) => |ValuesOf(m, p[|p| - 1])|
  }

  /** Every position exists in the element that the earlier positions lead to. */
  ghost predicate ValidVector(j: Job, v: Vector)
    requires JobOk(j)
  {
    |v| <= |j.chain| && forall k :: 0 <= k < |v| ==> v[k] < Count(j, v[..k])
  }

  /** All ways to complete a vector, outermost position first. */
  ghost function Vectors(j: Job, v: Vector): seq<Vector>
    requires JobOk(j) && |v| <= |j.chain|
    decreases |j.chain| - |v|, 1, 0
  {
    if |v| == |j.chain| then [v] else VectorsFrom(j, v, 0)
  }

  ghost function VectorsFrom(j: Job, v: Vector, i: nat): seq<Vector>
    requires JobOk(j) && |v| < |j.chain|
    decreases |j.chain| - |v|, 0, Count(j, v) - i
  {
    if i >= Count(j, v) then [] else Vectors(j, v + [i]) + VectorsFrom(j, v, i + 1)
  }

  lemma ValidGrows(j: Job, v: Vector, i: nat)
    requires JobOk(j) && ValidVector(j, v) && |v| < |j.chain|
    ensures ValidVector(j, v + [i]) <==> i < Count(j, v)
  {
    hide Count, JobOk;
    var w := v + [i];
    assert w[..|v|] == v;
    forall k | 0 <= k < |v|
      ensures w[..k] == v[..k] && w[k] == v[k]
    {
    }
    assert w[|v|] == i;
  }

  lemma ValidPrefix(j: Job, w: Vector, n: nat)
    requires JobOk(j) && ValidVector(j, w) && n <= |w|
    ensures ValidVector(j, w[..n])
  {
    hide Count, JobOk;
    forall k | 0 <= k < n
      ensures w[..n][..k] == w[..k]
    {
    }
  }

  /** The listing contains exactly the complete valid vectors that extend the given one. */
  lemma {:induction false} VectorsAreExact(j: Job, v: Vector, w: Vector)
    requires JobOk(j) && ValidVector(j, v)
    ensures w in Vectors(j, v) <==> |w| == |j.chain| && v <= w && ValidVector(j, w)
    decreases |j.chain| - |v|, 1, 0
  {
    hide Count, JobOk;
    if |v| < |j.chain| {
      VectorsFromAreExact(j, v, 0, w);
    } else {
      assert v <= w && |w| == |v| ==> w == v;
    }
  }

  lemma {:induction false} VectorsFromAreExact(j: Job, v: Vector, i: nat, w: Vector)
    requires JobOk(j) && ValidVector(j, v) && |v| < |j.chain|
    ensures w in VectorsFrom(j, v, i) <==> |w| == |j.chain| && v <= w && w[|v|] >= i && ValidVector(j, w)
    decreases |j.chain| - |v|, 0, Count(j, v) - i
  {
    hide Count, JobOk, ValidVector;
    if i < Count(j, v) {
      ValidGrows(j, v, i);
      VectorsAreExact(j, v + [i], w);
      VectorsFromAreExact(j, v, i + 1, w);
      assert v + [i] <= w <==> |w| > |v| && v <= w && w[|v|] == i;
    } else if |w| == |j.chain| && v <= w && w[|v|] >= i && ValidVector(j, w) {
      ValidPrefix(j, w, |v| + 1);
      assert w[..|v| + 1] == v + [w[|v|]];
      ValidGrows(j, v, w[|v|]);
    }
  }

  ghost predicate Increasing(vs: seq<Vector>) {
    forall a, b :: 0 <= a < b < |vs| ==> Less(vs[a], vs[b])
  }

  lemma {:induction false} LaterPositionIsLess(v: Vector, x: Vector, y: Vector)
    requires v <= x && v <= y && |x| > |v| && |y| > |v| && x[|v|] < y[|v|]
    ensures Less(x, y)
  {
    if v != [] {
      LaterPositionIsLess(v[1..], x[1..], y[1..]);
    }
  }

  /** The listing is in strict lexicographic order. */
  lemma {:induction false} VectorsIncrease(j: Job, v: Vector)
    requires JobOk(j) && ValidVector(j, v)
    ensures Increasing(Vectors(j, v))
    decreases |j.chain| - |v|, 1, 0
  {
    if |v| < |j.chain| {
      VectorsFromIncrease(j, v, 0);
    }
  }

  lemma {:induction false} VectorsFromIncrease(j: Job, v: Vector, i: nat)
    requires JobOk(j) && ValidVector(j, v) && |v| < |j.chain|
    ensures Increasing(VectorsFrom(j, v, i))
    decreases |j.chain| - |v|, 0, Count(j, v) - i
  {
    hide Count, JobOk, ValidVector;
    if i < Count(j, v) {
      var first, rest := Vectors(j, v + [i]), VectorsFrom(j, v, i + 1);
      ValidGrows(j, v, i);
      VectorsIncrease(j, v + [i]);
      VectorsFromIncrease(j, v, i + 1);
      forall x, y | x in first && y in rest
        ensures Less(x, y)
      {
        VectorsAreExact(j, v + [i], x);
        VectorsFromAreExact(j, v, i + 1, y);
        assert x[|v|] == (v + [i])[|v|];
        LaterPositionIsLess(v, x, y);
      }
      JoinIncreasing(first, rest);
    }
  }

  lemma JoinIncreasing(a: seq<Vector>, b: seq<Vector>)
    requires Increasing(a) && Increasing(b) && forall x, y :: x in a && y in b ==> Less(x, y)
    ensures Increasing(a + b)
  {
    var c := a + b;
    forall p, q | 0 <= p < q < |c|
      ensures Less(c[p], c[q])
    {
      if p < |a| <= q {
        assert c[p] in a && c[q] in b;
      }
    }
  }

  // -------------------------------------------------------------------------
  // Rows
  // -------------------------------------------------------------------------

  datatype Entry = Entry(encodedKey: seq<Byte>, order: seq<IndexCell>, key: seq<IndexCell>)

  /** The values of a list of paths; the first one that is absent or invalid decides. */
  ghost function KeyValues(j: Job, n: nat, v: Vector): Result<Option<seq<IndexCell>>>
    requires JobOk(j) && n <= |j.keys|
  {
    if n == 0 then Ok(Some([]))
    else
      assert Along(j, j.keys[n - 1]);
      AndThen(KeyValues(j, n - 1, v), ValueAt(j, j.keys[n - 1], v))
  }

  ghost function OrderValues(j: Job, n: nat, v: Vector): Result<Option<seq<IndexCell>>>
    requires JobOk(j) && n <= |j.orders|
  {
    if n == 0 then Ok(Some([]))
    else
      assert j.orders[n - 1] == ID_PATH || Along(j, j.orders[n - 1]);
      AndThen(OrderValues(j, n - 1, v), OrderValueAt(j, j.orders[n - 1], v))
  }

  function AndThen(before: Result<Option<seq<IndexCell>>>,
                   next: Result<Option<IndexCell>>): Result<Option<seq<IndexCell>>> {
    if before.Err? || before.value.None? then before
    else
      match next
      case Err(s) => Err(s)
      case Ok(None) => Ok(None)
      case Ok(Some(c)) => Ok(Some(before.value.value + [c]))
  }

  /** The row for one vector, if no value is absent. */
  ghost function EntryAt(j: Job, v: Vector): Result<Option<Entry>>
    requires JobOk(j)
  {
    match KeyValues(j, |j.keys|, v)
    case Err(s) => Err(s)
    case Ok(None) => Ok(None)
    case Ok(Some(key)) =>
      match OrderValues(j, |j.orders|, v)
      case Err(s) => Err(s)
      case Ok(None) => Ok(None)
      case Ok(Some(order)) => Ok(Some(Entry(TupleBytes(key), order, key)))
  }

  function Listed(e: Option<Entry>): seq<Entry> {
    if e.Some? then [e.value] else []
  }

  /** The rows of a list of vectors, in that order; the first invalid value is an error. */
  ghost function Rows(j: Job, vs: seq<Vector>): Result<seq<Entry>>
    requires JobOk(j)
  {
    if vs == [] then Ok([])
    else
      match EntryAt(j, vs[0])
      case Err(s) => Err(s)
      case Ok(e) =>
        match Rows(j, vs[1..])
        case Err(s) => Err(s)
        case Ok(es) => Ok(Listed(e) + es)
  }

  lemma {:induction false} RowsAppend(j: Job, a: seq<Vector>, b: seq<Vector>)
    requires JobOk(j)
    ensures Rows(j, a + b) ==
            match Rows(j, a)
            case Err(s) => Err(s)
            case Ok(x) => (match Rows(j, b) case Err(s) => Err(s) case Ok(y) => Ok(x + y))
    decreases |a|
  {
    hide JobOk, EntryAt;
    if a == [] {
      assert a + b == b;
      if Rows(j, b).Ok? {
        assert [] + Rows(j, b).value == Rows(j, b).value;
      }
    } else {
      assert (a + b)[1..] == a[1..] + b;
      RowsAppend(j, a[1..], b);
      if EntryAt(j, a[0]).Ok? && Rows(j, a[1..]).Ok? && Rows(j, b).Ok? {
        var (e, x, y) := (Listed(EntryAt(j, a[0]).value), Rows(j, a[1..]).value, Rows(j, b).value);
        assert e + (x + y) == (e + x) + y;
      }
    }
  }

  // -------------------------------------------------------------------------
  // What the rows are
  // -------------------------------------------------------------------------

  ghost predicate IsRow(j: Job, v: Vector, e: Entry)
    requires JobOk(j)
  {
    && |e.key| == |j.keys| && |e.order| == |j.orders| && e.encodedKey == TupleBytes(e.key)
    && (forall k :: 0 <= k < |j.keys| ==> Along(j, j.keys[k]) && ValueAt(j, j.keys[k], v) == Ok(Some(e.key[k])))
    && forall k :: 0 <= k < |j.orders| ==>
         (j.orders[k] == ID_PATH || Along(j, j.orders[k])) && OrderValueAt(j, j.orders[k], v) == Ok(Some(e.order[k]))
  }

  lemma {:induction false} KeyValuesAre(j: Job, n: nat, v: Vector, cs: seq<IndexCell>)
    requires JobOk(j) && n <= |j.keys|
    ensures KeyValues(j, n, v) == Ok(Some(cs)) <==>
            |cs| == n && forall k :: 0 <= k < n ==> Along(j, j.keys[k]) && ValueAt(j, j.keys[k], v) == Ok(Some(cs[k]))
  {
    hide ValueAt, ChainOf, Along;
    if n > 0 {
      assert Along(j, j.keys[n - 1]);
      if |cs| > 0 {
        KeyValuesAre(j, n - 1, v, cs[..|cs| - 1]);
        assert cs == cs[..|cs| - 1] + [cs[|cs| - 1]];
      }
      if KeyValues(j, n - 1, v).Ok? && KeyValues(j, n - 1, v).value.Some? {
        KeyValuesAre(j, n - 1, v, KeyValues(j, n - 1, v).value.value);
      }
    }
  }

  lemma {:induction false} OrderValuesAre(j: Job, n: nat, v: Vector, cs: seq<IndexCell>)
    requires JobOk(j) && n <= |j.orders|
    ensures OrderValues(j, n, v) == Ok(Some(cs)) <==>
            |cs| == n && forall k :: 0 <= k < n ==>
              (j.orders[k] == ID_PATH || Along(j, j.orders[k])) && OrderValueAt(j, j.orders[k], v) == Ok(Some(cs[k]))
  {
    hide ValueAt, OrderValueAt, ChainOf, Along;
    if n > 0 {
      assert j.orders[n - 1] == ID_PATH || Along(j, j.orders[n - 1]);
      if |cs| > 0 {
        OrderValuesAre(j, n - 1, v, cs[..|cs| - 1]);
        assert cs == cs[..|cs| - 1] + [cs[|cs| - 1]];
      }
      if OrderValues(j, n - 1, v).Ok? && OrderValues(j, n - 1, v).value.Some? {
        OrderValuesAre(j, n - 1, v, OrderValues(j, n - 1, v).value.value);
      }
    }
  }

  /** A vector yields a row exactly when every path has a value there, and the row holds those values. */
  lemma EntryIsRow(j: Job, v: Vector, e: Entry)
    requires JobOk(j)
    ensures EntryAt(j, v) == Ok(Some(e)) <==> IsRow(j, v, e)
  {
    hide JobOk, ValueAt, OrderValueAt, Along, KeyValues, OrderValues;
    KeyValuesAre(j, |j.keys|, v, e.key);
    OrderValuesAre(j, |j.orders|, v, e.order);
    if EntryAt(j, v) == Ok(Some(e)) {
      assert KeyValues(j, |j.keys|, v) == Ok(Some(e.key)) && OrderValues(j, |j.orders|, v) == Ok(Some(e.order));
    }
  }

  /** Where a row is ordered by the artifact id, it holds the id of its own artifact. */
  lemma RowNamesArtifact(j: Job, v: Vector, e: Entry, k: nat)
    requires JobOk(j) && IsRow(j, v, e) && k < |j.orders| && j.orders[k] == ID_PATH
    ensures |e.order| == |j.orders| && e.order[k] == Uint64(j.id)
  {
    hide JobOk, ValueAt, Along;
    assert OrderValueAt(j, j.orders[k], v) == Ok(Some(e.order[k]));
  }

  /** The rows, one by one, come from an increasing selection of the vectors; the others yield none. */
  lemma {:induction false} RowsFollowVectors(j: Job, vs: seq<Vector>, es: seq<Entry>) returns (ws: seq<Vector>)
    requires JobOk(j) && Rows(j, vs) == Ok(es) && Increasing(vs)
    ensures |ws| == |es| && (forall i :: 0 <= i < |es| ==> IsRow(j, ws[i], es[i]))
    ensures Increasing(ws) && (forall w :: w in ws ==> w in vs)
    ensures forall v :: v in vs && v !in ws ==> EntryAt(j, v) == Ok(None)
    decreases |vs|
  {
    hide JobOk, IsRow, EntryAt, Lexicographic.Less, Increasing;
    if vs == [] {
      ws := [];
      SingletonsIncrease(ws);
    } else {
      FirstIsLeast(vs);
      var rest := Rows(j, vs[1..]).value;
      var more := RowsFollowVectors(j, vs[1..], rest);
      var e := EntryAt(j, vs[0]).value;
      if e.Some? {
        EntryIsRow(j, vs[0], e.value);
        ws := [vs[0]] + more;
        assert es == [e.value] + rest;
        SingletonsIncrease([vs[0]]);
        JoinIncreasing([vs[0]], more);
      } else {
        ws := more;
      }
    }
  }

  lemma FirstIsLeast(vs: seq<Vector>)
    requires Increasing(vs) && vs != []
    ensures Increasing(vs[1..]) && forall w :: w in vs[1..] ==> Less(vs[0], w)
  {
    hide Lexicographic.Less;
    var t := vs[1..];
    assert forall k :: 0 <= k < |t| ==> t[k] == vs[k + 1];
  }

  lemma SingletonsIncrease(vs: seq<Vector>)
    requires |vs| <= 1
    ensures Increasing(vs)
  {
  }

  // -------------------------------------------------------------------------
  // What the values are
  // -------------------------------------------------------------------------

  /** A path and the chain agree on where a repeated field stands. */
  lemma PlaceInChain(j: Job, path: Path, i: nat, k: nat)
    requires JobOk(j) && Along(j, path) && i < RealLength(path) && RepeatedAt(j.d, path, i)
    requires k < |j.chain| && j.chain[k] == path[..i + 1]
    ensures |Ancestors(j.d, path, i)| == k
  {
    hide ChainOf, Accepted, FieldAt, TypeAt;
    var n := |Ancestors(j.d, path, i)|;
    AncestorsGrow(j.d, path, i + 1, RealLength(path));
    assert Ancestors(j.d, path, i + 1)[n] == path[..i + 1];
    assert j.chain[n] == path[..i + 1];
    SamePosition(j.d, j.keys, j.chain, k, n);
  }

  /** An `_index` path yields the position in the repeated field that it follows. */
  lemma VirtualYieldsPosition(j: Job, path: Path, v: Vector, k: nat)
    requires JobOk(j) && Along(j, path) && IsVirtual(path) && |v| == |j.chain|
    requires k < |j.chain| && j.chain[k] == path[..|path| - 1]
    ensures ValueAt(j, path, v) == Ok(Some(Uint32(v[k] % 0x1_0000_0000)))
  {
    hide ChainOf, FieldAt, TypeAt, Ancestors;
    VirtualHasParent(j.d, path);
    SamePosition(j.d, j.keys, j.chain, k, |AllAncestors(j.d, path)| - 1);
  }

  /** A path that ends in a repeated scalar yields the element at the chosen position. */
  lemma RepeatedYieldsElement(j: Job, path: Path, v: Vector, k: nat)
    requires JobOk(j) && Along(j, path) && !IsVirtual(path) && |v| == |j.chain|
    requires RepeatedAt(j.d, path, |path| - 1) && k < |j.chain| && j.chain[k] == path
    requires Reach(j, path, |path| - 1, v).Some?
    requires v[k] < |ValuesOf(Reach(j, path, |path| - 1, v).value, path[|path| - 1])|
    ensures
      var element := ValuesOf(Reach(j, path, |path| - 1, v).value, path[|path| - 1])[v[k]];
      ValueAt(j, path, v) == Cell(AsCell(FieldAt(j.d, path, |path| - 1).value.typ.kind, element))
  {
    assert path == path[..|path| - 1 + 1];
    PlaceInChain(j, path, |path| - 1, k);
    hide JobOk, FieldAt, TypeAt, Reach, Cell;
  }

  /** A step through a repeated message field goes to the element at the chosen position. */
  lemma RepeatedStepTakesElement(j: Job, path: Path, v: Vector, i: nat, k: nat)
    requires JobOk(j) && Along(j, path) && |v| == |j.chain| && i < RealLength(path) && RepeatedAt(j.d, path, i)
    requires k < |j.chain| && j.chain[k] == path[..i + 1] && Reach(j, path, i, v).Some?
    requires v[k] < |ValuesOf(Reach(j, path, i, v).value, path[i])|
    ensures Reach(j, path, i + 1, v) == Some(AsMessage(ValuesOf(Reach(j, path, i, v).value, path[i])[v[k]]))
  {
    PlaceInChain(j, path, i, k);
    hide JobOk, FieldAt, TypeAt;
  }

  /** A step through a single message field goes to the message that is set there. */
  lemma SingleStepTakesMessage(j: Job, path: Path, v: Vector, i: nat)
    requires i < |path| && FieldAt(j.d, path, i).Some? && !RepeatedAt(j.d, path, i) && Reach(j, path, i, v).Some?
    ensures
      var values := ValuesOf(Reach(j, path, i, v).value, path[i]);
      Reach(j, path, i + 1, v) ==
      if values != [] then Some(AsMessage(values[0]))
      else if FieldAt(j.d, path, i).value.presence then None
      else Some(EMPTY)
  {
    hide FieldAt, TypeAt;
  }

  /** A single scalar yields what is stored, and zero, false or nothing if it is unset without presence. */
  lemma SingleYieldsStored(j: Job, path: Path, v: Vector)
    requires Along(j, path) && !IsVirtual(path) && !RepeatedAt(j.d, path, |path| - 1)
    requires Reach(j, path, |path| - 1, v).Some?
    ensures
      var f := FieldAt(j.d, path, |path| - 1).value;
      var values := ValuesOf(Reach(j, path, |path| - 1, v).value, path[|path| - 1]);
      && (values != [] ==> ValueAt(j, path, v) == Cell(AsCell(f.typ.kind, values[0])))
      && (values == [] && f.presence ==> ValueAt(j, path, v) == Ok(None))
      && (values == [] && !f.presence ==>
            var r := ValueAt(j, path, v);
            && r.Ok? && r.value.Some? && KindOf(r.value.value) == f.typ.kind
            && RankOf(r.value.value) == if f.typ.kind == KText || f.typ.kind == KBytes then [] else [0])
  {
    hide FieldAt, TypeAt, Reach;
    DefaultIsZero(FieldAt(j.d, path, |path| - 1).value.typ.kind);
  }

  lemma DefaultIsZero(kind: ScalarKind)
    ensures RankOf(DefaultCell(kind)) == if kind == KText || kind == KBytes then [] else [0]
    ensures ScalarValue(DefaultCell(kind)) == Ok(DefaultCell(kind))
  {
    ReadingKeepsValue(DefaultCell(kind));
  }

  // -------------------------------------------------------------------------
  // Why a vector may yield no row
  // -------------------------------------------------------------------------

  /** An optional field on the path is not set. */
  ghost predicate AbsentAt(j: Job, path: Path, v: Vector, i: nat) {
    && i < RealLength(path) && Reach(j, path, i, v).Some? && FieldAt(j.d, path, i).Some?
    && !FieldAt(j.d, path, i).value.repeated && FieldAt(j.d, path, i).value.presence
    && ValuesOf(Reach(j, path, i, v).value, path[i]) == []
  }

  /** Positions of a valid vector exist wherever a path along the chain needs them. */
  lemma PositionExists(j: Job, path: Path, v: Vector, i: nat)
    requires JobOk(j) && Along(j, path) && ValidVector(j, v) && |v| == |j.chain|
    requires i < RealLength(path) && RepeatedAt(j.d, path, i) && Reach(j, path, i, v).Some?
    ensures
      var k := |Ancestors(j.d, path, i)|;
      k < |v| && v[k] < |ValuesOf(Reach(j, path, i, v).value, path[i])|
  {
    hide ChainOf, Accepted, FieldAt, TypeAt;
    var k := |Ancestors(j.d, path, i)|;
    AncestorsGrow(j.d, path, i + 1, RealLength(path));
    assert Ancestors(j.d, path, i + 1)[k] == path[..i + 1];
    assert AllAncestors(j.d, path)[k] == path[..i + 1];
    assert j.chain[k] == path[..i + 1];
    ReachByPrefix(j, path, i + 1, i, v, k);
    assert v[k] < Count(j, v[..k]);
  }

  lemma {:induction false} UnreachedMeansAbsent(j: Job, path: Path, v: Vector, n: nat)
    requires JobOk(j) && Along(j, path) && ValidVector(j, v) && |v| == |j.chain|
    requires n <= RealLength(path) && Reach(j, path, n, v).None?
    ensures exists i :: AbsentAt(j, path, v, i)
  {
    hide JobOk, ValidVector, FieldAt, TypeAt, AllAncestors;
    if Reach(j, path, n - 1, v).None? {
      UnreachedMeansAbsent(j, path, v, n - 1);
    } else {
      assert Usable(j.d, path, n - 1);
      if RepeatedAt(j.d, path, n - 1) {
        PositionExists(j, path, v, n - 1);
      } else {
        assert AbsentAt(j, path, v, n - 1);
      }
    }
  }

  /** For a valid vector, a path has no value only because an optional field on it is not set. */
  lemma NoValueMeansAbsent(j: Job, path: Path, v: Vector)
    requires JobOk(j) && Along(j, path) && ValidVector(j, v) && |v| == |j.chain| && ValueAt(j, path, v) == Ok(None)
    ensures exists i :: AbsentAt(j, path, v, i)
  {
    hide JobOk, ValidVector, FieldAt, TypeAt, Cell;
    if IsVirtual(path) {
      VirtualHasParent(j.d, path);
      assert false;
    } else {
      assert Usable(j.d, path, |path| - 1);
      if Reach(j, path, |path| - 1, v).None? {
        UnreachedMeansAbsent(j, path, v, |path| - 1);
      } else if RepeatedAt(j.d, path, |path| - 1) {
        PositionExists(j, path, v, |path| - 1);
        CellHasValue();
        assert false;
      } else {
        CellHasValue();
        assert AbsentAt(j, path, v, |path| - 1);
      }
    }
  }

  lemma CellHasValue()
    ensures forall c :: Cell(c) != Ok(None) && (Cell(c).Err? ==> Cell(c) == Err(InvalidArgument))
  {
  }

  // -------------------------------------------------------------------------
  // Errors and types
  // -------------------------------------------------------------------------

  /** The value that the path leads to at these positions is a NaN. */
  ghost predicate NaNAt(j: Job, path: Path, v: Vector) {
    && Accepted(j.d, path) && !IsVirtual(path) && Reach(j, path, |path| - 1, v).Some?
    && var raw := RawLeaf(j, path, v, Reach(j, path, |path| - 1, v).value);
       raw.Some? && IsNaN(raw.value)
  }

  /** Reading a value fails exactly on a NaN. */
  lemma ValueErrors(j: Job, path: Path, v: Vector)
    requires Accepted(j.d, path)
    ensures ValueAt(j, path, v).Err? <==> NaNAt(j, path, v)
    ensures ValueAt(j, path, v).Err? ==> ValueAt(j, path, v).status == InvalidArgument
  {
    hide FieldAt, TypeAt, Reach, RawLeaf;
  }

  ghost predicate HasValue(r: Result<Option<IndexCell>>) {
    r.Ok? && r.value.Some?
  }

  /** The first key path without a value holds a NaN. */
  ghost predicate NaNInKeys(j: Job, v: Vector, n: nat)
    requires JobOk(j) && n <= |j.keys|
  {
    exists m: nat :: m < n && NaNAt(j, j.keys[m], v) && AllKeysHaveValues(j, v, m)
  }

  ghost predicate AllKeysHaveValues(j: Job, v: Vector, n: nat)
    requires JobOk(j) && n <= |j.keys|
  {
    forall i :: 0 <= i < n ==> Along(j, j.keys[i]) && HasValue(ValueAt(j, j.keys[i], v))
  }

  ghost predicate NaNInOrders(j: Job, v: Vector, n: nat)
    requires JobOk(j) && n <= |j.orders|
  {
    exists m: nat :: m < n && j.orders[m] != ID_PATH && NaNAt(j, j.orders[m], v) && AllOrdersHaveValues(j, v, m)
  }

  ghost predicate AllOrdersHaveValues(j: Job, v: Vector, n: nat)
    requires JobOk(j) && n <= |j.orders|
  {
    forall i :: 0 <= i < n ==>
      (j.orders[i] == ID_PATH || Along(j, j.orders[i])) && HasValue(OrderValueAt(j, j.orders[i], v))
  }

  /** Of all paths of the definition, keys first, the first one without a value holds a NaN. */
  ghost predicate NaNDecides(j: Job, v: Vector)
    requires JobOk(j)
  {
    NaNInKeys(j, v, |j.keys|) || (AllKeysHaveValues(j, v, |j.keys|) && NaNInOrders(j, v, |j.orders|))
  }

  /** The rows fail to derive exactly when a NaN is met at one of the vectors, and in no other way. */
  lemma {:induction false} RowErrors(j: Job, vs: seq<Vector>)
    requires JobOk(j)
    ensures Rows(j, vs).Err? <==> exists v :: v in vs && NaNDecides(j, v)
    ensures Rows(j, vs).Err? ==> Rows(j, vs).status == InvalidArgument
    decreases |vs|
  {
    hide JobOk, EntryAt, NaNDecides;
    if vs != [] {
      EntryErrors(j, vs[0]);
      RowErrors(j, vs[1..]);
      assert forall v :: v in vs <==> v == vs[0] || v in vs[1..];
    }
  }

  lemma EntryErrors(j: Job, v: Vector)
    requires JobOk(j)
    ensures EntryAt(j, v).Err? <==> NaNDecides(j, v)
    ensures EntryAt(j, v).Err? ==> EntryAt(j, v).status == InvalidArgument
  {
    hide JobOk, KeyValues, OrderValues, NaNInKeys, NaNInOrders, AllKeysHaveValues, AllOrdersHaveValues;
    KeyErrors(j, |j.keys|, v);
    OrderErrors(j, |j.orders|, v);
  }

  lemma {:induction false} KeyErrors(j: Job, n: nat, v: Vector)
    requires JobOk(j) && n <= |j.keys|
    ensures KeyValues(j, n, v).Err? <==> NaNInKeys(j, v, n)
    ensures KeyValues(j, n, v).Err? ==> KeyValues(j, n, v).status == InvalidArgument
    ensures KeyValues(j, n, v).Ok? && KeyValues(j, n, v).value.Some? <==> AllKeysHaveValues(j, v, n)
  {
    hide ValueAt, ChainOf, NaNAt;
    if n > 0 {
      KeyErrors(j, n - 1, v);
      assert Along(j, j.keys[n - 1]);
      ValueErrors(j, j.keys[n - 1], v);
      if NaNInKeys(j, v, n) {
        var m: nat :| m < n && NaNAt(j, j.keys[m], v) && AllKeysHaveValues(j, v, m);
        assert m < n - 1 ==> NaNInKeys(j, v, n - 1);
      }
    }
  }

  lemma {:induction false} OrderErrors(j: Job, n: nat, v: Vector)
    requires JobOk(j) && n <= |j.orders|
    ensures OrderValues(j, n, v).Err? <==> NaNInOrders(j, v, n)
    ensures OrderValues(j, n, v).Err? ==> OrderValues(j, n, v).status == InvalidArgument
    ensures OrderValues(j, n, v).Ok? && OrderValues(j, n, v).value.Some? <==> AllOrdersHaveValues(j, v, n)
  {
    hide ValueAt, ChainOf, NaNAt;
    if n > 0 {
      OrderErrors(j, n - 1, v);
      assert j.orders[n - 1] == ID_PATH || Along(j, j.orders[n - 1]);
      if j.orders[n - 1] != ID_PATH {
        ValueErrors(j, j.orders[n - 1], v);
      }
      if NaNInOrders(j, v, n) {
        var m: nat :| m < n && j.orders[m] != ID_PATH && NaNAt(j, j.orders[m], v) && AllOrdersHaveValues(j, v, m);
        assert m < n - 1 ==> NaNInOrders(j, v, n - 1);
      }
    }
  }

  /** The type of the values that a path yields. */
  ghost function LeafKind(d: Descriptor, path: Path): Kind
    requires Accepted(d, path)
  {
    if IsVirtual(path) then KUint32 else FieldAt(d, path, |path| - 1).value.typ.kind
  }

  lemma ValueHasKind(j: Job, path: Path, v: Vector, c: IndexCell)
    requires Accepted(j.d, path) && ValueAt(j, path, v) == Ok(Some(c))
    ensures KindOf(c) == LeafKind(j.d, path) && !IsNaN(c) && !IsNegativeZero(c)
  {
    hide Reach, FieldAt, TypeAt;
  }

  /** All rows of one definition have cells of the same types. */
  lemma RowsShareSignature(j: Job, v: Vector, w: Vector, e: Entry, f: Entry)
    requires JobOk(j) && IsRow(j, v, e) && IsRow(j, w, f)
    ensures SameSignature(e.key + e.order, f.key + f.order)
  {
    hide ValueAt, ChainOf, TupleBytes;
    var a, b := e.key + e.order, f.key + f.order;
    forall i | 0 <= i < |a|
      ensures KindOf(a[i]) == KindOf(b[i])
    {
      if i < |e.key| {
        ValueHasKind(j, j.keys[i], v, e.key[i]);
        ValueHasKind(j, j.keys[i], w, f.key[i]);
      } else if j.orders[i - |e.key|] != ID_PATH {
        ValueHasKind(j, j.orders[i - |e.key|], v, a[i]);
        ValueHasKind(j, j.orders[i - |e.key|], w, b[i]);
      } else {
        assert OrderValueAt(j, ID_PATH, v) == Ok(Some(a[i])) && OrderValueAt(j, ID_PATH, w) == Ok(Some(b[i]));
      }
    }
  }
}
