/**
 Message types, messages, and the dotted field paths of index definitions. A path is the sequence of
 its segments; `_index` as the last segment stands for the position within a repeated field.
 */
module FieldPaths {
  import opened Results
  import opened IndexCells

  type ScalarKind = k: Kind | k != KMessage witness KInt32

  datatype FieldType = Scalar(kind: ScalarKind) | Message(name: string)

  datatype Field = Field(typ: FieldType, repeated: bool, isMap: bool, presence: bool)

  /** A root message type among mutually referring message types. */
  datatype Descriptor = Descriptor(types: map<string, map<string, Field>>, root: string)

  type Path = seq<string>

  const INDEX := "_index"

  datatype Segment = Real(field: Field) | VirtualIndex

  // -------------------------------------------------------------------------
  // What a path means
  // -------------------------------------------------------------------------

  /** The message type reached after `i` segments. */
  function TypeAt(d: Descriptor, path: Path, i: nat): Option<string>
    requires i <= |path|
    decreases i, 0
  {
    if i == 0 then Some(d.root)
    else
      match FieldAt(d, path, i - 1)
      case Some(f) => if f.typ.Message? then Some(f.typ.name) else None
      case None => None
  }

  /** The field that segment `i` names. */
  function FieldAt(d: Descriptor, path: Path, i: nat): Option<Field>
    requires i < |path|
    decreases i, 1
  {
    match TypeAt(d, path, i)
    case Some(t) => if t in d.types && path[i] in d.types[t] then Some(d.types[t][path[i]]) else None
    case None => None
  }

  predicate IsVirtual(path: Path) {
    path != [] && path[|path| - 1] == INDEX
  }

  /** The number of segments that name fields. */
  function RealLength(path: Path): nat {
    if IsVirtual(path) then |path| - 1 else |path|
  }

  predicate Usable(d: Descriptor, path: Path, i: nat)
    requires i < |path|
  {
    path[i] != "" && path[i] != INDEX && FieldAt(d, path, i).Some? && !FieldAt(d, path, i).value.isMap
  }

  /** Paths that may be indexed: they end in a scalar, or in the position within a repeated field. */
  ghost predicate Accepted(d: Descriptor, path: Path) {
    && RealLength(path) > 0
    && (forall i :: 0 <= i < RealLength(path) ==> Usable(d, path, i))
    && Usable(d, path, RealLength(path) - 1)
    && var leaf := FieldAt(d, path, RealLength(path) - 1).value;
       if IsVirtual(path) then leaf.repeated else leaf.typ.Scalar?
  }

  ghost predicate NamesField(d: Descriptor, path: Path, i: nat) {
    && i < |path| && path[i] != "" && path[i] != "_index"
    && FieldAt(d, path, i).Some? && !FieldAt(d, path, i).value.isMap
  }

  /** What is accepted, spelled out. */
  lemma AcceptedMeans(d: Descriptor, path: Path)
    ensures
      var n := if path != [] && path[|path| - 1] == "_index" then |path| - 1 else |path|;
      Accepted(d, path) <==>
        && n > 0 && (forall i :: 0 <= i < n ==> NamesField(d, path, i)) && NamesField(d, path, n - 1)
        && (n < |path| ==> FieldAt(d, path, n - 1).value.repeated)
        && (n == |path| ==> FieldAt(d, path, n - 1).value.typ.Scalar?)
  {
    hide FieldAt, TypeAt;
    forall i | 0 <= i < |path|
      ensures Usable(d, path, i) <==> NamesField(d, path, i)
    {
    }
  }

  function Segments(d: Descriptor, path: Path, n: nat): (segs: seq<Segment>)
    requires n <= |path| && forall i :: 0 <= i < n && i < RealLength(path) ==> Usable(d, path, i)
  {
    seq(n, i requires 0 <= i < n =>
      if i < RealLength(path) then assert Usable(d, path, i); Real(FieldAt(d, path, i).value) else VirtualIndex)
  }

  /** Succeeds on exactly the acceptable paths, with one segment per name. */
  method ResolveIndexFieldPath(d: Descriptor, path: Path) returns (r: Result<seq<Segment>>)
    ensures match r
            case Ok(segs) => Accepted(d, path) && segs == Segments(d, path, |path|)
            case Err(s) => !Accepted(d, path) && s == InvalidArgument
  {
    if path == [] {
      return Err(InvalidArgument);
    }
    var current := Some(d.root);
    var segs: seq<Segment> := [];
    for i := 0 to |path|
      invariant forall j :: 0 <= j < i ==> Usable(d, path, j)
      invariant i < |path| && path[i] != INDEX ==> current == TypeAt(d, path, i)
      invariant i <= RealLength(path) && segs == Segments(d, path, i)
      invariant i == |path| ==> Usable(d, path, i - 1) && FieldAt(d, path, i - 1).value.typ.Scalar?
    {
      if path[i] == "" {
        assert i < RealLength(path) && !Usable(d, path, i);
        return Err(InvalidArgument);
      }
      var isLast := i + 1 == |path|;
      if path[i] == INDEX {
        if !isLast {
          assert i < RealLength(path) && !Usable(d, path, i);
          return Err(InvalidArgument);
        }
        if segs == [] || !segs[|segs| - 1].field.repeated {
          return Err(InvalidArgument);
        }
        return Ok(segs + [VirtualIndex]);
      }
      assert i < RealLength(path);
      if current.None? || current.value !in d.types || path[i] !in d.types[current.value] {
        assert !Usable(d, path, i);
        return Err(InvalidArgument);
      }
      var f := d.types[current.value][path[i]];
      assert FieldAt(d, path, i) == Some(f);
      if f.isMap {
        assert !Usable(d, path, i);
        return Err(InvalidArgument);
      }
      segs := segs + [Real(f)];
      if f.typ.Message? {
        current := Some(f.typ.name);
        if isLast {
          return Err(InvalidArgument);
        }
      } else if !isLast {
        if !(i + 2 == |path| && path[i + 1] == INDEX) {
          assert TypeAt(d, path, i + 1) == None;
          assert i + 1 < RealLength(path) && !Usable(d, path, i + 1);
          return Err(InvalidArgument);
        }
      }
    }
    return Ok(segs);
  }

  // -------------------------------------------------------------------------
  // Repeated fields along a path
  // -------------------------------------------------------------------------

  predicate RepeatedAt(d: Descriptor, path: Path, i: nat)
    requires i < |path|
  {
    FieldAt(d, path, i).Some? && FieldAt(d, path, i).value.repeated
  }

  /** The prefixes, among the first `n` segments, that end in a repeated field. */
  function Ancestors(d: Descriptor, path: Path, n: nat): (a: seq<Path>)
    requires n <= |path|
    ensures |a| <= n
  {
    if n == 0 then []
    else Ancestors(d, path, n - 1) + if RepeatedAt(d, path, n - 1) then [path[..n]] else []
  }

  function AllAncestors(d: Descriptor, path: Path): seq<Path> {
    Ancestors(d, path, RealLength(path))
  }

  lemma {:induction false} PrefixFields(d: Descriptor, path: Path, m: nat, i: nat)
    requires i <= m <= |path|
    ensures TypeAt(d, path[..m], i) == TypeAt(d, path, i)
    ensures i < m ==> FieldAt(d, path[..m], i) == FieldAt(d, path, i)
  {
    if i > 0 {
      PrefixFields(d, path, m, i - 1);
    }
  }

  lemma {:induction false} PrefixAncestors(d: Descriptor, path: Path, m: nat, n: nat)
    requires n <= m <= |path|
    ensures Ancestors(d, path[..m], n) == Ancestors(d, path, n)
  {
    if n > 0 {
      PrefixAncestors(d, path, m, n - 1);
      PrefixFields(d, path, m, n - 1);
      assert path[..m][..n] == path[..n];
    }
  }

  lemma {:induction false} AncestorsGrow(d: Descriptor, path: Path, m: nat, n: nat)
    requires m <= n <= |path|
    ensures Ancestors(d, path, m) <= Ancestors(d, path, n)
    decreases n
  {
    if m < n {
      AncestorsGrow(d, path, m, n - 1);
    }
  }

  /** An ancestor knows its own position: it is a prefix whose ancestors are all those up to itself. */
  lemma {:induction false} AncestorIs(d: Descriptor, path: Path, n: nat, k: nat)
    requires n <= |path| && k < |Ancestors(d, path, n)|
    ensures
      var a := Ancestors(d, path, n)[k];
      && 0 < |a| <= n && a == path[..|a|] && RepeatedAt(d, path, |a| - 1)
      && Ancestors(d, path, |a| - 1) == Ancestors(d, path, n)[..k]
      && Ancestors(d, path, |a|) == Ancestors(d, path, n)[..k + 1]
      && Ancestors(d, a, |a|) == Ancestors(d, path, n)[..k + 1]
  {
    var before := Ancestors(d, path, n - 1);
    if k < |before| {
      AncestorIs(d, path, n - 1, k);
      assert Ancestors(d, path, n)[..k + 1] == before[..k + 1];
      assert Ancestors(d, path, n)[..k] == before[..k];
    } else {
      assert Ancestors(d, path, n)[..k] == before;
      PrefixAncestors(d, path, n, n);
    }
  }

  // -------------------------------------------------------------------------
  // Messages
  // -------------------------------------------------------------------------

  datatype Value = ScalarV(cell: IndexCell) | MessageV(message: Msg)

  datatype Msg = Msg(fields: map<string, seq<Value>>)

  const EMPTY := Msg(map[])

  function ValuesOf(m: Msg, name: string): seq<Value> {
    if name in m.fields then m.fields[name] else []
  }

  function DefaultCell(kind: ScalarKind): (c: IndexCell)
    ensures KindOf(c) == kind && !IsNaN(c)
  {
    match kind
    case KInt32 => Int32(0)
    case KUint32 => Uint32(0)
    case KInt64 => Int64(0)
    case KUint64 => Uint64(0)
    case KBool => Bool(false)
    case KFloat => Float(0)
    case KDouble => Double(0)
    case KText => Text([])
    case KBytes => Bytes([])
  }

  /** Reading a value at its declared type. */
  function AsCell(kind: ScalarKind, v: Value): (c: IndexCell)
    ensures KindOf(c) == kind
  {
    if v.ScalarV? && KindOf(v.cell) == kind then v.cell else DefaultCell(kind)
  }

  function AsMessage(v: Value): Msg {
    if v.MessageV? then v.message else EMPTY
  }
}
