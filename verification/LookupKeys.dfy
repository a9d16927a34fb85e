/** Keys for looking something up: the key fields of a message, concatenated. */
module LookupKeys {
  import opened Results
  import opened IndexCells
  import opened FieldPaths
  import opened KeyEncoding
  import opened Expansion
  import opened RepeatedChains

  /** Every segment names a field that is neither a map nor repeated, and the last one is a scalar. */
  ghost predicate KeyFieldOk(d: Descriptor, path: Path) {
    && path != [] && (forall i :: 0 <= i < |path| ==> PlainAt(d, path, i))
    && PlainAt(d, path, |path| - 1) && FieldAt(d, path, |path| - 1).value.typ.Scalar?
  }

  predicate PlainAt(d: Descriptor, path: Path, i: nat)
    requires i < |path|
  {
    && path[i] != "" && FieldAt(d, path, i).Some?
    && !FieldAt(d, path, i).value.isMap && !FieldAt(d, path, i).value.repeated
  }

  /** A message on its own, without repeated fields to choose positions in. */
  function Alone(d: Descriptor, root: Msg): Job {
    Job(d, [], [], [], root, 0)
  }

  /** The value of a key field as it goes into the key; none if it is missing or invalid. */
  ghost function KeyValue(d: Descriptor, root: Msg, path: Path): Option<IndexCell> {
    if !KeyFieldOk(d, path) then None
    else
      match Reach(Alone(d, root), path, |path| - 1, [])
      case None => None
      case Some(m) => LeafCell(FieldAt(d, path, |path| - 1).value, ValuesOf(m, path[|path| - 1]))
  }

  function LeafCell(f: Field, values: seq<Value>): Option<IndexCell>
    requires f.typ.Scalar?
  {
    if values == [] && f.presence then None
    else
      match ScalarValue(if values == [] then DefaultCell(f.typ.kind) else AsCell(f.typ.kind, values[0]))
      case Ok(c) => Some(c)
      case Err(_) => None
  }

  /** Resolution goes on in the same message type after a scalar; following the path then fails. */
  method ResolveFieldPath(d: Descriptor, path: Path) returns (r: Result<seq<Field>>)
    ensures r.Err? ==> r.status == InvalidArgument && !KeyFieldOk(d, path)
    ensures r.Ok? ==>
      && |r.value| == |path| && path != []
      && (KeyFieldOk(d, path) <==> forall i :: 0 <= i < |path| - 1 ==> r.value[i].typ.Message?)
      && (KeyFieldOk(d, path) ==> forall i :: 0 <= i < |path| ==> FieldAt(d, path, i) == Some(r.value[i]))
  {
    if path == [] {
      return Err(InvalidArgument);
    }
    var current := d.root;
    var fields: seq<Field> := [];
    // Whether all fields but the last, and all fields, have been messages so far.
    ghost var through, onTrack := true, true;
    for i := 0 to |path|
      invariant |fields| == i
      invariant onTrack <==> forall j :: 0 <= j < i ==> fields[j].typ.Message?
      invariant through <==> forall j :: 0 <= j < i - 1 ==> fields[j].typ.Message?
      invariant onTrack ==> TypeAt(d, path, i) == Some(current)
      invariant through ==> forall j :: 0 <= j < i ==> PlainAt(d, path, j) && FieldAt(d, path, j) == Some(fields[j])
      invariant !through ==> !KeyFieldOk(d, path)
    {
      assert KeyFieldOk(d, path) ==> PlainAt(d, path, i);
      if through && !onTrack {
        assert PlainAt(d, path, i - 1) && TypeAt(d, path, i) == None;
      }
      if path[i] == "" || current !in d.types || path[i] !in d.types[current] {
        return Err(InvalidArgument);
      }
      var f := d.types[current][path[i]];
      if onTrack {
        assert FieldAt(d, path, i) == Some(f);
      }
      if f.isMap || f.repeated {
        return Err(InvalidArgument);
      }
      ghost var before := fields;
      fields := fields + [f];
      assert fields[i] == f && forall j :: 0 <= j < i ==> fields[j] == before[j];
      assert (forall j :: 0 <= j < i ==> before[j].typ.Message?) <==> forall j :: 0 <= j < i ==> fields[j].typ.Message?;
      through, onTrack := onTrack, onTrack && f.typ.Message?;
      if f.typ.Message? {
        current := f.typ.name;
      }
    }
    if fields[|path| - 1].typ.Message? {
      return Err(InvalidArgument);
    }
    return Ok(fields);
  }

  /** Appends the bytes of one key field. */
  method AppendKeyField(d: Descriptor, root: Msg, path: Path, out: seq<Byte>) returns (r: Result<seq<Byte>>)
    ensures match KeyValue(d, root, path)
            case Some(c) => r == Ok(out + CellBytes(c))
            case None => r == Err(InvalidArgument)
  {
    hide CellBytes, ScalarValue;
    var fields := ResolveFieldPath(d, path);
    if fields.Err? {
      return Err(InvalidArgument);
    }
    ghost var j := Alone(d, root);
    var current := root;
    for i := 0 to |path| - 1
      invariant KeyFieldOk(d, path) ==> Reach(j, path, i, []) == Some(current)
      invariant forall k :: 0 <= k < i ==> fields.value[k].typ.Message?
    {
      var f := fields.value[i];
      if !f.typ.Message? {
        return Err(InvalidArgument);
      }
      var values := ValuesOf(current, path[i]);
      assert KeyFieldOk(d, path) ==> PlainAt(d, path, i);
      if f.presence && values == [] {
        if KeyFieldOk(d, path) {
          ReachStopsAtNone(j, path, i + 1, |path| - 1, []);
        }
        return Err(InvalidArgument);
      }
      current := if values == [] then EMPTY else AsMessage(values[0]);
    }
    var leaf := fields.value[|path| - 1];
    var values := ValuesOf(current, path[|path| - 1]);
    if leaf.presence && values == [] {
      return Err(InvalidArgument);
    }
    var raw := if values == [] then DefaultCell(leaf.typ.kind) else AsCell(leaf.typ.kind, values[0]);
    ScalarErrors(raw);
    r := AppendFieldValue(raw, out);
  }

  /** All key fields have values, and these are they. */
  ghost predicate KeyValuesAre(d: Descriptor, root: Msg, paths: seq<Path>, cells: seq<IndexCell>) {
    |cells| == |paths| && forall k :: 0 <= k < |paths| ==> KeyValue(d, root, paths[k]) == Some(cells[k])
  }

  /** Encodes the key fields of a message; a missing, repeated or invalid field is refused. */
  method EncodeKey(d: Descriptor, root: Msg, paths: seq<Path>) returns (r: Result<seq<Byte>>)
    ensures match r
            case Ok(bytes) =>
              paths != [] && exists cells :: KeyValuesAre(d, root, paths, cells) && bytes == TupleBytes(cells)
            case Err(s) =>
              s == InvalidArgument && (paths == [] || exists k :: 0 <= k < |paths| && KeyValue(d, root, paths[k]).None?)
  {
    hide CellBytes, KeyValue, TupleBytes;
    if paths == [] {
      return Err(InvalidArgument);
    }
    var out: seq<Byte> := [];
    ghost var cells: seq<IndexCell> := [];
    EmptyTuple();
    for k := 0 to |paths|
      invariant KeyValuesAre(d, root, paths[..k], cells) && out == TupleBytes(cells)
    {
      var next := AppendKeyField(d, root, paths[k], out);
      if next.Err? {
        return Err(InvalidArgument);
      }
      ghost var c := KeyValue(d, root, paths[k]).value;
      TupleGrows(cells, c);
      cells := cells + [c];
      out := next.value;
    }
    assert paths[..|paths|] == paths;
    assert KeyValuesAre(d, root, paths, cells);
    return Ok(out);
  }

  lemma EmptyTuple()
    ensures TupleBytes([]) == []
  {
  }

  // -------------------------------------------------------------------------
  // Lookup and derivation agree
  // -------------------------------------------------------------------------

  lemma {:induction false} ReachAlone(j: Job, path: Path, n: nat)
    requires n <= |path|
    ensures Reach(j, path, n, []) == Reach(Alone(j.d, j.root), path, n, [])
  {
    if n > 0 {
      ReachAlone(j, path, n - 1);
    }
  }

  lemma {:induction false} NoAncestorsMeansPlain(d: Descriptor, path: Path, n: nat, i: nat)
    requires n <= |path| && Ancestors(d, path, n) == [] && i < n
    ensures !RepeatedAt(d, path, i)
  {
    if i < n - 1 {
      NoAncestorsMeansPlain(d, path, n - 1, i);
    }
  }

  /** Without repeated fields, derivation and lookup read the same value. */
  lemma SameValue(j: Job, path: Path, c: IndexCell)
    requires Along(j, path) && j.chain == [] && !IsVirtual(path)
    ensures ValueAt(j, path, []) == Ok(Some(c)) <==> KeyValue(j.d, j.root, path) == Some(c)
  {
    hide Reach, FieldAt, TypeAt, Ancestors, ScalarValue;
    forall i | 0 <= i < |path|
      ensures PlainAt(j.d, path, i)
    {
      assert Usable(j.d, path, i);
      NoAncestorsMeansPlain(j.d, path, |path|, i);
    }
    ReachAlone(j, path, |path| - 1);
  }

  /** The key under which an artifact is stored is the key that looking up its fields produces. */
  lemma LookupFindsDerivedKey(j: Job, e: Entry)
    requires JobOk(j) && j.chain == [] && EntryAt(j, []) == Ok(Some(e))
    requires forall k :: 0 <= k < |j.keys| ==> !IsVirtual(j.keys[k])
    ensures KeyValuesAre(j.d, j.root, j.keys, e.key) && e.encodedKey == TupleBytes(e.key)
  {
    hide KeyValue, ValueAt, ChainOf;
    EntryIsRow(j, [], e);
    forall k | 0 <= k < |j.keys|
      ensures KeyValue(j.d, j.root, j.keys[k]) == Some(e.key[k])
    {
      SameValue(j, j.keys[k], e.key[k]);
    }
  }
}
