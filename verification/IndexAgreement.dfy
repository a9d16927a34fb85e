/**
 Artifacts and the index objects derived from them. Indexes are redundant data: this module states
 what they must equal, and proves that every staged write and every clean merge keeps it so.
 */
module IndexAgreement {
  import opened Results
  import opened ThreeWayMerge

  type Payload = seq<int>
  type Key = seq<int>
  type OrderValues = seq<int>

  /** Where things live. Artifact and index paths are injective in what they name. */
  datatype ObjectPath =
    | ArtifactAt(id: nat)
    | IndexAt(def: nat, key: Key)
    | OtherAt(name: string)

  /**
   What lives there. An envelope with an empty payload is a tombstone. An index object is its rows,
   one per artifact: serialization is canonical, so equal row sets are equal bytes.
   */
  datatype Object =
    | Envelope(version: nat, payload: Payload)
    | IndexRows(rows: map<nat, OrderValues>)
    | Blob(data: string)

  type Contents = map<ObjectPath, Object>

  datatype Entry = Entry(def: nat, key: Key, order: OrderValues)

  /** Derivation is a fixed function of the type version, the payload and the artifact id. */
  datatype Schema = Schema(derive: (nat, Payload, nat) -> Result<seq<Entry>>, unique: nat -> bool)

  // -------------------------------------------------------------------------
  // What an index should hold
  // -------------------------------------------------------------------------

  predicate LiveEnvelope(o: Option<Object>) {
    o.Some? && o.value.Envelope? && o.value.payload != []
  }

  predicate Live(c: Contents, id: nat) {
    LiveEnvelope(Lookup(c, ArtifactAt(id)))
  }

  /** The entries a stored object stands for: none unless it is a live artifact. */
  function EntriesOf(sch: Schema, o: Option<Object>, id: nat): seq<Entry> {
    if LiveEnvelope(o) then
      match sch.derive(o.value.version, o.value.payload, id)
      case Ok(es) => es
      case Err(_) => []
    else []
  }

  function FindEntry(es: seq<Entry>, d: nat, k: Key): Option<OrderValues> {
    if es == [] then None
    else if es[0].def == d && es[0].key == k then Some(es[0].order)
    else FindEntry(es[1..], d, k)
  }

  /** The row, if any, that artifact `id` should have under key `k` of index `d`. */
  function Contribution(sch: Schema, o: Option<Object>, id: nat, d: nat, k: Key): Option<OrderValues> {
    FindEntry(EntriesOf(sch, o, id), d, k)
  }

  /** The rows an index object holds. An absent object and one with no rows are the same. */
  function RowsAt(c: Contents, d: nat, k: Key): map<nat, OrderValues> {
    if IndexAt(d, k) in c && c[IndexAt(d, k)].IndexRows? then c[IndexAt(d, k)].rows else map[]
  }

  ghost predicate AgreeAt(sch: Schema, c: Contents, d: nat, k: Key, id: nat) {
    Lookup(RowsAt(c, d, k), id) == Contribution(sch, Lookup(c, ArtifactAt(id)), id, d, k)
  }

  /** Every index object holds exactly the rows derived from the live artifacts. */
  ghost predicate Agree(sch: Schema, c: Contents) {
    forall d, k, id :: AgreeAt(sch, c, d, k, id)
  }

  /** At most one row under each key of a unique index. */
  ghost predicate UniqueAt(sch: Schema, c: Contents, d: nat, k: Key) {
    sch.unique(d) ==> forall i, j :: i in RowsAt(c, d, k) && j in RowsAt(c, d, k) ==> i == j
  }

  ghost predicate Consistent(sch: Schema, c: Contents) {
    Agree(sch, c) && forall d, k :: UniqueAt(sch, c, d, k)
  }

  /** What uniqueness is for: two live artifacts never derive the same key of a unique index. */
  lemma UniqueKeysIdentify(sch: Schema, c: Contents, d: nat, k: Key, i: nat, j: nat)
    requires Consistent(sch, c) && sch.unique(d)
    requires Contribution(sch, Lookup(c, ArtifactAt(i)), i, d, k).Some?
    requires Contribution(sch, Lookup(c, ArtifactAt(j)), j, d, k).Some?
    ensures i == j
  {
    assert AgreeAt(sch, c, d, k, i) && AgreeAt(sch, c, d, k, j) && UniqueAt(sch, c, d, k);
  }

  // -------------------------------------------------------------------------
  // Staged writes, on the contents of one branch
  // -------------------------------------------------------------------------

  /** Add one row. A second row for the same artifact does not serialize. */
  function AddRow(sch: Schema, c: Contents, id: nat, e: Entry): Result<Contents> {
    var rows := RowsAt(c, e.def, e.key);
    if sch.unique(e.def) && rows != map[] then Err(Aborted)
    else if id in rows then Err(InvalidArgument)
    else Ok(c[IndexAt(e.def, e.key) := IndexRows(rows[id := e.order])])
  }

  function AddRows(sch: Schema, c: Contents, id: nat, es: seq<Entry>): Result<Contents>
    decreases |es|
  {
    if es == [] then Ok(c)
    else
      match AddRow(sch, c, id, es[0])
      case Err(s) => Err(s)
      case Ok(c') => AddRows(sch, c', id, es[1..])
  }

  function RemoveRow(c: Contents, id: nat, e: Entry): Contents {
    var p := IndexAt(e.def, e.key);
    if p in c && c[p].IndexRows? then c[p := IndexRows(c[p].rows - {id})] else c
  }

  function RemoveRows(c: Contents, id: nat, es: seq<Entry>): Contents {
    if es == [] then c else RemoveRows(RemoveRow(c, id, es[0]), id, es[1..])
  }

  function CreateOn(sch: Schema, c: Contents, id: nat, version: nat, payload: Payload): Result<Contents> {
    match sch.derive(version, payload, id)
    case Err(s) => Err(s)
    case Ok(es) => AddRows(sch, c[ArtifactAt(id) := Envelope(version, payload)], id, es)
  }

  function UpdateOn(sch: Schema, c: Contents, id: nat, version: nat, payload: Payload): Result<Contents> {
    if ArtifactAt(id) !in c || !c[ArtifactAt(id)].Envelope? then Err(NotFound)
    else
      var old_ := EntriesOf(sch, Some(c[ArtifactAt(id)]), id);
      match sch.derive(version, payload, id)
      case Err(s) => Err(s)
      case Ok(es) => AddRows(sch, RemoveRows(c[ArtifactAt(id) := Envelope(version, payload)], id, old_), id, es)
  }

  function DeleteOn(sch: Schema, c: Contents, id: nat, existing: Object): Contents
    requires existing.Envelope?
  {
    var tombstoned := c[ArtifactAt(id) := Envelope(existing.version, [])];
    RemoveRows(tombstoned, id, EntriesOf(sch, Some(existing), id))
  }

  // -------------------------------------------------------------------------
  // What adding and removing rows does
  // -------------------------------------------------------------------------

  /** No two entries of one artifact fall under the same key. */
  ghost predicate OnePerKey(es: seq<Entry>) {
    forall i, j :: 0 <= i < j < |es| ==> (es[i].def, es[i].key) != (es[j].def, es[j].key)
  }

  ghost predicate HasKey(es: seq<Entry>, d: nat, k: Key) {
    exists i :: 0 <= i < |es| && es[i].def == d && es[i].key == k
  }

  lemma {:induction false} FindEntryFinds(es: seq<Entry>, d: nat, k: Key)
    ensures FindEntry(es, d, k).Some? <==> HasKey(es, d, k)
  {
    if es != [] {
      FindEntryFinds(es[1..], d, k);
      if HasKey(es[1..], d, k) {
        var i :| 0 <= i < |es[1..]| && es[1..][i].def == d && es[1..][i].key == k;
        assert es[i + 1].def == d && es[i + 1].key == k;
      }
      if HasKey(es, d, k) && !(es[0].def == d && es[0].key == k) {
        var i :| 0 <= i < |es| && es[i].def == d && es[i].key == k;
        assert es[1..][i - 1].def == d;
      }
    }
  }

  lemma {:induction false} RemoveRowsAt(c: Contents, id: nat, es: seq<Entry>, d: nat, k: Key)
    ensures RowsAt(RemoveRows(c, id, es), d, k) == if HasKey(es, d, k) then RowsAt(c, d, k) - {id} else RowsAt(c, d, k)
  {
    if es != [] {
      RemoveRowsAt(RemoveRow(c, id, es[0]), id, es[1..], d, k);
      HasKeyCons(es, d, k);
    }
  }

  lemma HasKeyCons(es: seq<Entry>, d: nat, k: Key)
    requires es != []
    ensures HasKey(es, d, k) <==> (es[0].def == d && es[0].key == k) || HasKey(es[1..], d, k)
  {
    FindEntryFinds(es, d, k);
    FindEntryFinds(es[1..], d, k);
  }

  lemma {:induction false} RemoveRowsKeeps(c: Contents, id: nat, es: seq<Entry>, p: ObjectPath)
    requires !p.IndexAt?
    ensures Lookup(RemoveRows(c, id, es), p) == Lookup(c, p)
  {
    if es != [] {
      RemoveRowsKeeps(RemoveRow(c, id, es[0]), id, es[1..], p);
    }
  }

  lemma {:induction false} AddRowsAt(sch: Schema, c: Contents, id: nat, es: seq<Entry>, d: nat, k: Key)
    requires AddRows(sch, c, id, es).Ok?
    ensures
      var rows := RowsAt(c, d, k);
      var rows' := RowsAt(AddRows(sch, c, id, es).value, d, k);
      match FindEntry(es, d, k)
      case None => rows' == rows
      case Some(order) => rows' == rows[id := order] && id !in rows && (sch.unique(d) ==> rows == map[])
    decreases |es|
  {
    if es != [] {
      AddRowsAt(sch, AddRow(sch, c, id, es[0]).value, id, es[1..], d, k);
    }
  }

  lemma {:induction false} AddRowsKeeps(sch: Schema, c: Contents, id: nat, es: seq<Entry>, p: ObjectPath)
    requires AddRows(sch, c, id, es).Ok? && !p.IndexAt?
    ensures Lookup(AddRows(sch, c, id, es).value, p) == Lookup(c, p)
    decreases |es|
  {
    if es != [] {
      AddRowsKeeps(sch, AddRow(sch, c, id, es[0]).value, id, es[1..], p);
    }
  }

  /** Whether `id` may take the key of entry `e` in these contents. */
  ghost predicate Room(sch: Schema, c: Contents, id: nat, e: Entry) {
    var rows := RowsAt(c, e.def, e.key);
    id !in rows && (sch.unique(e.def) ==> rows == map[])
  }

  /** Exactly when a batch of rows goes in. */
  lemma {:induction false} AddRowsSucceeds(sch: Schema, c: Contents, id: nat, es: seq<Entry>)
    ensures AddRows(sch, c, id, es).Ok? <==>
            OnePerKey(es) && forall i :: 0 <= i < |es| ==> Room(sch, c, id, es[i])
    decreases |es|
  {
    if es != [] {
      var rest := es[1..];
      if AddRow(sch, c, id, es[0]).Ok? {
        var c' := AddRow(sch, c, id, es[0]).value;
        AddRowsSucceeds(sch, c', id, rest);
        forall i | 0 <= i < |rest|
          ensures Room(sch, c', id, rest[i]) <==>
            Room(sch, c, id, rest[i]) && (rest[i].def, rest[i].key) != (es[0].def, es[0].key)
        {
        }
        assert forall i :: 0 <= i < |rest| ==> rest[i] == es[i + 1];
        OnePerKeyCons(es);
      } else {
        assert !Room(sch, c, id, es[0]);
      }
    }
  }

  lemma OnePerKeyCons(es: seq<Entry>)
    requires es != []
    ensures OnePerKey(es) <==>
            OnePerKey(es[1..]) && forall i :: 0 <= i < |es[1..]| ==>
              (es[0].def, es[0].key) != (es[1..][i].def, es[1..][i].key)
  {
    var rest := es[1..];
    assert forall i :: 0 <= i < |rest| ==> rest[i] == es[i + 1];
    if OnePerKey(rest) && forall i :: 0 <= i < |rest| ==> (es[0].def, es[0].key) != (rest[i].def, rest[i].key) {
      forall i, j | 0 <= i < j < |es|
        ensures (es[i].def, es[i].key) != (es[j].def, es[j].key)
      {
        assert es[j] == rest[j - 1];
        if i > 0 {
          assert es[i] == rest[i - 1];
        }
      }
    }
  }

  // -------------------------------------------------------------------------
  // Staged writes keep agreement
  // -------------------------------------------------------------------------

  /** Contents from which artifact `id` and its rows are gone: everything else agrees. */
  ghost predicate AgreeWithout(sch: Schema, c: Contents, id: nat) {
    && (forall d, k, j :: j != id ==> AgreeAt(sch, c, d, k, j))
    && (forall d, k :: id !in RowsAt(c, d, k))
    && (forall d, k :: UniqueAt(sch, c, d, k))
  }

  /** Adding the rows of a new envelope restores agreement, unless they are rows of a tombstone. */
  lemma AddRowsAgrees(sch: Schema, c: Contents, id: nat, version: nat, payload: Payload, es: seq<Entry>)
    requires AgreeWithout(sch, c, id)
    requires Lookup(c, ArtifactAt(id)) == Some(Envelope(version, payload))
    requires sch.derive(version, payload, id) == Ok(es) && AddRows(sch, c, id, es).Ok?
    ensures
      var c' := AddRows(sch, c, id, es).value;
      && (Consistent(sch, c') <==> payload != [] || es == [])
      && Lookup(c', ArtifactAt(id)) == Some(Envelope(version, payload))
  {
    var c' := AddRows(sch, c, id, es).value;
    AddRowsKeeps(sch, c, id, es, ArtifactAt(id));
    if payload != [] || es == [] {
      forall d, k, j
        ensures AgreeAt(sch, c', d, k, j)
      {
        AddRowsAt(sch, c, id, es, d, k);
        AddRowsKeeps(sch, c, id, es, ArtifactAt(j));
        assert j != id ==> AgreeAt(sch, c, d, k, j);
      }
      forall d, k
        ensures UniqueAt(sch, c', d, k)
      {
        AddRowsAt(sch, c, id, es, d, k);
        assert UniqueAt(sch, c, d, k);
      }
    } else {
      AddRowsAt(sch, c, id, es, es[0].def, es[0].key);
      assert !AgreeAt(sch, c', es[0].def, es[0].key, id);
    }
  }

  /** Once the derived rows of the stored envelope are removed, no row of `id` is left anywhere. */
  lemma RemoveRowsClears(sch: Schema, c: Contents, id: nat, o: Object)
    requires Consistent(sch, c)
    ensures AgreeWithout(sch, RemoveRows(c[ArtifactAt(id) := o], id, EntriesOf(sch, Lookup(c, ArtifactAt(id)), id)), id)
    ensures Lookup(RemoveRows(c[ArtifactAt(id) := o], id, EntriesOf(sch, Lookup(c, ArtifactAt(id)), id)),
                   ArtifactAt(id)) == Some(o)
  {
    var es := EntriesOf(sch, Lookup(c, ArtifactAt(id)), id);
    var c1 := c[ArtifactAt(id) := o];
    var c2 := RemoveRows(c1, id, es);
    RemoveRowsKeeps(c1, id, es, ArtifactAt(id));
    forall d, k
      ensures RowsAt(c2, d, k) == RowsAt(c, d, k) - {id}
    {
      assert RowsAt(c1, d, k) == RowsAt(c, d, k);
      RemoveRowsAt(c1, id, es, d, k);
      FindEntryFinds(es, d, k);
      assert AgreeAt(sch, c, d, k, id);
    }
    forall d, k, j | j != id
      ensures AgreeAt(sch, c2, d, k, j)
    {
      RemoveRowsKeeps(c1, id, es, ArtifactAt(j));
      assert AgreeAt(sch, c, d, k, j);
    }
    forall d, k
      ensures UniqueAt(sch, c2, d, k)
    {
      assert UniqueAt(sch, c, d, k);
    }
  }

  lemma DeadHasNoRows(sch: Schema, c: Contents, id: nat, o: Object)
    requires Consistent(sch, c) && !Live(c, id)
    ensures AgreeWithout(sch, c[ArtifactAt(id) := o], id)
  {
    RemoveRowsClears(sch, c, id, o);
  }

  /** No artifact other than `id` holds the key of `e`, if that has to be unique. */
  ghost predicate KeyFree(sch: Schema, c: Contents, id: nat, e: Entry) {
    sch.unique(e.def) ==>
      forall j :: j != id ==> Contribution(sch, Lookup(c, ArtifactAt(j)), j, e.def, e.key).None?
  }

  ghost predicate UniqueKeysFree(sch: Schema, c: Contents, id: nat, es: seq<Entry>) {
    forall i :: 0 <= i < |es| ==> KeyFree(sch, c, id, es[i])
  }

  lemma RoomWhenFree(sch: Schema, c: Contents, c': Contents, id: nat, e: Entry)
    requires Consistent(sch, c)
    requires RowsAt(c', e.def, e.key) == RowsAt(c, e.def, e.key) - {id}
    ensures Room(sch, c', id, e) <==> KeyFree(sch, c, id, e)
  {
    var rows, rows' := RowsAt(c, e.def, e.key), RowsAt(c', e.def, e.key);
    forall j | j != id
      ensures Contribution(sch, Lookup(c, ArtifactAt(j)), j, e.def, e.key).None? <==> j !in rows
    {
      assert AgreeAt(sch, c, e.def, e.key, j);
    }
    if rows' != map[] {
      var j :| j in rows';
      assert j in rows && j != id;
    } else {
      assert forall j :: j in rows && j != id ==> j in rows';
    }
  }

  /** The artifact is stored as given; every other artifact, and everything that is no index, is as before. */
  ghost predicate OnlyChangesArtifact(c: Contents, c': Contents, id: nat, o: Object) {
    && Lookup(c', ArtifactAt(id)) == Some(o)
    && (forall j :: j != id ==> Lookup(c', ArtifactAt(j)) == Lookup(c, ArtifactAt(j)))
    && (forall name :: Lookup(c', OtherAt(name)) == Lookup(c, OtherAt(name)))
  }

  lemma CreateStores(sch: Schema, c: Contents, id: nat, version: nat, payload: Payload)
    ensures
      var r := CreateOn(sch, c, id, version, payload);
      r.Ok? ==> OnlyChangesArtifact(c, r.value, id, Envelope(version, payload))
  {
    var derived := sch.derive(version, payload, id);
    if CreateOn(sch, c, id, version, payload).Ok? {
      var c1 := c[ArtifactAt(id) := Envelope(version, payload)];
      forall p: ObjectPath | !p.IndexAt?
        ensures Lookup(CreateOn(sch, c, id, version, payload).value, p) == Lookup(c1, p)
      {
        AddRowsKeeps(sch, c1, id, derived.value, p);
      }
    }
  }

  lemma UpdateStores(sch: Schema, c: Contents, id: nat, version: nat, payload: Payload)
    ensures
      var r := UpdateOn(sch, c, id, version, payload);
      r.Ok? ==> OnlyChangesArtifact(c, r.value, id, Envelope(version, payload))
  {
    var derived := sch.derive(version, payload, id);
    if UpdateOn(sch, c, id, version, payload).Ok? {
      var c1, es := c[ArtifactAt(id) := Envelope(version, payload)], EntriesOf(sch, Some(c[ArtifactAt(id)]), id);
      forall p: ObjectPath | !p.IndexAt?
        ensures Lookup(UpdateOn(sch, c, id, version, payload).value, p) == Lookup(c1, p)
      {
        RemoveRowsKeeps(c1, id, es, p);
        AddRowsKeeps(sch, RemoveRows(c1, id, es), id, derived.value, p);
      }
    }
  }

  lemma DeleteStores(sch: Schema, c: Contents, id: nat, existing: Object)
    requires existing.Envelope?
    ensures OnlyChangesArtifact(c, DeleteOn(sch, c, id, existing), id, Envelope(existing.version, []))
  {
    var c1 := c[ArtifactAt(id) := Envelope(existing.version, [])];
    forall p: ObjectPath | !p.IndexAt?
      ensures Lookup(DeleteOn(sch, c, id, existing), p) == Lookup(c1, p)
    {
      RemoveRowsKeeps(c1, id, EntriesOf(sch, Some(existing), id), p);
    }
  }

  /**
   Staging a create of an artifact that is not live goes through exactly when its entries fall under
   distinct keys and the unique ones are free, and keeps the indexes consistent exactly when it does
   not store rows for a tombstone. Validation refuses empty payloads, which is what excludes that.
   */
  lemma CreateKeepsAgreement(sch: Schema, c: Contents, id: nat, version: nat, payload: Payload)
    requires Consistent(sch, c) && !Live(c, id)
    ensures
      var derived := sch.derive(version, payload, id);
      var r := CreateOn(sch, c, id, version, payload);
      && (r.Ok? <==> derived.Ok? && OnePerKey(derived.value) && UniqueKeysFree(sch, c, id, derived.value))
      && (r.Ok? ==> (Consistent(sch, r.value) <==> payload != [] || derived.value == []))
      && (r.Ok? ==> OnlyChangesArtifact(c, r.value, id, Envelope(version, payload)))
  {
    CreateStores(sch, c, id, version, payload);
    var derived := sch.derive(version, payload, id);
    if derived.Ok? {
      var c1 := c[ArtifactAt(id) := Envelope(version, payload)];
      DeadHasNoRows(sch, c, id, Envelope(version, payload));
      forall d, k
        ensures RowsAt(c1, d, k) == RowsAt(c, d, k) - {id}
      {
        assert id !in RowsAt(c1, d, k);
      }
      forall i | 0 <= i < |derived.value|
        ensures Room(sch, c1, id, derived.value[i]) <==> KeyFree(sch, c, id, derived.value[i])
      {
        RoomWhenFree(sch, c, c1, id, derived.value[i]);
      }
      AddRowsSucceeds(sch, c1, id, derived.value);
      if AddRows(sch, c1, id, derived.value).Ok? {
        AddRowsAgrees(sch, c1, id, version, payload, derived.value);
      }
    }
  }

  /**
   Staging an update goes through exactly when the new entries fall under distinct keys and no OTHER
   artifact holds one of the unique ones: keeping one's own unique key is never a conflict.
   */
  lemma UpdateKeepsAgreement(sch: Schema, c: Contents, id: nat, version: nat, payload: Payload)
    requires Consistent(sch, c)
    requires ArtifactAt(id) in c && c[ArtifactAt(id)].Envelope?
    ensures
      var derived := sch.derive(version, payload, id);
      var r := UpdateOn(sch, c, id, version, payload);
      && (r.Ok? <==> derived.Ok? && OnePerKey(derived.value) && UniqueKeysFree(sch, c, id, derived.value))
      && (r.Ok? ==> (Consistent(sch, r.value) <==> payload != [] || derived.value == []))
      && (r.Ok? ==> OnlyChangesArtifact(c, r.value, id, Envelope(version, payload)))
  {
    UpdateStores(sch, c, id, version, payload);
    var derived := sch.derive(version, payload, id);
    if derived.Ok? {
      var c1 := c[ArtifactAt(id) := Envelope(version, payload)];
      var es := EntriesOf(sch, Lookup(c, ArtifactAt(id)), id);
      var c2 := RemoveRows(c1, id, es);
      RemoveRowsClears(sch, c, id, Envelope(version, payload));
      forall d, k
        ensures RowsAt(c2, d, k) == RowsAt(c, d, k) - {id}
      {
        assert RowsAt(c1, d, k) == RowsAt(c, d, k);
        assert id !in RowsAt(c2, d, k);
        RemoveRowsAt(c1, id, es, d, k);
      }
      forall i | 0 <= i < |derived.value|
        ensures Room(sch, c2, id, derived.value[i]) <==> KeyFree(sch, c, id, derived.value[i])
      {
        RoomWhenFree(sch, c, c2, id, derived.value[i]);
      }
      AddRowsSucceeds(sch, c2, id, derived.value);
      if AddRows(sch, c2, id, derived.value).Ok? {
        AddRowsAgrees(sch, c2, id, version, payload, derived.value);
      }
    }
  }

  /** Deleting what is stored keeps the indexes consistent and leaves a tombstone. */
  lemma DeleteKeepsAgreement(sch: Schema, c: Contents, id: nat)
    requires Consistent(sch, c)
    requires ArtifactAt(id) in c && c[ArtifactAt(id)].Envelope?
    ensures Consistent(sch, DeleteOn(sch, c, id, c[ArtifactAt(id)]))
      && !Live(DeleteOn(sch, c, id, c[ArtifactAt(id)]), id)
    ensures OnlyChangesArtifact(c, DeleteOn(sch, c, id, c[ArtifactAt(id)]), id, Envelope(c[ArtifactAt(id)].version, []))
  {
    DeleteStores(sch, c, id, c[ArtifactAt(id)]);
    var o := Envelope(c[ArtifactAt(id)].version, []);
    RemoveRowsClears(sch, c, id, o);
    var c' := DeleteOn(sch, c, id, c[ArtifactAt(id)]);
    forall d, k, j
      ensures AgreeAt(sch, c', d, k, j)
    {
      assert j != id ==> AgreeAt(sch, c', d, k, j);
    }
  }

  // -------------------------------------------------------------------------
  // Merges keep agreement
  // -------------------------------------------------------------------------

  /**
   A clean three-way merge of consistent contents over ANY consistent base is consistent. If a side
   leaves an index object alone, then whatever artifacts it changed contribute to that key what they
   did before, so the other side's object is already right about them.
   */
  lemma MergeKeepsAgreement(sch: Schema, base: Contents, source: Contents, target: Contents)
    requires Consistent(sch, base) && Consistent(sch, source) && Consistent(sch, target)
    requires ConflictPaths(base, source, target) == {}
    ensures Consistent(sch, Merged(base, source, target))
  {
    var m := Merged(base, source, target);
    forall d, k, id
      ensures AgreeAt(sch, m, d, k, id)
    {
      MergeAgreesAt(sch, base, source, target, d, k, id);
    }
    forall d, k
      ensures UniqueAt(sch, m, d, k)
    {
      MergedAt(base, source, target, IndexAt(d, k));
      assert UniqueAt(sch, source, d, k) && UniqueAt(sch, target, d, k);
      assert RowsAt(m, d, k) == RowsAt(source, d, k) || RowsAt(m, d, k) == RowsAt(target, d, k);
    }
  }

  lemma MergeAgreesAt(sch: Schema, base: Contents, source: Contents, target: Contents, d: nat, k: Key, id: nat)
    requires Agree(sch, base) && Agree(sch, source) && Agree(sch, target)
    requires ConflictPaths(base, source, target) == {}
    ensures AgreeAt(sch, Merged(base, source, target), d, k, id)
  {
    var p, q := ArtifactAt(id), IndexAt(d, k);
    MergedAt(base, source, target, p);
    MergedAt(base, source, target, q);
    assert p !in ConflictPaths(base, source, target) && q !in ConflictPaths(base, source, target);
    assert AgreeAt(sch, base, d, k, id) && AgreeAt(sch, source, d, k, id) && AgreeAt(sch, target, d, k, id);
  }
}
