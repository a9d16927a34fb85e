/**
 Staging of artifact writes on a branch: the envelope and one index object at a time, proved to
 leave the branch with exactly the contents that the agreement results are about.
 */
module ArtifactStore {
  import opened Results
  import opened ThreeWayMerge
  import opened Storage
  import opened MemoryStorage
  import opened IndexAgreement
  import opened ArtifactRuns

  lemma StagedState(r: ArtifactRepo, b: string, p: ObjectPath, o: Object)
    requires Valid(r) && b in r.branches
    ensures StagedTo(r, Apply(r, Stage(b, p, Some(o))), b, BranchState(r, b)[p := o])
  {
    hide CommitGraph.WellFormed, Storage.Apply;
    StageIs(r, b, p, Some(o));
    SameLookups(BranchState(Apply(r, Stage(b, p, Some(o))), b), BranchState(r, b)[p := o]);
  }

  lemma StageRefused(r: ArtifactRepo, b: string, p: ObjectPath, o: Object)
    requires Valid(r) && b !in r.branches
    ensures Apply(r, Stage(b, p, Some(o))) == r
  {
    hide CommitGraph.WellFormed;
  }

  lemma StagedThen(r0: ArtifactRepo, r1: ArtifactRepo, r2: ArtifactRepo, b: string)
    requires OnlyStaging(r0, r1, b) && OnlyStaging(r1, r2, b)
    ensures OnlyStaging(r0, r2, b)
  {
  }

  class ArtifactStore {
    const storage: MemoryStorage<ObjectPath, Object>
    const schema: Schema

    constructor (storage: MemoryStorage<ObjectPath, Object>, schema: Schema)
      ensures this.storage == storage && this.schema == schema
    {
      this.storage := storage;
      this.schema := schema;
    }

    /** Read-modify-write of one index object. */
    method AddIndexRow(branch: string, id: nat, e: Entry) returns (r: Result<()>)
      requires storage.Valid() && branch in storage.branches
      modifies storage
      ensures storage.Valid() && OnlyStaging(old(storage.State()), storage.State(), branch)
      ensures match AddRow(schema, old(BranchState(storage.State(), branch)), id, e)
              case Ok(c) => r.Ok? && BranchState(storage.State(), branch) == c
              case Err(s) => r == Err(s) && storage.State() == old(storage.State())
      ensures
        var rows := RowsAt(old(BranchState(storage.State(), branch)), e.def, e.key);
        && (r == Err(Aborted) <==> schema.unique(e.def) && rows != map[])
        && (r == Err(InvalidArgument) <==> !(schema.unique(e.def) && rows != map[]) && id in rows)
        && (r.Ok? ==>
              BranchState(storage.State(), branch) ==
              old(BranchState(storage.State(), branch))[IndexAt(e.def, e.key) := IndexRows(rows[id := e.order])])
    {
      hide Storage.Apply, CommitGraph.WellFormed, ThreeWayMerge.Overlay;
      var path := IndexAt(e.def, e.key);
      var rows: map<nat, OrderValues> := map[];
      var existing := storage.GetObject(branch, path);
      if existing.Ok? && existing.value.IndexRows? {
        rows := existing.value.rows;
      }
      if schema.unique(e.def) && rows != map[] {
        return Err(Aborted);
      }
      if id in rows {
        return Err(InvalidArgument);
      }
      StagedState(storage.State(), branch, path, IndexRows(rows[id := e.order]));
      r := storage.StageChange(branch, path, Some(IndexRows(rows[id := e.order])));
    }

    /** An index object that loses its last row stays. */
    method RemoveIndexRow(branch: string, id: nat, e: Entry)
      requires storage.Valid() && branch in storage.branches
      modifies storage
      ensures storage.Valid()
      ensures StagedTo(old(storage.State()), storage.State(), branch,
                       RemoveRow(old(BranchState(storage.State(), branch)), id, e))
      ensures
        var path := IndexAt(e.def, e.key);
        var before := old(BranchState(storage.State(), branch));
        BranchState(storage.State(), branch) ==
        if path in before && before[path].IndexRows? then before[path := IndexRows(before[path].rows - {id})]
        else before
    {
      var path := IndexAt(e.def, e.key);
      var existing := storage.GetObject(branch, path);
      if existing.Ok? && existing.value.IndexRows? {
        var rows := existing.value.rows - {id};
        StagedState(storage.State(), branch, path, IndexRows(rows));
        var _ := storage.StageChange(branch, path, Some(IndexRows(rows)));
      }
    }

    method AddIndexRows(branch: string, id: nat, entries: seq<Entry>) returns (r: Result<()>)
      requires storage.Valid() && branch in storage.branches
      modifies storage
      ensures storage.Valid() && OnlyStaging(old(storage.State()), storage.State(), branch)
      ensures match AddRows(schema, old(BranchState(storage.State(), branch)), id, entries)
              case Ok(c) => r.Ok? && BranchState(storage.State(), branch) == c
              case Err(s) => r == Err(s)
    {
      ghost var start := storage.State();
      assert entries[0..] == entries;
      for i := 0 to |entries|
        invariant storage.Valid() && OnlyStaging(start, storage.State(), branch)
        invariant AddRows(schema, BranchState(storage.State(), branch), id, entries[i..]) ==
                  AddRows(schema, old(BranchState(storage.State(), branch)), id, entries)
      {
        ghost var before := storage.State();
        assert entries[i..][0] == entries[i] && entries[i..][1..] == entries[i + 1..];
        r := AddIndexRow(branch, id, entries[i]);
        StagedThen(start, before, storage.State(), branch);
        if r.Err? {
          return;
        }
      }
      return Ok(());
    }

    method RemoveIndexRows(branch: string, id: nat, entries: seq<Entry>)
      requires storage.Valid() && branch in storage.branches
      modifies storage
      ensures storage.Valid()
      ensures StagedTo(old(storage.State()), storage.State(), branch,
                       RemoveRows(old(BranchState(storage.State(), branch)), id, entries))
    {
      ghost var start := storage.State();
      assert entries[0..] == entries;
      for i := 0 to |entries|
        invariant storage.Valid() && OnlyStaging(start, storage.State(), branch)
        invariant RemoveRows(BranchState(storage.State(), branch), id, entries[i..]) ==
                  RemoveRows(old(BranchState(storage.State(), branch)), id, entries)
      {
        ghost var before := storage.State();
        assert entries[i..][0] == entries[i] && entries[i..][1..] == entries[i + 1..];
        RemoveIndexRow(branch, id, entries[i]);
        StagedThen(start, before, storage.State(), branch);
      }
    }

    method StageCreate(branch: string, id: nat, version: nat, payload: Payload) returns (r: Result<()>)
      requires storage.Valid()
      modifies storage
      ensures storage.Valid()
      ensures branch !in old(storage.branches) ==> r == Err(NotFound) && storage.State() == old(storage.State())
      ensures branch in old(storage.branches) ==>
        && OnlyStaging(old(storage.State()), storage.State(), branch)
        && (match CreateOn(schema, old(BranchState(storage.State(), branch)), id, version, payload)
            case Ok(c) => r.Ok? && BranchState(storage.State(), branch) == c
            case Err(s) => r == Err(s))
        && (r.Ok? ==> OnlyChangesArtifact(old(BranchState(storage.State(), branch)),
                                          BranchState(storage.State(), branch),
                                          id, Envelope(version, payload)))
    {
      hide Storage.Apply, CommitGraph.WellFormed, ThreeWayMerge.Overlay, AddRows, OnlyChangesArtifact;
      if branch !in storage.branches {
        StageRefused(storage.State(), branch, ArtifactAt(id), Envelope(version, payload));
      } else {
        StagedState(storage.State(), branch, ArtifactAt(id), Envelope(version, payload));
        CreateStores(schema, BranchState(storage.State(), branch), id, version, payload);
      }
      r := storage.StageChange(branch, ArtifactAt(id), Some(Envelope(version, payload)));
      if r.Err? {
        return;
      }
      var derived := schema.derive(version, payload, id);
      if derived.Err? {
        return Err(derived.status);
      }
      ghost var before := storage.State();
      r := AddIndexRows(branch, id, derived.value);
      StagedThen(old(storage.State()), before, storage.State(), branch);
    }

    /** The rows of the stored payload come out before the new ones go in. */
    method StageUpdate(branch: string, id: nat, version: nat, payload: Payload) returns (r: Result<()>)
      requires storage.Valid()
      modifies storage
      ensures storage.Valid()
      ensures branch !in old(storage.branches) ==> r.Err? && storage.State() == old(storage.State())
      ensures branch in old(storage.branches) ==>
        && OnlyStaging(old(storage.State()), storage.State(), branch)
        && (match UpdateOn(schema, old(BranchState(storage.State(), branch)), id, version, payload)
            case Ok(c) => r.Ok? && BranchState(storage.State(), branch) == c
            case Err(s) => r == Err(s))
        && (r.Ok? ==> OnlyChangesArtifact(old(BranchState(storage.State(), branch)),
                                          BranchState(storage.State(), branch),
                                          id, Envelope(version, payload)))
    {
      hide Storage.Apply, CommitGraph.WellFormed, ThreeWayMerge.Overlay, RemoveRows, AddRows, OnlyChangesArtifact;
      var existing := storage.GetObject(branch, ArtifactAt(id));
      if existing.Err? || !existing.value.Envelope? {
        return Err(NotFound);
      }
      var oldEntries := EntriesOf(schema, Some(existing.value), id);
      if branch !in storage.branches {
        StageRefused(storage.State(), branch, ArtifactAt(id), Envelope(version, payload));
      } else {
        StagedState(storage.State(), branch, ArtifactAt(id), Envelope(version, payload));
        UpdateStores(schema, BranchState(storage.State(), branch), id, version, payload);
      }
      r := storage.StageChange(branch, ArtifactAt(id), Some(Envelope(version, payload)));
      if r.Err? {
        return;
      }
      var derived := schema.derive(version, payload, id);
      if derived.Err? {
        return Err(derived.status);
      }
      ghost var written := storage.State();
      r := ReplaceIndexRows(branch, id, oldEntries, derived.value);
      StagedThen(old(storage.State()), written, storage.State(), branch);
    }

    /** The old rows come out before the new ones go in. */
    method ReplaceIndexRows(branch: string, id: nat, oldEntries: seq<Entry>, entries: seq<Entry>)
      returns (r: Result<()>)
      requires storage.Valid() && branch in storage.branches
      modifies storage
      ensures storage.Valid() && OnlyStaging(old(storage.State()), storage.State(), branch)
      ensures match AddRows(schema, RemoveRows(old(BranchState(storage.State(), branch)), id, oldEntries), id, entries)
              case Ok(c) => r.Ok? && BranchState(storage.State(), branch) == c
              case Err(s) => r == Err(s)
    {
      hide CommitGraph.WellFormed, ThreeWayMerge.Overlay, RemoveRows, AddRows;
      RemoveIndexRows(branch, id, oldEntries);
      ghost var removed := storage.State();
      r := AddIndexRows(branch, id, entries);
      StagedThen(old(storage.State()), removed, storage.State(), branch);
    }

    method StageDelete(branch: string, id: nat, existing: Object) returns (r: Result<()>)
      requires storage.Valid() && existing.Envelope?
      modifies storage
      ensures storage.Valid()
      ensures branch !in old(storage.branches) ==> r == Err(NotFound) && storage.State() == old(storage.State())
      ensures branch in old(storage.branches) ==>
        && r.Ok?
        && StagedTo(old(storage.State()), storage.State(), branch,
                    DeleteOn(schema, old(BranchState(storage.State(), branch)), id, existing))
        && OnlyChangesArtifact(old(BranchState(storage.State(), branch)), BranchState(storage.State(), branch), id,
                               Envelope(existing.version, []))
    {
      hide CommitGraph.WellFormed, ThreeWayMerge.Overlay, OnlyChangesArtifact;
      if branch in storage.branches {
        DeleteStores(schema, BranchState(storage.State(), branch), id, existing);
      }
      var tombstone := Envelope(existing.version, []);
      if branch in storage.branches {
        StagedState(storage.State(), branch, ArtifactAt(id), tombstone);
      }
      r := storage.StageChange(branch, ArtifactAt(id), Some(tombstone));
      if r.Err? || existing.payload == [] {
        return;
      }
      ghost var written := storage.State();
      RemoveIndexRows(branch, id, EntriesOf(schema, Some(existing), id));
      StagedThen(old(storage.State()), written, storage.State(), branch);
    }
  }
}
