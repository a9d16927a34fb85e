/**
 Runs of the artifact layer over the branch store: any interleaving of branches, staged writes,
 abandoned writes, commits and merges.
 */
module ArtifactRuns {
  import opened Results
  import opened ThreeWayMerge
  import opened Storage
  import opened IndexAgreement

  type ArtifactRepo = Repo<ObjectPath, Object>

  /**
   Branches on which a staged write failed part-way are marked, and runs in which such a branch is
   committed are not considered. Its owner deletes it unseen, with one exception: an implicit
   transaction that another thread has started a child of is left in place, half-written as it is.
   */
  datatype World = World(repo: ArtifactRepo, abandoned: set<string>)

  datatype Event =
    | NewBranch(name: string, base: Option<nat>)
    | DropBranch(name: string)
    | CreateArtifact(branch: string, id: nat, version: nat, payload: Payload)
    | UpdateArtifact(branch: string, id: nat, version: nat, payload: Payload)
    | DeleteArtifact(branch: string, id: nat)
    | PutOther(branch: string, name: string, change: Option<Object>)
    | FailedWrite(branch: string)
    | CommitWrites(branch: string)
    | MergeBranches(source: string, target: string)

  /** Only the staging area of `b` differs. */
  ghost predicate OnlyStaging(r: ArtifactRepo, r': ArtifactRepo, b: string) {
    && r'.commits == r.commits && r'.next == r.next
    && b in r.branches && b in r'.branches
    && r'.branches == r.branches[b := r'.branches[b]]
    && r'.branches[b].head == r.branches[b].head
  }

  ghost predicate StagedTo(r: ArtifactRepo, r': ArtifactRepo, b: string, c: Contents)
    requires Valid(r)
  {
    OnlyStaging(r, r', b) && BranchState(r', b) == c
  }

  /** Nothing is stored that would index a tombstone. */
  ghost predicate NoTombstoneRows(sch: Schema, id: nat, version: nat, payload: Payload) {
    payload != [] || sch.derive(version, payload, id) == Ok([])
  }

  ghost predicate Step(sch: Schema, w: World, e: Event, w': World)
    requires Valid(w.repo)
  {
    var r, r' := w.repo, w'.repo;
    match e
    case NewBranch(name, base) =>
      name !in r.branches && r' == Apply(r, CreateBranch(name, base)) && w'.abandoned == w.abandoned - {name}
    case DropBranch(name) => r' == Apply(r, DeleteBranch(name)) && w'.abandoned == w.abandoned
    case CreateArtifact(b, id, version, payload) =>
      && b in r.branches && b !in w.abandoned && w'.abandoned == w.abandoned
      && !Live(BranchState(r, b), id) && NoTombstoneRows(sch, id, version, payload)
      && var c := CreateOn(sch, BranchState(r, b), id, version, payload);
      c.Ok? && StagedTo(r, r', b, c.value)
    case UpdateArtifact(b, id, version, payload) =>
      && b in r.branches && b !in w.abandoned && w'.abandoned == w.abandoned
      && NoTombstoneRows(sch, id, version, payload)
      && var c := UpdateOn(sch, BranchState(r, b), id, version, payload);
      c.Ok? && StagedTo(r, r', b, c.value)
    case DeleteArtifact(b, id) =>
      && b in r.branches && b !in w.abandoned && w'.abandoned == w.abandoned
      && var c := BranchState(r, b);
      ArtifactAt(id) in c && c[ArtifactAt(id)].Envelope? && StagedTo(r, r', b, DeleteOn(sch, c, id, c[ArtifactAt(id)]))
    case PutOther(b, name, change) =>
      && b in r.branches && b !in w.abandoned && w'.abandoned == w.abandoned
      && r' == Apply(r, Stage(b, OtherAt(name), change))
    case FailedWrite(b) => OnlyStaging(r, r', b) && w'.abandoned == w.abandoned + {b}
    case CommitWrites(b) => b !in w.abandoned && r' == Apply(r, CommitBranch(b)) && w'.abandoned == w.abandoned
    case MergeBranches(s, t) => r' == Apply(r, Merge(s, t)) && w'.abandoned == w.abandoned
  }

  /** Every commit, and every branch in use, has exact and unique indexes. */
  ghost predicate AllConsistent(sch: Schema, w: World) {
    && Valid(w.repo)
    && (forall n :: n in w.repo.commits ==> Consistent(sch, w.repo.commits[n].objects))
    && (forall b :: b in w.repo.branches && b !in w.abandoned ==> Consistent(sch, BranchState(w.repo, b)))
  }

  ghost predicate IsRun(sch: Schema, ws: seq<World>, es: seq<Event>) {
    && |ws| == |es| + 1
    && AllConsistent(sch, ws[0])
    && forall i :: 0 <= i < |es| ==> Valid(ws[i].repo) && Step(sch, ws[i], es[i], ws[i + 1])
  }

  lemma StagingKeepsOthers(sch: Schema, w: World, w': World, b: string)
    requires AllConsistent(sch, w) && OnlyStaging(w.repo, w'.repo, b)
    requires w.abandoned <= w'.abandoned
    requires b !in w'.abandoned ==> Consistent(sch, BranchState(w'.repo, b))
    ensures AllConsistent(sch, w')
  {
    hide CommitGraph.WellFormed, IndexAgreement.Consistent, ThreeWayMerge.Overlay;
    forall b' | b' in w'.repo.branches && b' !in w'.abandoned
      ensures Consistent(sch, BranchState(w'.repo, b'))
    {
      if b' != b {
        assert BranchState(w'.repo, b') == BranchState(w.repo, b');
      }
    }
  }

  lemma OverlayOther(sch: Schema, c: Contents, name: string, c': Contents)
    requires Consistent(sch, c)
    requires forall p :: p != OtherAt(name) ==> Lookup(c', p) == Lookup(c, p)
    ensures Consistent(sch, c')
  {
    forall d, k
      ensures RowsAt(c', d, k) == RowsAt(c, d, k)
    {
      assert Lookup(c', IndexAt(d, k)) == Lookup(c, IndexAt(d, k));
    }
    forall d, k, id
      ensures AgreeAt(sch, c', d, k, id)
    {
      assert AgreeAt(sch, c, d, k, id) && Lookup(c', ArtifactAt(id)) == Lookup(c, ArtifactAt(id));
    }
    forall d, k
      ensures UniqueAt(sch, c', d, k)
    {
      assert UniqueAt(sch, c, d, k);
    }
  }

  lemma BranchingKeepsConsistent(sch: Schema, w: World, w': World)
    requires AllConsistent(sch, w) && Valid(w'.repo) && w'.repo.commits == w.repo.commits && w'.repo.next == w.repo.next
    requires forall b :: b in w'.repo.branches ==>
               w'.repo.branches[b].staging == map[] ||
               (b in w.repo.branches && w'.repo.branches[b] == w.repo.branches[b]
                 && (b in w.abandoned ==> b in w'.abandoned))
    ensures AllConsistent(sch, w')
  {
    forall b | b in w'.repo.branches && b !in w'.abandoned
      ensures Consistent(sch, BranchState(w'.repo, b))
    {
      if w'.repo.branches[b].staging == map[] {
        CleanBranchState(w'.repo, b);
      } else {
        SameBranchState(w.repo, w'.repo, b);
      }
    }
  }

  lemma CommittingKeepsConsistent(sch: Schema, w: World, b: string, c: CommitData<ObjectPath, Object>)
    requires AllConsistent(sch, w) && b in w.repo.branches && Consistent(sch, c.objects)
    requires Valid(AddCommit(w.repo, b, c))
    ensures AllConsistent(sch, World(AddCommit(w.repo, b, c), w.abandoned))
  {
    var r' := AddCommit(w.repo, b, c);
    forall b' | b' in r'.branches && b' !in w.abandoned
      ensures Consistent(sch, BranchState(r', b'))
    {
      if b' == b {
        CleanBranchState(r', b);
      } else {
        SameBranchState(w.repo, r', b');
      }
    }
  }

  lemma MergingKeepsConsistent(sch: Schema, w: World, s: string, t: string)
    requires AllConsistent(sch, w)
    ensures AllConsistent(sch, World(Apply(w.repo, Merge(s, t)), w.abandoned))
  {
    var r := w.repo;
    if StatusOf(r, Op<ObjectPath, Object>.Merge(s, t)).None? && ConflictsOf(r, s, t) == {} {
      MergeKeepsAgreement(sch, r.commits[BaseOf(r, s, t)].objects,
                          r.commits[r.branches[s].head].objects, r.commits[r.branches[t].head].objects);
      ApplyKeepsValid(r, Merge(s, t));
      CommittingKeepsConsistent(sch, w, t, CommitData([r.branches[t].head, r.branches[s].head], MergedOf(r, s, t)));
    }
  }

  lemma WriteKeepsConsistent(sch: Schema, w: World, e: Event, w': World)
    requires AllConsistent(sch, w) && Step(sch, w, e, w')
    requires e.CreateArtifact? || e.UpdateArtifact? || e.DeleteArtifact?
    ensures AllConsistent(sch, w')
  {
    HeadIsCommit(w.repo, e.branch);
    hide IndexAgreement.Consistent, CreateOn, UpdateOn, DeleteOn, ThreeWayMerge.Overlay, CommitGraph.WellFormed;
    var c := BranchState(w.repo, e.branch);
    match e {
      case CreateArtifact(b, id, version, payload) => CreateKeepsAgreement(sch, c, id, version, payload);
      case UpdateArtifact(b, id, version, payload) => UpdateKeepsAgreement(sch, c, id, version, payload);
      case DeleteArtifact(b, id) => DeleteKeepsAgreement(sch, c, id);
    }
    hide AllConsistent, Storage.Valid, Storage.Apply;
    StagingKeepsOthers(sch, w, w', e.branch);
  }

  lemma OtherKeepsConsistent(sch: Schema, w: World, e: Event, w': World)
    requires AllConsistent(sch, w) && Step(sch, w, e, w') && e.PutOther?
    ensures AllConsistent(sch, w')
  {
    hide IndexAgreement.Consistent, CommitGraph.WellFormed;
    var b := e.branch;
    StageIs(w.repo, b, OtherAt(e.name), e.change);
    OverlayOther(sch, BranchState(w.repo, b), e.name, BranchState(w'.repo, b));
    StagingKeepsOthers(sch, w, w', b);
  }

  lemma BranchEventKeepsConsistent(sch: Schema, w: World, e: Event, w': World)
    requires AllConsistent(sch, w) && Step(sch, w, e, w') && (e.NewBranch? || e.DropBranch?)
    ensures AllConsistent(sch, w')
  {
    hide IndexAgreement.Consistent, CommitGraph.WellFormed, ThreeWayMerge.Overlay;
    ApplyKeepsValid(w.repo, if e.NewBranch? then CreateBranch(e.name, e.base) else DeleteBranch(e.name));
    BranchingKeepsConsistent(sch, w, w');
  }

  lemma CommitEventKeepsConsistent(sch: Schema, w: World, b: string, w': World)
    requires AllConsistent(sch, w) && Step(sch, w, CommitWrites(b), w')
    ensures AllConsistent(sch, w')
  {
    hide IndexAgreement.Consistent, CommitGraph.WellFormed, ThreeWayMerge.Overlay;
    ApplyKeepsValid(w.repo, CommitBranch(b));
    if b in w.repo.branches {
      CommitIs(w.repo, b);
      CommittingKeepsConsistent(sch, w, b, CommitData([w.repo.branches[b].head], BranchState(w.repo, b)));
    }
  }

  lemma StepKeepsConsistent(sch: Schema, w: World, e: Event, w': World)
    requires AllConsistent(sch, w) && Step(sch, w, e, w')
    ensures AllConsistent(sch, w')
  {
    hide AllConsistent;
    match e
    case CommitWrites(b) => CommitEventKeepsConsistent(sch, w, b, w');
    case MergeBranches(s, t) => MergingKeepsConsistent(sch, w, s, t);
    case FailedWrite(b) => StagingKeepsOthers(sch, w, w', b);
    case PutOther(_, _, _) => OtherKeepsConsistent(sch, w, e, w');
    case CreateArtifact(_, _, _, _) => WriteKeepsConsistent(sch, w, e, w');
    case UpdateArtifact(_, _, _, _) => WriteKeepsConsistent(sch, w, e, w');
    case DeleteArtifact(_, _) => WriteKeepsConsistent(sch, w, e, w');
    case _ => BranchEventKeepsConsistent(sch, w, e, w');
  }

  ghost predicate SharesUniqueKey(sch: Schema, c: Contents, d: nat, k: Key, a: nat, b: nat) {
    && sch.unique(d)
    && Contribution(sch, Lookup(c, ArtifactAt(a)), a, d, k).Some?
    && Contribution(sch, Lookup(c, ArtifactAt(b)), b, d, k).Some?
  }

  ghost predicate UniqueKeysIdentifyIn(sch: Schema, c: Contents) {
    forall d, k, a, b :: SharesUniqueKey(sch, c, d, k, a, b) ==> a == b
  }

  /**
   In every world of every run: every commit's index objects hold exactly the rows derived from its
   live artifacts, and no two live artifacts of a commit share a unique key, however many branches
   created and merged them concurrently.
   */
  lemma {:induction false} IndexesAgreeOverRuns(sch: Schema, ws: seq<World>, es: seq<Event>, i: nat)
    requires IsRun(sch, ws, es) && i < |ws|
    ensures AllConsistent(sch, ws[i])
    ensures forall n :: n in ws[i].repo.commits ==> UniqueKeysIdentifyIn(sch, ws[i].repo.commits[n].objects)
  {
    hide Step, IndexAgreement.Consistent, UniqueKeysIdentifyIn;
    if i > 0 {
      IndexesAgreeOverRuns(sch, ws, es, i - 1);
      StepKeepsConsistent(sch, ws[i - 1], es[i - 1], ws[i]);
    }
    forall n | n in ws[i].repo.commits
      ensures UniqueKeysIdentifyIn(sch, ws[i].repo.commits[n].objects)
    {
      ConsistentIsUnique(sch, ws[i].repo.commits[n].objects);
    }
  }

  lemma ConsistentIsUnique(sch: Schema, c: Contents)
    requires Consistent(sch, c)
    ensures UniqueKeysIdentifyIn(sch, c)
  {
    forall d, k, a, b | SharesUniqueKey(sch, c, d, k, a, b)
      ensures a == b
    {
      UniqueKeysIdentify(sch, c, d, k, a, b);
    }
  }

  /** The empty repository is a place to start from. */
  lemma EmptyRepoIsConsistent(sch: Schema)
    ensures AllConsistent(sch, World(Init(), {}))
  {
    InitIsValid<ObjectPath, Object>();
    var r := Init<ObjectPath, Object>();
    assert Consistent(sch, map[]);
    assert BranchState(r, CANONICAL) == map[];
  }
}
