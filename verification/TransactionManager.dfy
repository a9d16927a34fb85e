/**
 The transaction manager: snapshots of who is whose child, transaction records kept on branches, and
 commits that retry with the lock released in between.
 */
module TransactionManager {
  import opened Results
  import opened ThreeWayMerge
  import CommitGraph
  import opened CommitNames
  import opened Storage
  import opened MemoryStorage
  import opened TransactionRuns
  import opened RetryPolicy
  import opened WriteExecutor

  datatype Record = Record(parent: Option<string>, snapshot: Option<nat>, depth: nat, children: set<string>)

  type Records = map<string, Record>

  function MetaOf(rec: Record): Value {
    TxnMeta(rec.parent, rec.snapshot, rec.depth)
  }

  // -------------------------------------------------------------------------
  // The forest of live transactions
  // -------------------------------------------------------------------------

  ghost predicate PlacedOk(records: Records, t: string)
    requires t in records
  {
    match records[t].parent
    case None => records[t].depth == 0
    case Some(p) => p in records && records[t].depth == records[p].depth + 1
  }

  /**
   Every live transaction has its branch, its parent is live and one level up, and the cached child
   sets are exactly the live children.
   */
  ghost predicate Forest(records: Records, branches: set<string>) {
    forall t :: t in records ==>
      && t in branches && t != CANONICAL && PlacedOk(records, t)
      && records[t].children == LiveChildren(records, t)
  }

  ghost function LiveChildren(records: Records, t: string): set<string> {
    set c | c in records && records[c].parent == Some(t)
  }

  function WithChild(records: Records, parent: Option<string>, child: string): Records {
    if parent.Some? && parent.value in records then
      records[parent.value := records[parent.value].(children := records[parent.value].children + {child})]
    else records
  }

  function WithoutChild(records: Records, parent: Option<string>, child: string): Records {
    if parent.Some? && parent.value in records then
      records[parent.value := records[parent.value].(children := records[parent.value].children - {child})]
    else records
  }

  function Added(records: Records, t: string, rec: Record): Records {
    WithChild(records[t := rec], rec.parent, t)
  }

  /** Forget a transaction; one that is not cached needs no forgetting. */
  function Removed(records: Records, t: string): Records {
    if t in records then WithoutChild(records, records[t].parent, t) - {t} else records
  }

  /** Only the set of children may differ. */
  ghost predicate SameButChildren(a: Record, b: Record) {
    a.parent == b.parent && a.snapshot == b.snapshot && a.depth == b.depth
  }

  lemma AddedKeepsForest(records: Records, branches: set<string>, t: string, rec: Record)
    requires Forest(records, branches) && t !in branches && t != CANONICAL && rec.children == {}
    requires match rec.parent
             case None => rec.depth == 0
             case Some(p) => p in records && rec.depth == records[p].depth + 1
    ensures Forest(Added(records, t, rec), branches + {t})
  {
    var records' := Added(records, t, rec);
    assert t !in records;
    forall u | u in records'
      ensures u in branches + {t} && u != CANONICAL && PlacedOk(records', u)
      ensures records'[u].children == LiveChildren(records', u)
    {
      if u == t {
        assert LiveChildren(records', t) == {} by {
          assert forall c :: c in records ==> PlacedOk(records, c);
        }
      } else {
        assert PlacedOk(records, u) && records[u].children == LiveChildren(records, u);
        assert LiveChildren(records', u) == LiveChildren(records, u) + (if rec.parent == Some(u) then {t} else {});
      }
    }
  }

  /** Nothing but the new transaction and its parent's set of children is different. */
  lemma AddedIs(records: Records, t: string, rec: Record)
    requires t !in records && rec.parent != Some(t)
    ensures Added(records, t, rec).Keys == records.Keys + {t} && Added(records, t, rec)[t] == rec
    ensures forall u :: u in records ==> SameButChildren(Added(records, t, rec)[u], records[u])
  {
  }

  lemma RemovedIs(records: Records, t: string)
    ensures Removed(records, t).Keys == records.Keys - {t}
    ensures forall u :: u in Removed(records, t) ==> SameButChildren(Removed(records, t)[u], records[u])
  {
  }

  /** A transaction without live children can go, and leaves a forest. */
  lemma RemovedKeepsForest(records: Records, branches: set<string>, t: string)
    requires Forest(records, branches) && (t in records ==> records[t].children == {})
    ensures Forest(Removed(records, t), branches - {t})
  {
    var records' := Removed(records, t);
    forall u | u in records'
      ensures u in branches - {t} && u != CANONICAL && PlacedOk(records', u)
      ensures records'[u].children == LiveChildren(records', u)
    {
      assert PlacedOk(records, u) && records[u].children == LiveChildren(records, u);
      assert t in records ==> u !in LiveChildren(records, t);
      assert LiveChildren(records', u) == LiveChildren(records, u) - {t};
    }
  }

  // -------------------------------------------------------------------------
  // The manager
  // -------------------------------------------------------------------------

  datatype CommitOutcome =
    | Committed(commitId: nat)
    | Conflicted(conflict: MergeResult<string>, attempts: nat)
    | Failed(status: Status)

  /**
   Why a commit that has begun may fail: the transaction went away, or got a child, while the lock was
   released; or merging was refused, or the resolver failed.
   */
  ghost predicate GaveUpAwake(opts: RetryOptions, left: TxnRepo, leftRecords: Records, status: Status, t: string,
                              target: string)
  {
    || (t !in left.branches && status == NotFound)
    || (LiveChildren(leftRecords, t) != {} && status == InvalidArgument)
    || FailedFrom(opts, left, status, t, target)
  }

  /** Where a transaction's contents go: its parent, or the canonical branch. */
  function TargetOf(rec: Record): (target: string)
    ensures rec.parent.None? ==> target == CANONICAL
    ensures rec.parent.Some? ==> target == rec.parent.value
  {
    if rec.parent.Some? then rec.parent.value else CANONICAL
  }

  ghost predicate MetaPresent(r: TxnRepo, t: string, meta: Value) {
    && t in r.branches && r.branches[t].head in r.commits
    && Lookup(BranchState(r, t), TxnMetaPath(t)) == Some(meta)
  }

  /** Put the record back on the branch, if the branch is still there. */
  ghost function Restored(r: TxnRepo, t: string, meta: Value): (r': TxnRepo)
    requires Valid(r)
    ensures Valid(r')
  {
    ApplyKeepsValid(r, Stage(t, TxnMetaPath(t), Some(meta)));
    var r1 := Apply(r, Stage(t, TxnMetaPath(t), Some(meta)));
    ApplyKeepsValid(r1, CommitBranch(t));
    Apply(r1, CommitBranch(t))
  }

  lemma RestoredIsOk(r: TxnRepo, t: string, meta: Value)
    requires Valid(r)
    ensures OthersKept(r, Restored(r, t, meta), t)
    ensures t in r.branches <==> t in Restored(r, t, meta).branches
    ensures t in r.branches ==> MetaPresent(Restored(r, t, meta), t, meta)
  {
    RestoredKeepsOthers(r, t, meta);
    RestoredHasMeta(r, t, meta);
  }

  lemma RestoredKeepsOthers(r: TxnRepo, t: string, meta: Value)
    requires Valid(r)
    ensures OthersKept(r, Restored(r, t, meta), t)
  {
    hide Storage.Valid, OthersKept, Storage.Apply;
    var r1 := Apply(r, Stage(t, TxnMetaPath(t), Some(meta)));
    ApplyKeepsValid(r, Stage(t, TxnMetaPath(t), Some(meta)));
    OwnOpKeepsOthers(r, Stage(t, TxnMetaPath(t), Some(meta)), t);
    OwnOpKeepsOthers(r1, CommitBranch(t), t);
    OthersKeptTwice(r, r1, Restored(r, t, meta), t);
  }

  lemma RestoredHasMeta(r: TxnRepo, t: string, meta: Value)
    requires Valid(r)
    ensures t in r.branches <==> t in Restored(r, t, meta).branches
    ensures t in r.branches ==> MetaPresent(Restored(r, t, meta), t, meta)
  {
    hide Storage.Valid, Storage.Apply, ThreeWayMerge.Overlay;
    if t in r.branches {
      HeadIsCommit(r, t);
      var p, b := TxnMetaPath(t), r.branches[t];
      StageIs(r, t, p, Some(meta));
      ApplyKeepsValid(r, Stage(t, p, Some(meta)));
      var r1 := Apply(r, Stage(t, p, Some(meta)));
      CommitIs(r1, t);
      CleanBranchState(Restored(r, t, meta), t);
      OverlayAt(r.commits[b.head].objects, b.staging[p := Some(meta)], p);
    } else {
      NothingToRestore(r, t, meta);
    }
  }

  lemma NothingToRestore(r: TxnRepo, t: string, meta: Value)
    requires Valid(r) && t !in r.branches
    ensures Restored(r, t, meta) == r
  {
    hide CommitGraph.WellFormed;
  }

  lemma CleanedKeepsOthers(r: TxnRepo, t: string)
    requires Valid(r) && t in r.branches
    ensures OthersKept(r, Cleaned(r, t), t) && t in Cleaned(r, t).branches && Cleaned(r, t).branches[t].staging == map[]
    ensures Cleaned(r, t).next == r.next + 1
  {
    hide Storage.Valid, ThreeWayMerge.Overlay;
    var r1 := Apply(r, Stage(t, TxnMetaPath(t), None));
    ApplyKeepsValid(r, Stage(t, TxnMetaPath(t), None));
    OwnOpKeepsOthers(r, Stage(t, TxnMetaPath(t), None), t);
    OwnOpKeepsOthers(r1, CommitBranch(t), t);
    OthersKeptTwice(r, r1, Cleaned(r, t), t);
  }

  lemma BeginKeepsOthers(r: TxnRepo, t: string, base: nat, meta: Value)
    requires Valid(r) && FreshName(r, t) && base in r.commits
    ensures BeginAt(r, t, base, meta).branches.Keys == r.branches.Keys + {t} && Extends(r, BeginAt(r, t, base, meta))
  {
    BeginIs(r, t, base, meta);
  }

  // -------------------------------------------------------------------------
  // Where a transaction's record ends up
  // -------------------------------------------------------------------------

  /** The record of `t` is visible on branch `b`. */
  ghost predicate RecordOn(r: TxnRepo, b: string, t: string) {
    b in r.branches && r.branches[b].head in r.commits && TxnMetaPath(t) in BranchState(r, b)
  }

  /** The record of `t` is neither on the target nor on the commit that a merge would compare with. */
  ghost predicate RecordOnlyOnSource(r: TxnRepo, t: string, target: string)
    requires Valid(r)
  {
    && t in r.branches && target in r.branches && !RecordOn(r, target, t)
    && TxnMetaPath(t) !in r.commits[BaseOf(r, t, target)].objects
  }

  /** Then a clean merge carries the record over exactly when it is on the source. */
  lemma RecordTravels(before: TxnRepo, t: string, target: string)
    requires Valid(before) && t != CANONICAL && CleanMerge(before, t, target)
    requires RecordOnlyOnSource(before, t, target)
    ensures RecordOn(MergeAndDrop(before, t, target), target, t) <==> RecordOn(before, t, t)
  {
    hide CommitGraph.WellFormed, Storage.ConflictsOf;
    var base, source := before.commits[BaseOf(before, t, target)].objects,
      before.commits[before.branches[t].head].objects;
    var kept := before.commits[before.branches[target].head].objects;
    CleanBranchState(before, t);
    CleanBranchState(before, target);
    MergedAt(base, source, kept, TxnMetaPath(t));
    ApplyKeepsValid(before, Merge(t, target));
    CleanBranchState(MergeAndDrop(before, t, target), target);
  }

  lemma CleanedHasNoRecord(r: TxnRepo, t: string)
    requires Valid(r) && t in r.branches
    ensures !RecordOn(Cleaned(r, t), t, t)
  {
    CleanedIs(r, t);
    CleanBranchState(Cleaned(r, t), t);
  }

  /**
   What a committed transaction leaves on its target: nothing of its record if it landed at the first
   attempt, and otherwise its record exactly if someone had put it back while the lock was released.
   */
  ghost predicate RecordOutcome(before: TxnRepo, now: TxnRepo, t: string, target: string) {
    Valid(before) && RecordOnlyOnSource(before, t, target) ==> (RecordOn(now, target, t) <==> RecordOn(before, t, t))
  }

  lemma BeginIsOwn(r: TxnRepo, t: string, base: nat, meta: Value)
    requires Valid(r) && FreshName(r, t) && base in r.commits
    ensures OthersKept(r, BeginAt(r, t, base, meta), t)
  {
    hide Storage.Valid, BeginAt;
    BeginIs(r, t, base, meta);
    NextIsNew(r);
  }

  lemma NextIsNew(r: TxnRepo)
    requires Valid(r)
    ensures r.next !in r.commits
  {
  }

  lemma UnknownIsNew(records: Records, r: TxnRepo, t: string)
    requires Forest(records, r.branches.Keys) && FreshName(r, t)
    ensures t !in records
  {
  }

  /** The transaction as it is when it starts to commit, or why it never does. */
  ghost function StagesFrom(r: TxnRepo, snapshot: Option<nat>, name: string, stage: Contents -> Result<Changes>)
    : (s: Result<TxnRepo>)
    requires Valid(r) && FreshName(r, name)
    ensures s.Ok? ==> Valid(s.value) && name in s.value.branches
  {
    CanonicalHead(r);
    var base := if snapshot.Some? then snapshot.value else r.branches[CANONICAL].head;
    if base !in r.commits then Err(NotFound)
    else
      var meta := TxnMeta(None, snapshot, 0);
      StartedIs(r, name, base, meta, map[]);
      match stage(BranchState(BeginAt(r, name, base, meta), name))
      case Err(e) => Err(e)
      case Ok(changes) => Ok(StartedAt(r, name, base, meta, changes))
  }

  lemma StartedFollows(r: TxnRepo, t: string, base: nat, meta: Value, changes: Result<Changes>)
    requires Valid(r) && FreshName(r, t) && base in r.commits && changes.Ok?
    ensures
      var staged := StageAll(BeginAt(r, t, base, meta), t, changes.value);
      Valid(staged) && StartedAt(r, t, base, meta, changes.value) == Apply(staged, CommitBranch(t))
  {
    hide Storage.Valid, Storage.Apply, BeginAt, StageAll;
    BeginIs(r, t, base, meta);
    StageAllIsOk(BeginAt(r, t, base, meta), t, changes.value);
  }

  class TransactionManager {
    const storage: TxnStorage
    const opts: RetryOptions
    var records: Records
    /** The repository and the records as other threads last left them. */
    ghost var left: TxnRepo
    ghost var leftRecords: Records

    ghost predicate Valid()
      reads this, storage
    {
      storage.Valid() && Forest(records, storage.branches.Keys)
    }

    constructor (storage: TxnStorage, opts: RetryOptions)
      requires storage.Valid()
      ensures this.storage == storage && this.opts == opts && Valid() && records == map[]
    {
      this.storage := storage;
      this.opts := opts;
      records := map[];
      left, leftRecords := Init(), map[];
    }

    /** With the lock released, other threads run any operations of this manager, and any writes. */
    method SleepUnlocked()
      requires Valid()
      modifies storage, this
      ensures Valid() && Extends(old(storage.State()), storage.State())
      ensures left == storage.State() && leftRecords == records
    {
      left, leftRecords := storage.State(), records;
    }

    method WriteTxnMeta(t: string, meta: Value)
      requires Valid()
      modifies storage
      ensures storage.Valid() && storage.State() == Restored(old(storage.State()), t, meta)
    {
      var put := storage.StageChange(t, TxnMetaPath(t), Some(meta));
      if put.Ok? {
        var _ := storage.Commit(t);
      }
    }

    method CreateTransaction(snapshot: Option<nat>, parent: Option<string>, name: string) returns (r: Result<string>)
      requires Valid() && FreshName(storage.State(), name)
      modifies this`records, storage
      ensures Valid() && Extends(old(storage.State()), storage.State())
      ensures r.Err? ==> storage.State() == old(storage.State()) && records == old(records)
      ensures r.Ok? <==>
        && !(snapshot.Some? && parent.Some?)
        && (parent.Some? ==> parent.value in old(records))
        && (snapshot.Some? ==> snapshot.value in old(storage.commits))
      ensures r.Err? ==>
        r.status == if snapshot.Some? && parent.Some? then InvalidArgument
                    else if parent.Some? && parent.value in old(storage.branches) then FailedPrecondition
                    else NotFound
      ensures r.Ok? ==>
        && r.value == name
        && var base := if snapshot.Some? then snapshot.value
                       else old(storage.branches)[if parent.Some? then parent.value else CANONICAL].head;
        && var rec := Record(parent, snapshot, if parent.Some? then old(records)[parent.value].depth + 1 else 0, {});
        && storage.State() == BeginAt(old(storage.State()), name, base, TxnMeta(rec.parent, rec.snapshot, rec.depth))
        && records == Added(old(records), name, rec)
    {
      hide BeginAt, Storage.Valid, Forest, Added;
      CanonicalHead(storage.State());
      var chosen := ChooseBase(snapshot, parent);
      if chosen.Err? {
        return Err(chosen.status);
      }
      var (base, depth) := chosen.value;
      var rec := Record(parent, snapshot, depth, {});
      BeginKeepsOthers(storage.State(), name, base, MetaOf(rec));
      AddedKeepsForest(records, storage.branches.Keys, name, rec);
      OpenBranch(name, base, MetaOf(rec));
      CacheTransaction(name, rec);
      return Ok(name);
    }

    method CacheTransaction(name: string, rec: Record)
      modifies this`records
      ensures records == Added(old(records), name, rec)
    {
      records := records[name := rec];
      if rec.parent.Some? && rec.parent.value in records {
        var p := records[rec.parent.value];
        records := records[rec.parent.value := p.(children := p.children + {name})];
      }
    }

    /** Where a transaction forks from, and how deep it is. */
    method ChooseBase(snapshot: Option<nat>, parent: Option<string>) returns (r: Result<(nat, nat)>)
      requires Valid()
      ensures r.Ok? <==>
        && !(snapshot.Some? && parent.Some?)
        && (parent.Some? ==> parent.value in records) && (snapshot.Some? ==> snapshot.value in storage.commits)
      ensures r.Ok? ==>
        && (if parent.Some? then parent.value else CANONICAL) in storage.branches
        && r.value.0 == (if snapshot.Some? then snapshot.value
                         else storage.branches[if parent.Some? then parent.value else CANONICAL].head)
        && r.value.0 in storage.commits
        && r.value.1 == if parent.Some? then records[parent.value].depth + 1 else 0
      ensures r.Err? ==>
        r.status == if snapshot.Some? && parent.Some? then InvalidArgument
                    else if parent.Some? && parent.value in storage.branches then FailedPrecondition
                    else NotFound
    {
      CanonicalHead(storage.State());
      if snapshot.Some? && parent.Some? {
        return Err(InvalidArgument);
      }
      if parent.Some? {
        if parent.value !in storage.branches {
          return Err(NotFound);
        }
        if parent.value !in records {
          return Err(FailedPrecondition);
        }
        return Ok((storage.branches[parent.value].head, records[parent.value].depth + 1));
      }
      if snapshot.Some? {
        if snapshot.value !in storage.commits {
          return Err(NotFound);
        }
        return Ok((snapshot.value, 0));
      }
      return Ok((storage.branches[CANONICAL].head, 0));
    }

    method OpenBranch(name: string, base: nat, meta: Value)
      requires storage.Valid() && FreshName(storage.State(), name) && base in storage.commits
      modifies storage
      ensures storage.Valid() && storage.State() == BeginAt(old(storage.State()), name, base, meta)
    {
      var _ := storage.CreateBranch(name, Some(base));
      var _ := storage.StageChange(name, TxnMetaPath(name), Some(meta));
      var _ := storage.Commit(name);
    }

    method RemoveTransactionLocked(t: string)
      modifies this`records
      ensures records == Removed(old(records), t)
    {
      if t in records {
        var parent := records[t].parent;
        if parent.Some? && parent.value in records {
          var p := records[parent.value];
          records := records[parent.value := p.(children := p.children - {t})];
        }
        records := records - {t};
      }
    }

    /** Refused for a transaction with live children; otherwise the branch and the record go. */
    method RollbackTransaction(t: string) returns (r: Result<()>)
      requires Valid()
      modifies this`records, storage
      ensures Valid() && Extends(old(storage.State()), storage.State())
      ensures r.Ok? <==> t in old(storage.branches) && t != CANONICAL && LiveChildren(old(records), t) == {}
      ensures r.Ok? ==>
        storage.State() == Apply(old(storage.State()), DeleteBranch(t)) && records == Removed(old(records), t)
      ensures r.Err? ==> storage.State() == old(storage.State()) && records == old(records)
      ensures r.Err? ==> r.status == if t !in old(storage.branches) then NotFound
                                     else if LiveChildren(old(records), t) != {} then InvalidArgument
                                     else FailedPrecondition
    {
      if t !in storage.branches {
        return Err(NotFound);
      }
      NoOrphans(records, storage.branches.Keys, t);
      if t in records && records[t].children != {} {
        return Err(InvalidArgument);
      }
      RemovedKeepsForest(records, storage.branches.Keys, t);
      r := storage.DeleteBranch(t);
      if r.Err? {
        return;
      }
      RemoveTransactionLocked(t);
      return Ok(());
    }

    /**
     Commits a transaction into its target. At most `maxAttempts` merges are made. Either one lands,
     and then the transaction, which had no live child, is gone; or every other branch and every
     record is exactly as other threads left it and the transaction, if it still exists, has its
     record back on its branch.
     */
    method CommitTransaction(t: string) returns (outcome: CommitOutcome, attempts: nat)
      requires Valid()
      modifies this, storage
      ensures Valid() && Extends(old(storage.State()), storage.State()) && attempts <= opts.maxAttempts
      ensures outcome.Committed? ==>
        && t in old(records) && t in old(storage.branches)
        && records == Removed(leftRecords, t) && LiveChildren(leftRecords, t) == {} && t !in records
        && var target := if old(records)[t].parent.Some? then old(records)[t].parent.value else CANONICAL;
        && var before := if attempts == 1 then Cleaned(old(storage.State()), t) else left;
        && LandedFrom(left, before, storage.State(), t, target, outcome.commitId)
        && RecordOutcome(before, storage.State(), t, target) && (attempts == 1 ==> !RecordOn(before, t, t))
      ensures !outcome.Committed? ==>
        && OthersKept(left, storage.State(), t) && records == leftRecords
        && (attempts > 0 && t in storage.branches ==>
              && t in old(records)
              && var rec := old(records)[t];
                 MetaPresent(storage.State(), t, TxnMeta(rec.parent, rec.snapshot, rec.depth)))
      ensures outcome.Conflicted? ==>
        && t in old(records) && attempts == outcome.attempts && GaveUp(opts, outcome.conflict, attempts)
        && ReportedFrom(left, outcome.conflict, t, TargetOf(old(records)[t]))
      ensures outcome.Failed? ==>
        || (t !in old(records) && outcome.status == NotFound)
        || (LiveChildren(old(records), t) != {} && outcome.status == InvalidArgument)
        || (opts.maxAttempts == 0 && outcome.status == InvalidArgument)
        || (t in old(records) && GaveUpAwake(opts, left, leftRecords, outcome.status, t, TargetOf(old(records)[t])))
      ensures LiveChildren(old(records), t) != {} ==>
        outcome == Failed(InvalidArgument) && storage.State() == old(storage.State()) && records == old(records)
      ensures MergesBack(old(storage.State()), old(records), opts, t) ==>
        && outcome == Committed(old(storage.nextSeq) + 1) && attempts == 1
        && storage.State() == Finish(old(storage.State()), t, TargetOf(old(records)[t]))
    {
      hide Storage.Valid, LandedFrom, OthersKept, Finish, Cleaned, CleanMerge, MetaPresent, MergeAndDrop, RecordOn;
      hide RecordOutcome, GaveUp, ReportedFrom, GaveUpAwake, LiveChildren;
      attempts := 0;
      left, leftRecords := storage.State(), records;
      NothingChanged(storage.State(), t);
      NoOrphans(records, storage.branches.Keys, t);
      if t !in records {
        return Failed(NotFound), 0;
      }
      var rec := records[t];
      if rec.children != {} {
        return Failed(InvalidArgument), 0;
      }
      if opts.maxAttempts == 0 {
        return Failed(InvalidArgument), 0;
      }
      var target := TargetOf(rec);
      FinishIs(storage.State(), t, target);
      CleanedKeepsOthers(storage.State(), t);
      KeepingOthersKeepsForest(records, storage.State(), Cleaned(storage.State(), t), t);
      CleanedHasNoRecord(storage.State(), t);
      CleanupTxnMeta(t);
      ghost var start, cleaned := left, storage.State();
      outcome, attempts := MergeBack(t, target, MetaOf(rec));
      if outcome.Committed? {
        ghost var before := if attempts == 1 then cleaned else left;
        LandedIs(left, before, storage.State(), t, target, outcome.commitId);
        LandedExtends(start, left, storage.State(), t, target, outcome.commitId);
        LandedRecord(left, before, storage.State(), t, target, outcome.commitId);
      } else {
        KeptExtends(start, left, storage.State(), t);
      }
    }

    method CleanupTxnMeta(t: string)
      requires storage.Valid()
      modifies storage
      ensures storage.Valid() && storage.State() == Cleaned(old(storage.State()), t)
    {
      var deleted := storage.StageChange(t, TxnMetaPath(t), None);
      if deleted.Ok? {
        var _ := storage.Commit(t);
      }
    }

    /** The retry loop, entered with the record already taken off the branch. */
    method MergeBack(t: string, target: string, meta: Value) returns (outcome: CommitOutcome, attempts: nat)
      requires Valid() && t in storage.branches && t != CANONICAL && opts.maxAttempts > 0
      requires t in records ==> records[t].children == {}
      requires OthersKept(left, storage.State(), t) && records == leftRecords
      modifies this, storage
      ensures Valid() && Extends(old(left), left) && 1 <= attempts <= opts.maxAttempts
      ensures outcome.Committed? ==>
        && (var before := if attempts == 1 then old(storage.State()) else left;
            LandedFrom(left, before, storage.State(), t, target, outcome.commitId))
        && records == Removed(leftRecords, t) && LiveChildren(leftRecords, t) == {} && t !in records
      ensures !outcome.Committed? ==>
        && OthersKept(left, storage.State(), t) && records == leftRecords
        && (t in storage.branches ==> MetaPresent(storage.State(), t, meta))
      ensures outcome.Conflicted? ==>
        && attempts == outcome.attempts && GaveUp(opts, outcome.conflict, attempts)
        && ReportedFrom(left, outcome.conflict, t, target)
      ensures outcome.Failed? ==> GaveUpAwake(opts, left, leftRecords, outcome.status, t, target)
      ensures old(CleanMerge(storage.State(), t, target)) ==>
        && outcome == Committed(old(storage.nextSeq)) && attempts == 1
        && storage.State() == old(MergeAndDrop(storage.State(), t, target))
    {
      hide Storage.Valid, OthersKept, LandedFrom, Forest, Removed, MetaPresent, Storage.Extends, LiveChildren;
      hide Storage.Apply, Storage.ConflictsOf, Storage.BaseOf, ReportedFrom, FailedFrom, FailedAt;
      NothingLost(left);
      ghost var uncontended := CleanMerge(storage.State(), t, target);
      attempts := 1;
      while attempts <= opts.maxAttempts
        invariant 1 <= attempts <= opts.maxAttempts
        invariant Valid() && t in storage.branches && (t in records ==> records[t].children == {})
        invariant OthersKept(left, storage.State(), t) && records == leftRecords && Extends(old(left), left)
        invariant storage.State() == if attempts == 1 then old(storage.State()) else left
        invariant attempts > 1 ==> !uncontended
        decreases opts.maxAttempts - attempts
      {
        ghost var before := storage.State();
        MergeChangesNothing(before, t, target);
        MergeKeepsBranches(before, t, target);
        var merge := storage.Merge(t, target);
        if merge.Err? {
          RefusalIs(opts, left, before, merge.status, t, target);
          RestoreMeta(t, meta);
          return Failed(merge.status), attempts;
        }
        if merge.value.Success? {
          CloseCommitted(t);
          MergeLandedFrom(left, before, storage.State(), t, target, merge.value.commitId);
          return Committed(merge.value.commitId), attempts;
        }
        assert Reports(before, merge.value, t, target);
        ReportIs(left, before, merge.value, t, target);
        var decision := EvaluateRetryDecision(merge.value.paths, attempts, opts.maxAttempts, opts.classifier);
        if !decision.retryable {
          RestoreMeta(t, meta);
          return Conflicted(merge.value, attempts), attempts;
        }
        if opts.resolver.Some? {
          var resolution := opts.resolver.value(merge.value);
          if !resolution.Rewrote? {
            if resolution.ResolverFailed? {
              ResolverFailureIs(opts, left, before, merge.value, resolution.status, t, target);
            }
            RestoreMeta(t, meta);
            return (if resolution.ResolverFailed? then Failed(resolution.status)
              else Conflicted(merge.value, attempts)), attempts;
          }
          RewriteSource(storage, t, resolution.objects);
          KeepingOthersKeepsForest(records, before, storage.State(), t);
          OthersKeptTwice(left, before, storage.State(), t);
        }
        KeptExtends(old(left), left, storage.State(), t);
        ghost var asleep := storage.State();
        SleepUnlocked();
        ExtendsTwice(old(left), asleep, left);
        NothingChanged(storage.State(), t);
        if t !in storage.branches {
          RestoreMeta(t, meta);
          return Failed(NotFound), attempts;
        }
        if t in records && records[t].children != {} {
          NoOrphans(records, storage.branches.Keys, t);
          RestoreMeta(t, meta);
          return Failed(InvalidArgument), attempts;
        }
        attempts := attempts + 1;
      }
      assert false;
    }

    /** Every exit that leaves the branch alive writes the record back. */
    method RestoreMeta(t: string, meta: Value)
      requires Valid() && OthersKept(left, storage.State(), t) && records == leftRecords
      modifies storage
      ensures Valid() && OthersKept(left, storage.State(), t)
      ensures t in storage.branches ==> MetaPresent(storage.State(), t, meta)
      ensures t in storage.branches <==> t in old(storage.branches)
    {
      hide Storage.Valid, OthersKept, Forest, MetaPresent, Restored;
      ghost var before := storage.State();
      RestoredIsOk(before, t, meta);
      KeepingOthersKeepsForest(records, before, Restored(before, t, meta), t);
      WriteTxnMeta(t, meta);
      OthersKeptTwice(left, before, storage.State(), t);
    }

    /** After a merge has landed: forget the transaction and drop its branch. */
    method CloseCommitted(t: string)
      requires Valid() && t in storage.branches && t != CANONICAL
      requires t in records ==> records[t].children == {}
      modifies this`records, storage
      ensures Valid() && t !in records && records == Removed(old(records), t) && LiveChildren(old(records), t) == {}
      ensures storage.State() == Apply(old(storage.State()), DeleteBranch(t))
    {
      NoOrphans(records, storage.branches.Keys, t);
      RemovedKeepsForest(records, storage.branches.Keys, t);
      RemoveTransactionLocked(t);
      var _ := storage.DeleteBranch(t);
    }

    /**
     A write without a transaction of its own: it runs in a fresh one, which on every exit but success
     is rolled back, unless someone has started a child of it meanwhile; and then every other branch is
     as other threads left it.
     */
    method RunImplicitTransaction(snapshot: Option<nat>, name: string, stage: Contents -> Result<Changes>)
      returns (outcome: CommitOutcome)
      requires Valid() && FreshName(storage.State(), name)
      modifies this, storage
      ensures Valid()
      ensures outcome.Committed? ==>
        name !in records && Landed(left, storage.State(), name, CANONICAL, outcome.commitId)
      ensures !outcome.Committed? ==>
        && OthersKept(left, storage.State(), name)
        && (name !in storage.branches || LiveChildren(records, name) != {})
      ensures StagesFrom(old(storage.State()), snapshot, name, stage).Err? ==>
        outcome == Failed(StagesFrom(old(storage.State()), snapshot, name, stage).status)
      ensures StagesFrom(old(storage.State()), snapshot, name, stage).Ok? && opts.maxAttempts > 0 ==>
        var started := StagesFrom(old(storage.State()), snapshot, name, stage).value;
        CleanMerge(Cleaned(started, name), name, CANONICAL) ==>
          outcome.Committed? && storage.State() == Finish(started, name, CANONICAL)
    {
      hide Storage.Valid, Landed, OthersKept, Forest, CleanMerge, BeginAt, Cleaned, Finish, StartedAt, LiveChildren;
      ghost var before, r0 := records, storage.State();
      left := storage.State();
      UnknownIsNew(records, left, name);
      NothingChanged(left, name);
      CanonicalHead(left);
      var created := CreateTransaction(snapshot, None, name);
      if created.Err? {
        return Failed(created.status);
      }
      ghost var base := if snapshot.Some? then snapshot.value else left.branches[CANONICAL].head;
      ghost var meta, rec := TxnMeta(None, snapshot, 0), Record(None, snapshot, 0, {});
      BeginIsOwn(left, name, base, meta);
      AddedIs(before, name, rec);
      LiveHasBranch(records, storage.State(), name);
      StartedIs(r0, name, base, meta, map[]);
      if stage(BranchState(storage.State(), name)).Ok? {
        StartedFollows(r0, name, base, meta, stage(BranchState(storage.State(), name)));
      }
      outcome := StageAndCommit(name, stage);
    }

    /** Stage what the callback wants on the new transaction, and commit it. */
    method StageAndCommit(name: string, stage: Contents -> Result<Changes>) returns (outcome: CommitOutcome)
      requires Valid() && name in records && records[name].parent.None? && records[name].children == {}
      requires name in storage.branches && storage.branches[name].head in storage.commits && name != CANONICAL
      requires OthersKept(left, storage.State(), name)
      modifies this, storage
      ensures Valid()
      ensures outcome.Committed? ==>
        name !in records && Landed(left, storage.State(), name, CANONICAL, outcome.commitId)
      ensures !outcome.Committed? ==>
        && OthersKept(left, storage.State(), name)
        && (name !in storage.branches || LiveChildren(records, name) != {})
      ensures match stage(BranchState(old(storage.State()), name))
              case Err(status) => outcome == Failed(status)
              case Ok(changes) =>
                && Storage.Valid(StageAll(old(storage.State()), name, changes))
                && var started := Apply(StageAll(old(storage.State()), name, changes), CommitBranch(name));
                && Storage.Valid(started)
                && (opts.maxAttempts > 0 && CleanMerge(Cleaned(started, name), name, CANONICAL) ==>
                      outcome.Committed? && storage.State() == Finish(started, name, CANONICAL))
    {
      hide Storage.Valid, Storage.Apply, LandedFrom, OthersKept, Forest, MetaPresent, CleanMerge, Cleaned, Finish,
        StageAll,
        RecordOutcome, LiveChildren, FailedFrom, GaveUpAwake, GaveUp, ReportedFrom, ThreeWayMerge.Overlay;
      NoOrphans(records, storage.branches.Keys, name);
      var seen := storage.ResolveState(storage.branches[name]);
      var changes := stage(seen);
      if changes.Err? {
        outcome := Abandon(name, Failed(changes.status));
        return;
      }
      CommitChanges(name, changes.value);
      ghost var started := storage.State();
      var attempts;
      outcome, attempts := CommitTransaction(name);
      if outcome.Committed? {
        ghost var before := if attempts == 1 then Cleaned(started, name) else left;
        LandedIs(left, before, storage.State(), name, CANONICAL, outcome.commitId);
      } else {
        outcome := Abandon(name, outcome);
      }
    }

    method Abandon(name: string, outcome: CommitOutcome) returns (r: CommitOutcome)
      requires Valid() && name != CANONICAL && !outcome.Committed? && OthersKept(left, storage.State(), name)
      modifies this, storage
      ensures Valid() && !r.Committed? && left == old(left) && OthersKept(left, storage.State(), name)
      ensures name !in storage.branches || LiveChildren(records, name) != {}
      ensures name in old(storage.branches) && LiveChildren(old(records), name) == {} ==> r == outcome
    {
      ghost var before := storage.State();
      OwnOpKeepsOthers(before, DeleteBranch(name), name);
      var rolledBack := RollbackTransaction(name);
      OthersKeptTwice(left, before, storage.State(), name);
      return if rolledBack.Ok? then outcome else Failed(Internal);
    }

    method CommitChanges(name: string, changes: Changes)
      requires Valid() && name in storage.branches
      modifies storage
      ensures Valid() && name in storage.branches
      ensures OthersKept(old(storage.State()), storage.State(), name)
      ensures Storage.Valid(StageAll(old(storage.State()), name, changes))
      ensures storage.State() == Apply(StageAll(old(storage.State()), name, changes), CommitBranch(name))
    {
      hide Storage.Valid, Storage.Apply, OthersKept, Forest, StageAll;
      ghost var r0 := storage.State();
      StageAllKeepsOthers(r0, name, changes);
      StagedIsThere(r0, name, changes);
      StageChanges(storage, name, changes);
      ghost var r1 := storage.State();
      OwnOpKeepsOthers(r1, CommitBranch(name), name);
      CommitIs(r1, name);
      var _ := storage.Commit(name);
      OthersKeptTwice(r0, r1, storage.State(), name);
      KeepingOthersKeepsForest(records, r0, storage.State(), name);
    }
  }

  /** Nothing stands in the way of merging the transaction back at once. */
  ghost predicate MergesBack(r: TxnRepo, records: Records, opts: RetryOptions, t: string)
    requires Storage.Valid(r)
  {
    && opts.maxAttempts > 0 && t in records && records[t].children == {} && t in r.branches
    && CleanMerge(Cleaned(r, t), t, TargetOf(records[t]))
  }

  lemma LandedIs(left: TxnRepo, before: TxnRepo, now: TxnRepo, t: string, target: string, id: nat)
    requires LandedFrom(left, before, now, t, target, id)
    ensures Landed(left, now, t, target, id)
  {
  }

  lemma LandedRecord(left: TxnRepo, before: TxnRepo, now: TxnRepo, t: string, target: string, id: nat)
    requires LandedFrom(left, before, now, t, target, id) && t != CANONICAL
    ensures RecordOutcome(before, now, t, target)
  {
    hide MergeAndDrop, RecordOn, CleanMerge;
    if RecordOnlyOnSource(before, t, target) {
      RecordTravels(before, t, target);
    }
  }

  lemma CanonicalHead(r: TxnRepo)
    requires Valid(r)
    ensures CANONICAL in r.branches && r.branches[CANONICAL].head in r.commits
  {
  }

  lemma NothingLost(r: TxnRepo)
    ensures Extends(r, r)
  {
  }

  lemma ExtendsTwice(r: TxnRepo, r1: TxnRepo, r2: TxnRepo)
    requires Extends(r, r1) && Extends(r1, r2)
    ensures Extends(r, r2)
  {
  }

  lemma LiveHasBranch(records: Records, r: TxnRepo, t: string)
    requires Valid(r) && t in records && Forest(records, r.branches.Keys)
    ensures t in r.branches && r.branches[t].head in r.commits && t != CANONICAL
  {
  }

  lemma FinishIs(r: TxnRepo, t: string, target: string)
    requires Valid(r)
    ensures Finish(r, t, target) == MergeAndDrop(Cleaned(r, t), t, target)
  {
  }

  lemma KeepingOthersKeepsForest(records: Records, r: TxnRepo, r': TxnRepo, t: string)
    requires Forest(records, r.branches.Keys) && OthersKept(r, r', t) && (t in r.branches ==> t in r'.branches)
    ensures Forest(records, r'.branches.Keys)
  {
    forall u | u in records
      ensures u in r'.branches
    {
      assert Lookup(r'.branches, u) == Lookup(r.branches, u) || u == t;
    }
  }

  lemma MergeKeepsBranches(r: TxnRepo, source: string, target: string)
    requires Valid(r)
    ensures Apply(r, Merge(source, target)).branches.Keys == r.branches.Keys
  {
  }

  /** Only live transactions have live children. */
  lemma NoOrphans(records: Records, branches: set<string>, t: string)
    requires Forest(records, branches)
    ensures if t in records then records[t].children == LiveChildren(records, t) else LiveChildren(records, t) == {}
  {
    assert forall c :: c in records ==> PlacedOk(records, c);
  }
}
