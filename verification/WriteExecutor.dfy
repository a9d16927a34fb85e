/**
 Writes inside a transaction: each is staged on a child branch and merged back, with retries.
 */
module WriteExecutor {
  import opened Results
  import opened ThreeWayMerge
  import opened Storage
  import opened MemoryStorage
  import opened TransactionRuns
  import opened RetryPolicy
  import Sorting

  type TxnStorage = MemoryStorage<string, Value>

  /** What a conflict resolver did: failed, declined, or wrote these objects to the source branch. */
  datatype Resolution = ResolverFailed(status: Status) | Declined | Rewrote(objects: map<string, Value>)

  datatype RetryOptions = RetryOptions(
    maxAttempts: nat,
    classifier: string -> PathConflictKind,
    resolver: Option<MergeResult<string> -> Resolution>)

  /** Branches other than `b`, and all commits, are as they were. */
  ghost predicate OthersKept(r: TxnRepo, r': TxnRepo, b: string) {
    Extends(r, r') && forall x :: x != b ==> Lookup(r'.branches, x) == Lookup(r.branches, x)
  }

  lemma OthersKeptTwice(r: TxnRepo, r1: TxnRepo, r2: TxnRepo, b: string)
    requires OthersKept(r, r1, b) && OthersKept(r1, r2, b)
    ensures OthersKept(r, r2, b)
  {
  }

  lemma KeptExtends(r: TxnRepo, r1: TxnRepo, r2: TxnRepo, b: string)
    requires Extends(r, r1) && OthersKept(r1, r2, b)
    ensures Extends(r, r2)
  {
  }

  lemma LandedExtends(r: TxnRepo, left: TxnRepo, now: TxnRepo, source: string, target: string, id: nat)
    requires Extends(r, left) && Landed(left, now, source, target, id)
    ensures Extends(r, now)
  {
    var before :| LandedFrom(left, before, now, source, target, id);
    ApplyKeepsValid(before, Merge(source, target));
    ApplyExtends(before, Merge(source, target));
    ApplyExtends(Apply(before, Merge(source, target)), DeleteBranch(source));
  }

  lemma OwnOpKeepsOthers(r: TxnRepo, op: Op<string, Value>, b: string)
    requires Valid(r)
    requires match op
             case CreateBranch(x, _) => x == b
             case DeleteBranch(x) => x == b
             case Stage(x, _, _) => x == b
             case CommitBranch(x) => x == b
             case Merge(_, _) => false
    ensures OthersKept(r, Apply(r, op), b)
  {
    ApplyExtends(r, op);
  }

  lemma StageAllKeepsOthers(r: TxnRepo, b: string, changes: Changes)
    requires Valid(r) && b in r.branches
    ensures OthersKept(r, StageAll(r, b, changes), b)
  {
  }

  /** The merge is in order and meets no conflict. */
  ghost predicate CleanMerge(r: TxnRepo, source: string, target: string)
    requires Valid(r)
  {
    StatusOf(r, Op<string, Value>.Merge(source, target)).None? && ConflictsOf(r, source, target) == {}
  }

  /** Merge a branch and delete it. */
  ghost function MergeAndDrop(r: TxnRepo, source: string, target: string): TxnRepo
    requires Valid(r)
  {
    ApplyKeepsValid(r, Merge(source, target));
    Apply(Apply(r, Merge(source, target)), DeleteBranch(source))
  }

  /**
   The merge of `source` landed: starting from what others had left, with only the source branch
   touched since, one clean merge into `target` produced commit `id` and the source is gone.
   */
  ghost predicate Landed(left: TxnRepo, now: TxnRepo, source: string, target: string, id: nat) {
    exists before :: LandedFrom(left, before, now, source, target, id)
  }

  ghost predicate LandedFrom(left: TxnRepo, before: TxnRepo, now: TxnRepo, source: string, target: string, id: nat) {
    && Valid(before) && OthersKept(left, before, source)
    && CleanMerge(before, source, target)
    && id == before.next && now == MergeAndDrop(before, source, target)
  }

  /** The conflict is the one that merging `source` into `target` meets. */
  ghost predicate Reports(r: TxnRepo, c: MergeResult<string>, source: string, target: string) {
    && Valid(r) && StatusOf(r, Op<string, Value>.Merge(source, target)).None? && c.Conflict?
    && Sorting.Elements(c.paths) == ConflictsOf(r, source, target) != {}
  }

  /** The same, with only the source branch touched since others left the repository. */
  ghost predicate ReportedFrom(left: TxnRepo, c: MergeResult<string>, source: string, target: string) {
    exists before :: OthersKept(left, before, source) && Reports(before, c, source, target)
  }

  /** A conflict is handed back only for one of these reasons; any other is tried again. */
  ghost predicate GaveUp(opts: RetryOptions, c: MergeResult<string>, attempts: nat) {
    && c.Conflict?
    && (|| attempts == opts.maxAttempts
        || (exists i :: 0 <= i < |c.paths| && opts.classifier(c.paths[i]) != RetryableNonUniqueIndex)
        || (opts.resolver.Some? && opts.resolver.value(c) == Declined))
  }

  /** Merging was refused outright, or the resolver failed on the conflict, with this status. */
  ghost predicate FailedAt(opts: RetryOptions, r: TxnRepo, status: Status, source: string, target: string) {
    || StatusOf(r, Op<string, Value>.Merge(source, target)) == Some(status)
    || (opts.resolver.Some?
        && exists c :: Reports(r, c, source, target) && opts.resolver.value(c) == ResolverFailed(status))
  }

  ghost predicate FailedFrom(opts: RetryOptions, left: TxnRepo, status: Status, source: string, target: string) {
    exists before :: OthersKept(left, before, source) && FailedAt(opts, before, status, source, target)
  }

  lemma ReportIs(left: TxnRepo, before: TxnRepo, c: MergeResult<string>, source: string, target: string)
    requires OthersKept(left, before, source) && Reports(before, c, source, target)
    ensures ReportedFrom(left, c, source, target)
  {
  }

  lemma ResolverFailureIs(opts: RetryOptions, left: TxnRepo, before: TxnRepo, c: MergeResult<string>, status: Status,
                          source: string, target: string)
    requires OthersKept(left, before, source) && Reports(before, c, source, target)
    requires opts.resolver.Some? && opts.resolver.value(c) == ResolverFailed(status)
    ensures FailedFrom(opts, left, status, source, target)
  {
    hide Reports, OthersKept;
    assert FailedAt(opts, before, status, source, target);
  }

  lemma RefusalIs(opts: RetryOptions, left: TxnRepo, before: TxnRepo, status: Status, source: string, target: string)
    requires OthersKept(left, before, source)
    requires StatusOf(before, Op<string, Value>.Merge(source, target)) == Some(status)
    ensures FailedFrom(opts, left, status, source, target)
  {
    hide OthersKept;
    assert FailedAt(opts, before, status, source, target);
  }

  /** The resolver was asked about some conflict, and what it answered is on the source branch. */
  ghost predicate Rewritten(opts: RetryOptions, r: TxnRepo, source: string) {
    exists c :: RewrittenFor(opts, r, source, c)
  }

  ghost predicate RewrittenFor(opts: RetryOptions, r: TxnRepo, source: string, c: MergeResult<string>) {
    && opts.resolver.Some? && opts.resolver.value(c).Rewrote?
    && source in r.branches && r.branches[source].head in r.commits
    && forall p :: p in opts.resolver.value(c).objects ==>
         Lookup(BranchState(r, source), p) == Some(opts.resolver.value(c).objects[p])
  }

  /** Stage a set of changes, one object at a time. */
  method StageChanges(storage: TxnStorage, branch: string, changes: Changes)
    requires storage.Valid() && branch in storage.branches
    modifies storage
    ensures storage.Valid() && storage.State() == StageAll(old(storage.State()), branch, changes)
  {
    hide Storage.Valid, Storage.Apply, ThreeWayMerge.Overlay, StageAll;
    var todo := changes.Keys;
    ghost var start := storage.State();
    ghost var done: Changes := map[];
    StageNone(start, branch);
    while todo != {}
      invariant storage.Valid() && branch in storage.branches
      invariant todo <= changes.Keys && done.Keys == changes.Keys - todo
      invariant forall p :: p in done ==> done[p] == changes[p]
      invariant storage.State() == StageAll(start, branch, done)
    {
      var p :| p in todo;
      var _ := storage.StageChange(branch, p, changes[p]);
      StageOneMore(start, branch, done, p, changes[p]);
      done := done[p := changes[p]];
      todo := todo - {p};
    }
    assert done == changes;
  }

  lemma StageNone(r: TxnRepo, b: string)
    requires b in r.branches
    ensures StageAll(r, b, map[]) == r
  {
    assert r.branches[b].staging + map[] == r.branches[b].staging;
    assert r.branches[b := r.branches[b]] == r.branches;
  }

  lemma StageOneMore(r: TxnRepo, b: string, done: Changes, p: string, change: Option<Value>)
    requires b in r.branches && Valid(StageAll(r, b, done))
    ensures Apply(StageAll(r, b, done), Stage(b, p, change)) == StageAll(r, b, done[p := change])
    ensures b in StageAll(r, b, done[p := change]).branches
  {
    hide Storage.Valid;
    var staging := r.branches[b].staging;
    assert staging + done[p := change] == (staging + done)[p := change];
  }

  function AsChanges(objects: map<string, Value>): Changes {
    map p | p in objects :: Some(objects[p])
  }

  datatype WriteOutcome =
    | WriteSuccess(commitId: nat, attempts: nat)
    | WriteConflict(conflict: MergeResult<string>, retryable: bool, attempts: nat)

  /** Nobody has staged anything on the transaction branch, and the write itself is fine. */
  ghost predicate Uncontended(r: TxnRepo, opts: RetryOptions, txn: string, stage: Contents -> Result<Changes>) {
    && opts.maxAttempts > 0 && txn in r.branches && r.branches[txn].staging == map[]
    && r.branches[txn].head in r.commits && stage(r.commits[r.branches[txn].head].objects).Ok?
  }

  ghost function WrittenBy(r: TxnRepo, txn: string, stage: Contents -> Result<Changes>): Contents
    requires txn in r.branches && r.branches[txn].head in r.commits
    requires stage(r.commits[r.branches[txn].head].objects).Ok?
  {
    var seen := r.commits[r.branches[txn].head].objects;
    Overlay(seen, stage(seen).value)
  }

  lemma UncontendedMerge(r: TxnRepo, txn: string, child: string, c: Contents)
    requires Valid(r) && txn in r.branches && FreshName(r, child) && r.branches[txn].staging == map[]
    requires Valid(ChildCommitted(r, txn, child, c))
    ensures
      var r3 := ChildCommitted(r, txn, child, c);
      && CleanMerge(r3, child, txn)
      && MergeAndDrop(r3, child, txn) == ChildMerged(r, txn, c)
  {
    hide CommitGraph.WellFormed, Storage.ConflictsOf;
    ChildMergeInstalls(r, txn, child, c);
    ApplyKeepsValid(ChildCommitted(r, txn, child, c), Merge(child, txn));
    ChildGoes(r, txn, child, c);
  }

  lemma ChildCommittedIs(r: TxnRepo, txn: string, child: string, changes: Changes)
    requires Valid(r) && txn in r.branches && FreshName(r, child)
    requires Valid(Apply(r, CreateBranch(child, Some(r.branches[txn].head))))
    requires Valid(StageAll(Apply(r, CreateBranch(child, Some(r.branches[txn].head))), child, changes))
    ensures
      var r1 := Apply(r, CreateBranch(child, Some(r.branches[txn].head)));
      && BranchState(r1, child) == r.commits[r.branches[txn].head].objects
      && Apply(StageAll(r1, child, changes), CommitBranch(child)) ==
         ChildCommitted(r, txn, child, Overlay(r.commits[r.branches[txn].head].objects, changes))
  {
    hide Storage.Valid, Storage.Apply, ThreeWayMerge.Overlay;
    HeadIsCommit(r, txn);
    var head := r.branches[txn].head;
    CreateIs(r, child, head);
    CleanBranchState(Apply(r, CreateBranch(child, Some(head))), child);
    ChildStagedIs(r, child, head, changes);
  }

  class WriteExecutor {
    const storage: TxnStorage
    const opts: RetryOptions
    /** The repository as other threads last left it. */
    ghost var left: TxnRepo

    constructor (storage: TxnStorage, opts: RetryOptions)
      ensures this.storage == storage && this.opts == opts
    {
      this.storage := storage;
      this.opts := opts;
      left := Init();
    }

    /** Sleeping: other threads do anything to the repository except touch this write's own child branch. */
    method Sleep(ghost child: string)
      requires storage.Valid()
      modifies storage, this`left
      ensures storage.Valid() && Extends(old(storage.State()), storage.State()) && left == storage.State()
      ensures child in old(storage.branches) ==>
        child in storage.branches && storage.branches[child] == old(storage.branches)[child]
    {
      left := storage.State();
    }

    method CleanupChildBranch(child: string)
      requires storage.Valid() && child != CANONICAL
      modifies storage
      ensures storage.Valid() && child !in storage.branches
      ensures OthersKept(old(storage.State()), storage.State(), child)
      ensures storage.State() == Apply(old(storage.State()), DeleteBranch(child))
    {
      OwnOpKeepsOthers(storage.State(), DeleteBranch(child), child);
      var _ := storage.DeleteBranch(child);
    }

    /**
     One write. It merges at most `maxAttempts` times; it either lands, or leaves every branch but its
     own exactly as other threads left it; and its child branch is gone on every exit.
     */
    method ExecuteWrite(txn: string, child: string, stage: Contents -> Result<Changes>)
      returns (r: Result<WriteOutcome>)
      requires storage.Valid() && FreshName(storage.State(), child) && child != txn
      modifies storage, this`left
      ensures storage.Valid() && child !in storage.branches
      ensures r.Ok? && r.value.WriteSuccess? ==>
        1 <= r.value.attempts <= opts.maxAttempts && Landed(left, storage.State(), child, txn, r.value.commitId)
      ensures !(r.Ok? && r.value.WriteSuccess?) ==> OthersKept(left, storage.State(), child)
      ensures r.Ok? && r.value.WriteConflict? ==>
        && 1 <= r.value.attempts <= opts.maxAttempts && !r.value.retryable
        && GaveUp(opts, r.value.conflict, r.value.attempts) && ReportedFrom(left, r.value.conflict, child, txn)
      ensures r.Ok? && r.value.WriteSuccess? && r.value.attempts > 1 && opts.resolver.Some? ==>
        Rewritten(opts, left, child)
      ensures r.Err? ==>
        || (opts.maxAttempts == 0 && r.status == InvalidArgument)
        || (txn !in old(storage.branches) && r.status == NotFound)
        || (txn in old(storage.branches)
            && stage(old(storage.commits)[old(storage.branches)[txn].head].objects) == Err(r.status))
        || FailedFrom(opts, left, r.status, child, txn)
      ensures Uncontended(old(storage.State()), opts, txn, stage) ==>
        && r == Ok(WriteSuccess(old(storage.nextSeq) + 1, 1))
        && storage.State() == ChildMerged(old(storage.State()), txn, WrittenBy(old(storage.State()), txn, stage))
    {
      hide Storage.Valid, Landed, OthersKept, ThreeWayMerge.Overlay, MergeAndDrop, Storage.ConflictsOf, ChildMerged;
      NothingChanged(storage.State(), child);
      left := storage.State();
      if opts.maxAttempts == 0 {
        return Err(InvalidArgument);
      }
      if txn !in storage.branches {
        return Err(NotFound);
      }
      var staged := StageChild(txn, child, stage);
      if staged.Err? {
        ghost var half := storage.State();
        CleanupChildBranch(child);
        OthersKeptTwice(left, half, storage.State(), child);
        return Err(staged.status);
      }
      if Uncontended(left, opts, txn, stage) {
        UncontendedMerge(left, txn, child, WrittenBy(left, txn, stage));
      }
      r := MergeWithRetries(txn, child);
    }

    method StageChild(txn: string, child: string, stage: Contents -> Result<Changes>) returns (r: Result<()>)
      requires storage.Valid() && FreshName(storage.State(), child) && txn in storage.branches
      modifies storage
      ensures storage.Valid() && child in storage.branches && child != CANONICAL
      ensures OthersKept(old(storage.State()), storage.State(), child)
      ensures
        var seen := old(storage.commits)[old(storage.branches)[txn].head].objects;
        && (match stage(seen) case Ok(_) => r.Ok? case Err(status) => r == Err(status))
        && (r.Ok? ==>
              storage.State() == ChildCommitted(old(storage.State()), txn, child, Overlay(seen, stage(seen).value)))
    {
      ghost var r0 := storage.State();
      OwnOpKeepsOthers(r0, CreateBranch(child, Some(storage.branches[txn].head)), child);
      var _ := storage.CreateBranch(child, Some(storage.branches[txn].head));
      ghost var r1 := storage.State();
      var seen := storage.ResolveState(storage.branches[child]);
      assert seen == r0.commits[r0.branches[txn].head].objects;
      var changes := stage(seen);
      if changes.Err? {
        return Err(changes.status);
      }
      StageAllKeepsOthers(r1, child, changes.value);
      StageChanges(storage, child, changes.value);
      ghost var r2 := storage.State();
      OwnOpKeepsOthers(r2, CommitBranch(child), child);
      var _ := storage.Commit(child);
      OthersKeptTwice(r0, r1, r2, child);
      OthersKeptTwice(r0, r2, storage.State(), child);
      ChildCommittedIs(r0, txn, child, changes.value);
      return Ok(());
    }

    method MergeWithRetries(txn: string, child: string) returns (r: Result<WriteOutcome>)
      requires storage.Valid() && child in storage.branches && child != CANONICAL && opts.maxAttempts > 0
      requires OthersKept(left, storage.State(), child)
      modifies storage, this`left
      ensures storage.Valid() && child !in storage.branches
      ensures old(CleanMerge(storage.State(), child, txn)) ==>
        && r == Ok(WriteSuccess(old(storage.nextSeq), 1))
        && storage.State() == old(MergeAndDrop(storage.State(), child, txn))
      ensures r.Ok? && r.value.WriteSuccess? ==>
        1 <= r.value.attempts <= opts.maxAttempts && Landed(left, storage.State(), child, txn, r.value.commitId)
      ensures !(r.Ok? && r.value.WriteSuccess?) ==> OthersKept(left, storage.State(), child)
      ensures r.Ok? && r.value.WriteConflict? ==>
        && 1 <= r.value.attempts <= opts.maxAttempts && !r.value.retryable
        && GaveUp(opts, r.value.conflict, r.value.attempts) && ReportedFrom(left, r.value.conflict, child, txn)
      ensures r.Ok? && r.value.WriteSuccess? && r.value.attempts > 1 && opts.resolver.Some? ==>
        Rewritten(opts, left, child)
      ensures r.Err? ==> FailedFrom(opts, left, r.status, child, txn)
    {
      hide Storage.Valid, Storage.Apply, Storage.ConflictsOf, Storage.BaseOf;
      hide OthersKept, Landed, LandedFrom, Rewritten, ReportedFrom, FailedFrom, FailedAt;
      ghost var uncontended := CleanMerge(storage.State(), child, txn);
      var attempts := 1;
      while attempts <= opts.maxAttempts
        invariant 1 <= attempts <= opts.maxAttempts
        invariant storage.Valid() && child in storage.branches
        invariant OthersKept(left, storage.State(), child)
        invariant attempts == 1 ==> storage.State() == old(storage.State())
        invariant attempts > 1 ==> !uncontended
        invariant attempts > 1 && opts.resolver.Some? ==> Rewritten(opts, left, child)
        decreases opts.maxAttempts - attempts
      {
        ghost var before := storage.State();
        var merge := storage.Merge(child, txn);
        if merge.Err? {
          MergeChangesNothing(before, child, txn);
          FailedMergeCleanup(child, before);
          RefusalIs(opts, left, before, merge.status, child, txn);
          return Err(merge.status);
        }
        if merge.value.Success? {
          CleanupChildBranch(child);
          assert storage.State() == MergeAndDrop(before, child, txn);
          MergeLanded(left, before, storage.State(), child, txn, merge.value.commitId);
          return Ok(WriteSuccess(merge.value.commitId, attempts));
        }
        MergeChangesNothing(before, child, txn);
        assert Reports(before, merge.value, child, txn);
        ReportIs(left, before, merge.value, child, txn);
        var decision := EvaluateRetryDecision(merge.value.paths, attempts, opts.maxAttempts, opts.classifier);
        if !decision.retryable {
          FailedMergeCleanup(child, before);
          return Ok(WriteConflict(merge.value, false, attempts));
        }
        if opts.resolver.Some? {
          var resolution := opts.resolver.value(merge.value);
          if !resolution.Rewrote? {
            if resolution.ResolverFailed? {
              ResolverFailureIs(opts, left, before, merge.value, resolution.status, child, txn);
            }
            FailedMergeCleanup(child, before);
            return if resolution.ResolverFailed? then Err(resolution.status)
              else Ok(WriteConflict(merge.value, false, attempts));
          }
          RewriteSource(storage, child, resolution.objects);
          assert RewrittenFor(opts, storage.State(), child, merge.value);
        }
        ghost var asleep := storage.State();
        Sleep(child);
        if opts.resolver.Some? {
          StaysRewritten(opts, asleep, left, child, merge.value);
        }
        NothingChanged(storage.State(), child);
        attempts := attempts + 1;
      }
      assert false;
    }

    method FailedMergeCleanup(child: string, ghost before: TxnRepo)
      requires storage.Valid() && child != CANONICAL && storage.State() == before && OthersKept(left, before, child)
      modifies storage
      ensures storage.Valid() && child !in storage.branches && OthersKept(left, storage.State(), child)
    {
      CleanupChildBranch(child);
      OthersKeptTwice(left, before, storage.State(), child);
    }
  }

  lemma StaysRewritten(opts: RetryOptions, r: TxnRepo, r': TxnRepo, source: string, c: MergeResult<string>)
    requires Valid(r) && RewrittenFor(opts, r, source, c) && Extends(r, r')
    requires source in r'.branches && r'.branches[source] == r.branches[source]
    ensures Rewritten(opts, r', source)
  {
    hide Storage.Valid;
    SameBranchState(r, r', source);
    assert RewrittenFor(opts, r', source, c);
  }

  lemma NothingChanged(r: TxnRepo, b: string)
    ensures OthersKept(r, r, b)
  {
  }

  /** A merge that reports an error or conflicts leaves the repository alone. */
  lemma MergeChangesNothing(r: TxnRepo, source: string, target: string)
    requires Valid(r)
    ensures !CleanMerge(r, source, target) ==> Apply(r, Merge(source, target)) == r
  {
  }

  lemma MergeLandedFrom(left: TxnRepo, before: TxnRepo, now: TxnRepo, source: string, target: string, id: nat)
    requires Valid(before) && OthersKept(left, before, source)
    requires CleanMerge(before, source, target)
    requires id == before.next && now == MergeAndDrop(before, source, target)
    ensures LandedFrom(left, before, now, source, target, id)
  {
  }

  lemma MergeLanded(left: TxnRepo, before: TxnRepo, now: TxnRepo, source: string, target: string, id: nat)
    requires Valid(before) && OthersKept(left, before, source)
    requires CleanMerge(before, source, target)
    requires id == before.next && now == MergeAndDrop(before, source, target)
    ensures Landed(left, now, source, target, id)
  {
    assert LandedFrom(left, before, now, source, target, id);
  }

  /** Write resolved objects to the source branch and commit them there. */
  method RewriteSource(storage: TxnStorage, source: string, objects: map<string, Value>)
    requires storage.Valid() && source in storage.branches
    modifies storage
    ensures storage.Valid() && source in storage.branches && OthersKept(old(storage.State()), storage.State(), source)
    ensures storage.branches[source].staging == map[] && storage.branches[source].head in storage.commits
    ensures forall p :: Lookup(BranchState(storage.State(), source), p) ==
                        if p in objects then Some(objects[p]) else Lookup(old(BranchState(storage.State(), source)), p)
  {
    hide Storage.Valid, Storage.Apply, ThreeWayMerge.Overlay, StageAll, OthersKept;
    ghost var r0 := storage.State();
    HeadIsCommit(r0, source);
    StageAllKeepsOthers(r0, source, AsChanges(objects));
    StagedIsThere(r0, source, AsChanges(objects));
    StageChanges(storage, source, AsChanges(objects));
    ghost var r1 := storage.State();
    OwnOpKeepsOthers(r1, CommitBranch(source), source);
    CommitIs(r1, source);
    var _ := storage.Commit(source);
    CleanBranchState(storage.State(), source);
    OthersKeptTwice(r0, r1, storage.State(), source);
    forall p
      ensures Lookup(BranchState(r1, source), p) ==
              if p in objects then Some(objects[p]) else Lookup(BranchState(r0, source), p)
    {
      OverlayAt(BranchState(r0, source), AsChanges(objects), p);
    }
  }

  lemma StagedIsThere(r: TxnRepo, b: string, changes: Changes)
    requires Valid(r) && b in r.branches
    ensures b in StageAll(r, b, changes).branches && Valid(StageAll(r, b, changes))
    ensures r.branches[b].head in r.commits
      && StageAll(r, b, changes).branches[b].head in StageAll(r, b, changes).commits
    ensures BranchState(StageAll(r, b, changes), b) == Overlay(BranchState(r, b), changes)
  {
    hide CommitGraph.WellFormed;
    StageAllIsOk(r, b, changes);
  }
}
