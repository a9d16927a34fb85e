/**
 Transactions as what they do to the branch store, and the run of one that meets no contention.
 */
module TransactionRuns {
  import opened Results
  import opened CommitGraph
  import opened CommitNames
  import opened ThreeWayMerge
  import opened Storage

  /** Stored objects: the record a transaction keeps on its branch, and everything else. */
  datatype Value =
    | TxnMeta(parent: Option<string>, snapshot: Option<nat>, depth: nat)
    | Data(bytes: string)

  type TxnRepo = Repo<string, Value>
  type Contents = map<string, Value>
  type Changes = map<string, Option<Value>>

  function TxnMetaPath(t: string): string {
    "_txn_meta/" + t
  }

  /** Every transaction has a path of its own. */
  lemma MetaPathsDiffer(t: string, u: string)
    requires t != u
    ensures TxnMetaPath(t) != TxnMetaPath(u)
  {
    assert TxnMetaPath(t)[10..] == t && TxnMetaPath(u)[10..] == u;
  }

  function StageAll(r: TxnRepo, b: string, changes: Changes): TxnRepo
    requires b in r.branches
  {
    r.(branches := r.branches[b := BranchData(r.branches[b].head, r.branches[b].staging + changes)])
  }

  lemma StageAllIsOk(r: TxnRepo, b: string, changes: Changes)
    requires Valid(r) && b in r.branches
    ensures Valid(StageAll(r, b, changes)) && Extends(r, StageAll(r, b, changes))
    ensures BranchState(StageAll(r, b, changes), b) == Overlay(BranchState(r, b), changes)
  {
    SameLookups(BranchState(StageAll(r, b, changes), b), Overlay(BranchState(r, b), changes));
  }

  // -------------------------------------------------------------------------
  // A private region of the history
  // -------------------------------------------------------------------------

  /** The branch is clean, the branch it forked from is still at `fork`, and `region` is all that lies between. */
  ghost predicate Isolated(r: TxnRepo, txn: string, target: string, fork: nat, region: set<nat>)
    requires Valid(r)
  {
    && txn in r.branches && target in r.branches && txn != target && txn != CANONICAL
      && r.branches[txn].staging == map[]
    && r.branches[target] == BranchData(fork, map[])
    && r.branches[txn].head in region && Ancestor(Parents(r.commits), r.branches[txn].head, fork)
    && ForkedFrom(Parents(r.commits), region, fork)
    && forall n :: n in region ==> n in r.commits && fork < n
  }

  lemma {:induction false} WalkExtends(g: Graph, g': Graph, a: nat, x: nat, n: nat)
    requires forall m :: m in g ==> m in g' && g'[m] == g[m]
    requires Walk(g, a, x, n)
    ensures Walk(g', a, x, n)
    decreases n
  {
    if n != 0 {
      var y :| Walk(g, a, y, n - 1) && y in g && x in g[y];
      WalkExtends(g, g', a, y, n - 1);
    }
  }

  lemma ParentsExtend(r: TxnRepo, r': TxnRepo)
    requires Extends(r, r')
    ensures forall m :: m in Parents(r.commits) ==>
      m in Parents(r'.commits) && Parents(r'.commits)[m] == Parents(r.commits)[m]
  {
  }

  lemma AncestorExtends(r: TxnRepo, r': TxnRepo, a: nat, x: nat)
    requires Extends(r, r') && Ancestor(Parents(r.commits), a, x)
    ensures Ancestor(Parents(r'.commits), a, x)
  {
    ParentsExtend(r, r');
    var n: nat :| Walk(Parents(r.commits), a, x, n);
    WalkExtends(Parents(r.commits), Parents(r'.commits), a, x, n);
  }

  /** Whatever happens on other branches, the region stays private. */
  lemma IsolatedElsewhere(r: TxnRepo, r': TxnRepo, txn: string, target: string, fork: nat, region: set<nat>)
    requires Valid(r) && Valid(r') && Extends(r, r') && Isolated(r, txn, target, fork, region)
    requires txn in r'.branches && target in r'.branches && r'.branches[txn] == r.branches[txn]
      && r'.branches[target] == r.branches[target]
    ensures Isolated(r', txn, target, fork, region)
  {
    AncestorExtends(r, r', r.branches[txn].head, fork);
    ParentsExtend(r, r');
    var g, g' := Parents(r.commits), Parents(r'.commits);
    forall n, i | n in region && n in g' && 0 <= i < |g'[n]|
      ensures g'[n][i] in region || g'[n][i] == fork
    {
      assert n in g && g'[n] == g[n];
    }
  }

  /** Two new commits on top of the region belong to it. */
  lemma IsolatedGrows(r: TxnRepo, r': TxnRepo, txn: string, target: string, fork: nat, region: set<nat>,
                      added: set<nat>)
    requires Valid(r) && Valid(r') && Extends(r, r') && Isolated(r, txn, target, fork, region)
    requires txn in r'.branches && target in r'.branches && r'.branches[txn].staging == map[]
      && r'.branches[target] == r.branches[target]
    requires r'.branches[txn].head in added
    requires forall n :: n in added ==> n in r'.commits && r.next <= n
    requires forall n, i :: n in added && 0 <= i < |r'.commits[n].parents| ==>
      r'.commits[n].parents[i] in region + added
    requires r.branches[txn].head in r'.commits[r'.branches[txn].head].parents
    ensures Isolated(r', txn, target, fork, region + added)
  {
    ParentsExtend(r, r');
    var g, g' := Parents(r.commits), Parents(r'.commits);
    var head, head' := r.branches[txn].head, r'.branches[txn].head;
    AncestorExtends(r, r', head, fork);
    var k: nat :| Walk(g', head, fork, k);
    assert g'[head'] == r'.commits[head'].parents;
    assert Walk(g', head', head', 0);
    assert Walk(g', head', head, 1);
    WalkAppend(g', head', head, fork, 1, k);
    forall n, i | n in region + added && n in g' && 0 <= i < |g'[n]|
      ensures g'[n][i] in region + added || g'[n][i] == fork
    {
      if n in added {
        assert g'[n] == r'.commits[n].parents;
      } else {
        assert n in g && g'[n] == g[n];
      }
    }
  }

  /** Merging the transaction back finds its own fork point, and so installs exactly its contents. */
  lemma MergeBackInstalls(r: TxnRepo, txn: string, target: string, fork: nat, region: set<nat>)
    requires Valid(r) && Isolated(r, txn, target, fork, region)
    ensures StatusOf(r, Op<string, Value>.Merge(txn, target)).None? && ConflictsOf(r, txn, target) == {}
    ensures MergedOf(r, txn, target) == BranchState(r, txn)
  {
    var g := Parents(r.commits);
    var head := r.branches[txn].head;
    forall y | Ancestor(g, fork, y)
      ensures y !in region
    {
      var n: nat :| Walk(g, fork, y, n);
      WalkStaysInside(g, fork, y, n);
    }
    ForkPointIsMergeBase(g, region, fork, head);
    MergeBaseUnique(g, head, fork, fork, BaseOf(r, txn, target));
    FastForward(r.commits[fork].objects, r.commits[head].objects);
    CleanBranchState(r, txn);
  }

  // -------------------------------------------------------------------------
  // The steps of a transaction
  // -------------------------------------------------------------------------

  /** What a write stages, given the contents it reads. */
  type WriteFn = Contents -> Changes

  function Written(c: Contents, f: WriteFn): Contents {
    Overlay(c, f(c))
  }

  ghost predicate FreshName(r: TxnRepo, b: string) {
    b !in r.branches && !IsReservedCommitIdName(b)
  }

  /** Fork, stage, commit and merge a child branch, then delete it. */
  ghost function DoWrite(r: TxnRepo, txn: string, child: string, f: WriteFn): (r': TxnRepo)
    requires Valid(r) && txn in r.branches && FreshName(r, child)
    ensures Valid(r')
  {
    var r1 := Apply(r, CreateBranch(child, Some(r.branches[txn].head)));
    ApplyKeepsValid(r, CreateBranch(child, Some(r.branches[txn].head)));
    var changes := f(BranchState(r1, child));
    StageAllIsOk(r1, child, changes);
    var r2 := StageAll(r1, child, changes);
    ApplyKeepsValid(r2, CommitBranch(child));
    var r3 := Apply(r2, CommitBranch(child));
    ApplyKeepsValid(r3, Merge(child, txn));
    var r4 := Apply(r3, Merge(child, txn));
    ApplyKeepsValid(r4, DeleteBranch(child));
    Apply(r4, DeleteBranch(child))
  }

  /** Repository after the child branch has been staged and committed. */
  function ChildCommitted(r: TxnRepo, txn: string, child: string, c: Contents): TxnRepo
    requires txn in r.branches
  {
    var head := r.branches[txn].head;
    Repo(r.commits[r.next := CommitData([head], c)], r.branches[child := BranchData(r.next, map[])], r.next + 1)
  }

  /** And after it has been merged into a target that did not move. */
  function ChildMerged(r: TxnRepo, txn: string, c: Contents): TxnRepo
    requires txn in r.branches
  {
    var head := r.branches[txn].head;
    Repo(r.commits[r.next := CommitData([head], c)][r.next + 1 := CommitData([head, r.next], c)],
         r.branches[txn := BranchData(r.next + 1, map[])], r.next + 2)
  }

  lemma ChildForks(r: TxnRepo, txn: string, child: string, f: WriteFn)
    requires Valid(r) && txn in r.branches && FreshName(r, child) && r.branches[txn].staging == map[]
    ensures
      var r1 := Apply(r, CreateBranch(child, Some(r.branches[txn].head)));
      && Valid(r1) && child in r1.branches && BranchState(r1, child) == BranchState(r, txn)
      && Apply(StageAll(r1, child, f(BranchState(r1, child))), CommitBranch(child)) ==
         ChildCommitted(r, txn, child, Written(BranchState(r, txn), f))
  {
    hide Storage.Valid, Storage.Apply, ThreeWayMerge.Overlay;
    HeadIsCommit(r, txn);
    var head := r.branches[txn].head;
    CreateIs(r, child, head);
    var r1 := Apply(r, CreateBranch(child, Some(head)));
    ApplyKeepsValid(r, CreateBranch(child, Some(head)));
    CleanBranchState(r, txn);
    CleanBranchState(r1, child);
    ChildStagedIs(r, child, head, f(BranchState(r1, child)));
  }

  /** What the child commits is what was staged on it. */
  lemma ChildStagedIs(r: TxnRepo, child: string, head: nat, changes: Changes)
    requires child !in r.branches && head in r.commits
    requires var r1 := r.(branches := r.branches[child := BranchData(head, map[])]); Valid(r1)
    ensures
      var r1 := r.(branches := r.branches[child := BranchData(head, map[])]);
      && Valid(StageAll(r1, child, changes))
      && Apply(StageAll(r1, child, changes), CommitBranch(child)) ==
         Repo(r.commits[r.next := CommitData([head], Overlay(r.commits[head].objects, changes))],
              r.branches[child := BranchData(r.next, map[])], r.next + 1)
  {
    hide Storage.Valid, Storage.Apply, ThreeWayMerge.Overlay;
    var r1 := r.(branches := r.branches[child := BranchData(head, map[])]);
    StageAllIsOk(r1, child, changes);
    CleanBranchState(r1, child);
    CommitIs(StageAll(r1, child, changes), child);
    UpdateTwice(r.branches, child, BranchData(head, map[]), BranchData(head, map[] + changes));
    UpdateTwice(r.branches, child, BranchData(head, map[] + changes), BranchData(r.next, map[]));
  }

  /** A write whose target has not moved merges at once and installs exactly what it staged. */
  lemma WriteInstalls(r: TxnRepo, txn: string, child: string, f: WriteFn)
    requires Valid(r) && txn in r.branches && FreshName(r, child) && r.branches[txn].staging == map[]
    ensures
      var c := Written(BranchState(r, txn), f);
      var r3 := ChildCommitted(r, txn, child, c);
      && Valid(r3) && StatusOf(r3, Op<string, Value>.Merge(child, txn)).None? && ConflictsOf(r3, child, txn) == {}
      && DoWrite(r, txn, child, f) == ChildMerged(r, txn, c)
      && BranchState(DoWrite(r, txn, child, f), txn) == c
  {
    hide Storage.ConflictsOf, Storage.MergedOf, CommitGraph.WellFormed, ThreeWayMerge.Overlay, Written;
    var c := Written(BranchState(r, txn), f);
    ChildForks(r, txn, child, f);
    var r1 := Apply(r, CreateBranch(child, Some(r.branches[txn].head)));
    StageAllIsOk(r1, child, f(BranchState(r1, child)));
    ApplyKeepsValid(StageAll(r1, child, f(BranchState(r1, child))), CommitBranch(child));
    ChildMergeInstalls(r, txn, child, c);
    ApplyKeepsValid(ChildCommitted(r, txn, child, c), Merge(child, txn));
    ChildGoes(r, txn, child, c);
    CleanBranchState(ChildMerged(r, txn, c), txn);
  }

  lemma ChildGoes(r: TxnRepo, txn: string, child: string, c: Contents)
    requires txn in r.branches && FreshName(r, child) && child != CANONICAL
    requires
      var r4 := AddCommit(ChildCommitted(r, txn, child, c), txn, CommitData([r.branches[txn].head, r.next], c));
      Valid(r4)
    ensures
      var r4 := AddCommit(ChildCommitted(r, txn, child, c), txn, CommitData([r.branches[txn].head, r.next], c));
      Apply(r4, DeleteBranch(child)) == ChildMerged(r, txn, c)
  {
    hide Storage.Valid;
    AddThenRemove(r.branches, child, BranchData(r.next, map[]), txn, BranchData(r.next + 1, map[]));
  }

  lemma AddThenRemove<K, V>(m: map<K, V>, k: K, v: V, j: K, w: V)
    requires k !in m && j in m
    ensures m[k := v][j := w] - {k} == m[j := w]
  {
  }

  lemma ChildMergeInstalls(r: TxnRepo, txn: string, child: string, c: Contents)
    requires Valid(r) && txn in r.branches && FreshName(r, child) && r.branches[txn].staging == map[]
    requires Valid(ChildCommitted(r, txn, child, c))
    ensures
      var r3 := ChildCommitted(r, txn, child, c);
      && StatusOf(r3, Op<string, Value>.Merge(child, txn)).None? && ConflictsOf(r3, child, txn) == {}
      && Apply(r3, Merge(child, txn)) == AddCommit(r3, txn, CommitData([r.branches[txn].head, r.next], c))
  {
    var r3 := ChildCommitted(r, txn, child, c);
    var g, head := Parents(r3.commits), r.branches[txn].head;
    assert g[r.next] == [head];
    ParentIsMergeBase(g, head, r.next);
    MergeBaseSymmetric(g, head, r.next, head);
    MergeBaseUnique(g, r.next, head, head, BaseOf(r3, child, txn));
    FastForward(r3.commits[head].objects, c);
  }

  /** Fork from a commit and record the transaction on the new branch. */
  ghost function BeginAt(r: TxnRepo, txn: string, base: nat, meta: Value): (r': TxnRepo)
    requires Valid(r) && FreshName(r, txn) && base in r.commits
    ensures Valid(r')
  {
    var r1 := Apply(r, CreateBranch(txn, Some(base)));
    ApplyKeepsValid(r, CreateBranch(txn, Some(base)));
    var r2 := Apply(r1, Stage(txn, TxnMetaPath(txn), Some(meta)));
    ApplyKeepsValid(r1, Stage(txn, TxnMetaPath(txn), Some(meta)));
    ApplyKeepsValid(r2, CommitBranch(txn));
    Apply(r2, CommitBranch(txn))
  }

  /** Fork from the head of the branch that the transaction will merge back into. */
  ghost function Begin(r: TxnRepo, txn: string, target: string, meta: Value): (r': TxnRepo)
    requires Valid(r) && FreshName(r, txn) && target in r.branches
    ensures Valid(r')
  {
    BeginAt(r, txn, r.branches[target].head, meta)
  }

  /** Take the record off the branch again. */
  ghost function Cleaned(r: TxnRepo, txn: string): (r': TxnRepo)
    requires Valid(r)
    ensures Valid(r')
  {
    ApplyKeepsValid(r, Stage(txn, TxnMetaPath(txn), None));
    var r1 := Apply(r, Stage(txn, TxnMetaPath(txn), None));
    ApplyKeepsValid(r1, CommitBranch(txn));
    Apply(r1, CommitBranch(txn))
  }

  ghost function Finish(r: TxnRepo, txn: string, target: string): (r': TxnRepo)
    requires Valid(r)
    ensures Valid(r')
  {
    var r1 := Cleaned(r, txn);
    ApplyKeepsValid(r1, Merge(txn, target));
    var r2 := Apply(r1, Merge(txn, target));
    ApplyKeepsValid(r2, DeleteBranch(txn));
    Apply(r2, DeleteBranch(txn))
  }

  lemma BeginIsolates(r: TxnRepo, txn: string, target: string, meta: Value)
    requires Valid(r) && FreshName(r, txn) && target in r.branches && r.branches[target].staging == map[]
    ensures
      var r' := Begin(r, txn, target, meta);
      && Isolated(r', txn, target, r.branches[target].head, {r.next})
      && BranchState(r', txn) == BranchState(r, target)[TxnMetaPath(txn) := meta]
      && BranchState(r', target) == BranchState(r, target)
  {
    var r', fork := Begin(r, txn, target, meta), r.branches[target].head;
    BeginIs(r, txn, fork, meta);
    CleanBranchState(r, target);
    CleanBranchState(r', target);
    CleanBranchState(r', txn);
    var g := Parents(r'.commits);
    assert g[r.next] == [fork];
    assert Walk(g, r.next, r.next, 0);
    assert Walk(g, r.next, fork, 1);
  }

  lemma BeginIs(r: TxnRepo, txn: string, base: nat, meta: Value)
    requires Valid(r) && FreshName(r, txn) && base in r.commits
    ensures BeginAt(r, txn, base, meta) ==
            AddCommit(r, txn, CommitData([base], r.commits[base].objects[TxnMetaPath(txn) := meta]))
  {
    hide Storage.Valid, Storage.Apply, ThreeWayMerge.Overlay;
    var p := TxnMetaPath(txn);
    CreateIs(r, txn, base);
    ApplyKeepsValid(r, CreateBranch(txn, Some(base)));
    var r1 := Apply(r, CreateBranch(txn, Some(base)));
    StageIs(r1, txn, p, Some(meta));
    ApplyKeepsValid(r1, Stage(txn, p, Some(meta)));
    var r2 := Apply(r1, Stage(txn, p, Some(meta)));
    CommitIs(r2, txn);
    OverlayOne(r.commits[base].objects, p, meta);
    UpdateTwice(r.branches, txn, BranchData(base, map[]), BranchData(base, map[p := Some(meta)]));
    UpdateTwice(r.branches, txn, BranchData(base, map[p := Some(meta)]), BranchData(r.next, map[]));
  }

  lemma OverlayOne(c: Contents, p: string, v: Value)
    ensures Overlay(c, map[p := Some(v)]) == c[p := v]
  {
    SameLookups(Overlay(c, map[p := Some(v)]), c[p := v]);
  }

  lemma StagedRemoval(c: Contents, staging: map<string, Option<Value>>, p: string)
    ensures Overlay(c, staging[p := None]) == Overlay(c, staging) - {p}
  {
    SameLookups(Overlay(c, staging[p := None]), Overlay(c, staging) - {p});
  }

  lemma CleanedIs(r: TxnRepo, txn: string)
    requires Valid(r) && txn in r.branches
    ensures Cleaned(r, txn) ==
            AddCommit(r, txn, CommitData([r.branches[txn].head], BranchState(r, txn) - {TxnMetaPath(txn)}))
  {
    hide Storage.Valid, Storage.Apply, ThreeWayMerge.Overlay;
    HeadIsCommit(r, txn);
    var p, b := TxnMetaPath(txn), r.branches[txn];
    StageIs(r, txn, p, None);
    ApplyKeepsValid(r, Stage(txn, p, None));
    CommitIs(Apply(r, Stage(txn, p, None)), txn);
    StagedRemoval(r.commits[b.head].objects, b.staging, p);
    UpdateTwice(r.branches, txn, BranchData(b.head, b.staging[p := None]), BranchData(r.next, map[]));
  }

  lemma CleanedIsolated(r: TxnRepo, txn: string, target: string, fork: nat, region: set<nat>)
    requires Valid(r) && Isolated(r, txn, target, fork, region)
    ensures Isolated(Cleaned(r, txn), txn, target, fork, region + {r.next})
    ensures BranchState(Cleaned(r, txn), txn) == BranchState(r, txn) - {TxnMetaPath(txn)}
  {
    hide CommitGraph.WellFormed, Cleaned;
    var r' := Cleaned(r, txn);
    CleanedIs(r, txn);
    assert r'.commits[r.next].parents == [r.branches[txn].head];
    IsolatedGrows(r, r', txn, target, fork, region, {r.next});
    CleanBranchState(r', txn);
  }

  // -------------------------------------------------------------------------
  // Runs without contention
  // -------------------------------------------------------------------------

  /** One of the transaction's own writes, or anything at all on other branches. */
  datatype TxnStep = Own(child: string, f: WriteFn) | Elsewhere(op: Op<string, Value>)

  ghost predicate TxnRun(r: TxnRepo, txn: string, target: string, steps: seq<TxnStep>, r': TxnRepo)
    requires Valid(r) && txn in r.branches
    decreases |steps|
  {
    if steps == [] then r' == r
    else
      match steps[0]
      case Own(child, f) =>
        FreshName(r, child) && txn in DoWrite(r, txn, child, f).branches
          && TxnRun(DoWrite(r, txn, child, f), txn, target, steps[1..], r')
      case Elsewhere(op) =>
        ApplyKeepsValid(r, op);
        var r1 := Apply(r, op);
        && txn in r1.branches && target in r1.branches && target in r.branches && r1.branches[txn] == r.branches[txn]
          && r1.branches[target] == r.branches[target]
        && TxnRun(r1, txn, target, steps[1..], r')
  }

  /** The transaction's own writes, one after the other. */
  function Composed(c: Contents, steps: seq<TxnStep>): Contents
    decreases |steps|
  {
    if steps == [] then c
    else if steps[0].Own? then Composed(Written(c, steps[0].f), steps[1..])
    else Composed(c, steps[1..])
  }

  lemma {:induction false} RunStaysIsolated(r: TxnRepo, txn: string, target: string, steps: seq<TxnStep>, r': TxnRepo,
                                            fork: nat, region: set<nat>)
    returns (region': set<nat>)
    requires Valid(r) && txn in r.branches && Isolated(r, txn, target, fork, region)
      && TxnRun(r, txn, target, steps, r')
    ensures Valid(r') && txn in r'.branches && Isolated(r', txn, target, fork, region')
    ensures BranchState(r', txn) == Composed(BranchState(r, txn), steps)
    decreases |steps|
  {
    hide Isolated, DoWrite, Written, Storage.Apply, Storage.Valid;
    region' := region;
    if steps != [] {
      match steps[0]
      case Own(child, f) =>
        OwnStep(r, txn, target, child, f, fork, region);
        region' := RunStaysIsolated(DoWrite(r, txn, child, f), txn, target, steps[1..], r', fork,
                                    region + {r.next, r.next + 1});
      case Elsewhere(op) =>
        ApplyKeepsValid(r, op);
        ApplyExtends(r, op);
        IsolatedElsewhere(r, Apply(r, op), txn, target, fork, region);
        SameBranchState(r, Apply(r, op), txn);
        region' := RunStaysIsolated(Apply(r, op), txn, target, steps[1..], r', fork, region);
    }
  }

  lemma OwnStep(r: TxnRepo, txn: string, target: string, child: string, f: WriteFn, fork: nat, region: set<nat>)
    requires Valid(r) && Isolated(r, txn, target, fork, region) && FreshName(r, child)
    ensures txn in DoWrite(r, txn, child, f).branches
    ensures Isolated(DoWrite(r, txn, child, f), txn, target, fork, region + {r.next, r.next + 1})
    ensures BranchState(DoWrite(r, txn, child, f), txn) == Written(BranchState(r, txn), f)
  {
    hide DoWrite, Written, Storage.BranchState, CommitGraph.WellFormed, CommitGraph.ForkedFrom, CommitGraph.Ancestor;
    WriteInstalls(r, txn, child, f);
    ChildMergedIsolated(r, txn, target, Written(BranchState(r, txn), f), fork, region);
  }

  lemma ChildMergedIsolated(r: TxnRepo, txn: string, target: string, c: Contents, fork: nat, region: set<nat>)
    requires Valid(r) && Isolated(r, txn, target, fork, region) && Valid(ChildMerged(r, txn, c))
    ensures Isolated(ChildMerged(r, txn, c), txn, target, fork, region + {r.next, r.next + 1})
  {
    hide CommitGraph.WellFormed, CommitGraph.ForkedFrom, CommitGraph.Ancestor;
    var r', head := ChildMerged(r, txn, c), r.branches[txn].head;
    assert r'.commits[r.next].parents == [head] && r'.commits[r.next + 1].parents == [head, r.next];
    assert r'.commits[r.next + 1].parents[0] == head;
    IsolatedGrows(r, r', txn, target, fork, region, {r.next, r.next + 1});
  }

  /**
   A transaction during which its target (the canonical branch, or the parent transaction) does not
   move is the sequential composition of its writes. Each write merges at its first attempt;
   committing meets no conflict and leaves the target with exactly what the writes made of it,
   without the transaction's own record.
   */
  lemma UncontendedTransaction(r: TxnRepo, txn: string, target: string, meta: Value, steps: seq<TxnStep>, r': TxnRepo)
    requires Valid(r) && FreshName(r, txn) && target in r.branches && r.branches[target].staging == map[]
    requires txn in Begin(r, txn, target, meta).branches && TxnRun(Begin(r, txn, target, meta), txn, target, steps, r')
    ensures Valid(r') && txn in r'.branches && txn in Cleaned(r', txn).branches
    ensures target in Cleaned(r', txn).branches && ConflictsOf(Cleaned(r', txn), txn, target) == {}
    ensures target in Finish(r', txn, target).branches
    ensures BranchState(Finish(r', txn, target), target) ==
            Composed(BranchState(r, target)[TxnMetaPath(txn) := meta], steps) - {TxnMetaPath(txn)}
    ensures txn !in Finish(r', txn, target).branches
  {
    hide Begin, Cleaned, Finish, TxnRun, Storage.BranchState, CommitGraph.WellFormed;
    var fork := r.branches[target].head;
    BeginIsolates(r, txn, target, meta);
    var region := RunStaysIsolated(Begin(r, txn, target, meta), txn, target, steps, r', fork, {r.next});
    CleanedIsolated(r', txn, target, fork, region);
    FinishInstalls(r', txn, target, fork, region + {r'.next});
  }

  lemma FinishInstalls(r: TxnRepo, txn: string, target: string, fork: nat, region: set<nat>)
    requires Valid(r) && Isolated(Cleaned(r, txn), txn, target, fork, region)
    ensures ConflictsOf(Cleaned(r, txn), txn, target) == {}
    ensures target in Finish(r, txn, target).branches
    ensures BranchState(Finish(r, txn, target), target) == BranchState(Cleaned(r, txn), txn)
    ensures txn !in Finish(r, txn, target).branches
  {
    hide Cleaned, Storage.ConflictsOf, Storage.MergedOf, CommitGraph.WellFormed;
    MergeBackInstalls(Cleaned(r, txn), txn, target, fork, region);
    CleanBranchState(Finish(r, txn, target), target);
  }

  // -------------------------------------------------------------------------
  // A transaction with a single write of its own
  // -------------------------------------------------------------------------

  /** Begin at a commit, then stage and commit some changes. */
  ghost function StartedAt(r: TxnRepo, txn: string, base: nat, meta: Value, changes: Changes): (r': TxnRepo)
    requires Valid(r) && FreshName(r, txn) && base in r.commits
    ensures Valid(r') && txn in r'.branches
  {
    var r1 := BeginAt(r, txn, base, meta);
    BeginIs(r, txn, base, meta);
    StageAllIsOk(r1, txn, changes);
    ApplyKeepsValid(StageAll(r1, txn, changes), CommitBranch(txn));
    CommitIs(StageAll(r1, txn, changes), txn);
    Apply(StageAll(r1, txn, changes), CommitBranch(txn))
  }

  lemma StartedIs(r: TxnRepo, txn: string, base: nat, meta: Value, changes: Changes)
    requires Valid(r) && FreshName(r, txn) && base in r.commits
    ensures
      var r1 := BeginAt(r, txn, base, meta);
      && txn in r1.branches && r1.branches[txn].head in r1.commits && r1.branches[txn].staging == map[]
      && StartedAt(r, txn, base, meta, changes) ==
         AddCommit(r1, txn, CommitData([r1.branches[txn].head], Overlay(BranchState(r1, txn), changes)))
  {
    hide Storage.Valid, Storage.Apply, ThreeWayMerge.Overlay, BeginAt;
    BeginIs(r, txn, base, meta);
    var r1 := BeginAt(r, txn, base, meta);
    HeadIsCommit(r1, txn);
    var head := r1.branches[txn].head;
    StageAllIsOk(r1, txn, changes);
    CleanBranchState(r1, txn);
    CommitIs(StageAll(r1, txn, changes), txn);
    UpdateTwice(r1.branches, txn, BranchData(head, map[] + changes), BranchData(r1.next, map[]));
  }

  /** Begun at the head of a clean target that does not move, its changes are exactly what the target gains. */
  lemma SingleWriteInstalls(r: TxnRepo, txn: string, target: string, meta: Value, changes: Changes)
    requires Valid(r) && FreshName(r, txn) && target in r.branches && r.branches[target].staging == map[]
    requires r.branches[target].head in r.commits
    ensures
      var started := StartedAt(r, txn, r.branches[target].head, meta, changes);
      && txn in Cleaned(started, txn).branches && target in Cleaned(started, txn).branches
      && StatusOf(Cleaned(started, txn), Op<string, Value>.Merge(txn, target)).None?
      && ConflictsOf(Cleaned(started, txn), txn, target) == {}
      && target in Finish(started, txn, target).branches
      && BranchState(Finish(started, txn, target), target) ==
         Overlay(BranchState(r, target)[TxnMetaPath(txn) := meta], changes) - {TxnMetaPath(txn)}
  {
    hide Storage.Valid, Storage.Apply, ThreeWayMerge.Overlay, Storage.ConflictsOf;
    hide Begin, BeginAt, Cleaned, Finish, StartedAt, Isolated;
    var fork := r.branches[target].head;
    BeginIsolates(r, txn, target, meta);
    BeginIsAt(r, txn, target, meta);
    StartedIs(r, txn, fork, meta, changes);
    var r1, started := BeginAt(r, txn, fork, meta), StartedAt(r, txn, fork, meta, changes);
    StartedIsolated(r1, started, txn, target, fork, {r.next}, Overlay(BranchState(r1, txn), changes));
    CleanedIsolated(started, txn, target, fork, {r.next} + {r1.next});
    var region := {r.next} + {r1.next} + {started.next};
    MergeBackInstalls(Cleaned(started, txn), txn, target, fork, region);
    FinishInstalls(started, txn, target, fork, region);
    HeadIsCommit(started, txn);
    CleanBranchState(started, txn);
    InBranches(Cleaned(started, txn), txn, target, fork, region);
  }

  lemma InBranches(r: TxnRepo, txn: string, target: string, fork: nat, region: set<nat>)
    requires Valid(r) && Isolated(r, txn, target, fork, region)
    ensures txn in r.branches && target in r.branches
  {
  }

  lemma BeginIsAt(r: TxnRepo, txn: string, target: string, meta: Value)
    requires Valid(r) && FreshName(r, txn) && target in r.branches && r.branches[target].head in r.commits
    ensures Begin(r, txn, target, meta) == BeginAt(r, txn, r.branches[target].head, meta)
  {
    hide Storage.Valid, BeginAt;
  }

  lemma StartedIsolated(r1: TxnRepo, started: TxnRepo, txn: string, target: string, fork: nat, region: set<nat>,
                        c: Contents)
    requires Valid(r1) && Valid(started) && Isolated(r1, txn, target, fork, region)
    requires started == AddCommit(r1, txn, CommitData([r1.branches[txn].head], c))
    ensures Isolated(started, txn, target, fork, region + {r1.next})
    ensures started.branches[txn].staging == map[] && started.commits[started.branches[txn].head].objects == c
  {
    hide CommitGraph.WellFormed, CommitGraph.ForkedFrom, CommitGraph.Ancestor;
    assert started.commits[r1.next].parents == [r1.branches[txn].head];
    IsolatedGrows(r1, started, txn, target, fork, region, {r1.next});
  }
}
