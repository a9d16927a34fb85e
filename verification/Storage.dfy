/**
 The versioned branch store: commits, branches with staging areas, and merges between them,
 as a state machine over repository values.
 */
module Storage {
  import opened Results
  import opened CommitGraph
  import opened CommitNames
  import opened ThreeWayMerge

  const CANONICAL := "main"

  datatype CommitData<P, V> = CommitData(parents: seq<nat>, objects: map<P, V>)

  datatype BranchData<P, V> = BranchData(head: nat, staging: map<P, Option<V>>)

  datatype Repo<P, V> = Repo(commits: map<nat, CommitData<P, V>>, branches: map<string, BranchData<P, V>>, next: nat)

  function Init<P, V>(): Repo<P, V> {
    Repo(map[0 := CommitData([], map[])], map[CANONICAL := BranchData(0, map[])], 1)
  }

  function Parents<P, V>(commits: map<nat, CommitData<P, V>>): Graph {
    map n | n in commits :: commits[n].parents
  }

  ghost predicate Valid<P, V>(r: Repo<P, V>) {
    && WellFormed(Parents(r.commits))
    && (forall n: nat :: n in r.commits <==> n < r.next)
    && CANONICAL in r.branches
    && (forall b :: b in r.branches ==> r.branches[b].head in r.commits && !IsReservedCommitIdName(b))
  }

  /** The contents visible on a branch: its head commit under its staged changes. */
  function BranchState<P, V>(r: Repo<P, V>, b: string): map<P, V>
    requires b in r.branches && r.branches[b].head in r.commits
  {
    Overlay(r.commits[r.branches[b].head].objects, r.branches[b].staging)
  }

  /** The commit a reference names, if it names one. */
  function CommitNamed<P, V>(r: Repo<P, V>, ref: string): Option<nat> {
    if IsReservedCommitIdName(ref) then
      var digits := ref[|PREFIX|..];
      assert forall i :: 0 <= i < |digits| ==> digits[i] == ref[|PREFIX| + i];
      var n := ParseDecimal(digits);
      if CommitName(n) == ref && n in r.commits then Some(n) else None
    else None
  }

  /** A reference is a branch name first and a commit name second. */
  function RefState<P, V>(r: Repo<P, V>, ref: string): Result<map<P, V>> {
    if ref in r.branches then
      if r.branches[ref].head !in r.commits then Err(Internal) else Ok(BranchState(r, ref))
    else
      match CommitNamed(r, ref)
      case Some(n) => Ok(r.commits[n].objects)
      case None => Err(NotFound)
  }

  // -------------------------------------------------------------------------
  // Operations
  // -------------------------------------------------------------------------

  datatype Op<P, V> =
    | CreateBranch(name: string, base: Option<nat>)
    | DeleteBranch(name: string)
    | Stage(branch: string, path: P, change: Option<V>)
    | CommitBranch(branch: string)
    | Merge(source: string, target: string)

  function StatusOf<P, V>(r: Repo<P, V>, op: Op<P, V>): Option<Status> {
    match op
    case CreateBranch(name, base) =>
      if name in r.branches then Some(AlreadyExists)
      else if IsReservedCommitIdName(name) then Some(InvalidArgument)
      else if base.None? && CANONICAL !in r.branches then Some(Internal)
      else if (if base.None? then r.branches[CANONICAL].head else base.value) !in r.commits then Some(NotFound)
      else None
    case DeleteBranch(name) =>
      if name == CANONICAL then Some(FailedPrecondition)
      else if name !in r.branches then Some(NotFound)
      else None
    case Stage(b, _, _) => if b in r.branches then None else Some(NotFound)
    case CommitBranch(b) => if b in r.branches then None else Some(NotFound)
    case Merge(s, t) =>
      if s == t then Some(InvalidArgument)
      else if s !in r.branches || t !in r.branches then Some(NotFound)
      else if r.branches[s].staging != map[] || r.branches[t].staging != map[] then Some(FailedPrecondition)
      else None
  }

  ghost function BaseOf<P, V>(r: Repo<P, V>, s: string, t: string): (n: nat)
    requires Valid(r) && s in r.branches && t in r.branches
    ensures n in r.commits
  {
    MergeBase(Parents(r.commits), r.branches[s].head, r.branches[t].head)
  }

  ghost function ConflictsOf<P, V>(r: Repo<P, V>, s: string, t: string): set<P>
    requires Valid(r) && s in r.branches && t in r.branches
  {
    ConflictPaths(r.commits[BaseOf(r, s, t)].objects, r.commits[r.branches[s].head].objects,
                  r.commits[r.branches[t].head].objects)
  }

  ghost function MergedOf<P, V>(r: Repo<P, V>, s: string, t: string): map<P, V>
    requires Valid(r) && s in r.branches && t in r.branches
  {
    Merged(r.commits[BaseOf(r, s, t)].objects, r.commits[r.branches[s].head].objects,
           r.commits[r.branches[t].head].objects)
  }

  function AddCommit<P, V>(r: Repo<P, V>, b: string, c: CommitData<P, V>): Repo<P, V> {
    Repo(r.commits[r.next := c], r.branches[b := BranchData(r.next, map[])], r.next + 1)
  }

  /** The repository after an operation; an operation that reports an error changes nothing. */
  ghost function Apply<P, V>(r: Repo<P, V>, op: Op<P, V>): Repo<P, V>
    requires Valid(r)
  {
    if StatusOf(r, op).Some? then r
    else
      match op
      case CreateBranch(name, base) =>
        var head := if base.None? then r.branches[CANONICAL].head else base.value;
        r.(branches := r.branches[name := BranchData(head, map[])])
      case DeleteBranch(name) => r.(branches := r.branches - {name})
      case Stage(b, p, change) =>
        var br := r.branches[b];
        r.(branches := r.branches[b := BranchData(br.head, br.staging[p := change])])
      case CommitBranch(b) => AddCommit(r, b, CommitData([r.branches[b].head], BranchState(r, b)))
      case Merge(s, t) =>
        if ConflictsOf(r, s, t) != {} then r
        else AddCommit(r, t, CommitData([r.branches[t].head, r.branches[s].head], MergedOf(r, s, t)))
  }

  ghost function Run<P, V>(r: Repo<P, V>, ops: seq<Op<P, V>>): Repo<P, V>
    requires Valid(r)
    decreases |ops|
  {
    if ops == [] then r
    else
      ApplyKeepsValid(r, ops[0]);
      Run(Apply(r, ops[0]), ops[1..])
  }

  // -------------------------------------------------------------------------
  // Safety over all runs
  // -------------------------------------------------------------------------

  lemma AddCommitKeepsValid<P, V>(r: Repo<P, V>, b: string, c: CommitData<P, V>)
    requires Valid(r) && b in r.branches
    requires c.parents != [] && forall i :: 0 <= i < |c.parents| ==> c.parents[i] in r.commits
    ensures Valid(AddCommit(r, b, c))
  {
    var g, g' := Parents(r.commits), Parents(AddCommit(r, b, c).commits);
    forall n, i | n in g' && 0 <= i < |g'[n]|
      ensures g'[n][i] in g' && g'[n][i] < n
    {
      if n != r.next {
        assert n in g && g[n] == g'[n];
      }
    }
    forall n | n in g' && n != 0
      ensures g'[n] != []
    {
      if n != r.next {
        assert n in g && g[n] == g'[n];
      }
    }
  }

  lemma ApplyKeepsValid<P, V>(r: Repo<P, V>, op: Op<P, V>)
    requires Valid(r)
    ensures Valid(Apply(r, op))
  {
    if StatusOf(r, op).None? {
      match op
      case CommitBranch(b) =>
        AddCommitKeepsValid(r, b, CommitData([r.branches[b].head], BranchState(r, b)));
      case Merge(s, t) =>
        if ConflictsOf(r, s, t) == {} {
          AddCommitKeepsValid(r, t, CommitData([r.branches[t].head, r.branches[s].head], MergedOf(r, s, t)));
        }
      case _ =>
    }
  }

  lemma InitIsValid<P, V>()
    ensures Valid(Init<P, V>())
  {
    var r := Init<P, V>();
    assert forall n :: n in Parents(r.commits) ==> n == 0 && Parents(r.commits)[n] == [];
  }

  /** Commits are never removed or rewritten. */
  ghost predicate Extends<P, V>(r: Repo<P, V>, r': Repo<P, V>) {
    && r.next <= r'.next
    && forall n :: n in r.commits ==> n in r'.commits && r'.commits[n] == r.commits[n]
  }

  lemma ApplyExtends<P, V>(r: Repo<P, V>, op: Op<P, V>)
    requires Valid(r)
    ensures Extends(r, Apply(r, op))
  {
  }

  /**
   Over every run, from any valid repository: the repository stays valid, so the history stays
   acyclic and every merge has a base; every commit keeps its contents and parents; and a commit
   name keeps meaning that commit, never a branch.
   */
  lemma {:induction false} SnapshotsAreFrozen<P, V>(r: Repo<P, V>, ops: seq<Op<P, V>>)
    requires Valid(r)
    ensures Valid(Run(r, ops)) && Extends(r, Run(r, ops))
    ensures forall n :: n in r.commits ==> RefState(Run(r, ops), CommitName(n)) == Ok(r.commits[n].objects)
    decreases |ops|
  {
    var r' := Run(r, ops);
    if ops != [] {
      ApplyKeepsValid(r, ops[0]);
      ApplyExtends(r, ops[0]);
      SnapshotsAreFrozen(Apply(r, ops[0]), ops[1..]);
    }
    forall n | n in r.commits
      ensures RefState(r', CommitName(n)) == Ok(r.commits[n].objects)
    {
      NameResolves(r', n);
    }
  }

  lemma NameResolves<P, V>(r: Repo<P, V>, n: nat)
    requires Valid(r) && n in r.commits
    ensures CommitName(n) !in r.branches && RefState(r, CommitName(n)) == Ok(r.commits[n].objects)
  {
    NameIsReserved(n);
    assert CommitName(n)[|PREFIX|..] == Decimal(n);
    ParseInvertsDecimal(n);
  }

  // -------------------------------------------------------------------------
  // Merging again
  // -------------------------------------------------------------------------

  /** A parent is always the merge base of its child and itself. */
  lemma ParentIsMergeBase(g: Graph, parent: nat, child: nat)
    requires WellFormed(g) && child in g && parent in g[child]
    ensures IsMergeBase(g, parent, child, parent)
  {
    assert Walk(g, child, child, 0);
    assert Walk(g, child, parent, 1);
    assert Walk(g, parent, parent, 0);
    var i :| 0 <= i < |g[child]| && g[child][i] == parent;
    assert IsDist(g, child, parent, 1);
    DistIs(g, child, parent, 1);
    DistIs(g, parent, parent, 0);
    forall y | Common(g, parent, child, y) && y != parent
      ensures Beats(g, parent, child, parent, y)
    {
      WalkStaysInside(g, parent, y, Dist(g, parent, y));
      assert y != child;
      assert Dist(g, parent, y) != 0 && Dist(g, child, y) != 0;
    }
  }

  /** After a successful merge, merging the same source again succeeds and changes no contents. */
  lemma RemergeChangesNothing<P(!new), V>(r: Repo<P, V>, s: string, t: string)
    requires Valid(r) && StatusOf(r, Merge(s, t)).None? && ConflictsOf(r, s, t) == {}
    ensures
      var r1 := Apply(r, Merge(s, t));
      && Valid(r1) && StatusOf(r1, Merge(s, t)).None? && ConflictsOf(r1, s, t) == {}
      && BranchState(r1, t) == MergedOf(r, s, t)
      && BranchState(Apply(r1, Merge(s, t)), t) == BranchState(r1, t)
  {
    ApplyKeepsValid(r, Merge(s, t));
    var r1 := Apply(r, Merge(s, t));
    SourceIsBaseAfterMerge(r, s, t);
    NothingToMerge(r1.commits[r1.branches[s].head].objects, r1.commits[r1.branches[t].head].objects);
    CleanBranchState(r1, t);
    CleanBranchState(Apply(r1, Merge(s, t)), t);
  }

  lemma SourceIsBaseAfterMerge<P, V>(r: Repo<P, V>, s: string, t: string)
    requires Valid(r) && StatusOf(r, Merge(s, t)).None? && ConflictsOf(r, s, t) == {}
    requires Valid(Apply(r, Merge(s, t)))
    ensures BaseOf(Apply(r, Merge(s, t)), s, t) == r.branches[s].head
  {
    var r1 := Apply(r, Merge(s, t));
    var g := Parents(r1.commits);
    var sh, th := r1.branches[s].head, r1.branches[t].head;
    assert g[th] == [r.branches[t].head, sh];
    assert g[th][1] == sh;
    ParentIsMergeBase(g, sh, th);
    MergeBaseUnique(g, sh, th, sh, BaseOf(r1, s, t));
  }

  lemma CleanBranchState<P, V>(r: Repo<P, V>, b: string)
    requires b in r.branches && r.branches[b].head in r.commits && r.branches[b].staging == map[]
    ensures BranchState(r, b) == r.commits[r.branches[b].head].objects
  {
  }

  /** Contents follow from the branch's own data as long as commits are only added. */
  lemma SameBranchState<P, V>(r: Repo<P, V>, r': Repo<P, V>, b: string)
    requires Valid(r) && b in r.branches && b in r'.branches && r'.branches[b] == r.branches[b] && Extends(r, r')
    ensures BranchState(r', b) == BranchState(r, b)
  {
  }

  // -------------------------------------------------------------------------
  // Operations that succeed, spelled out
  // -------------------------------------------------------------------------

  lemma HeadIsCommit<P, V>(r: Repo<P, V>, b: string)
    requires Valid(r) && b in r.branches
    ensures r.branches[b].head in r.commits
  {
  }

  /** A branch name shows the branch with its staged changes; other names show commits, or nothing. */
  lemma RefsAre<P, V>(r: Repo<P, V>, ref: string, p: P)
    requires Valid(r)
    ensures ref in r.branches ==>
      && RefState(r, ref).Ok?
      && Lookup(RefState(r, ref).value, p) ==
         (if p in r.branches[ref].staging then r.branches[ref].staging[p]
          else Lookup(r.commits[r.branches[ref].head].objects, p))
    ensures ref !in r.branches && (forall n: nat :: n in r.commits ==> ref != CommitName(n)) ==>
      RefState(r, ref) == Err(NotFound)
  {
    hide CommitGraph.WellFormed;
    if ref in r.branches {
      OverlayAt(r.commits[r.branches[ref].head].objects, r.branches[ref].staging, p);
    }
  }

  lemma CreateIs<P, V>(r: Repo<P, V>, name: string, base: nat)
    requires Valid(r) && name !in r.branches && !IsReservedCommitIdName(name) && base in r.commits
    ensures Apply(r, CreateBranch(name, Some(base))) == r.(branches := r.branches[name := BranchData(base, map[])])
  {
    hide CommitGraph.WellFormed;
  }

  /** Without a base, a branch starts at the head of the canonical branch and shows that commit. */
  lemma CreateFromCanonical<P, V>(r: Repo<P, V>, name: string)
    requires Valid(r) && name !in r.branches && !IsReservedCommitIdName(name)
    ensures
      var head := r.branches[CANONICAL].head;
      var r' := Apply(r, CreateBranch(name, None));
      && r' == r.(branches := r.branches[name := BranchData(head, map[])])
      && BranchState(r', name) == r.commits[head].objects
  {
    hide CommitGraph.WellFormed;
    CleanBranchState(Apply(r, CreateBranch(name, None)), name);
  }

  lemma DeleteIs<P, V>(r: Repo<P, V>, name: string)
    requires Valid(r) && name in r.branches && name != CANONICAL
    ensures Apply(r, DeleteBranch(name)) == r.(branches := r.branches - {name})
  {
    hide CommitGraph.WellFormed;
  }

  /** A merge of clean branches without conflicts adds one commit, with both heads as parents. */
  lemma MergeIs<P, V>(r: Repo<P, V>, s: string, t: string)
    requires Valid(r) && s in r.branches && t in r.branches && s != t
    requires r.branches[s].staging == map[] && r.branches[t].staging == map[]
    ensures Apply(r, Merge(s, t)) ==
            if ConflictsOf(r, s, t) != {} then r
            else AddCommit(r, t, CommitData([r.branches[t].head, r.branches[s].head], MergedOf(r, s, t)))
  {
    hide CommitGraph.WellFormed, ConflictsOf, MergedOf;
  }

  /** When each operation is refused, and how. */
  lemma Refusals<P, V>(r: Repo<P, V>, b: string, b': string, base: nat, p: P, change: Option<V>)
    requires Valid(r)
    ensures b in r.branches ==> StatusOf(r, Op<P, V>.CreateBranch(b, Some(base))) == Some(AlreadyExists)
    ensures b !in r.branches && IsReservedCommitIdName(b) ==>
      StatusOf(r, Op<P, V>.CreateBranch(b, Some(base))) == Some(InvalidArgument)
    ensures b !in r.branches && !IsReservedCommitIdName(b) ==>
      StatusOf(r, Op<P, V>.CreateBranch(b, Some(base))) == if base in r.commits then None else Some(NotFound)
    ensures StatusOf(r, Op<P, V>.DeleteBranch(CANONICAL)) == Some(FailedPrecondition)
    ensures b != CANONICAL ==>
      StatusOf(r, Op<P, V>.DeleteBranch(b)) == if b in r.branches then None else Some(NotFound)
    ensures StatusOf(r, Stage(b, p, change)) == if b in r.branches then None else Some(NotFound)
    ensures StatusOf(r, Op<P, V>.CommitBranch(b)) == if b in r.branches then None else Some(NotFound)
    ensures StatusOf(r, Op<P, V>.Merge(b, b)) == Some(InvalidArgument)
    ensures b != b' && (b !in r.branches || b' !in r.branches) ==>
      StatusOf(r, Op<P, V>.Merge(b, b')) == Some(NotFound)
    ensures b != b' && b in r.branches && b' in r.branches ==>
      StatusOf(r, Op<P, V>.Merge(b, b')) ==
      if r.branches[b].staging == map[] && r.branches[b'].staging == map[] then None else Some(FailedPrecondition)
  {
  }

  lemma StageIs<P, V>(r: Repo<P, V>, b: string, p: P, change: Option<V>)
    requires Valid(r) && b in r.branches
    ensures Apply(r, Stage(b, p, change)) ==
            r.(branches := r.branches[b := BranchData(r.branches[b].head, r.branches[b].staging[p := change])])
  {
    hide CommitGraph.WellFormed;
  }

  lemma CommitIs<P, V>(r: Repo<P, V>, b: string)
    requires Valid(r) && b in r.branches
    ensures r.branches[b].head in r.commits
    ensures Apply(r, CommitBranch(b)) == AddCommit(r, b, CommitData([r.branches[b].head], BranchState(r, b)))
  {
    hide CommitGraph.WellFormed, Overlay;
  }

  lemma UpdateTwice<K, W>(m: map<K, W>, k: K, v: W, w: W)
    ensures m[k := v][k := w] == m[k := w]
  {
  }
}
