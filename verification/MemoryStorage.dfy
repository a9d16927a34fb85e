/**
 The in-memory store itself: fields updated in place, proved to follow the repository state machine.
 */
module MemoryStorage {
  import opened Results
  import opened CommitGraph
  import opened CommitNames
  import opened ThreeWayMerge
  import opened Storage
  import Sorting
  import Lexicographic

  datatype MergeResult<P> =
    | Success(commitId: nat)
    | Conflict(paths: seq<P>, base: nat, source: nat, target: nat)

  /** The order of string paths. */
  predicate PathBefore(p: string, q: string) {
    Lexicographic.Less(Lexicographic.Codes(p), Lexicographic.Codes(q))
  }

  /** Strings are totally ordered, so a store over string paths reports its conflicts sorted. */
  lemma StringPathsAreOrdered(paths: set<string>)
    ensures Sorting.OrdersStrictly(PathBefore, paths)
  {
    forall p, q | p in paths && q in paths
      ensures PathBefore(p, q) ==> !PathBefore(q, p)
      ensures p != q ==> PathBefore(p, q) || PathBefore(q, p)
    {
      var a, b := Lexicographic.Codes(p), Lexicographic.Codes(q);
      Lexicographic.Trichotomy(a, b);
      if a == b {
        Lexicographic.CodesInjective(p, q);
      }
      if PathBefore(p, q) {
        Lexicographic.Asymmetric(a, b);
      }
    }
    forall p, q, r | p in paths && q in paths && r in paths && PathBefore(p, q) && PathBefore(q, r)
      ensures PathBefore(p, r)
    {
      Lexicographic.Transitive(Lexicographic.Codes(p), Lexicographic.Codes(q), Lexicographic.Codes(r));
    }
  }

  class MemoryStorage<P(==, !new), V(==)> {
    /** The order of object paths. */
    const before: (P, P) -> bool
    var commits: map<nat, CommitData<P, V>>
    var branches: map<string, BranchData<P, V>>
    var nextSeq: nat

    ghost function State(): Repo<P, V>
      reads this
    {
      Repo(commits, branches, nextSeq)
    }

    ghost predicate Valid()
      reads this
    {
      Storage.Valid(State())
    }

    constructor (before: (P, P) -> bool)
      ensures Valid() && State() == Init() && this.before == before
    {
      this.before := before;
      commits := map[0 := CommitData([], map[])];
      branches := map[CANONICAL := BranchData(0, map[])];
      nextSeq := 1;
      new;
      InitIsValid<P, V>();
    }

    /** Committed snapshot with the staged changes applied one by one. */
    method ResolveState(branch: BranchData<P, V>) returns (state: map<P, V>)
      ensures state == Overlay(if branch.head in commits then commits[branch.head].objects else map[], branch.staging)
    {
      state := if branch.head in commits then commits[branch.head].objects else map[];
      ghost var start := state;
      var todo := branch.staging.Keys;
      while todo != {}
        invariant todo <= branch.staging.Keys
        invariant forall p ::
          Lookup(state, p) == if p in branch.staging && p !in todo then branch.staging[p] else Lookup(start, p)
      {
        var path :| path in todo;
        match branch.staging[path] {
          case Some(data) => state := state[path := data];
          case None => state := state - {path};
        }
        todo := todo - {path};
      }
      SameLookups(state, Overlay(start, branch.staging));
    }

    method CreateBranch(name: string, base: Option<nat>) returns (r: Result<string>)
      requires Valid()
      modifies this
      ensures Valid() && State() == Apply(old(State()), Op.CreateBranch(name, base))
      ensures r == match StatusOf(old(State()), Op<P, V>.CreateBranch(name, base))
                   case None => Ok(name)
                   case Some(e) => Err(e)
    {
      ApplyKeepsValid(State(), Op.CreateBranch(name, base));
      if name in branches {
        return Err(AlreadyExists);
      }
      if IsReservedCommitIdName(name) {
        return Err(InvalidArgument);
      }
      var head: nat;
      if base.None? {
        if CANONICAL !in branches {
          return Err(Internal);
        }
        head := branches[CANONICAL].head;
      } else {
        head := base.value;
      }
      if head !in commits {
        return Err(NotFound);
      }
      branches := branches[name := BranchData(head, map[])];
      return Ok(name);
    }

    method DeleteBranch(name: string) returns (r: Result<()>)
      requires Valid()
      modifies this
      ensures Valid() && State() == Apply(old(State()), Op.DeleteBranch(name))
      ensures r == match StatusOf(old(State()), Op<P, V>.DeleteBranch(name)) case None => Ok(()) case Some(e) => Err(e)
    {
      ApplyKeepsValid(State(), Op.DeleteBranch(name));
      if name == CANONICAL {
        return Err(FailedPrecondition);
      }
      if name !in branches {
        return Err(NotFound);
      }
      branches := branches - {name};
      return Ok(());
    }

    /** `Some` puts an object, `None` stages a tombstone whether or not the path exists. */
    method StageChange(branch: string, path: P, change: Option<V>) returns (r: Result<()>)
      requires Valid()
      modifies this
      ensures Valid() && State() == Apply(old(State()), Stage(branch, path, change))
      ensures r == match StatusOf(old(State()), Stage(branch, path, change)) case None => Ok(()) case Some(e) => Err(e)
    {
      ApplyKeepsValid(State(), Stage(branch, path, change));
      if branch !in branches {
        return Err(NotFound);
      }
      var br := branches[branch];
      branches := branches[branch := BranchData(br.head, br.staging[path := change])];
      return Ok(());
    }

    /** Reads see staged changes on a branch, and the frozen snapshot on a commit. */
    method GetObject(ref: string, path: P) returns (r: Result<V>)
      requires Valid()
      ensures r == match RefState(State(), ref)
                   case Err(e) => Err(e)
                   case Ok(c) => if path in c then Ok(c[path]) else Err(NotFound)
    {
      var state: map<P, V>;
      if ref in branches {
        state := ResolveState(branches[ref]);
      } else {
        var digits := if IsReservedCommitIdName(ref) then ref[|PREFIX|..] else "";
        assert forall i :: 0 <= i < |digits| ==> digits[i] == ref[|PREFIX| + i];
        var n := ParseDecimal(digits);
        if CommitName(n) != ref || n !in commits {
          NameIsReserved(n);
          return Err(NotFound);
        }
        NameIsReserved(n);
        state := commits[n].objects;
      }
      if path !in state {
        return Err(NotFound);
      }
      return Ok(state[path]);
    }

    /** Records a commit under the next id and moves a branch, with nothing staged, onto it. */
    method AdvanceHead(branch: string, commit: CommitData<P, V>) returns (id: nat)
      modifies this
      ensures State() == AddCommit(old(State()), branch, commit) && id == old(nextSeq)
    {
      id := nextSeq;
      nextSeq := nextSeq + 1;
      commits := commits[id := commit];
      branches := branches[branch := BranchData(id, map[])];
    }

    method Commit(branch: string) returns (r: Result<nat>)
      requires Valid()
      modifies this
      ensures Valid() && State() == Apply(old(State()), CommitBranch(branch))
      ensures r == if branch in old(branches) then Ok(old(nextSeq)) else Err(NotFound)
    {
      ApplyKeepsValid(State(), CommitBranch(branch));
      if branch !in branches {
        return Err(NotFound);
      }
      var br := branches[branch];
      var snapshot := ResolveState(br);
      var commitId := AdvanceHead(branch, CommitData([br.head], snapshot));
      return Ok(commitId);
    }

    /**
     Merges `source` into `target`. It succeeds exactly when no path diverges, and then the target
     head is a commit of the merged contents with the old target and the source as parents.
     Otherwise nothing changes and the diverging paths are listed in order, each once.
     Neither a missing commit nor a missing merge base can occur.
     */
    method Merge(source: string, target: string) returns (r: Result<MergeResult<P>>)
      requires Valid()
      modifies this
      ensures Valid() && State() == Apply(old(State()), Op.Merge(source, target))
      ensures r.Err? <==> StatusOf(old(State()), Op<P, V>.Merge(source, target)).Some?
      ensures r.Err? ==> StatusOf(old(State()), Op<P, V>.Merge(source, target)) == Some(r.status)
      ensures r.Ok? ==>
        match r.value
        case Success(id) => id == old(nextSeq) && ConflictsOf(old(State()), source, target) == {}
        case Conflict(paths, b, s, t) =>
          && Sorting.Elements(paths) == ConflictsOf(old(State()), source, target) != {}
          && (Sorting.OrdersStrictly(before, Sorting.Elements(paths)) ==> Sorting.Sorted(before, paths))
          && b == BaseOf(old(State()), source, target)
          && s == old(branches)[source].head && t == old(branches)[target].head
    {
      hide CommitGraph.WellFormed, CommitGraph.IsMergeBase, Sorting.OrdersStrictly, Sorting.Sorted, Sorting.Distinct;
      hide ThreeWayMerge.Merged, ThreeWayMerge.ConflictPaths;
      ApplyKeepsValid(State(), Op.Merge(source, target));
      if source == target {
        return Err(InvalidArgument);
      }
      if source !in branches || target !in branches {
        return Err(NotFound);
      }
      if branches[source].staging != map[] || branches[target].staging != map[] {
        return Err(FailedPrecondition);
      }
      var sourceHead, targetHead := branches[source].head, branches[target].head;
      var found := FindMergeBase(Parents(commits), sourceHead, targetHead);
      if found.Err? {
        assert false;
      }
      var base := found.value;
      MergeBaseUnique(Parents(commits), sourceHead, targetHead, base, BaseOf(State(), source, target));
      var merged, conflicts := MergeObjects(commits[base].objects, commits[sourceHead].objects,
                                            commits[targetHead].objects);
      if conflicts != [] {
        assert conflicts[0] in Sorting.Elements(conflicts);
        var sorted := SortPaths(conflicts);
        return Ok(Conflict(sorted, base, sourceHead, targetHead));
      }
      var mergeId := AdvanceHead(target, CommitData([targetHead, sourceHead], merged));
      return Ok(Success(mergeId));
    }

    method SortPaths(paths: seq<P>) returns (sorted: seq<P>)
      requires Sorting.Distinct(paths)
      ensures Sorting.Elements(sorted) == Sorting.Elements(paths)
      ensures Sorting.OrdersStrictly(before, Sorting.Elements(paths)) ==> Sorting.Sorted(before, sorted)
    {
      sorted := Sorting.Sort(before, paths);
      Sorting.SameElements(paths, sorted);
      if Sorting.OrdersStrictly(before, Sorting.Elements(paths)) {
        Sorting.SortSorts(before, paths);
      }
    }

    /** The loop over all paths of the three snapshots. */
    method MergeObjects(base: map<P, V>, source: map<P, V>, target: map<P, V>)
      returns (merged: map<P, V>, conflicts: seq<P>)
      ensures Sorting.Elements(conflicts) == ConflictPaths(base, source, target) && Sorting.Distinct(conflicts)
      ensures conflicts == [] ==> merged == Merged(base, source, target)
    {
      hide ThreeWayMerge.Diverges;
      merged, conflicts := map[], [];
      var todo := base.Keys + source.Keys + target.Keys;
      while todo != {}
        invariant todo <= base.Keys + source.Keys + target.Keys
        invariant Sorting.Distinct(conflicts)
        invariant forall p :: p in conflicts <==> p in ConflictPaths(base, source, target) && p !in todo
        invariant forall p :: p in todo || p in conflicts ==> p !in merged
        invariant forall p :: p !in todo && p !in conflicts ==>
          Lookup(merged, p) == Resolved(Lookup(base, p), Lookup(source, p), Lookup(target, p))
      {
        var path :| path in todo;
        var resolved := MergeValue(Lookup(base, path), Lookup(source, path), Lookup(target, path));
        if resolved.None? {
          conflicts := conflicts + [path];
        } else if resolved.value.Some? {
          merged := merged[path := resolved.value.value];
        }
        todo := todo - {path};
      }
      if conflicts == [] {
        SameLookups(merged, Merged(base, source, target));
      }
    }

    /** One path: none if both sides changed it differently, and otherwise what it becomes. */
    method MergeValue(baseVal: Option<V>, sourceVal: Option<V>, targetVal: Option<V>) returns (r: Option<Option<V>>)
      ensures r == if Diverges(baseVal, sourceVal, targetVal) then None
        else Some(Resolved(baseVal, sourceVal, targetVal))
    {
      var sourceChanged, targetChanged := sourceVal != baseVal, targetVal != baseVal;
      if sourceChanged && targetChanged {
        if sourceVal == targetVal {
          return Some(sourceVal);
        }
        return None;
      }
      if sourceChanged {
        return Some(sourceVal);
      }
      if targetChanged {
        return Some(targetVal);
      }
      return Some(baseVal);
    }
  }
}
