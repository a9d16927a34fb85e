/**
 A run in which a transaction's record reaches its target: two threads commit the same transaction, and
 the one that gives up puts the record back while the other sleeps.
 */
module TwoCommitters {
  import opened Results
  import opened ThreeWayMerge
  import opened CommitGraph
  import opened Storage
  import opened TransactionRuns
  import opened WriteExecutor
  import opened TransactionManager

  const T := "t"
  const META := TxnMeta(None, None, 0)
  const ENTRY := "idx/non_unique/k"

  /** Stage one object and commit. */
  ghost function Put(r: TxnRepo, b: string, p: string, v: Value): (r': TxnRepo)
    requires Valid(r)
    ensures Valid(r')
  {
    ApplyKeepsValid(r, Stage(b, p, Some(v)));
    var r1 := Apply(r, Stage(b, p, Some(v)));
    ApplyKeepsValid(r1, CommitBranch(b));
    Apply(r1, CommitBranch(b))
  }

  lemma PutIs(r: TxnRepo, b: string, p: string, v: Value)
    requires Valid(r) && b in r.branches && r.branches[b].staging == map[]
    ensures Put(r, b, p, v) ==
            AddCommit(r, b, CommitData([r.branches[b].head], r.commits[r.branches[b].head].objects[p := v]))
  {
    hide Storage.Valid, Storage.Apply, ThreeWayMerge.Overlay;
    HeadIsCommit(r, b);
    var head := r.branches[b].head;
    OverlayOne(r.commits[head].objects, p, v);
    StageIs(r, b, p, Some(v));
    ApplyKeepsValid(r, Stage(b, p, Some(v)));
    CommitIs(Apply(r, Stage(b, p, Some(v))), b);
    UpdateTwice(r.branches, b, BranchData(head, map[p := Some(v)]), BranchData(r.next, map[]));
  }

  /** The transaction and the canonical branch write different values under one index path. */
  ghost function Contended(): (r: TxnRepo)
    ensures Valid(r)
  {
    InitIsValid<string, Value>();
    var r0 := Init<string, Value>();
    assert FreshName(r0, T) && 0 in r0.commits;
    Put(Put(BeginAt(r0, T, 0, META), T, ENTRY, Data("a")), CANONICAL, ENTRY, Data("b"))
  }

  /** Both threads have cleaned the branch and met the conflict; the second gives up and restores. */
  ghost function GivenUp(): (r: TxnRepo)
    ensures Valid(r)
  {
    Restored(Cleaned(Cleaned(Contended(), T), T), T, META)
  }

  /** Then the canonical branch comes to agree with the transaction. */
  ghost function Settled(): (r: TxnRepo)
    ensures Valid(r)
  {
    Put(GivenUp(), CANONICAL, ENTRY, Data("a"))
  }

  // -------------------------------------------------------------------------
  // The run, commit by commit
  // -------------------------------------------------------------------------

  type Commit = CommitData<string, Value>

  const PATH := TxnMetaPath(T)
  const C0: Commit := CommitData([], map[])
  const C1: Commit := CommitData([0], map[PATH := META])
  const C2: Commit := CommitData([1], map[PATH := META, ENTRY := Data("a")])
  const C3: Commit := CommitData([0], map[ENTRY := Data("b")])
  const C4: Commit := CommitData([2], map[ENTRY := Data("a")])
  const C5: Commit := CommitData([4], map[ENTRY := Data("a")])
  const C6: Commit := CommitData([5], map[ENTRY := Data("a"), PATH := META])
  const C7: Commit := CommitData([3], map[ENTRY := Data("a")])

  function Heads(main: nat, txn: nat): map<string, BranchData<string, Value>> {
    map[CANONICAL := BranchData(main, map[]), T := BranchData(txn, map[])]
  }

  const R1: TxnRepo := Repo(map[0 := C0, 1 := C1], Heads(0, 1), 2)
  const R2: TxnRepo := Repo(map[0 := C0, 1 := C1, 2 := C2], Heads(0, 2), 3)
  const R3: TxnRepo := Repo(map[0 := C0, 1 := C1, 2 := C2, 3 := C3], Heads(3, 2), 4)
  const R4: TxnRepo := Repo(R3.commits[4 := C4], Heads(3, 4), 5)
  const R5: TxnRepo := Repo(R4.commits[5 := C5], Heads(3, 5), 6)
  const R6: TxnRepo := Repo(R5.commits[6 := C6], Heads(3, 6), 7)
  const R7: TxnRepo := Repo(R6.commits[7 := C7], Heads(7, 6), 8)

  lemma PathsDiffer()
    ensures PATH != ENTRY && CANONICAL != T
  {
    assert PATH[0] == '_' && ENTRY[0] == 'i';
    assert CANONICAL[0] == 'm' && T[0] == 't';
  }

  lemma ContendedIs()
    ensures Contended() == R3
  {
    hide Storage.Valid, BeginAt, Put;
    PathsDiffer();
    InitIsValid<string, Value>();
    var r0 := Init<string, Value>();
    assert FreshName(r0, T) && 0 in r0.commits;
    var r1 := BeginAt(r0, T, 0, META);
    BegunIs();
    PutIs(r1, T, ENTRY, Data("a"));
    var r2 := Put(r1, T, ENTRY, Data("a"));
    assert R1.branches[T := BranchData(2, map[])] == Heads(0, 2);
    assert C1.objects[ENTRY := Data("a")] == C2.objects;
    assert r2 == R2;
    PutIs(r2, CANONICAL, ENTRY, Data("b"));
    assert R2.branches[CANONICAL := BranchData(3, map[])] == Heads(3, 2);
  }

  lemma BegunIs()
    requires Valid(Init<string, Value>()) && FreshName(Init<string, Value>(), T) && 0 in Init<string, Value>().commits
    ensures BeginAt(Init<string, Value>(), T, 0, META) == R1
  {
    hide Storage.Valid, BeginAt;
    PathsDiffer();
    BeginIs(Init<string, Value>(), T, 0, META);
    assert Init<string, Value>().branches[T := BranchData(1, map[])] == Heads(0, 1);
  }

  lemma CleanedAdds(r: TxnRepo)
    requires Valid(r) && T in r.branches && r.branches[T].staging == map[]
    ensures r.branches[T].head in r.commits
    ensures Cleaned(r, T) ==
            AddCommit(r, T, CommitData([r.branches[T].head], r.commits[r.branches[T].head].objects - {PATH}))
  {
    hide CommitGraph.WellFormed, Cleaned;
    CleanedIs(r, T);
    CleanBranchState(r, T);
  }

  lemma FirstCleanup()
    ensures Valid(R3) && Cleaned(R3, T) == R4 && Valid(R4)
  {
    hide Storage.Valid, Cleaned, Contended;
    PathsDiffer();
    ContendedIs();
    assert Valid(Contended());
    CleanedAdds(R3);
    assert C2.objects - {PATH} == C4.objects;
    assert R3.branches[T := BranchData(4, map[])] == Heads(3, 4);
    assert Valid(Cleaned(R3, T));
  }

  lemma SecondCleanup()
    ensures Valid(R4) && Cleaned(R4, T) == R5 && Valid(R5)
  {
    hide Storage.Valid, Cleaned;
    PathsDiffer();
    FirstCleanup();
    CleanedAdds(R4);
    assert C4.objects - {PATH} == C5.objects;
    assert R4.branches[T := BranchData(5, map[])] == Heads(3, 5);
    assert Valid(Cleaned(R4, T));
  }

  lemma GivenUpIs()
    ensures GivenUp() == R6
  {
    hide Storage.Valid, Cleaned, Contended, Restored, Put;
    PathsDiffer();
    ContendedIs();
    FirstCleanup();
    SecondCleanup();
    RestoredIsPut(R5);
    PutIs(R5, T, PATH, META);
    assert R5.branches[T := BranchData(6, map[])] == Heads(3, 6);
  }

  lemma RestoredIsPut(r: TxnRepo)
    requires Valid(r)
    ensures Restored(r, T, META) == Put(r, T, PATH, META)
  {
  }

  lemma SettledIs()
    ensures Settled() == R7 && Valid(R7)
  {
    hide Storage.Valid, Put, GivenUp;
    PathsDiffer();
    GivenUpIs();
    assert Valid(GivenUp());
    PutIs(R6, CANONICAL, ENTRY, Data("a"));
    assert C3.objects[ENTRY := Data("a")] == C7.objects;
    assert R6.branches[CANONICAL := BranchData(7, map[])] == Heads(7, 6);
  }

  // -------------------------------------------------------------------------
  // What the merges do
  // -------------------------------------------------------------------------

  /** The two branches share nothing but the initial commit. */
  lemma BaseIsRoot(r: TxnRepo, s: set<nat>, t: set<nat>)
    requires Valid(r) && T in r.branches && CANONICAL in r.branches && 0 in r.commits
    requires r.branches[T].head in s && r.branches[CANONICAL].head in t && s * t == {0}
    requires forall y, z :: y in s && y in r.commits && z in r.commits[y].parents ==> z in s
    requires forall y, z :: y in t && y in r.commits && z in r.commits[y].parents ==> z in t
    ensures BaseOf(r, T, CANONICAL) == 0
  {
    var g, a, b := Parents(r.commits), r.branches[T].head, r.branches[CANONICAL].head;
    RootIsAncestor(g, a);
    RootIsAncestor(g, b);
    MeetIsMergeBase(g, s, t, a, b, 0);
    MergeBaseUnique(g, a, b, 0, BaseOf(r, T, CANONICAL));
  }

  lemma FirstBase()
    requires Valid(R4)
    ensures BaseOf(R4, T, CANONICAL) == 0
  {
    hide Storage.Valid;
    PathsDiffer();
    BaseIsRoot(R4, {0, 1, 2, 4}, {0, 3});
  }

  lemma SecondBase()
    requires Valid(R5)
    ensures BaseOf(R5, T, CANONICAL) == 0
  {
    hide Storage.Valid;
    PathsDiffer();
    BaseIsRoot(R5, {0, 1, 2, 4, 5}, {0, 3});
  }

  lemma LastBase()
    requires Valid(R7)
    ensures BaseOf(R7, T, CANONICAL) == 0
  {
    hide Storage.Valid;
    PathsDiffer();
    BaseIsRoot(R7, {0, 1, 2, 4, 5, 6}, {0, 3, 7});
  }

  lemma ConflictAt(r: TxnRepo)
    requires Valid(r) && (r == R4 || r == R5) && BaseOf(r, T, CANONICAL) == 0
    ensures ConflictsOf(r, T, CANONICAL) == {ENTRY}
  {
    hide Storage.Valid, Storage.BaseOf;
    PathsDiffer();
    assert ConflictPaths(C0.objects, C4.objects, C3.objects) == {ENTRY};
  }

  lemma NoConflictAtEnd()
    requires Valid(R7) && BaseOf(R7, T, CANONICAL) == 0
    ensures CleanMerge(R7, T, CANONICAL) && RecordOnlyOnSource(R7, T, CANONICAL) && RecordOn(R7, T, T)
  {
    hide Storage.Valid, Storage.BaseOf;
    PathsDiffer();
    CleanBranchState(R7, T);
    CleanBranchState(R7, CANONICAL);
    hide ThreeWayMerge.Overlay;
    assert ConflictPaths(C0.objects, C6.objects, C7.objects) == {};
  }

  /**
   Both committers meet the same retryable conflict. The second runs out of attempts and restores the
   record; once the conflict is gone, the first one's next attempt carries the record to the target.
   */
  lemma RecordReachesTarget()
    ensures
      var first := Cleaned(Contended(), T);
      && ConflictsOfMerge(first) == {ENTRY} && ConflictsOfMerge(Cleaned(first, T)) == {ENTRY}
      && CleanMerge(Settled(), T, CANONICAL)
      && RecordOn(MergeAndDrop(Settled(), T, CANONICAL), CANONICAL, T)
  {
    hide Storage.Valid, Cleaned, Contended, Settled, CleanMerge, RecordOn, RecordOnlyOnSource, MergeAndDrop,
      Storage.ConflictsOf;
    PathsDiffer();
    ContendedIs();
    FirstCleanup();
    SecondCleanup();
    FirstBase();
    ConflictAt(R4);
    SecondBase();
    ConflictAt(R5);
    SettledIs();
    LastBase();
    NoConflictAtEnd();
    RecordTravels(R7, T, CANONICAL);
  }

  ghost function ConflictsOfMerge(r: TxnRepo): set<string>
    requires Valid(r)
  {
    if T in r.branches && CANONICAL in r.branches then ConflictsOf(r, T, CANONICAL) else {}
  }
}
