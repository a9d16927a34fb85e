/**
 The commit DAG and the merge-base search over it.
 */
module CommitGraph {
  import opened Results
  import opened CommitNames
  import Lexicographic

  /** Each commit with its parents, in the order they were recorded. */
  type Graph = map<nat, seq<nat>>

  /** What every reachable repository satisfies: commit 0 is the only root and parents are older. */
  ghost predicate WellFormed(g: Graph) {
    && 0 in g
    && (forall n :: n in g && n != 0 ==> g[n] != [])
    && (forall n, i :: n in g && 0 <= i < |g[n]| ==> g[n][i] in g && g[n][i] < n)
  }

  // -------------------------------------------------------------------------
  // Ancestry, stated without any search
  // -------------------------------------------------------------------------

  /** `x` is reached from `a` by following exactly `n` parent links. */
  ghost predicate Walk(g: Graph, a: nat, x: nat, n: nat)
    decreases n
  {
    if n == 0 then x == a
    else exists y :: Walk(g, a, y, n - 1) && y in g && x in g[y]
  }

  ghost predicate Ancestor(g: Graph, a: nat, x: nat) {
    exists n: nat :: Walk(g, a, x, n)
  }

  /** `d` is the length of a shortest walk from `a` to `x`. */
  ghost predicate IsDist(g: Graph, a: nat, x: nat, d: nat) {
    Walk(g, a, x, d) && forall m: nat :: m < d ==> !Walk(g, a, x, m)
  }

  ghost function Dist(g: Graph, a: nat, x: nat): (d: nat)
    requires Ancestor(g, a, x)
    ensures IsDist(g, a, x, d)
  {
    var n: nat :| Walk(g, a, x, n);
    Least(g, a, x, 0, n)
  }

  ghost function Least(g: Graph, a: nat, x: nat, from: nat, n: nat): (d: nat)
    requires from <= n && Walk(g, a, x, n)
    requires forall m: nat :: m < from ==> !Walk(g, a, x, m)
    ensures IsDist(g, a, x, d)
    decreases n - from
  {
    if Walk(g, a, x, from) then from else Least(g, a, x, from + 1, n)
  }

  ghost predicate Common(g: Graph, a: nat, b: nat, x: nat) {
    Ancestor(g, a, x) && Ancestor(g, b, x)
  }

  function Max(m: nat, n: nat): nat {
    if m < n then n else m
  }

  /** Candidate `x` at depths (xa, xb) is preferred to `y` at depths (ya, yb). */
  predicate Preferred(x: nat, xa: nat, xb: nat, y: nat, ya: nat, yb: nat) {
    || Max(xa, xb) < Max(ya, yb)
    || (Max(xa, xb) == Max(ya, yb) && xa + xb < ya + yb)
    || (Max(xa, xb) == Max(ya, yb) && xa + xb == ya + yb && NameLess(x, y))
  }

  ghost predicate Beats(g: Graph, a: nat, b: nat, x: nat, y: nat)
    requires Common(g, a, b, x) && Common(g, a, b, y)
  {
    Preferred(x, Dist(g, a, x), Dist(g, b, x), y, Dist(g, a, y), Dist(g, b, y))
  }

  /** The common ancestor minimal in (larger depth, sum of depths, name). */
  ghost predicate IsMergeBase(g: Graph, a: nat, b: nat, r: nat) {
    && Common(g, a, b, r)
    && forall y :: Common(g, a, b, y) && y != r ==> Beats(g, a, b, r, y)
  }

  // -------------------------------------------------------------------------
  // Facts about walks
  // -------------------------------------------------------------------------

  lemma DistIs(g: Graph, a: nat, x: nat, d: nat)
    requires IsDist(g, a, x, d)
    ensures Ancestor(g, a, x) && Dist(g, a, x) == d
  {
  }

  lemma {:induction false} WalkAppend(g: Graph, a: nat, b: nat, c: nat, m: nat, n: nat)
    requires Walk(g, a, b, m) && Walk(g, b, c, n)
    ensures Walk(g, a, c, m + n)
    decreases n
  {
    if n != 0 {
      var y :| Walk(g, b, y, n - 1) && y in g && c in g[y];
      WalkAppend(g, a, b, y, m, n - 1);
    }
  }

  /** Every node a walk meets is a commit of a well-formed graph, and never a younger one. */
  lemma {:induction false} WalkStaysInside(g: Graph, a: nat, x: nat, n: nat)
    requires WellFormed(g) && a in g && Walk(g, a, x, n)
    ensures x in g && x <= a && (n > 0 ==> x < a)
    decreases n
  {
    if n != 0 {
      var y :| Walk(g, a, y, n - 1) && y in g && x in g[y];
      WalkStaysInside(g, a, y, n - 1);
      var i :| 0 <= i < |g[y]| && g[y][i] == x;
    }
  }

  /** Commit 0 is an ancestor of everything, so two commits always have a common ancestor. */
  lemma {:induction false} RootIsAncestor(g: Graph, a: nat)
    requires WellFormed(g) && a in g
    ensures Ancestor(g, a, 0)
    decreases a
  {
    if a == 0 {
      assert Walk(g, a, 0, 0);
    } else {
      var p := g[a][0];
      RootIsAncestor(g, p);
      var n: nat :| Walk(g, p, 0, n);
      assert Walk(g, a, a, 0);
      assert Walk(g, a, p, 1);
      WalkAppend(g, a, p, 0, 1, n);
    }
  }

  lemma PreferredIsTotal(x: nat, xa: nat, xb: nat, y: nat, ya: nat, yb: nat)
    ensures x != y ==> Preferred(x, xa, xb, y, ya, yb) || Preferred(y, ya, yb, x, xa, xb)
    ensures !(Preferred(x, xa, xb, y, ya, yb) && Preferred(y, ya, yb, x, xa, xb))
  {
    NameLessTotal(x, y);
  }

  lemma PreferredTransitive(x: nat, xa: nat, xb: nat, y: nat, ya: nat, yb: nat, z: nat, za: nat, zb: nat)
    requires Preferred(x, xa, xb, y, ya, yb) && Preferred(y, ya, yb, z, za, zb)
    ensures Preferred(x, xa, xb, z, za, zb)
  {
    if NameLess(x, y) && NameLess(y, z) {
      NameLessTransitive(x, y, z);
    }
  }

  lemma MergeBaseUnique(g: Graph, a: nat, b: nat, r: nat, s: nat)
    requires IsMergeBase(g, a, b, r) && IsMergeBase(g, a, b, s)
    ensures r == s
  {
    if r != s {
      PreferredIsTotal(r, Dist(g, a, r), Dist(g, b, r), s, Dist(g, a, s), Dist(g, b, s));
    }
  }

  /** The search does not care which commit is asked about first. */
  lemma MergeBaseSymmetric(g: Graph, a: nat, b: nat, r: nat)
    requires IsMergeBase(g, a, b, r)
    ensures IsMergeBase(g, b, a, r)
  {
    forall y | Common(g, b, a, y) && y != r
      ensures Beats(g, b, a, r, y)
    {
      assert Common(g, a, b, y);
      assert Beats(g, a, b, r, y);
    }
  }

  lemma {:induction false} BestOf(g: Graph, a: nat, b: nat, xs: set<nat>) returns (r: nat)
    requires xs != {} && forall x :: x in xs ==> Common(g, a, b, x)
    ensures r in xs && forall y :: y in xs && y != r ==> Beats(g, a, b, r, y)
    decreases xs
  {
    r :| r in xs;
    if xs != {r} {
      var s := BestOf(g, a, b, xs - {r});
      PreferredIsTotal(r, Dist(g, a, r), Dist(g, b, r), s, Dist(g, a, s), Dist(g, b, s));
      var winner := if Beats(g, a, b, r, s) then r else s;
      forall y | y in xs && y != winner
        ensures Beats(g, a, b, winner, y)
      {
        assert y != r ==> y in xs - {r};
        if winner == r && y != s {
          assert Beats(g, a, b, s, y);
          PreferredTransitive(r, Dist(g, a, r), Dist(g, b, r), s, Dist(g, a, s), Dist(g, b, s),
                              y, Dist(g, a, y), Dist(g, b, y));
        }
      }
      r := winner;
    }
  }

  lemma MergeBaseExists(g: Graph, a: nat, b: nat)
    requires WellFormed(g) && a in g && b in g
    ensures exists r :: IsMergeBase(g, a, b, r)
  {
    var xs := set x | x in g && Common(g, a, b, x);
    AncestorsAreCommits(g, a);
    RootIsAncestor(g, a);
    RootIsAncestor(g, b);
    assert 0 in xs;
    var r := BestOf(g, a, b, xs);
    forall y | Common(g, a, b, y)
      ensures y in xs
    {
    }
    assert IsMergeBase(g, a, b, r);
  }

  /** The merge base, which every two commits of a well-formed graph have. */
  ghost function MergeBase(g: Graph, a: nat, b: nat): (r: nat)
    requires WellFormed(g) && a in g && b in g
    ensures IsMergeBase(g, a, b, r) && r in g
  {
    MergeBaseExists(g, a, b);
    AncestorsAreCommits(g, a);
    var r :| IsMergeBase(g, a, b, r);
    r
  }

  // -------------------------------------------------------------------------
  // The fork point of a private region
  // -------------------------------------------------------------------------

  /** Commits of `region` have all their parents in `region` or at `fork`. */
  ghost predicate ForkedFrom(g: Graph, region: set<nat>, fork: nat) {
    && fork !in region
    && forall n, i :: n in region && n in g && 0 <= i < |g[n]| ==> g[n][i] in region || g[n][i] == fork
  }

  /** A walk that leaves the region passes through the fork point. */
  lemma {:induction false} LeavingPassesFork(g: Graph, region: set<nat>, fork: nat, a: nat, x: nat, n: nat)
    requires ForkedFrom(g, region, fork) && a in region && x !in region && Walk(g, a, x, n)
    ensures exists k: nat :: k <= n && Walk(g, a, fork, k) && Walk(g, fork, x, n - k)
    decreases n
  {
    var y :| Walk(g, a, y, n - 1) && y in g && x in g[y];
    if y in region {
      assert x == fork;
      assert Walk(g, fork, x, 0);
    } else {
      LeavingPassesFork(g, region, fork, a, y, n - 1);
      var k: nat :| k <= n - 1 && Walk(g, a, fork, k) && Walk(g, fork, y, n - 1 - k);
      assert Walk(g, fork, x, n - k);
    }
  }

  /**
   If everything `a` has that `fork` lacks was built on top of `fork`, then `fork` itself is the
   merge base of the two, however many diamonds the region contains.
   */
  lemma ForkPointIsMergeBase(g: Graph, region: set<nat>, fork: nat, a: nat)
    requires ForkedFrom(g, region, fork)
    requires a in region && Ancestor(g, a, fork)
    requires forall y :: Ancestor(g, fork, y) ==> y !in region
    ensures IsMergeBase(g, a, fork, fork)
  {
    assert Walk(g, fork, fork, 0);
    DistIs(g, fork, fork, 0);
    var da := Dist(g, a, fork);
    forall y | Common(g, a, fork, y) && y != fork
      ensures Beats(g, a, fork, fork, y)
    {
      var d := Dist(g, a, y);
      LeavingPassesFork(g, region, fork, a, y, d);
      var k: nat :| k <= d && Walk(g, a, fork, k) && Walk(g, fork, y, d - k);
      assert da <= k && d - k != 0;
    }
  }

  ghost predicate PassesBy(g: Graph, a: nat, m: nat, y: nat, n: nat) {
    exists k: nat :: k < n && Walk(g, a, m, k) && Walk(g, m, y, n - k)
  }

  /** Every walk from `a` to another common ancestor passes through `m`. */
  ghost predicate Dominates(g: Graph, a: nat, b: nat, m: nat) {
    forall y: nat, n: nat :: Common(g, a, b, y) && y != m && Walk(g, a, y, n) ==> PassesBy(g, a, m, y, n)
  }

  lemma NearerThanDominated(g: Graph, a: nat, b: nat, m: nat, y: nat)
    requires Dominates(g, a, b, m) && Common(g, a, b, y) && y != m && Ancestor(g, a, m)
    ensures Dist(g, a, m) < Dist(g, a, y) && Ancestor(g, m, y)
  {
    hide Walk;
    var n := Dist(g, a, y);
    assert PassesBy(g, a, m, y, n);
    var k: nat :| k < n && Walk(g, a, m, k) && Walk(g, m, y, n - k);
  }

  /** A common ancestor that every walk to another one passes is the merge base, and the most recent one. */
  lemma DominatorIsMergeBase(g: Graph, a: nat, b: nat, m: nat)
    requires Common(g, a, b, m) && Dominates(g, a, b, m) && Dominates(g, b, a, m)
    ensures IsMergeBase(g, a, b, m) && forall y :: Common(g, a, b, y) ==> Ancestor(g, m, y)
  {
    assert Walk(g, m, m, 0);
    hide Dominates, Walk;
    forall y | Common(g, a, b, y) && y != m
      ensures Beats(g, a, b, m, y) && Ancestor(g, m, y)
    {
      NearerThanDominated(g, a, b, m, y);
      NearerThanDominated(g, b, a, m, y);
    }
  }

  lemma {:induction false} WalkWithin(g: Graph, s: set<nat>, a: nat, x: nat, n: nat)
    requires a in s && (forall y, z :: y in s && y in g && z in g[y] ==> z in s) && Walk(g, a, x, n)
    ensures x in s
    decreases n
  {
    if n != 0 {
      var y :| Walk(g, a, y, n - 1) && y in g && x in g[y];
      WalkWithin(g, s, a, y, n - 1);
    }
  }

  /** Histories that meet only at `m` have `m` as their merge base. */
  lemma MeetIsMergeBase(g: Graph, s: set<nat>, t: set<nat>, a: nat, b: nat, m: nat)
    requires a in s && (forall y, z :: y in s && y in g && z in g[y] ==> z in s)
    requires b in t && (forall y, z :: y in t && y in g && z in g[y] ==> z in t)
    requires s * t == {m} && Common(g, a, b, m)
    ensures IsMergeBase(g, a, b, m)
  {
    forall y | Common(g, a, b, y)
      ensures y == m
    {
      var i: nat :| Walk(g, a, y, i);
      var j: nat :| Walk(g, b, y, j);
      WalkWithin(g, s, a, y, i);
      WalkWithin(g, t, b, y, j);
      assert y in s * t;
    }
  }

  /** Two branches over commit 1, each with a merge that also leads straight to commit 0. */
  const SHORTCUTS: Graph := map[0 := [], 1 := [0], 2 := [1], 3 := [1], 4 := [2, 0], 5 := [3, 0]]

  /**
   The merge base need not be the most recent common ancestor: 4 and 5 share commit 1, which descends
   from commit 0, but merges have made commit 0 the nearer one.
   */
  lemma NearestIsNotLatest()
    ensures WellFormed(SHORTCUTS) && IsMergeBase(SHORTCUTS, 4, 5, 0)
    ensures Common(SHORTCUTS, 4, 5, 1) && Ancestor(SHORTCUTS, 1, 0)
  {
    hide Walk, NameLess;
    var g := SHORTCUTS;
    ShortcutWalks(4, 2);
    ShortcutWalks(5, 3);
    ShortcutEdge();
    DistIs(g, 4, 0, 1);
    DistIs(g, 5, 0, 1);
    forall y | Common(g, 4, 5, y) && y != 0
      ensures Beats(g, 4, 5, 0, y)
    {
      ShortcutCommon(y);
      assert Dist(g, 4, y) != 0 && Dist(g, 4, y) != 1;
    }
  }

  lemma ShortcutEdge()
    ensures Walk(SHORTCUTS, 1, 0, 1)
  {
    assert Walk(SHORTCUTS, 1, 1, 0) && SHORTCUTS[1] == [0] && 0 in SHORTCUTS[1];
  }

  lemma ShortcutCommon(y: nat)
    requires Common(SHORTCUTS, 4, 5, y)
    ensures y == 0 || y == 1
  {
    var g := SHORTCUTS;
    var i: nat :| Walk(g, 4, y, i);
    var j: nat :| Walk(g, 5, y, j);
    WalkWithin(g, {0, 1, 2, 4}, 4, y, i);
    WalkWithin(g, {0, 1, 3, 5}, 5, y, j);
  }

  lemma ShortcutWalks(a: nat, b: nat)
    requires a in {4, 5} && b == a - 2
    ensures Walk(SHORTCUTS, a, 1, 2) && IsDist(SHORTCUTS, a, 0, 1)
    ensures !Walk(SHORTCUTS, a, 1, 0) && !Walk(SHORTCUTS, a, 1, 1)
  {
    var g := SHORTCUTS;
    assert Walk(g, a, a, 0) && g[a] == [b, 0] && g[b] == [1];
    assert b in g[a] && 0 in g[a] && 1 in g[b];
    assert Walk(g, a, b, 1) && Walk(g, a, 0, 1);
  }

  // -------------------------------------------------------------------------
  // Breadth-first depths
  // -------------------------------------------------------------------------

  ghost function Nodes(g: Graph, start: nat): set<nat> {
    {start} + g.Keys + set n, i | n in g && 0 <= i < |g[n]| :: g[n][i]
  }

  ghost function Queued(queue: seq<(nat, nat)>): set<nat> {
    set k | 0 <= k < |queue| :: queue[k].0
  }

  /** The parents of `x` are recorded, at most one step further out. */
  ghost predicate Recorded(g: Graph, depths: map<nat, nat>, x: nat)
    requires x in depths
  {
    x in g && forall i :: 0 <= i < |g[x]| ==> g[x][i] in depths && depths[g[x][i]] <= depths[x] + 1
  }

  ghost predicate Settled(g: Graph, depths: map<nat, nat>, open: set<nat>) {
    forall x {:trigger Recorded(g, depths, x)} :: x in depths && x !in open ==> Recorded(g, depths, x)
  }

  ghost predicate QueueOk(depths: map<nat, nat>, queue: seq<(nat, nat)>) {
    && (forall k :: 0 <= k < |queue| ==> queue[k].0 in depths && depths[queue[k].0] == queue[k].1)
    && (forall j, k :: 0 <= j <= k < |queue| ==> queue[j].1 <= queue[k].1 <= queue[0].1 + 1)
    && (queue != [] ==> forall x :: x in depths ==> depths[x] <= queue[|queue| - 1].1)
  }

  ghost predicate Witnessed(g: Graph, start: nat, depths: map<nat, nat>) {
    forall x :: x in depths ==> Walk(g, start, x, depths[x])
  }

  lemma {:induction false} SettledIsExact(g: Graph, start: nat, depths: map<nat, nat>, x: nat, n: nat)
    requires start in depths && depths[start] == 0 && Settled(g, depths, {}) && Walk(g, start, x, n)
    ensures x in depths && depths[x] <= n
    decreases n
  {
    if n != 0 {
      var y :| Walk(g, start, y, n - 1) && y in g && x in g[y];
      SettledIsExact(g, start, depths, y, n - 1);
      assert Recorded(g, depths, y);
      var i :| 0 <= i < |g[y]| && g[y][i] == x;
    }
  }

  /**
   The ancestors of `start` with their depths. The worklist re-queues a parent whenever it finds
   a smaller depth for it; breadth-first order means that never happens, so each commit is
   expanded once. An ancestor that is not a commit is reported as corruption.
   */
  method AncestorDepths(g: Graph, start: nat) returns (r: Result<map<nat, nat>>)
    ensures r.Ok? <==> forall x :: Ancestor(g, start, x) ==> x in g
    ensures r.Ok? ==> forall x :: x in r.value <==> Ancestor(g, start, x)
    ensures r.Ok? ==> forall x :: x in r.value ==> IsDist(g, start, x, r.value[x])
    ensures r.Err? ==> r.status == Internal
  {
    hide QueueOk, Settled, Witnessed, Expanding, Ancestor, IsDist;
    var depths: map<nat, nat> := map[start := 0];
    var queue := [(start, 0)];
    SearchStarts(g, start);
    while queue != []
      invariant Searching(g, start, depths, queue)
      decreases Nodes(g, start) - depths.Keys, |queue|
    {
      var (current, depth) := queue[0];
      FrontIsNext(g, start, depths, queue);
      queue := queue[1..];
      if current !in g {
        return Err(Internal);
      }
      depths, queue := RecordParents(g, start, depths, queue, current, depth);
    }
    SearchEnds(g, start, depths);
    return Ok(depths);
  }

  lemma SearchStarts(g: Graph, start: nat)
    ensures Searching(g, start, map[start := 0], [(start, 0)])
  {
    assert Queued([(start, 0)]) == {start};
  }

  lemma FrontIsNext(g: Graph, start: nat, depths: map<nat, nat>, queue: seq<(nat, nat)>)
    requires Searching(g, start, depths, queue) && queue != []
    ensures Ancestor(g, start, queue[0].0)
    ensures queue[0].0 in g ==> Expanding(g, start, depths, queue[1..], queue[0].0, queue[0].1)
  {
    hide Walk;
    assert queue == [queue[0]] + queue[1..];
    assert Queued(queue) <= {queue[0].0} + Queued(queue[1..]);
    assert Walk(g, start, queue[0].0, depths[queue[0].0]);
  }

  lemma SearchEnds(g: Graph, start: nat, depths: map<nat, nat>)
    requires Searching(g, start, depths, [])
    ensures forall x :: x in depths <==> Ancestor(g, start, x)
    ensures forall x :: x in depths ==> x in g && IsDist(g, start, x, depths[x])
  {
    hide Walk;
    forall x, n: nat | Walk(g, start, x, n)
      ensures x in depths && depths[x] <= n && x in g
    {
      SettledIsExact(g, start, depths, x, n);
      assert Recorded(g, depths, x);
    }
  }

  /** The search state between expansions, and while `current` is being expanded. */
  ghost predicate Searching(g: Graph, start: nat, depths: map<nat, nat>, queue: seq<(nat, nat)>) {
    && start in depths && depths[start] == 0
    && depths.Keys <= Nodes(g, start)
    && Witnessed(g, start, depths) && QueueOk(depths, queue) && Settled(g, depths, Queued(queue))
  }

  ghost predicate Expanding(g: Graph, start: nat, depths: map<nat, nat>, queue: seq<(nat, nat)>, current: nat,
                            depth: nat) {
    && start in depths && depths[start] == 0
    && depths.Keys <= Nodes(g, start)
    && current in g && current in depths && depths[current] == depth
    && Witnessed(g, start, depths)
    && QueueOk(depths, [(current, depth)] + queue) && Settled(g, depths, {current} + Queued(queue))
  }

  /** One expansion: the parents of the commit at the front of the queue. */
  method RecordParents(g: Graph, ghost start: nat, depths0: map<nat, nat>, queue0: seq<(nat, nat)>, current: nat,
                       depth: nat)
    returns (depths: map<nat, nat>, queue: seq<(nat, nat)>)
    requires Expanding(g, start, depths0, queue0, current, depth)
    ensures Searching(g, start, depths, queue)
    ensures (queue == queue0 && depths == depths0) || depths0.Keys < depths.Keys
  {
    hide QueueOk, Settled, Witnessed;
    depths, queue := depths0, queue0;
    var parents := g[current];
    for i := 0 to |parents|
      invariant Expanding(g, start, depths, queue, current, depth)
      invariant (queue == queue0 && depths == depths0) || depths0.Keys < depths.Keys
      invariant forall k :: 0 <= k < i ==> parents[k] in depths && depths[parents[k]] <= depth + 1
    {
      var parent := parents[i];
      var parentDepth := depth + 1;
      if parent !in depths || parentDepth < depths[parent] {
        RecordOne(g, start, depths, queue, current, depth, parent);
        depths := depths[parent := parentDepth];
        queue := queue + [(parent, parentDepth)];
      }
    }
    FrontLeaves(g, start, depths, queue, current, depth);
  }

  lemma RecordOne(g: Graph, start: nat, depths: map<nat, nat>, queue: seq<(nat, nat)>, current: nat, depth: nat,
                  parent: nat)
    requires Expanding(g, start, depths, queue, current, depth) && parent in g[current]
    requires parent !in depths || depth + 1 < depths[parent]
    ensures parent !in depths
    ensures Expanding(g, start, depths[parent := depth + 1], queue + [(parent, depth + 1)], current, depth)
  {
    assert Walk(g, start, parent, depth + 1);
    var i :| 0 <= i < |g[current]| && g[current][i] == parent;
    assert parent in Nodes(g, start);
    RequeueOrdered(depths, queue, current, depth, parent);
    RequeueSettled(g, depths, queue, current, depth, parent);
  }

  /** A parent that needs recording is one not met before, and queueing it keeps the queue ordered. */
  lemma RequeueOrdered(depths: map<nat, nat>, queue: seq<(nat, nat)>, current: nat, depth: nat, parent: nat)
    requires parent !in depths || depth + 1 < depths[parent]
    requires QueueOk(depths, [(current, depth)] + queue)
    ensures parent !in depths
    ensures QueueOk(depths[parent := depth + 1], [(current, depth)] + (queue + [(parent, depth + 1)]))
  {
    var before := [(current, depth)] + queue;
    var after := [(current, depth)] + (queue + [(parent, depth + 1)]);
    assert after == before + [(parent, depth + 1)];
    assert before[0] == (current, depth) && before[|before| - 1].1 <= depth + 1;
  }

  lemma RequeueSettled(g: Graph, depths: map<nat, nat>, queue: seq<(nat, nat)>, current: nat, depth: nat, parent: nat)
    requires parent !in depths
    requires Settled(g, depths, {current} + Queued(queue))
    ensures Settled(g, depths[parent := depth + 1], {current} + Queued(queue + [(parent, depth + 1)]))
  {
    var queue' := queue + [(parent, depth + 1)];
    assert queue'[|queue|].0 == parent;
    forall x | x in Queued(queue)
      ensures x in Queued(queue')
    {
      var k :| 0 <= k < |queue| && queue[k].0 == x;
      assert queue'[k].0 == x;
    }
    var depths' := depths[parent := depth + 1];
    forall x | x in depths' && x !in {current} + Queued(queue')
      ensures Recorded(g, depths', x)
    {
      assert Recorded(g, depths, x);
    }
  }

  lemma QueueTail(depths: map<nat, nat>, queue: seq<(nat, nat)>)
    requires queue != [] && QueueOk(depths, queue)
    ensures QueueOk(depths, queue[1..])
  {
    var rest := queue[1..];
    forall j, k | 0 <= j <= k < |rest|
      ensures rest[j].1 <= rest[k].1 <= rest[0].1 + 1
    {
      assert rest[j] == queue[j + 1] && rest[k] == queue[k + 1] && rest[0] == queue[1];
    }
  }

  /** With all its parents recorded, the expanded commit needs no place on the queue. */
  lemma FrontLeaves(g: Graph, start: nat, depths: map<nat, nat>, queue: seq<(nat, nat)>, current: nat, depth: nat)
    requires Expanding(g, start, depths, queue, current, depth)
    requires forall k :: 0 <= k < |g[current]| ==> g[current][k] in depths && depths[g[current][k]] <= depth + 1
    ensures Searching(g, start, depths, queue)
  {
    QueueTail(depths, [(current, depth)] + queue);
    assert ([(current, depth)] + queue)[1..] == queue;
    forall x | x in depths && x !in Queued(queue)
      ensures Recorded(g, depths, x)
    {
    }
  }

  // -------------------------------------------------------------------------
  // Selecting the base
  // -------------------------------------------------------------------------

  /** Best common ancestor of two commits, or why there is none. */
  /**
   Finds the common ancestor with the smallest larger depth; among those, with the smallest sum of
   depths; among those, with the first name.
   */
  method FindMergeBase(g: Graph, a: nat, b: nat) returns (r: Result<nat>)
    ensures r.Ok? ==> a in g && b in g && IsMergeBase(g, a, b, r.value)
    ensures r.Ok? ==> Ancestor(g, a, r.value) && Ancestor(g, b, r.value)
    ensures r.Ok? ==> forall y :: Ancestor(g, a, y) && Ancestor(g, b, y) && y != r.value ==>
      var (ra, rb, ya, yb) := (Dist(g, a, r.value), Dist(g, b, r.value), Dist(g, a, y), Dist(g, b, y));
      var (rm, ym) := (if ra < rb then rb else ra, if ya < yb then yb else ya);
      && rm <= ym
      && (rm == ym ==> ra + rb <= ya + yb)
      && (rm == ym && ra + rb == ya + yb ==>
            Lexicographic.Less(Lexicographic.Codes(CommitName(r.value)), Lexicographic.Codes(CommitName(y))))
    ensures WellFormed(g) && a in g && b in g ==> r.Ok?
    ensures a !in g || b !in g ==> r == Err(Internal)
  {
    if a !in g || b !in g {
      return Err(Internal);
    }
    if a == b {
      ItsOwnMergeBase(g, a);
      MergeBaseIsNearest(g, a, b, a);
      return Ok(a);
    }
    if WellFormed(g) {
      AncestorsAreCommits(g, a);
      AncestorsAreCommits(g, b);
    }
    var depthsA := AncestorDepths(g, a);
    if depthsA.Err? {
      return Err(depthsA.status);
    }
    var depthsB := AncestorDepths(g, b);
    if depthsB.Err? {
      return Err(depthsB.status);
    }
    var best: Option<nat> := None;
    var todo := depthsA.value.Keys;
    while todo != {}
      invariant todo <= depthsA.value.Keys
      invariant best.Some? ==> best.value in depthsA.value && best.value in depthsB.value && best.value !in todo
      invariant forall y :: y in depthsA.value && y in depthsB.value && y !in todo ==>
        best.Some? &&
        (y != best.value ==>
          Preferred(best.value, depthsA.value[best.value], depthsB.value[best.value], y, depthsA.value[y],
                    depthsB.value[y]))
    {
      var x :| x in todo;
      if x in depthsB.value {
        if best.None? ||
           Preferred(x, depthsA.value[x], depthsB.value[x],
                     best.value, depthsA.value[best.value], depthsB.value[best.value])
        {
          if best.Some? {
            NewBest(depthsA.value, depthsB.value, todo, best.value, x);
          }
          best := Some(x);
        } else {
          PreferredIsTotal(x, depthsA.value[x], depthsB.value[x],
                           best.value, depthsA.value[best.value], depthsB.value[best.value]);
        }
      }
      todo := todo - {x};
    }
    if best.None? {
      if WellFormed(g) {
        RootIsAncestor(g, a);
        RootIsAncestor(g, b);
      }
      return Err(FailedPrecondition);
    }
    BestIsMergeBase(g, a, b, depthsA.value, depthsB.value, best.value);
    MergeBaseIsNearest(g, a, b, best.value);
    return Ok(best.value);
  }

  /** What being preferred to every other common ancestor means. */
  lemma MergeBaseIsNearest(g: Graph, a: nat, b: nat, r: nat)
    requires IsMergeBase(g, a, b, r)
    ensures Ancestor(g, a, r) && Ancestor(g, b, r)
    ensures forall y :: Ancestor(g, a, y) && Ancestor(g, b, y) && y != r ==>
      var (ra, rb, ya, yb) := (Dist(g, a, r), Dist(g, b, r), Dist(g, a, y), Dist(g, b, y));
      var (rm, ym) := (if ra < rb then rb else ra, if ya < yb then yb else ya);
      && rm <= ym
      && (rm == ym ==> ra + rb <= ya + yb)
      && (rm == ym && ra + rb == ya + yb ==>
            Lexicographic.Less(Lexicographic.Codes(CommitName(r)), Lexicographic.Codes(CommitName(y))))
  {
    forall y | Ancestor(g, a, y) && Ancestor(g, b, y) && y != r
      ensures Beats(g, a, b, r, y)
    {
      assert Common(g, a, b, y);
    }
  }

  lemma NewBest(da: map<nat, nat>, db: map<nat, nat>, todo: set<nat>, best: nat, x: nat)
    requires best in da && best in db && x in da && x in db
    requires Preferred(x, da[x], db[x], best, da[best], db[best])
    requires forall y :: y in da && y in db && y !in todo && y != best ==>
      Preferred(best, da[best], db[best], y, da[y], db[y])
    ensures forall y :: y in da && y in db && y !in todo ==> Preferred(x, da[x], db[x], y, da[y], db[y])
  {
    forall y | y in da && y in db && y !in todo
      ensures Preferred(x, da[x], db[x], y, da[y], db[y])
    {
      if y != best {
        PreferredTransitive(x, da[x], db[x], best, da[best], db[best], y, da[y], db[y]);
      }
    }
  }

  lemma BestIsMergeBase(g: Graph, a: nat, b: nat, da: map<nat, nat>, db: map<nat, nat>, best: nat)
    requires forall x :: x in da <==> Ancestor(g, a, x)
    requires forall x :: x in db <==> Ancestor(g, b, x)
    requires forall x :: x in da ==> IsDist(g, a, x, da[x])
    requires forall x :: x in db ==> IsDist(g, b, x, db[x])
    requires best in da && best in db
    requires forall y :: y in da && y in db && y != best ==> Preferred(best, da[best], db[best], y, da[y], db[y])
    ensures IsMergeBase(g, a, b, best)
  {
    forall y | Common(g, a, b, y)
      ensures da[y] == Dist(g, a, y) && db[y] == Dist(g, b, y)
    {
      DistIs(g, a, y, da[y]);
      DistIs(g, b, y, db[y]);
    }
    assert Common(g, a, b, best);
  }

  lemma ItsOwnMergeBase(g: Graph, a: nat)
    ensures IsMergeBase(g, a, a, a)
  {
    assert Walk(g, a, a, 0);
    DistIs(g, a, a, 0);
    forall y | Common(g, a, a, y) && y != a
      ensures Dist(g, a, y) != 0
    {
    }
  }

  lemma AncestorsAreCommits(g: Graph, a: nat)
    requires WellFormed(g) && a in g
    ensures forall x :: Ancestor(g, a, x) ==> x in g
  {
    forall x, n: nat | Walk(g, a, x, n)
      ensures x in g
    {
      WalkStaysInside(g, a, x, n);
    }
  }
}
