/**
 Path-wise three-way merge of object snapshots, and staging overlays on them.
 */
module ThreeWayMerge {
  import opened Results

  function Lookup<P, V>(m: map<P, V>, p: P): Option<V> {
    if p in m then Some(m[p]) else None
  }

  /** Staged changes over a snapshot; `None` is a delete tombstone. */
  function Overlay<P, V>(base: map<P, V>, staging: map<P, Option<V>>): map<P, V> {
    map p | p in base.Keys + staging.Keys && (p in staging ==> staging[p].Some?) ::
      if p in staging then staging[p].value else base[p]
  }

  /** Both sides moved away from the base, to different places. */
  predicate Diverges<V(==)>(base: Option<V>, source: Option<V>, target: Option<V>) {
    source != base && target != base && source != target
  }

  /** What one path becomes: the side that changed wins. */
  function Resolved<V(==)>(base: Option<V>, source: Option<V>, target: Option<V>): Option<V> {
    if source != base then source else target
  }

  function ConflictPaths<P(==), V(==)>(base: map<P, V>, source: map<P, V>, target: map<P, V>): set<P> {
    set p | p in base.Keys + source.Keys + target.Keys
      && Diverges(Lookup(base, p), Lookup(source, p), Lookup(target, p))
  }

  function Merged<P(==), V(==)>(base: map<P, V>, source: map<P, V>, target: map<P, V>): map<P, V> {
    map p | p in base.Keys + source.Keys + target.Keys
      && Resolved(Lookup(base, p), Lookup(source, p), Lookup(target, p)).Some? ::
      Resolved(Lookup(base, p), Lookup(source, p), Lookup(target, p)).value
  }

  lemma OverlayAt<P, V>(base: map<P, V>, staging: map<P, Option<V>>, p: P)
    ensures Lookup(Overlay(base, staging), p) == if p in staging then staging[p] else Lookup(base, p)
  {
  }

  lemma MergedAt<P, V>(base: map<P, V>, source: map<P, V>, target: map<P, V>, p: P)
    ensures Lookup(Merged(base, source, target), p) == Resolved(Lookup(base, p), Lookup(source, p), Lookup(target, p))
  {
  }

  /** A path is in conflict iff both sides changed it, and to different things. */
  lemma ConflictsAre<P, V>(base: map<P, V>, source: map<P, V>, target: map<P, V>, p: P)
    ensures p in ConflictPaths(base, source, target) <==>
            && Lookup(source, p) != Lookup(base, p) && Lookup(target, p) != Lookup(base, p)
            && Lookup(source, p) != Lookup(target, p)
  {
  }

  /** Without conflicts, every path shows the side that changed it, and the base where neither did. */
  lemma MergedIs<P(!new), V>(base: map<P, V>, source: map<P, V>, target: map<P, V>, p: P)
    requires ConflictPaths(base, source, target) == {}
    ensures Lookup(target, p) == Lookup(base, p) ==> Lookup(Merged(base, source, target), p) == Lookup(source, p)
    ensures Lookup(source, p) == Lookup(base, p) ==> Lookup(Merged(base, source, target), p) == Lookup(target, p)
    ensures Lookup(source, p) == Lookup(target, p) ==> Lookup(Merged(base, source, target), p) == Lookup(source, p)
    ensures || Lookup(source, p) == Lookup(base, p) || Lookup(target, p) == Lookup(base, p)
            || Lookup(source, p) == Lookup(target, p)
  {
    assert p !in ConflictPaths(base, source, target);
  }

  lemma SameLookups<P, V>(a: map<P, V>, b: map<P, V>)
    requires forall p :: Lookup(a, p) == Lookup(b, p)
    ensures a == b
  {
    forall p
      ensures p in a <==> p in b
      ensures p in a && p in b ==> a[p] == b[p]
    {
      assert Lookup(a, p) == Lookup(b, p);
    }
  }

  /** Which branch is called the source does not matter, for conflicts or for contents. */
  lemma MergeSymmetric<P(!new), V>(base: map<P, V>, source: map<P, V>, target: map<P, V>)
    ensures ConflictPaths(base, source, target) == ConflictPaths(base, target, source)
    ensures ConflictPaths(base, source, target) == {} ==> Merged(base, source, target) == Merged(base, target, source)
  {
    if ConflictPaths(base, source, target) == {} {
      forall p
        ensures Lookup(Merged(base, source, target), p) == Lookup(Merged(base, target, source), p)
      {
        assert p !in ConflictPaths(base, source, target);
      }
      SameLookups(Merged(base, source, target), Merged(base, target, source));
    }
  }

  /** A target that has not moved receives exactly the source. */
  lemma FastForward<P(!new), V>(base: map<P, V>, source: map<P, V>)
    ensures ConflictPaths(base, source, base) == {} && Merged(base, source, base) == source
  {
    SameLookups(Merged(base, source, base), source);
  }

  /** A source that has not moved contributes nothing. */
  lemma NothingToMerge<P(!new), V>(base: map<P, V>, target: map<P, V>)
    ensures ConflictPaths(base, base, target) == {} && Merged(base, base, target) == target
  {
    SameLookups(Merged(base, base, target), target);
  }
}
