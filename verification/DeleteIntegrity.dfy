/**
 Referential integrity on delete: which artifacts a delete takes with it, which references it clears
 and what forbids it, over a reference graph that may contain cycles.
 */
module DeleteIntegrity {

  datatype Policy = Unspecified | Restrict | Cascade | SetNull

  datatype RefDef = RefDef(keyType: string, targetType: string, referencingType: string, field: string,
                           onDelete: Policy)

  datatype Effect =
    | CascadeDelete(id: nat)
    | SetNullUpdate(referencing: nat, field: string, removed: nat)

  /** What enforcement reads: reference definitions, covering indexes and the types of live artifacts. */
  datatype View = View(defs: seq<RefDef>, covering: map<(RefDef, nat), seq<nat>>, types: map<nat, string>)

  function Referencers(v: View, rd: RefDef, x: nat): seq<nat> {
    if (rd, x) in v.covering then v.covering[(rd, x)] else []
  }

  /** Every artifact id that a covering index mentions. */
  ghost function Universe(v: View): set<nat> {
    set p, i | p in v.covering && 0 <= i < |v.covering[p]| :: v.covering[p][i]
  }

  function CascadeIds(effects: seq<Effect>): set<nat> {
    set i | 0 <= i < |effects| && effects[i].CascadeDelete? :: effects[i].id
  }

  // -------------------------------------------------------------------------
  // What a delete has to take care of
  // -------------------------------------------------------------------------

  /** All references to `x` through `rd` are accounted for, given that `deleted` is going away. */
  ghost predicate DefHandled(v: View, x: nat, rd: RefDef, deleted: set<nat>, effects: seq<Effect>) {
    forall y :: y in Referencers(v, rd, x) && y != x ==>
      y in deleted || (rd.onDelete == SetNull && SetNullUpdate(y, rd.field, x) in effects)
  }

  ghost predicate HandledUpTo(v: View, x: nat, t: string, n: nat, deleted: set<nat>, effects: seq<Effect>)
    requires n <= |v.defs|
  {
    forall k :: 0 <= k < n && v.defs[k].targetType == t ==> DefHandled(v, x, v.defs[k], deleted, effects)
  }

  ghost predicate Handled(v: View, x: nat, t: string, deleted: set<nat>, effects: seq<Effect>) {
    HandledUpTo(v, x, t, |v.defs|, deleted, effects)
  }

  ghost predicate AllHandled(v: View, xs: set<nat>, deleted: set<nat>, effects: seq<Effect>) {
    forall x :: x in xs && x in v.types ==> Handled(v, x, v.types[x], deleted, effects)
  }

  /** Whoever refers to a member through a CASCADE reference is a member. */
  ghost predicate CascadeClosed(v: View, s: set<nat>) {
    forall x, k, y ::
      (&& x in s && x in v.types && 0 <= k < |v.defs|
       && v.defs[k].targetType == v.types[x] && v.defs[k].onDelete == Cascade
       && y in Referencers(v, v.defs[k], x)) ==> y in s
  }

  /** `y` refers to `x` through definition `k`, which forbids deleting `x` while it does. */
  ghost predicate Forbids(v: View, x: nat, k: nat, y: nat) {
    && x in v.types && k < |v.defs| && v.defs[k].targetType == v.types[x]
    && (v.defs[k].onDelete == Restrict || v.defs[k].onDelete == Unspecified)
    && y in Referencers(v, v.defs[k], x) && y != x
  }

  /** Some member is referred to, by something else, through a reference that forbids deleting it. */
  ghost predicate Blocked(v: View, s: set<nat>) {
    exists x: nat, k: nat, y: nat :: x in s && Forbids(v, x, k, y)
  }

  /** The same, by something that stays. */
  ghost predicate BlockedFromOutside(v: View, s: set<nat>) {
    exists x: nat, k: nat, y: nat :: x in s && y !in s && Forbids(v, x, k, y)
  }

  /** Members do not forbid deleting each other. */
  ghost predicate Harmonious(v: View, s: set<nat>) {
    forall x: nat, k: nat, y: nat :: x in s && y in s ==> !Forbids(v, x, k, y)
  }

  /** The least set that contains the root and is closed under CASCADE referencers. */
  ghost function CascadeOf(v: View, root: nat): (d: set<nat>)
    ensures root in d && CascadeClosed(v, d)
    ensures forall s: set<nat> :: root in s && CascadeClosed(v, s) ==> d <= s
  {
    var d := set x | x in Universe(v) + {root} && InEveryCascade(v, root, x);
    CascadeIsLeast(v, root, d);
    d
  }

  ghost predicate InEveryCascade(v: View, root: nat, x: nat) {
    forall s: set<nat> :: root in s && CascadeClosed(v, s) ==> x in s
  }

  lemma CascadeIsLeast(v: View, root: nat, d: set<nat>)
    requires forall x :: x in d <==> x in Universe(v) + {root} && InEveryCascade(v, root, x)
    ensures root in d && CascadeClosed(v, d)
    ensures forall s: set<nat> :: root in s && CascadeClosed(v, s) ==> d <= s
  {
    forall x, k, y |
      && x in d && x in v.types && 0 <= k < |v.defs|
      && v.defs[k].targetType == v.types[x] && v.defs[k].onDelete == Cascade
      && y in Referencers(v, v.defs[k], x)
      ensures y in d
    {
      assert (v.defs[k], x) in v.covering;
      forall s: set<nat> | root in s && CascadeClosed(v, s)
        ensures y in s
      {
        assert x in s;
      }
    }
  }

  /** References are cleared only where there is a SET_NULL reference to something deleted. */
  ghost predicate NullsSound(v: View, deleted: set<nat>, effects: seq<Effect>) {
    forall i :: 0 <= i < |effects| && effects[i].SetNullUpdate? ==>
      effects[i].removed in deleted && IsNullReference(v, effects[i])
  }

  ghost predicate IsNullReference(v: View, e: Effect)
    requires e.SetNullUpdate?
  {
    exists k :: 0 <= k < |v.defs| && v.defs[k].onDelete == SetNull && v.defs[k].field == e.field
                && e.referencing in Referencers(v, v.defs[k], e.removed)
  }

  /** Deleting the seeds forces deleting `ids`, and if `refused`, the forced deletes are blocked. */
  ghost predicate Forced(v: View, seeds: set<nat>, ids: set<nat>, refused: bool) {
    forall s: set<nat> :: seeds <= s && CascadeClosed(v, s) ==> ids <= s && (refused ==> Blocked(v, s))
  }

  /** Something unscheduled refers to `x` through a reference that forbids deleting it. */
  ghost predicate Restricted(v: View, x: nat, t: string, scheduled: set<nat>, n: nat)
    requires n <= |v.defs|
  {
    exists k, y :: 0 <= k < n && RestrictedBy(v, x, t, scheduled, k, y)
  }

  ghost predicate RestrictedBy(v: View, x: nat, t: string, scheduled: set<nat>, k: nat, y: nat)
    requires k < |v.defs|
  {
    && v.defs[k].targetType == t && (v.defs[k].onDelete == Restrict || v.defs[k].onDelete == Unspecified)
    && y in Referencers(v, v.defs[k], x) && y != x && y !in scheduled
  }

  // -------------------------------------------------------------------------
  // Enforcement
  // -------------------------------------------------------------------------

  function Active(ids: seq<nat>, scheduled: set<nat>, x: nat): (r: seq<nat>)
    ensures forall y :: y in r <==> y in ids && y !in scheduled && y != x
  {
    if ids == [] then []
    else if ids[0] !in scheduled && ids[0] != x then [ids[0]] + Active(ids[1..], scheduled, x)
    else Active(ids[1..], scheduled, x)
  }

  function CascadesOf(ids: seq<nat>): (r: seq<Effect>)
    ensures |r| == |ids| && forall i :: 0 <= i < |ids| ==> r[i] == CascadeDelete(ids[i])
  {
    seq(|ids|, i requires 0 <= i < |ids| => CascadeDelete(ids[i]))
  }

  function NullsOf(ids: seq<nat>, field: string, x: nat): (r: seq<Effect>)
    ensures |r| == |ids| && forall i :: 0 <= i < |ids| ==> r[i] == SetNullUpdate(ids[i], field, x)
  {
    seq(|ids|, i requires 0 <= i < |ids| => SetNullUpdate(ids[i], field, x))
  }

  lemma CascadeIdsConcat(a: seq<Effect>, b: seq<Effect>)
    ensures CascadeIds(a + b) == CascadeIds(a) + CascadeIds(b)
  {
    var c := a + b;
    forall y | y in CascadeIds(b)
      ensures y in CascadeIds(c)
    {
      var i :| 0 <= i < |b| && b[i].CascadeDelete? && b[i].id == y;
      assert c[|a| + i] == b[i];
    }
    forall y | y in CascadeIds(a)
      ensures y in CascadeIds(c)
    {
      var i :| 0 <= i < |a| && a[i].CascadeDelete? && a[i].id == y;
      assert c[i] == a[i];
    }
  }

  lemma CascadeIdsOf(ids: seq<nat>, field: string, x: nat)
    ensures forall y :: y in CascadeIds(CascadesOf(ids)) <==> y in ids
    ensures CascadeIds(NullsOf(ids, field, x)) == {}
  {
    forall y | y in ids
      ensures y in CascadeIds(CascadesOf(ids))
    {
      var i :| 0 <= i < |ids| && ids[i] == y;
      assert CascadesOf(ids)[i] == CascadeDelete(y);
    }
  }

  /** More deletes and more effects never undo what was accounted for. */
  lemma HandledMore(v: View, x: nat, t: string, n: nat, d: set<nat>, e: seq<Effect>, d': set<nat>, e': seq<Effect>)
    requires n <= |v.defs| && HandledUpTo(v, x, t, n, d, e)
    requires d <= d' && forall f :: f in e ==> f in e'
    ensures HandledUpTo(v, x, t, n, d', e')
  {
  }

  lemma AllHandledMore(v: View, xs: set<nat>, d: set<nat>, e: seq<Effect>, d': set<nat>, e': seq<Effect>)
    requires AllHandled(v, xs, d, e)
    requires d <= d' && forall f :: f in e ==> f in e'
    ensures AllHandled(v, xs, d', e')
  {
    forall x | x in xs && x in v.types
      ensures Handled(v, x, v.types[x], d', e')
    {
      HandledMore(v, x, v.types[x], |v.defs|, d, e, d', e');
    }
  }

  lemma NullsSoundConcat(v: View, d: set<nat>, a: seq<Effect>, d': set<nat>, b: seq<Effect>, all: set<nat>)
    requires NullsSound(v, d, a) && NullsSound(v, d', b) && d <= all && d' <= all
    ensures NullsSound(v, all, a + b)
  {
  }

  /**
   The violations and side effects of deleting `id`, given what is already scheduled. The scheduled
   set grows strictly with every level of recursion, so cycles end. With no violations everything
   that refers to `id`, or to anything cascaded, is accounted for; nothing is cascaded that the
   CASCADE references do not force; a violation means the forced deletes really are blocked, and any
   unscheduled forbidding reference to `id` itself is one.
   */
  method EnforceDeleteIntegrity(v: View, id: nat, typeName: string, scheduled: set<nat>)
    returns (violations: seq<string>, effects: seq<Effect>)
    ensures violations == [] ==>
      var deleted := scheduled + {id} + CascadeIds(effects);
      Handled(v, id, typeName, deleted, effects) && AllHandled(v, CascadeIds(effects), deleted, effects)
    ensures Restricted(v, id, typeName, scheduled, |v.defs|) ==> violations != []
    ensures CascadeIds(effects) !! scheduled && NullsSound(v, {id} + CascadeIds(effects), effects)
    ensures id in v.types && v.types[id] == typeName ==> Forced(v, {id}, CascadeIds(effects), violations != [])
    decreases Universe(v) - scheduled, 1
  {
    hide NullsSound, Forced, AllHandled;
    violations, effects := [], [];
    assert CascadeIds(effects) == {} && {id} + CascadeIds(effects) == {id};
    NothingYet(v, {id}, {id}, scheduled + {id} + CascadeIds(effects));
    for k := 0 to |v.defs|
      invariant violations == [] ==>
        var deleted := scheduled + {id} + CascadeIds(effects);
        HandledUpTo(v, id, typeName, k, deleted, effects) && AllHandled(v, CascadeIds(effects), deleted, effects)
      invariant Restricted(v, id, typeName, scheduled, k) ==> violations != []
      invariant CascadeIds(effects) !! scheduled && NullsSound(v, {id} + CascadeIds(effects), effects)
      invariant id in v.types && v.types[id] == typeName ==> Forced(v, {id}, CascadeIds(effects), violations != [])
    {
      var rd := v.defs[k];
      if rd.targetType == typeName {
        var active := Active(Referencers(v, rd, id), scheduled, id);
        if active != [] {
          var moreViolations, moreEffects := EnforceDef(v, id, k, active, scheduled);
          CascadeIdsConcat(effects, moreEffects);
          if violations + moreViolations == [] {
            DefStep(v, id, typeName, k, scheduled, effects, moreEffects);
          }
          NullsSoundConcat(v, {id} + CascadeIds(effects), effects, {id} + CascadeIds(moreEffects), moreEffects,
                           {id} + CascadeIds(effects + moreEffects));
          if id in v.types && v.types[id] == typeName {
            ForcedMore(v, {id}, CascadeIds(effects), violations != [], CascadeIds(moreEffects), moreViolations != []);
          }
          violations, effects := violations + moreViolations, effects + moreEffects;
        }
      }
    }
  }

  lemma DefStep(v: View, id: nat, t: string, k: nat, scheduled: set<nat>, e: seq<Effect>, more: seq<Effect>)
    requires k < |v.defs|
    requires HandledUpTo(v, id, t, k, scheduled + {id} + CascadeIds(e), e)
    requires AllHandled(v, CascadeIds(e), scheduled + {id} + CascadeIds(e), e)
    requires DefHandled(v, id, v.defs[k], scheduled + {id} + CascadeIds(more), more)
    requires AllHandled(v, CascadeIds(more), scheduled + {id} + CascadeIds(more), more)
    ensures HandledUpTo(v, id, t, k + 1, scheduled + {id} + CascadeIds(e + more), e + more)
    ensures AllHandled(v, CascadeIds(e + more), scheduled + {id} + CascadeIds(e + more), e + more)
  {
    CascadeIdsConcat(e, more);
    var deleted := scheduled + {id} + CascadeIds(e + more);
    HandledMore(v, id, t, k, scheduled + {id} + CascadeIds(e), e, deleted, e + more);
    AllHandledMore(v, CascadeIds(e), scheduled + {id} + CascadeIds(e), e, deleted, e + more);
    AllHandledMore(v, CascadeIds(more), scheduled + {id} + CascadeIds(more), more, deleted, e + more);
  }

  lemma NothingYet(v: View, seeds: set<nat>, deleted: set<nat>, all: set<nat>)
    ensures NullsSound(v, deleted, []) && AllHandled(v, {}, all, []) && Forced(v, seeds, {}, false)
  {
  }

  lemma ForcedMore(v: View, seeds: set<nat>, ids: set<nat>, refused: bool, ids': set<nat>, refused': bool)
    requires Forced(v, seeds, ids, refused) && Forced(v, seeds, ids', refused')
    ensures Forced(v, seeds, ids + ids', refused || refused')
  {
  }

  /** One reference definition with someone actively referring through it. */
  method EnforceDef(v: View, id: nat, k: nat, active: seq<nat>, scheduled: set<nat>)
    returns (violations: seq<string>, effects: seq<Effect>)
    requires k < |v.defs| && active != []
    requires active == Active(Referencers(v, v.defs[k], id), scheduled, id)
    ensures violations == [] ==>
      var deleted := scheduled + {id} + CascadeIds(effects);
      DefHandled(v, id, v.defs[k], deleted, effects) && AllHandled(v, CascadeIds(effects), deleted, effects)
    ensures v.defs[k].onDelete == Restrict || v.defs[k].onDelete == Unspecified ==> violations != []
    ensures CascadeIds(effects) !! scheduled && NullsSound(v, {id} + CascadeIds(effects), effects)
    ensures id in v.types && v.types[id] == v.defs[k].targetType ==>
      Forced(v, {id}, CascadeIds(effects), violations != [])
    decreases Universe(v) - scheduled, 0, 1
  {
    var rd := v.defs[k];
    CascadeIdsOf(active, rd.field, id);
    match rd.onDelete {
      case Cascade =>
        violations, effects := EnforceCascade(v, active, scheduled);
      case SetNull =>
        violations, effects := [], NullsOf(active, rd.field, id);
        forall y | y in active
          ensures SetNullUpdate(y, rd.field, id) in effects
        {
          var i :| 0 <= i < |active| && active[i] == y;
          assert effects[i] == SetNullUpdate(y, rd.field, id);
        }
      case _ =>
        violations, effects := [rd.keyType], [];
        assert active[0] in Referencers(v, rd, id) && active[0] != id;
        if id in v.types && v.types[id] == rd.targetType {
          assert Forbids(v, id, k, active[0]);
        }
    }
  }

  /** Cascade to everything active, then enforce for each of them with all of them scheduled. */
  method EnforceCascade(v: View, active: seq<nat>, scheduled: set<nat>)
    returns (violations: seq<string>, effects: seq<Effect>)
    requires active != [] && forall y :: y in active ==> y in Universe(v) && y !in scheduled
    ensures forall y :: y in active ==> y in CascadeIds(effects)
    ensures violations == [] ==> AllHandled(v, CascadeIds(effects), scheduled + CascadeIds(effects), effects)
    ensures CascadeIds(effects) !! scheduled && NullsSound(v, CascadeIds(effects), effects)
    ensures Forced(v, Rest(active, 0), CascadeIds(effects), violations != [])
    decreases Universe(v) - scheduled, 0, 0
  {
    hide HandledUpTo, NullsSound, Forced, CascadeIds;
    violations, effects := [], CascadesOf(active);
    StartCascade(v, active);
    ghost var seeds := Rest(active, 0);
    var updated := scheduled + (set y | y in active);
    assert active[0] in updated;
    for i := 0 to |active|
      invariant updated == scheduled + CascadeIds(effects)
      invariant forall y :: y in active ==> y in CascadeIds(effects)
      invariant violations == [] ==> AllHandled(v, CascadeIds(effects) - Rest(active, i), updated, effects)
      invariant CascadeIds(effects) !! scheduled && NullsSound(v, CascadeIds(effects), effects)
      invariant Forced(v, seeds, CascadeIds(effects), violations != [])
    {
      var y := active[i];
      if y in v.types {
        assert active[0] in updated;
        var subViolations, subEffects := EnforceDeleteIntegrity(v, y, v.types[y], updated);
        CascadeIdsConcat(effects, subEffects);
        if violations + subViolations == [] {
          CascadeStep(v, active, i, updated, effects, subEffects);
        }
        NullsSoundConcat(v, CascadeIds(effects), effects, {y} + CascadeIds(subEffects), subEffects,
                         CascadeIds(effects + subEffects));
        SeededForced(v, seeds, y, CascadeIds(subEffects), subViolations != []);
        ForcedMore(v, seeds, CascadeIds(effects), violations != [], CascadeIds(subEffects), subViolations != []);
        violations, effects := violations + subViolations, effects + subEffects;
        updated := updated + CascadeIds(subEffects);
      }
    }
    assert CascadeIds(effects) - Rest(active, |active|) == CascadeIds(effects);
  }

  lemma StartCascade(v: View, active: seq<nat>)
    ensures CascadeIds(CascadesOf(active)) == (set y | y in active) == Rest(active, 0)
    ensures NullsSound(v, CascadeIds(CascadesOf(active)), CascadesOf(active))
    ensures Forced(v, Rest(active, 0), CascadeIds(CascadesOf(active)), false)
  {
    CascadeIdsOf(active, "", 0);
  }

  lemma SeededForced(v: View, seeds: set<nat>, y: nat, ids: set<nat>, refused: bool)
    requires y in seeds && Forced(v, {y}, ids, refused)
    ensures Forced(v, seeds, ids, refused)
  {
  }

  ghost function Rest(active: seq<nat>, i: nat): set<nat>
    requires i <= |active|
  {
    set j | i <= j < |active| :: active[j]
  }

  /** Enforcing for one more cascaded artifact accounts for it and for all it brought along. */
  lemma CascadeStep(v: View, active: seq<nat>, i: nat, updated: set<nat>, effects: seq<Effect>, more: seq<Effect>)
    requires i < |active| && active[i] in v.types && active[i] in updated
    requires AllHandled(v, CascadeIds(effects) - Rest(active, i), updated, effects)
    requires Handled(v, active[i], v.types[active[i]], updated + {active[i]} + CascadeIds(more), more)
    requires AllHandled(v, CascadeIds(more), updated + {active[i]} + CascadeIds(more), more)
    ensures AllHandled(v, CascadeIds(effects + more) - Rest(active, i + 1), updated + CascadeIds(more), effects + more)
  {
    var deleted, e := updated + CascadeIds(more), effects + more;
    CascadeIdsConcat(effects, more);
    assert updated + {active[i]} + CascadeIds(more) == deleted;
    assert Rest(active, i) <= Rest(active, i + 1) + {active[i]};
    AllHandledMore(v, CascadeIds(effects) - Rest(active, i), updated, effects, deleted, e);
    AllHandledMore(v, CascadeIds(more), deleted, more, deleted, e);
    HandledMore(v, active[i], v.types[active[i]], |v.defs|, deleted, more, deleted, e);
  }

  // -------------------------------------------------------------------------
  // The plan for a whole delete
  // -------------------------------------------------------------------------

  /**
   Deleting `root` with these effects: the deleted set is the least set containing it and closed
   under CASCADE referencers, nothing outside refers to it through a forbidding reference, and every
   SET_NULL reference to it from outside is cleared.
   */
  ghost predicate IsDeletePlan(v: View, root: nat, effects: seq<Effect>) {
    var deleted := {root} + CascadeIds(effects);
    deleted == CascadeOf(v, root) && AllHandled(v, deleted, deleted, effects) && NullsSound(v, deleted, effects)
  }

  /**
   Accepted plans are exact, and so is refusal whenever the artifacts to be deleted do not forbid
   deleting each other: then a delete is refused exactly if something that stays forbids it. Where
   they do forbid each other, a reference counts unless its holder happens to be scheduled already, so
   the outcome depends on the order of definitions and index rows; even then something that stays and
   forbids the delete always refuses it.
   */
  method PlanDelete(v: View, root: nat) returns (violations: seq<string>, effects: seq<Effect>)
    requires root in v.types
    ensures violations == [] ==> IsDeletePlan(v, root, effects)
    ensures violations != [] ==> forall s: set<nat> :: root in s && CascadeClosed(v, s) ==> Blocked(v, s)
    ensures Restricted(v, root, v.types[root], {root}, |v.defs|) ==> violations != []
    ensures BlockedFromOutside(v, CascadeOf(v, root)) ==> violations != []
    ensures Harmonious(v, CascadeOf(v, root)) ==> (violations != [] <==> BlockedFromOutside(v, CascadeOf(v, root)))
  {
    hide HandledUpTo, NullsSound, CascadeClosed, Forbids;
    violations, effects := EnforceDeleteIntegrity(v, root, v.types[root], {root});
    if violations == [] {
      var deleted := {root} + CascadeIds(effects);
      assert deleted == {root} + {root} + CascadeIds(effects);
      HandledIsClosed(v, deleted, effects);
      HandledIsFree(v, deleted, effects);
      assert deleted == CascadeOf(v, root);
    }
  }

  lemma HandledIsFree(v: View, deleted: set<nat>, effects: seq<Effect>)
    requires AllHandled(v, deleted, deleted, effects)
    ensures !BlockedFromOutside(v, deleted)
  {
    forall x: nat, k: nat, y: nat | x in deleted && y !in deleted
      ensures !Forbids(v, x, k, y)
    {
      assert x in v.types ==> Handled(v, x, v.types[x], deleted, effects);
    }
  }

  lemma HandledIsClosed(v: View, deleted: set<nat>, effects: seq<Effect>)
    requires AllHandled(v, deleted, deleted, effects)
    ensures CascadeClosed(v, deleted)
  {
    forall x, k, y |
      && x in deleted && x in v.types && 0 <= k < |v.defs|
      && v.defs[k].targetType == v.types[x] && v.defs[k].onDelete == Cascade
      && y in Referencers(v, v.defs[k], x)
      ensures y in deleted
    {
      assert Handled(v, x, v.types[x], deleted, effects);
      assert DefHandled(v, x, v.defs[k], deleted, effects);
    }
  }

  /**
   Enforcement is cautious: a forbidding reference counts unless its holder is already scheduled,
   even when the same delete goes on to cascade to the holder. Here 2 refers to 1 both ways, so
   deleting 1 is refused although the set it would delete leaves no reference behind.
   */
  lemma RefusedThoughCovered() returns (v: View)
    ensures v.types == map[1 := "A", 2 := "B"] && Restricted(v, 1, "A", {1}, |v.defs|)
    ensures CascadeClosed(v, {1, 2}) && Forced(v, {1}, {1, 2}, false) && AllHandled(v, {1, 2}, {1, 2}, [])
  {
    var r := RefDef("r", "A", "B", "left", Restrict);
    var c := RefDef("c", "A", "B", "right", Cascade);
    v := View([r, c], map[(r, 1) := [2], (c, 1) := [2]], map[1 := "A", 2 := "B"]);
    assert 2 in Referencers(v, v.defs[0], 1) && 2 in Referencers(v, v.defs[1], 1);
    assert RestrictedBy(v, 1, "A", {1}, 0, 2);
  }
}
