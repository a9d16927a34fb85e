/**
 References between artifacts over sequential runs of creates, updates and deletes on one branch.
 */
module ReferenceRuns {
  import opened Results
  import opened DeleteIntegrity
  import opened Sorting

  datatype FieldValue = Single(value: Option<nat>) | Many(values: seq<nat>)

  function Values(f: FieldValue): seq<nat> {
    match f
    case Single(None) => []
    case Single(Some(x)) => [x]
    case Many(xs) => xs
  }

  /** A stored artifact: its reference fields, and whether anything else is set in its payload. */
  datatype Stored = Stored(typeName: string, hasOther: bool, fields: map<string, FieldValue>)

  type Store = map<nat, Stored>

  /** A payload with nothing set has no bytes, and an envelope with no payload bytes is a tombstone. */
  predicate EmptyPayload(s: Stored) {
    !s.hasOther && forall f :: f in s.fields ==> Values(s.fields[f]) == []
  }

  predicate Live(st: Store, id: nat) {
    id in st && !EmptyPayload(st[id])
  }

  predicate Refers(s: Stored, f: string, x: nat) {
    f in s.fields && x in Values(s.fields[f])
  }

  /** The reference `f` of `y` to `x` names a live artifact of the right type. */
  predicate TargetOk(st: Store, rd: RefDef, x: nat) {
    Live(st, x) && st[x].typeName == rd.targetType
  }

  ghost predicate ArtifactOk(defs: seq<RefDef>, st: Store, s: Stored) {
    forall k, x :: 0 <= k < |defs| && defs[k].referencingType == s.typeName && Refers(s, defs[k].field, x) ==>
      TargetOk(st, defs[k], x)
  }

  /** No live artifact's reference field names a missing, tombstoned or wrong-typed artifact. */
  ghost predicate ReferencesOk(defs: seq<RefDef>, st: Store) {
    forall y :: Live(st, y) ==> ArtifactOk(defs, st, st[y])
  }

  // -------------------------------------------------------------------------
  // Validation on create and update
  // -------------------------------------------------------------------------

  datatype Violation =
    | DuplicateValue(field: string, id: nat)
    | TargetNotFound(field: string, id: nat)
    | TargetTombstoned(field: string, id: nat)
    | TargetWrongType(field: string, id: nat)

  function ValidateSingleReference(st: Store, rd: RefDef, x: nat): (r: Option<Violation>)
    ensures r.None? <==> TargetOk(st, rd, x)
    ensures r.Some? ==>
      r.value == if x !in st then TargetNotFound(rd.field, x)
                 else if !Live(st, x) then TargetTombstoned(rd.field, x)
                 else TargetWrongType(rd.field, x)
  {
    if x !in st then Some(TargetNotFound(rd.field, x))
    else if EmptyPayload(st[x]) then Some(TargetTombstoned(rd.field, x))
    else if st[x].typeName != rd.targetType then Some(TargetWrongType(rd.field, x))
    else None
  }

  /** No value is repeated and every value names a good target. */
  ghost predicate ValueOk(st: Store, rd: RefDef, value: FieldValue) {
    Distinct(Values(value)) && forall x :: x in Values(value) ==> TargetOk(st, rd, x)
  }

  /** One reference field: repeated values are reported, then each distinct value is checked once. */
  method ValidateField(st: Store, rd: RefDef, value: FieldValue) returns (violations: seq<Violation>)
    ensures violations == [] <==> ValueOk(st, rd, value)
  {
    violations := [];
    var xs := Values(value);
    var seen: set<nat> := {};
    for i := 0 to |xs|
      invariant forall x :: x in seen <==> x in xs[..i]
      invariant violations == [] <==> Distinct(xs[..i])
    {
      assert xs[..i + 1] == xs[..i] + [xs[i]];
      if xs[i] in seen {
        violations := violations + [DuplicateValue(rd.field, xs[i])];
        var j :| 0 <= j < i && xs[..i][j] == xs[i];
        assert xs[..i + 1][j] == xs[..i + 1][i];
      } else if Distinct(xs[..i]) {
        assert Distinct(xs[..i + 1]);
      } else {
        var a, b :| 0 <= a < b < i && xs[..i][a] == xs[..i][b];
        assert xs[..i + 1][a] == xs[..i + 1][b];
      }
      seen := seen + {xs[i]};
    }
    assert xs[..|xs|] == xs;
    var validated: set<nat> := {};
    for i := 0 to |xs|
      invariant forall x :: x in validated <==> x in xs[..i]
      invariant violations == [] <==> Distinct(xs) && forall x :: x in validated ==> TargetOk(st, rd, x)
    {
      assert xs[..i + 1] == xs[..i] + [xs[i]];
      if xs[i] !in validated {
        var r := ValidateSingleReference(st, rd, xs[i]);
        if r.Some? {
          violations := violations + [r.value];
        }
        validated := validated + {xs[i]};
      }
    }
  }

  /** A message as validation walks it: reference fields, and message fields with their messages. */
  datatype MessageTree = MessageTree(fields: seq<TreeField>)

  datatype TreeField = ReferenceField(rd: RefDef, value: FieldValue) | MessageField(messages: seq<MessageTree>)

  /** Every reference field of the message, however deeply nested, is good. */
  ghost predicate TreeOk(st: Store, m: MessageTree) {
    forall i :: 0 <= i < |m.fields| ==> TreeFieldOk(st, m.fields[i])
  }

  ghost predicate TreeFieldOk(st: Store, f: TreeField) {
    match f
    case ReferenceField(rd, value) => ValueOk(st, rd, value)
    case MessageField(messages) => forall i :: 0 <= i < |messages| ==> TreeOk(st, messages[i])
  }

  /** Validation descends into nested messages, singular and repeated alike. */
  method ValidateReferencesOnFields(st: Store, m: MessageTree) returns (violations: seq<Violation>)
    ensures violations == [] <==> TreeOk(st, m)
    decreases m
  {
    violations := [];
    for i := 0 to |m.fields|
      invariant violations == [] <==> forall j :: 0 <= j < i ==> TreeFieldOk(st, m.fields[j])
    {
      match m.fields[i]
      case ReferenceField(rd, value) =>
        var more := ValidateField(st, rd, value);
        violations := violations + more;
      case MessageField(messages) =>
        var more := ValidateMessages(st, messages);
        violations := violations + more;
    }
  }

  method ValidateMessages(st: Store, messages: seq<MessageTree>) returns (violations: seq<Violation>)
    ensures violations == [] <==> forall i :: 0 <= i < |messages| ==> TreeOk(st, messages[i])
    decreases messages
  {
    violations := [];
    for i := 0 to |messages|
      invariant violations == [] <==> forall j :: 0 <= j < i ==> TreeOk(st, messages[j])
    {
      var more := ValidateReferencesOnFields(st, messages[i]);
      violations := violations + more;
    }
  }

  /** The message shows the top-level references of a stored artifact, and may nest more. */
  ghost predicate Shows(defs: seq<RefDef>, s: Stored, m: MessageTree) {
    forall k :: 0 <= k < |defs| && defs[k].referencingType == s.typeName && defs[k].field in s.fields ==>
      ReferenceField(defs[k], s.fields[defs[k].field]) in m.fields
  }

  /** A payload that passed validation has good references. */
  lemma ValidatedIsOk(defs: seq<RefDef>, st: Store, s: Stored, m: MessageTree)
    requires Shows(defs, s, m) && TreeOk(st, m)
    ensures ArtifactOk(defs, st, s)
  {
    forall k, x | 0 <= k < |defs| && defs[k].referencingType == s.typeName && Refers(s, defs[k].field, x)
      ensures TargetOk(st, defs[k], x)
    {
      var i :| 0 <= i < |m.fields| && m.fields[i] == ReferenceField(defs[k], s.fields[defs[k].field]);
      assert TreeFieldOk(st, m.fields[i]);
    }
  }

  // -------------------------------------------------------------------------
  // Applying the effects of a delete
  // -------------------------------------------------------------------------

  /** Enforcement read exact covering indexes and the live artifacts of this store. */
  ghost predicate ExactView(v: View, st: Store) {
    && (forall id :: id in v.types <==> Live(st, id))
    && (forall id :: id in v.types ==> v.types[id] == st[id].typeName)
    && (forall k, x, y :: 0 <= k < |v.defs| ==>
          (y in Referencers(v, v.defs[k], x) <==>
           Live(st, y) && st[y].typeName == v.defs[k].referencingType && Refers(st[y], v.defs[k].field, x)))
  }

  function Without(xs: seq<nat>, x: nat): (r: seq<nat>)
    ensures forall y :: y in r <==> y in xs && y != x
  {
    if xs == [] then [] else (if xs[0] == x then [] else [xs[0]]) + Without(xs[1..], x)
  }

  /** A single-valued field is cleared; a repeated one loses just the removed id. */
  function Clear(f: FieldValue, x: nat): FieldValue {
    match f
    case Single(_) => Single(None)
    case Many(xs) => Many(Without(xs, x))
  }

  function Tombstone(s: Stored): Stored {
    Stored(s.typeName, false, map[])
  }

  function ApplyEffect(st: Store, e: Effect): Store {
    match e
    case CascadeDelete(y) => if Live(st, y) then st[y := Tombstone(st[y])] else st
    case SetNullUpdate(y, f, x) =>
      if Live(st, y) && f in st[y].fields then
        st[y := st[y].(fields := st[y].fields[f := Clear(st[y].fields[f], x)])]
      else st
  }

  function ApplyEffects(st: Store, es: seq<Effect>): Store {
    if es == [] then st else ApplyEffects(ApplyEffect(st, es[0]), es[1..])
  }

  function DeleteWith(st: Store, root: nat, es: seq<Effect>): Store
    requires root in st
  {
    ApplyEffects(st[root := Tombstone(st[root])], es)
  }

  /** Artifacts keep their types, and only lose references and liveness. */
  ghost predicate Shrinks(st: Store, st': Store) {
    && st'.Keys == st.Keys
    && forall y :: y in st ==>
         && st'[y].typeName == st[y].typeName
         && (Live(st', y) ==> Live(st, y)) && (st'[y].hasOther ==> st[y].hasOther)
         && (forall f, x :: Refers(st'[y], f, x) ==> Refers(st[y], f, x))
  }

  lemma ApplyEffectShrinks(st: Store, e: Effect)
    ensures Shrinks(st, ApplyEffect(st, e))
  {
  }

  lemma {:induction false} EffectsShrink(st: Store, es: seq<Effect>)
    ensures Shrinks(st, ApplyEffects(st, es))
    decreases |es|
  {
    if es != [] {
      ApplyEffectShrinks(st, es[0]);
      EffectsShrink(ApplyEffect(st, es[0]), es[1..]);
    }
  }

  /** Each effect has happened by the end. */
  lemma {:induction false} EffectsHappen(st: Store, es: seq<Effect>, i: nat)
    requires i < |es|
    ensures
      var st' := ApplyEffects(st, es);
      match es[i]
      case CascadeDelete(y) => !Live(st', y)
      case SetNullUpdate(y, f, x) => Live(st', y) ==> !Refers(st'[y], f, x)
    decreases |es|
  {
    var st1 := ApplyEffect(st, es[0]);
    EffectsShrink(st1, es[1..]);
    if i > 0 {
      EffectsHappen(st1, es[1..], i - 1);
    }
  }

  /** The effect does not touch the reference. */
  ghost predicate Spares(e: Effect, s: Stored, y: nat, f: string, x: nat)
    requires f in s.fields
  {
    match e
    case CascadeDelete(z) => z != y
    case SetNullUpdate(z, g, removed) => z == y && g == f ==> removed != x && s.fields[f].Many?
  }

  lemma SparedReferenceSurvives(st: Store, e: Effect, y: nat, f: string, x: nat)
    requires y in st && Refers(st[y], f, x) && Spares(e, st[y], y, f, x)
    ensures
      var st' := ApplyEffect(st, e);
      && y in st' && Refers(st'[y], f, x) && Live(st', y) && (st'[y].fields[f].Many? <==> st[y].fields[f].Many?)
  {
  }

  /** A reference that no effect is about survives. */
  lemma {:induction false} ReferenceSurvives(st: Store, es: seq<Effect>, y: nat, f: string, x: nat)
    requires y in st && Refers(st[y], f, x) && forall i :: 0 <= i < |es| ==> Spares(es[i], st[y], y, f, x)
    ensures var st' := ApplyEffects(st, es); y in st' && Live(st', y) && Refers(st'[y], f, x)
    decreases |es|
  {
    hide ApplyEffect, EmptyPayload;
    if es != [] {
      SparedReferenceSurvives(st, es[0], y, f, x);
      ReferenceSurvives(ApplyEffect(st, es[0]), es[1..], y, f, x);
    } else {
      NoReferencesNoPayload(st[y]);
    }
  }

  /** Other payload is lost only by deleting the artifact. */
  lemma {:induction false} OtherSurvives(st: Store, es: seq<Effect>, y: nat)
    requires y in st && st[y].hasOther && CascadeDelete(y) !in es
    ensures var st' := ApplyEffects(st, es); y in st' && st'[y].hasOther
    decreases |es|
  {
    if es != [] {
      assert es[0] in es && forall e :: e in es[1..] ==> e in es;
      OtherSurvives(ApplyEffect(st, es[0]), es[1..], y);
    }
  }

  ghost function Deleted(root: nat, es: seq<Effect>): set<nat> {
    {root} + CascadeIds(es)
  }

  /** The payload of `x` consists of references only, and the plan clears every one of them. */
  ghost predicate ClearsAll(st: Store, es: seq<Effect>, x: nat) {
    x in st && !st[x].hasOther && forall f, z :: Refers(st[x], f, z) ==> SetNullUpdate(x, f, z) in es
  }

  /** Outside the plan, `y` keeps a reference through definition `k` to an `x` that the plan empties. */
  ghost predicate KeepsReferenceToCleared(defs: seq<RefDef>, st: Store, root: nat, es: seq<Effect>, y: nat, k: nat,
                                          x: nat)
  {
    && Live(st, y) && y !in Deleted(root, es) && Live(st, x) && x !in Deleted(root, es)
    && k < |defs| && defs[k].referencingType == st[y].typeName && Refers(st[y], defs[k].field, x)
    && SetNullUpdate(y, defs[k].field, x) !in es && ClearsAll(st, es, x)
  }

  /** What has to be ruled out, as one can see from the store and the plan before applying it. */
  ghost predicate LeavesDangling(defs: seq<RefDef>, st: Store, root: nat, es: seq<Effect>) {
    exists y: nat, k: nat, x: nat :: KeepsReferenceToCleared(defs, st, root, es, y, k, x)
  }

  /** An artifact outside the plan turns into a tombstone exactly when the plan clears all it holds. */
  lemma EmptiedWhenCleared(v: View, st: Store, root: nat, es: seq<Effect>, x: nat)
    requires ExactView(v, st) && Live(st, root) && IsDeletePlan(v, root, es)
    requires Live(st, x) && x !in Deleted(root, es)
    ensures !Live(DeleteWith(st, root, es), x) <==> ClearsAll(st, es, x)
  {
    hide IsDeletePlan, ExactView;
    var st0, st' := st[root := Tombstone(st[root])], DeleteWith(st, root, es);
    EffectsShrink(st0, es);
    assert CascadeDelete(x) !in es;
    if ClearsAll(st, es, x) {
      forall f, z
        ensures Refers(st'[x], f, z) ==> !Live(st', x)
      {
        if SetNullUpdate(x, f, z) in es {
          var i :| 0 <= i < |es| && es[i] == SetNullUpdate(x, f, z);
          EffectsHappen(st0, es, i);
        }
      }
      NoReferencesNoPayload(st'[x]);
    } else if st[x].hasOther {
      OtherSurvives(st0, es, x);
    } else {
      var f, z :| Refers(st[x], f, z) && SetNullUpdate(x, f, z) !in es;
      SurvivorKeeps(v, st, root, es, x, f, z);
    }
  }

  lemma NoReferencesNoPayload(s: Stored)
    ensures EmptyPayload(s) <==> !s.hasOther && forall f, z :: !Refers(s, f, z)
  {
    if !s.hasOther && forall f, z :: !Refers(s, f, z) {
      forall f | f in s.fields
        ensures Values(s.fields[f]) == []
      {
        if Values(s.fields[f]) != [] {
          assert Refers(s, f, Values(s.fields[f])[0]);
        }
      }
    }
  }

  /**
   Applying an accepted plan deletes exactly what it says, keeps every other reference of every other
   artifact, and leaves all references good exactly when nothing outside the plan keeps a reference
   to an artifact whose whole payload the plan clears.
   */
  lemma DeleteKeepsReferences(v: View, st: Store, root: nat, es: seq<Effect>)
    requires ExactView(v, st) && ReferencesOk(v.defs, st) && Live(st, root) && IsDeletePlan(v, root, es)
    ensures
      var st' := DeleteWith(st, root, es);
      && (forall x :: x in Deleted(root, es) ==> !Live(st', x))
      && (forall x :: Live(st, x) && x !in Deleted(root, es) ==> (Live(st', x) <==> !ClearsAll(st, es, x)))
      && (forall y, f, x ::
            Live(st, y) && y !in Deleted(root, es) && Refers(st[y], f, x) && SetNullUpdate(y, f, x) !in es ==>
              y in st' && Refers(st'[y], f, x))
      && (ReferencesOk(v.defs, st') <==> !LeavesDangling(v.defs, st, root, es))
  {
    hide IsDeletePlan, ExactView, ReferencesOk, LeavesDangling, ClearsAll;
    var st' := DeleteWith(st, root, es);
    PlannedAreDead(st, root, es);
    forall x | Live(st, x) && x !in Deleted(root, es)
      ensures Live(st', x) <==> !ClearsAll(st, es, x)
    {
      EmptiedWhenCleared(v, st, root, es, x);
    }
    forall y, f, x | Live(st, y) && y !in Deleted(root, es) && Refers(st[y], f, x) && SetNullUpdate(y, f, x) !in es
      ensures y in st' && Refers(st'[y], f, x)
    {
      SurvivorKeeps(v, st, root, es, y, f, x);
    }
    if LeavesDangling(v.defs, st, root, es) {
      DanglingIsBad(v, st, root, es);
    } else {
      NotDanglingIsOk(v, st, root, es);
    }
  }

  lemma PlannedAreDead(st: Store, root: nat, es: seq<Effect>)
    requires root in st
    ensures forall x :: x in Deleted(root, es) ==> !Live(DeleteWith(st, root, es), x)
  {
    var st0 := st[root := Tombstone(st[root])];
    EffectsShrink(st0, es);
    forall x | x in CascadeIds(es)
      ensures !Live(ApplyEffects(st0, es), x)
    {
      var i :| 0 <= i < |es| && es[i].CascadeDelete? && es[i].id == x;
      EffectsHappen(st0, es, i);
    }
  }

  lemma DanglingIsBad(v: View, st: Store, root: nat, es: seq<Effect>)
    requires ExactView(v, st) && Live(st, root) && IsDeletePlan(v, root, es) && LeavesDangling(v.defs, st, root, es)
    ensures !ReferencesOk(v.defs, DeleteWith(st, root, es))
  {
    hide IsDeletePlan, ExactView, ClearsAll;
    var st' := DeleteWith(st, root, es);
    var y: nat, k: nat, x: nat :| KeepsReferenceToCleared(v.defs, st, root, es, y, k, x);
    EffectsShrink(st[root := Tombstone(st[root])], es);
    SurvivorKeeps(v, st, root, es, y, v.defs[k].field, x);
    NoReferencesNoPayload(st'[y]);
    EmptiedWhenCleared(v, st, root, es, x);
    assert !ArtifactOk(v.defs, st', st'[y]);
  }

  lemma NotDanglingIsOk(v: View, st: Store, root: nat, es: seq<Effect>)
    requires ExactView(v, st) && ReferencesOk(v.defs, st) && Live(st, root) && IsDeletePlan(v, root, es)
    requires !LeavesDangling(v.defs, st, root, es)
    ensures ReferencesOk(v.defs, DeleteWith(st, root, es))
  {
    hide IsDeletePlan, ExactView, EmptyPayload;
    var st' := DeleteWith(st, root, es);
    PlannedAreDead(st, root, es);
    forall y, k, x | Live(st', y) && 0 <= k < |v.defs| && v.defs[k].referencingType == st'[y].typeName
                     && Refers(st'[y], v.defs[k].field, x)
      ensures TargetOk(st', v.defs[k], x)
    {
      SurvivorIsOk(v, st, root, es, y, k, x);
    }
  }

  lemma SurvivorKeeps(v: View, st: Store, root: nat, es: seq<Effect>, y: nat, f: string, x: nat)
    requires ExactView(v, st) && Live(st, root) && IsDeletePlan(v, root, es)
    requires Live(st, y) && y !in {root} + CascadeIds(es) && Refers(st[y], f, x) && SetNullUpdate(y, f, x) !in es
    ensures var st' := DeleteWith(st, root, es); y in st' && Refers(st'[y], f, x)
  {
    hide EmptyPayload;
    var st0 := st[root := Tombstone(st[root])];
    forall i | 0 <= i < |es|
      ensures Spares(es[i], st0[y], y, f, x)
    {
      if es[i].CascadeDelete? {
        assert es[i].id in CascadeIds(es);
      } else {
        assert IsNullReference(v, es[i]);
        assert es[i] in es;
      }
    }
    ReferenceSurvives(st0, es, y, f, x);
  }

  lemma SurvivorIsOk(v: View, st: Store, root: nat, es: seq<Effect>, y: nat, k: nat, x: nat)
    requires ExactView(v, st) && ReferencesOk(v.defs, st) && Live(st, root) && IsDeletePlan(v, root, es)
    requires var st' := DeleteWith(st, root, es);
      && Live(st', y) && k < |v.defs| && v.defs[k].referencingType == st'[y].typeName
      && Refers(st'[y], v.defs[k].field, x)
    requires !KeepsReferenceToCleared(v.defs, st, root, es, y, k, x)
    ensures TargetOk(DeleteWith(st, root, es), v.defs[k], x)
  {
    hide EmptyPayload, IsDeletePlan;
    var st0, st' := st[root := Tombstone(st[root])], DeleteWith(st, root, es);
    PlannedAreDead(st, root, es);
    EffectsShrink(st0, es);
    assert Live(st, y) && y !in Deleted(root, es) by {
      LiveBefore(st, root, es, y);
    }
    assert ArtifactOk(v.defs, st, st[y]);
    assert TargetOk(st, v.defs[k], x);
    if SetNullUpdate(y, v.defs[k].field, x) in es {
      var i :| 0 <= i < |es| && es[i] == SetNullUpdate(y, v.defs[k].field, x);
      EffectsHappen(st0, es, i);
      assert false;
    }
    if x in Deleted(root, es) {
      PlanHandles(v, root, es, k, x, y);
      assert false;
    }
    EmptiedWhenCleared(v, st, root, es, x);
  }

  lemma LiveBefore(st: Store, root: nat, es: seq<Effect>, y: nat)
    requires root in st && Live(DeleteWith(st, root, es), y)
    ensures Live(st, y) && y !in Deleted(root, es)
  {
    PlannedAreDead(st, root, es);
    EffectsShrink(st[root := Tombstone(st[root])], es);
  }

  /** A plan deletes every referencer of what it deletes, or clears its reference. */
  lemma PlanHandles(v: View, root: nat, es: seq<Effect>, k: nat, x: nat, y: nat)
    requires IsDeletePlan(v, root, es) && k < |v.defs| && x in Deleted(root, es) && x in v.types
    requires v.types[x] == v.defs[k].targetType && y in Referencers(v, v.defs[k], x) && y !in Deleted(root, es)
    ensures SetNullUpdate(y, v.defs[k].field, x) in es
  {
    assert Handled(v, x, v.types[x], Deleted(root, es), es);
    assert DefHandled(v, x, v.defs[k], Deleted(root, es), es);
  }

  const TO := RefDef("to_index", "A", "B", "to", SetNull)
  const OF := RefDef("of_index", "B", "C", "of", Restrict)
  const CHAIN: Store := map[
    1 := Stored("A", true, map[]),
    2 := Stored("B", false, map["to" := Single(Some(1))]),
    3 := Stored("C", false, map["of" := Single(Some(2))])]
  const CHAIN_VIEW := View([TO, OF], map[(TO, 1) := [2], (OF, 2) := [3]], map[1 := "A", 2 := "B", 3 := "C"])

  lemma ChainIsGood()
    ensures ExactView(CHAIN_VIEW, CHAIN) && ReferencesOk(CHAIN_VIEW.defs, CHAIN)
  {
    ChainReferencesOk();
    ChainViewIsExact();
  }

  lemma ChainReferencesOk()
    ensures ReferencesOk(CHAIN_VIEW.defs, CHAIN)
  {
    var st := CHAIN;
    assert Values(st[2].fields["to"]) == [1] && Values(st[3].fields["of"]) == [2];
    assert CHAIN_VIEW.defs[0] == TO && CHAIN_VIEW.defs[1] == OF;
  }

  lemma ChainViewIsExact()
    ensures ExactView(CHAIN_VIEW, CHAIN)
  {
    var st := CHAIN;
    assert Values(st[2].fields["to"]) == [1] && Values(st[3].fields["of"]) == [2];
    assert CHAIN_VIEW.defs[0] == TO && CHAIN_VIEW.defs[1] == OF;
  }

  lemma ChainDeleteIsAccepted()
    ensures IsDeletePlan(CHAIN_VIEW, 1, [SetNullUpdate(2, "to", 1)])
  {
    var v, es := CHAIN_VIEW, [SetNullUpdate(2, "to", 1)];
    assert v.defs[0] == TO && v.defs[1] == OF;
    assert 2 in Referencers(v, v.defs[0], 1);
    assert IsNullReference(v, es[0]);
    assert CascadeIds(es) == {};
    assert es[0] in es;
  }

  /**
   Clearing really can empty a payload. Artifact 2 consists of nothing but its SET_NULL reference to
   1, and 3 refers to 2: deleting 1 is accepted, turns 2 into a tombstone, and leaves 3 dangling.
   */
  lemma SetNullCanEmpty()
    ensures ExactView(CHAIN_VIEW, CHAIN) && ReferencesOk(CHAIN_VIEW.defs, CHAIN) && Live(CHAIN, 1)
    ensures IsDeletePlan(CHAIN_VIEW, 1, [SetNullUpdate(2, "to", 1)])
    ensures !ReferencesOk(CHAIN_VIEW.defs, DeleteWith(CHAIN, 1, [SetNullUpdate(2, "to", 1)]))
  {
    ChainIsGood();
    ChainDeleteIsAccepted();
    ChainIsLeftDangling();
    DanglingIsBad(CHAIN_VIEW, CHAIN, 1, [SetNullUpdate(2, "to", 1)]);
  }

  lemma ChainIsLeftDangling()
    ensures LeavesDangling(CHAIN_VIEW.defs, CHAIN, 1, [SetNullUpdate(2, "to", 1)])
  {
    var st, es := CHAIN, [SetNullUpdate(2, "to", 1)];
    assert Values(st[3].fields["of"]) == [2] && Values(st[2].fields["to"]) == [1];
    assert CHAIN_VIEW.defs[1] == OF;
    assert CascadeIds(es) == {};
    assert es[0] in es;
    assert Refers(st[2], "to", 1) && Refers(st[3], "of", 2);
    assert KeepsReferenceToCleared(CHAIN_VIEW.defs, st, 1, es, 3, 1, 2);
  }

  // -------------------------------------------------------------------------
  // Runs
  // -------------------------------------------------------------------------

  datatype Write =
    | Create(id: nat, s: Stored)
    | Update(id: nat, s: Stored)
    | Delete(id: nat, v: View, effects: seq<Effect>)

  /** One accepted write: validated payloads are not empty, and an update keeps the type. */
  ghost predicate Step(defs: seq<RefDef>, st: Store, w: Write, st': Store) {
    match w
    case Create(id, s) => id !in st && !EmptyPayload(s) && ArtifactOk(defs, st, s) && st' == st[id := s]
    case Update(id, s) =>
      && Live(st, id) && s.typeName == st[id].typeName && !EmptyPayload(s)
      && ArtifactOk(defs, st, s) && st' == st[id := s]
    case Delete(id, v, es) =>
      && Live(st, id) && v.defs == defs && ExactView(v, st) && IsDeletePlan(v, id, es)
      && st' == DeleteWith(st, id, es)
  }

  /** A delete is safe if it clears no artifact completely that something goes on referring to. */
  ghost predicate SafeWrite(defs: seq<RefDef>, st: Store, w: Write) {
    w.Delete? ==> !LeavesDangling(defs, st, w.id, w.effects)
  }

  ghost predicate IsRun(defs: seq<RefDef>, sts: seq<Store>, ws: seq<Write>) {
    && |sts| == |ws| + 1
    && ReferencesOk(defs, sts[0])
    && forall i :: 0 <= i < |ws| ==> Step(defs, sts[i], ws[i], sts[i + 1])
  }

  lemma StepKeepsReferences(defs: seq<RefDef>, st: Store, w: Write, st': Store)
    requires ReferencesOk(defs, st) && Step(defs, st, w, st')
    ensures ReferencesOk(defs, st') <==> SafeWrite(defs, st, w)
  {
    match w
    case Delete(id, v, es) => DeleteKeepsReferences(v, st, id, es);
    case _ =>
      forall y | Live(st', y)
        ensures ArtifactOk(defs, st', st'[y])
      {
        assert forall k, x :: 0 <= k < |defs| && TargetOk(st, defs[k], x) ==> TargetOk(st', defs[k], x);
        if y != w.id {
          assert ArtifactOk(defs, st, st[y]);
        }
      }
  }

  /** Over every sequential run, all references stay good exactly if every delete was safe when it was made. */
  lemma ReferencesHoldOverRuns(defs: seq<RefDef>, sts: seq<Store>, ws: seq<Write>)
    requires IsRun(defs, sts, ws)
    ensures (forall i :: 0 <= i < |sts| ==> ReferencesOk(defs, sts[i])) <==>
            (forall i :: 0 <= i < |ws| ==> SafeWrite(defs, sts[i], ws[i]))
  {
    hide Step, SafeWrite, ReferencesOk;
    if forall i :: 0 <= i < |sts| ==> ReferencesOk(defs, sts[i]) {
      forall i | 0 <= i < |ws|
        ensures SafeWrite(defs, sts[i], ws[i])
      {
        StepKeepsReferences(defs, sts[i], ws[i], sts[i + 1]);
      }
    }
    if forall i :: 0 <= i < |ws| ==> SafeWrite(defs, sts[i], ws[i]) {
      forall i | 0 <= i < |sts|
        ensures ReferencesOk(defs, sts[i])
      {
        SafePrefixHolds(defs, sts, ws, i);
      }
    }
  }

  lemma {:induction false} SafePrefixHolds(defs: seq<RefDef>, sts: seq<Store>, ws: seq<Write>, i: nat)
    requires IsRun(defs, sts, ws) && i < |sts| && forall j :: 0 <= j < i ==> SafeWrite(defs, sts[j], ws[j])
    ensures ReferencesOk(defs, sts[i])
  {
    hide Step, SafeWrite, ReferencesOk;
    if i > 0 {
      SafePrefixHolds(defs, sts, ws, i - 1);
      StepKeepsReferences(defs, sts[i - 1], ws[i - 1], sts[i]);
    }
  }
}
