/**
 Where deleting gets its referencers from: covering indexes. If indexes agree with the artifacts, what
 enforcement reads through them is exact.
 */
module CoveringIndexes {
  import opened Results
  import opened ThreeWayMerge
  import opened DeleteIntegrity
  import Indexes = IndexAgreement
  import References = ReferenceRuns

  /** How payloads are parsed, which index covers a reference definition, and how ids are encoded as keys. */
  datatype Reading = Reading(
    parse: (nat, Indexes.Payload) -> References.Stored,
    covering: RefDef -> nat,
    key: nat -> Indexes.Key)

  /** The covering index has an entry under `x` for exactly the artifacts that refer to `x`. */
  ghost predicate Covers(sch: Indexes.Schema, rd: Reading, def: RefDef) {
    forall o: Indexes.Object, id: nat, x: nat :: Indexes.LiveEnvelope(Some(o)) ==>
      (Indexes.HasKey(Indexes.EntriesOf(sch, Some(o), id), rd.covering(def), rd.key(x)) <==>
       RefersBy(rd.parse(o.version, o.payload), def, x))
  }

  predicate RefersBy(s: References.Stored, def: RefDef, x: nat) {
    s.typeName == def.referencingType && References.Refers(s, def.field, x)
  }

  /** The store holds the artifacts of the contents, parsed; a payload without bytes has nothing set. */
  ghost predicate Shows(rd: Reading, c: Indexes.Contents, st: References.Store) {
    && (forall id :: id in st <==> Indexes.ArtifactAt(id) in c && c[Indexes.ArtifactAt(id)].Envelope?)
    && forall id :: id in st ==>
         var o := c[Indexes.ArtifactAt(id)];
         st[id] == rd.parse(o.version, o.payload) && (References.EmptyPayload(st[id]) <==> o.payload == [])
  }

  /** Enforcement reads referencers from the covering indexes and types from the envelopes. */
  ghost predicate ReadsIndexes(rd: Reading, c: Indexes.Contents, st: References.Store, v: View) {
    && (forall id :: id in v.types <==> Indexes.Live(c, id))
    && (forall id :: id in v.types && id in st ==> v.types[id] == st[id].typeName)
    && forall k, x: nat, y: nat :: 0 <= k < |v.defs| ==>
         (y in Referencers(v, v.defs[k], x) <==> y in Indexes.RowsAt(c, rd.covering(v.defs[k]), rd.key(x)))
  }

  /** Agreement of indexes and artifacts is all that exact referencers need. */
  lemma AgreementGivesExactView(sch: Indexes.Schema, rd: Reading, c: Indexes.Contents, st: References.Store, v: View)
    requires Indexes.Agree(sch, c) && Shows(rd, c, st) && ReadsIndexes(rd, c, st, v)
    requires forall k :: 0 <= k < |v.defs| ==> Covers(sch, rd, v.defs[k])
    ensures References.ExactView(v, st)
  {
    forall id: nat
      ensures Indexes.Live(c, id) <==> References.Live(st, id)
    {
    }
    forall k, x: nat, y: nat | 0 <= k < |v.defs|
      ensures y in Referencers(v, v.defs[k], x) <==>
              References.Live(st, y) && RefersBy(st[y], v.defs[k], x)
    {
      RowMeansReference(sch, rd, c, st, v.defs[k], x, y);
    }
  }

  lemma RowMeansReference(sch: Indexes.Schema, rd: Reading, c: Indexes.Contents, st: References.Store, def: RefDef,
                          x: nat, y: nat)
    requires Indexes.Agree(sch, c) && Shows(rd, c, st) && Covers(sch, rd, def)
    ensures y in Indexes.RowsAt(c, rd.covering(def), rd.key(x)) <==> References.Live(st, y) && RefersBy(st[y], def, x)
  {
    var d, k, o := rd.covering(def), rd.key(x), Lookup(c, Indexes.ArtifactAt(y));
    var es := Indexes.EntriesOf(sch, o, y);
    assert Indexes.AgreeAt(sch, c, d, k, y);
    Indexes.FindEntryFinds(es, d, k);
    assert y in Indexes.RowsAt(c, d, k) <==> Indexes.HasKey(es, d, k);
    if Indexes.LiveEnvelope(o) {
      assert o == Some(o.value);
    }
  }
}
