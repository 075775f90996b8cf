/**
 * Composition: the union of the members of several proofs. Repeated inputs are
 * skipped by proof id, members are merged by content id, and each attestation
 * is re-verified when its id is first met.
 */
module Compose {
  import opened Bytes
  import opened CborValue
  import opened ProofId

  /** An attestation with its content id and its envelope. */
  datatype Signed = Signed(id: bytes, sign1: bytes)

  /** A loaded proof; members other than attestations are their content ids. */
  datatype Proof = Proof(
    id: bytes,
    events: seq<bytes>,
    attestations: seq<Signed>,
    evidence: seq<bytes>,
    relationships: seq<bytes>
  )

  datatype Merged = Merged(
    events: set<bytes>,
    attestations: map<bytes, Signed>,
    evidence: set<bytes>,
    relationships: set<bytes>,
    sources: set<bytes>
  )

  // ---------- what is merged ----------

  ghost function SetOf<T>(s: seq<T>): set<T> {
    set x | x in s
  }

  ghost function AttestationIds(atts: seq<Signed>): set<bytes> {
    set a | a in atts :: a.id
  }

  ghost function EventSet(p: Proof): set<bytes> {
    SetOf(p.events)
  }

  ghost function AttestationSet(p: Proof): set<bytes> {
    AttestationIds(p.attestations)
  }

  ghost function EvidenceSet(p: Proof): set<bytes> {
    SetOf(p.evidence)
  }

  ghost function RelationshipSet(p: Proof): set<bytes> {
    SetOf(p.relationships)
  }

  ghost function OwnId(p: Proof): set<bytes> {
    {p.id}
  }

  ghost function UnionOf(ps: seq<Proof>, pick: Proof -> set<bytes>): set<bytes> {
    set p, x | p in ps && x in pick(p) :: x
  }

  ghost function SourceIds(ps: seq<Proof>): set<bytes> {
    UnionOf(ps, OwnId)
  }

  ghost function EventsOf(ps: seq<Proof>): set<bytes> {
    UnionOf(ps, EventSet)
  }

  ghost function AttestationsOf(ps: seq<Proof>): set<bytes> {
    UnionOf(ps, AttestationSet)
  }

  ghost function EvidenceOf(ps: seq<Proof>): set<bytes> {
    UnionOf(ps, EvidenceSet)
  }

  ghost function RelationshipsOf(ps: seq<Proof>): set<bytes> {
    UnionOf(ps, RelationshipSet)
  }

  /** The inputs that are read: the first of each proof id. */
  ghost function Firsts(ps: seq<Proof>): seq<Proof> {
    if ps == [] then []
    else
      var p := ps[|ps| - 1];
      var f := Firsts(ps[..|ps| - 1]);
      if p.id in SourceIds(f) then f else f + [p]
  }

  /** Merging attestations: one already met is skipped unverified, a new one that does not verify ends the composition. */
  function MergeAttestations(acc: map<bytes, Signed>, atts: seq<Signed>, verifies: Signed -> bool): Option<map<bytes, Signed>> {
    if atts == [] then Some(acc)
    else
      match MergeAttestations(acc, atts[..|atts| - 1], verifies)
      case None => None
      case Some(m) =>
        var a := atts[|atts| - 1];
        if a.id in m then Some(m) else if verifies(a) then Some(m[a.id := a]) else None
  }

  ghost function MergeAllAttestations(ps: seq<Proof>, verifies: Signed -> bool): Option<map<bytes, Signed>> {
    if ps == [] then Some(map[])
    else
      match MergeAllAttestations(ps[..|ps| - 1], verifies)
      case None => None
      case Some(m) => MergeAttestations(m, ps[|ps| - 1].attestations, verifies)
  }

  // ---------- the first pass ----------

  method AddIds(acc: set<bytes>, ids: seq<bytes>) returns (r: set<bytes>)
    ensures r == acc + SetOf(ids)
  {
    r := acc;
    for i := 0 to |ids|
      invariant r == acc + SetOf(ids[..i])
    {
      assert ids[..i + 1] == ids[..i] + [ids[i]];
      r := r + {ids[i]};
    }
    assert ids[..|ids|] == ids;
  }

  method AddAttestations(acc: map<bytes, Signed>, atts: seq<Signed>, verifies: Signed -> bool)
    returns (r: Option<map<bytes, Signed>>)
    ensures r == MergeAttestations(acc, atts, verifies)
  {
    var m := acc;
    assert atts[..0] == [];
    for i := 0 to |atts|
      invariant MergeAttestations(acc, atts[..i], verifies) == Some(m)
    {
      var a := atts[i];
      assert atts[..i + 1][..i] == atts[..i];
      if a.id in m {
        continue;
      }
      if !verifies(a) {
        MergeFailsEarly(acc, atts, verifies, i + 1);
        return None;
      }
      m := m[a.id := a];
    }
    assert atts[..|atts|] == atts;
    return Some(m);
  }

  lemma {:induction false} MergeFailsEarly(acc: map<bytes, Signed>, atts: seq<Signed>, verifies: Signed -> bool, i: nat)
    requires i <= |atts| && MergeAttestations(acc, atts[..i], verifies).None?
    ensures MergeAttestations(acc, atts, verifies).None?
    decreases |atts|
  {
    if i == |atts| {
      assert atts[..i] == atts;
    } else {
      assert atts[..|atts| - 1][..i] == atts[..i];
      MergeFailsEarly(acc, atts[..|atts| - 1], verifies, i);
    }
  }

  lemma {:induction false} MergeAllFailsEarly(ps: seq<Proof>, verifies: Signed -> bool, i: nat)
    requires i <= |ps| && MergeAllAttestations(Firsts(ps[..i]), verifies).None?
    ensures MergeAllAttestations(Firsts(ps), verifies).None?
    decreases |ps| - i
  {
    if i == |ps| {
      assert ps[..i] == ps;
    } else {
      FailsOn(ps[..i], ps[i], verifies);
      assert ps[..i + 1] == ps[..i] + [ps[i]];
      MergeAllFailsEarly(ps, verifies, i + 1);
    }
  }

  lemma FailsOn(ps: seq<Proof>, p: Proof, verifies: Signed -> bool)
    requires MergeAllAttestations(Firsts(ps), verifies).None?
    ensures MergeAllAttestations(Firsts(ps + [p]), verifies).None?
  {
    FirstsStep(ps, p);
    MergeAllStep(Firsts(ps), p, verifies);
  }

  lemma FirstsStep(ps: seq<Proof>, p: Proof)
    ensures Firsts(ps + [p]) == if p.id in SourceIds(Firsts(ps)) then Firsts(ps) else Firsts(ps) + [p]
  {
    assert (ps + [p])[..|ps|] == ps;
  }

  lemma MergeAllStep(f: seq<Proof>, p: Proof, verifies: Signed -> bool)
    ensures MergeAllAttestations(f + [p], verifies) ==
            match MergeAllAttestations(f, verifies)
            case None => None
            case Some(m) => MergeAttestations(m, p.attestations, verifies)
  {
    assert (f + [p])[..|f|] == f;
  }

  /** What the first pass has collected from the inputs `f`. */
  ghost predicate Collected(f: seq<Proof>, verifies: Signed -> bool, m: Merged) {
    && MergeAllAttestations(f, verifies) == Some(m.attestations)
    && m.events == EventsOf(f)
    && m.evidence == EvidenceOf(f)
    && m.relationships == RelationshipsOf(f)
    && m.sources == SourceIds(f)
  }

  /** The merging loop of `compose`. */
  method Merge(ps: seq<Proof>, verifies: Signed -> bool) returns (r: Option<Merged>)
    ensures r.Some? <==> MergeAllAttestations(Firsts(ps), verifies).Some?
    ensures r.Some? ==> Collected(Firsts(ps), verifies, r.value)
  {
    var events: set<bytes>, evidence: set<bytes>, relationships: set<bytes>, seen: set<bytes> := {}, {}, {}, {};
    var attestations: map<bytes, Signed> := map[];
    ghost var f: seq<Proof> := [];
    assert ps[..0] == [];
    for i := 0 to |ps|
      invariant f == Firsts(ps[..i])
      invariant Collected(f, verifies, Merged(events, attestations, evidence, relationships, seen))
    {
      var p := ps[i];
      assert ps[..i + 1] == ps[..i] + [p];
      FirstsStep(ps[..i], p);
      if p.id in seen {
        continue;
      }
      seen := seen + {p.id};
      UnionStep(f, p);
      events := AddIds(events, p.events);
      var merged := AddAttestations(attestations, p.attestations, verifies);
      MergeAllStep(f, p, verifies);
      if merged.None? {
        MergeAllFailsEarly(ps, verifies, i + 1);
        return None;
      }
      attestations := merged.value;
      evidence := AddIds(evidence, p.evidence);
      relationships := AddIds(relationships, p.relationships);
      f := f + [p];
    }
    assert ps[..|ps|] == ps;
    return Some(Merged(events, attestations, evidence, relationships, seen));
  }

  lemma UnionAdd(f: seq<Proof>, p: Proof, pick: Proof -> set<bytes>)
    ensures UnionOf(f + [p], pick) == UnionOf(f, pick) + pick(p)
  {
    assert p in f + [p];
    assert forall q :: q in f ==> q in f + [p];
  }

  lemma UnionStep(f: seq<Proof>, p: Proof)
    ensures EventsOf(f + [p]) == EventsOf(f) + SetOf(p.events)
    ensures EvidenceOf(f + [p]) == EvidenceOf(f) + SetOf(p.evidence)
    ensures RelationshipsOf(f + [p]) == RelationshipsOf(f) + SetOf(p.relationships)
    ensures AttestationsOf(f + [p]) == AttestationsOf(f) + AttestationIds(p.attestations)
    ensures SourceIds(f + [p]) == SourceIds(f) + {p.id}
  {
    UnionAdd(f, p, EventSet);
    UnionAdd(f, p, EvidenceSet);
    UnionAdd(f, p, RelationshipSet);
    UnionAdd(f, p, AttestationSet);
    UnionAdd(f, p, OwnId);
  }

  lemma {:induction false} MergedAttestationKeys(acc: map<bytes, Signed>, atts: seq<Signed>, verifies: Signed -> bool)
    requires MergeAttestations(acc, atts, verifies).Some?
    ensures MergeAttestations(acc, atts, verifies).value.Keys == acc.Keys + AttestationIds(atts)
  {
    if atts != [] {
      var front, a := atts[..|atts| - 1], atts[|atts| - 1];
      MergedAttestationKeys(acc, front, verifies);
      assert atts == front + [a];
      assert AttestationIds(atts) == AttestationIds(front) + {a.id} by {
        assert a in atts && forall b :: b in front ==> b in atts;
      }
    }
  }

  lemma {:induction false} MergedKeys(ps: seq<Proof>, verifies: Signed -> bool)
    requires MergeAllAttestations(ps, verifies).Some?
    ensures MergeAllAttestations(ps, verifies).value.Keys == AttestationsOf(ps)
  {
    if ps != [] {
      var front, p := ps[..|ps| - 1], ps[|ps| - 1];
      MergedKeys(front, verifies);
      MergedAttestationKeys(MergeAllAttestations(front, verifies).value, p.attestations, verifies);
      assert ps == front + [p];
      UnionStep(front, p);
    }
  }

  // ---------- the second pass ----------

  /** The union graph: node ids of every input, and each relationship once. */
  method UnionGraph(ps: seq<Proof>) returns (nodes: set<bytes>, edges: seq<bytes>)
    ensures nodes == EventsOf(ps) + AttestationsOf(ps) + EvidenceOf(ps)
    ensures SetOf(edges) == RelationshipsOf(ps)
    ensures NoRepeats(edges)
  {
    nodes, edges := {}, [];
    var seen: set<bytes> := {};
    for i := 0 to |ps|
      invariant nodes == EventsOf(ps[..i]) + AttestationsOf(ps[..i]) + EvidenceOf(ps[..i])
      invariant seen == RelationshipsOf(ps[..i])
      invariant SetOf(edges) == seen
      invariant NoRepeats(edges)
    {
      var p := ps[i];
      assert ps[..i + 1] == ps[..i] + [p];
      UnionStep(ps[..i], p);
      nodes := AddIds(nodes, p.events);
      nodes := AddAttestationIds(nodes, p.attestations);
      nodes := AddIds(nodes, p.evidence);
      edges, seen := AddEdges(edges, seen, p.relationships);
    }
    assert ps[..|ps|] == ps;
  }

  method AddAttestationIds(acc: set<bytes>, atts: seq<Signed>) returns (r: set<bytes>)
    ensures r == acc + AttestationIds(atts)
  {
    r := acc;
    for i := 0 to |atts|
      invariant r == acc + AttestationIds(atts[..i])
    {
      assert atts[..i + 1] == atts[..i] + [atts[i]];
      r := r + {atts[i].id};
    }
    assert atts[..|atts|] == atts;
  }

  method AddEdges(edges: seq<bytes>, seen: set<bytes>, ids: seq<bytes>) returns (e: seq<bytes>, s: set<bytes>)
    requires SetOf(edges) == seen && NoRepeats(edges)
    ensures s == seen + SetOf(ids) && SetOf(e) == s
    ensures NoRepeats(e)
  {
    e, s := edges, seen;
    for i := 0 to |ids|
      invariant s == seen + SetOf(ids[..i]) && SetOf(e) == s
      invariant NoRepeats(e)
    {
      assert ids[..i + 1] == ids[..i] + [ids[i]];
      if ids[i] !in s {
        assert forall a :: 0 <= a < |e| ==> e[a] in SetOf(e);
        assert SetOf(e + [ids[i]]) == SetOf(e) + {ids[i]};
        s := s + {ids[i]};
        e := e + [ids[i]];
      }
    }
    assert ids[..|ids|] == ids;
  }

  // ---------- order and repetition ----------

  /** Inputs with one proof id have the same members. */
  ghost predicate IdsNameContents(ps: seq<Proof>) {
    forall p, q :: p in ps && q in ps && p.id == q.id ==> SameMembers(p, q)
  }

  ghost predicate SameMembers(p: Proof, q: Proof) {
    && SetOf(p.events) == SetOf(q.events)
    && AttestationIds(p.attestations) == AttestationIds(q.attestations)
    && SetOf(p.evidence) == SetOf(q.evidence)
    && SetOf(p.relationships) == SetOf(q.relationships)
  }

  lemma {:induction false} FirstsAreInputs(ps: seq<Proof>)
    ensures forall p :: p in Firsts(ps) ==> p in ps
  {
    if ps != [] {
      FirstsAreInputs(ps[..|ps| - 1]);
      assert ps == ps[..|ps| - 1] + [ps[|ps| - 1]];
    }
  }

  /** Every input is represented by one with its id. */
  lemma {:induction false} FirstOf(ps: seq<Proof>, p: Proof) returns (q: Proof)
    requires p in ps
    ensures q in Firsts(ps) && q.id == p.id
  {
    var front, last := ps[..|ps| - 1], ps[|ps| - 1];
    assert ps == front + [last];
    if p in front {
      q := FirstOf(front, p);
    } else if last.id in SourceIds(Firsts(front)) {
      q :| q in Firsts(front) && last.id in OwnId(q);
    } else {
      q := last;
    }
  }

  lemma UnionOfFirsts(ps: seq<Proof>, pick: Proof -> set<bytes>)
    requires forall p, q :: p in ps && q in ps && p.id == q.id ==> pick(p) == pick(q)
    ensures UnionOf(Firsts(ps), pick) == UnionOf(ps, pick)
  {
    FirstsAreInputs(ps);
    forall p, x | p in ps && x in pick(p) ensures x in UnionOf(Firsts(ps), pick) {
      var q := FirstOf(ps, p);
      assert x in pick(q);
    }
  }

  /** Skipping repeated inputs loses no member. */
  lemma FirstsHaveAllMembers(ps: seq<Proof>)
    requires IdsNameContents(ps)
    ensures var f := Firsts(ps);
            && EventsOf(f) == EventsOf(ps) && AttestationsOf(f) == AttestationsOf(ps)
            && EvidenceOf(f) == EvidenceOf(ps) && RelationshipsOf(f) == RelationshipsOf(ps)
            && SourceIds(f) == SourceIds(ps)
  {
    assert forall p, q :: p in ps && q in ps && p.id == q.id ==> SameMembers(p, q);
    UnionOfFirsts(ps, EventSet);
    UnionOfFirsts(ps, AttestationSet);
    UnionOfFirsts(ps, EvidenceSet);
    UnionOfFirsts(ps, RelationshipSet);
    UnionOfFirsts(ps, OwnId);
  }

  /** A list with each element of a set, once. */
  ghost predicate Lists(s: seq<bytes>, ids: set<bytes>) {
    multiset(s) == multiset(ids)
  }

  /** The binding parts the builder makes from a union, in whatever order it lists the members. */
  ghost predicate PartsOfUnion(parts: Parts, proposition: Value, createdAt: u64, ps: seq<Proof>) {
    && parts.proposition == proposition && parts.createdAt == createdAt && parts.vocabularies == []
    && Lists(parts.events, EventsOf(Firsts(ps))) && Lists(parts.attestations, AttestationsOf(Firsts(ps)))
    && Lists(parts.evidence, EvidenceOf(Firsts(ps))) && Lists(parts.relationships, RelationshipsOf(Firsts(ps)))
    && Lists(parts.referencedProofs, SourceIds(Firsts(ps)))
  }

  /** Reordering or repeating inputs does not change what the composite's id binds. */
  lemma CompositionIgnoresOrder(ps: seq<Proof>, qs: seq<Proof>, proposition: Value, createdAt: u64, a: Parts, b: Parts)
    requires IdsNameContents(ps) && forall p :: p in ps <==> p in qs
    requires PartsOfUnion(a, proposition, createdAt, ps) && PartsOfUnion(b, proposition, createdAt, qs)
    requires Proper(a) && Proper(b)
    ensures Binding(a) == Binding(b)
  {
    assert IdsNameContents(qs);
    FirstsHaveAllMembers(ps);
    FirstsHaveAllMembers(qs);
    SameUnion(ps, qs);
    BindingEqualIff(a, b);
  }

  lemma SameUnion(ps: seq<Proof>, qs: seq<Proof>)
    requires forall p :: p in ps <==> p in qs
    ensures EventsOf(ps) == EventsOf(qs) && AttestationsOf(ps) == AttestationsOf(qs)
    ensures EvidenceOf(ps) == EvidenceOf(qs) && RelationshipsOf(ps) == RelationshipsOf(qs)
    ensures SourceIds(ps) == SourceIds(qs)
  {
  }

  /** The graph checked in the second pass is the graph of the members merged in the first. */
  lemma SecondPassAgrees(ps: seq<Proof>, verifies: Signed -> bool, m: map<bytes, Signed>)
    requires IdsNameContents(ps) && MergeAllAttestations(Firsts(ps), verifies) == Some(m)
    ensures EventsOf(ps) + AttestationsOf(ps) + EvidenceOf(ps) == EventsOf(Firsts(ps)) + m.Keys + EvidenceOf(Firsts(ps))
    ensures RelationshipsOf(ps) == RelationshipsOf(Firsts(ps))
  {
    FirstsHaveAllMembers(ps);
    MergedKeys(Firsts(ps), verifies);
  }

  // ---------- which envelopes are looked at ----------

  /** The attestations of all inputs, in reading order. */
  ghost function AllAttestations(ps: seq<Proof>): seq<Signed> {
    if ps == [] then [] else AllAttestations(ps[..|ps| - 1]) + ps[|ps| - 1].attestations
  }

  /** No attestation before the `i`th has its id. */
  ghost predicate IsFirst(atts: seq<Signed>, i: nat)
    requires i < |atts|
  {
    forall j :: 0 <= j < i ==> atts[j].id != atts[i].id
  }

  /** Every envelope met first under its id verifies. */
  ghost predicate FirstsVerify(atts: seq<Signed>, verifies: Signed -> bool) {
    forall i :: 0 <= i < |atts| && IsFirst(atts, i) ==> verifies(atts[i])
  }

  lemma {:induction false} MergeAppend(acc: map<bytes, Signed>, a: seq<Signed>, b: seq<Signed>, verifies: Signed -> bool)
    ensures MergeAttestations(acc, a + b, verifies) ==
            match MergeAttestations(acc, a, verifies)
            case None => None
            case Some(m) => MergeAttestations(m, b, verifies)
  {
    if b == [] {
      assert a + b == a;
    } else {
      assert (a + b)[..|a + b| - 1] == a + b[..|b| - 1];
      MergeAppend(acc, a, b[..|b| - 1], verifies);
    }
  }

  lemma {:induction false} MergeAllIsMerge(ps: seq<Proof>, verifies: Signed -> bool)
    ensures MergeAllAttestations(ps, verifies) == MergeAttestations(map[], AllAttestations(ps), verifies)
  {
    if ps != [] {
      MergeAllIsMerge(ps[..|ps| - 1], verifies);
      MergeAppend(map[], AllAttestations(ps[..|ps| - 1]), ps[|ps| - 1].attestations, verifies);
    }
  }

  lemma FirstsVerifySnoc(atts: seq<Signed>, a: Signed, verifies: Signed -> bool)
    ensures FirstsVerify(atts + [a], verifies) <==>
            FirstsVerify(atts, verifies) && (a.id in AttestationIds(atts) || verifies(a))
  {
    var more := atts + [a];
    assert forall i :: 0 <= i < |atts| ==> more[i] == atts[i];
    forall i | 0 <= i < |atts| ensures IsFirst(more, i) <==> IsFirst(atts, i) {
    }
    assert more[|atts|] == a;
    assert IsFirst(more, |atts|) <==> a.id !in AttestationIds(atts) by {
      if a.id in AttestationIds(atts) {
        var b :| b in atts && b.id == a.id;
        var j :| 0 <= j < |atts| && atts[j] == b;
        assert more[j].id == a.id;
      } else {
        assert forall j :: 0 <= j < |atts| ==> atts[j] in atts;
      }
    }
  }

  lemma {:induction false} FirstEnvelopesDecide(atts: seq<Signed>, verifies: Signed -> bool)
    ensures MergeAttestations(map[], atts, verifies).Some? <==> FirstsVerify(atts, verifies)
  {
    if atts != [] {
      var front, a := atts[..|atts| - 1], atts[|atts| - 1];
      FirstEnvelopesDecide(front, verifies);
      assert atts == front + [a];
      FirstsVerifySnoc(front, a, verifies);
      if FirstsVerify(front, verifies) {
        MergedAttestationKeys(map[], front, verifies);
      }
    }
  }

  lemma {:induction false} FirstEnvelopesKept(atts: seq<Signed>, verifies: Signed -> bool, i: nat)
    requires MergeAttestations(map[], atts, verifies).Some? && i < |atts| && IsFirst(atts, i)
    ensures var m := MergeAttestations(map[], atts, verifies).value; atts[i].id in m && m[atts[i].id] == atts[i]
  {
    var front, a := atts[..|atts| - 1], atts[|atts| - 1];
    assert atts == front + [a];
    MergedAttestationKeys(map[], front, verifies);
    if i < |front| {
      assert forall j :: 0 <= j <= i ==> front[j] == atts[j];
      FirstEnvelopesKept(front, verifies, i);
    } else {
      forall b | b in front ensures b.id != a.id {
        var j :| 0 <= j < |front| && front[j] == b;
        assert atts[j].id != atts[i].id;
      }
    }
  }

  /**
   * A composition is accepted exactly when each content id's first envelope, in reading order, verifies; and those
   * are the envelopes it keeps.
   */
  lemma AcceptedIff(ps: seq<Proof>, verifies: Signed -> bool)
    ensures MergeAllAttestations(Firsts(ps), verifies).Some? <==> FirstsVerify(AllAttestations(Firsts(ps)), verifies)
    ensures var m, atts := MergeAllAttestations(Firsts(ps), verifies), AllAttestations(Firsts(ps));
            m.Some? ==> forall i :: 0 <= i < |atts| && IsFirst(atts, i) ==>
                                      atts[i].id in m.value && m.value[atts[i].id] == atts[i]
  {
    MergeAllIsMerge(Firsts(ps), verifies);
    var atts := AllAttestations(Firsts(ps));
    if MergeAttestations(map[], atts, verifies).Some? {
      forall i | 0 <= i < |atts| && IsFirst(atts, i)
        ensures var m := MergeAttestations(map[], atts, verifies).value; atts[i].id in m && m[atts[i].id] == atts[i]
      {
        FirstEnvelopesKept(atts, verifies, i);
      }
    }
    FirstEnvelopesDecide(AllAttestations(Firsts(ps)), verifies);
  }

  /** Acceptance, unlike the result, can depend on the order: a bad envelope is never looked at behind a good one. */
  lemma OrderDecidesAcceptance(p: Proof, q: Proof, good: Signed, bad: Signed, verifies: Signed -> bool)
    requires p.id != q.id && p.attestations == [good] && q.attestations == [bad]
    requires good.id == bad.id && verifies(good) && !verifies(bad)
    ensures MergeAllAttestations(Firsts([p, q]), verifies) == Some(map[good.id := good])
    ensures MergeAllAttestations(Firsts([q, p]), verifies).None?
  {
    TwoFirsts(p, q);
    TwoFirsts(q, p);
    MergeTwo(p, q, verifies);
    MergeTwo(q, p, verifies);
    MergeOne(map[], good, verifies);
    MergeOne(map[], bad, verifies);
    MergeOne(map[good.id := good], bad, verifies);
  }

  lemma TwoFirsts(p: Proof, q: Proof)
    requires p.id != q.id
    ensures Firsts([p, q]) == [p, q]
  {
    assert [p, q][..1] == [p] && [p][..0] == [];
    assert Firsts([p]) == [p];
  }

  lemma MergeOne(acc: map<bytes, Signed>, a: Signed, verifies: Signed -> bool)
    ensures MergeAttestations(acc, [a], verifies) ==
            if a.id in acc then Some(acc) else if verifies(a) then Some(acc[a.id := a]) else None
  {
    assert [a][..0] == [];
  }

  lemma MergeTwo(p: Proof, q: Proof, verifies: Signed -> bool)
    ensures MergeAllAttestations([p, q], verifies) ==
            match MergeAttestations(map[], p.attestations, verifies)
            case None => None
            case Some(m) => MergeAttestations(m, q.attestations, verifies)
  {
    assert [p, q][..1] == [p] && [p][..0] == [];
    assert MergeAllAttestations([p][..0], verifies) == Some(map[]);
    assert MergeAllAttestations([p], verifies) == MergeAttestations(map[], p.attestations, verifies);
  }

  // ---------- when order does not matter ----------

  /** The same inputs, in any order and any number of times. */
  ghost predicate SameInputs(ps: seq<Proof>, qs: seq<Proof>) {
    forall p :: p in ps <==> p in qs
  }

  lemma FirstsOfPrefix(a: seq<Signed>, b: seq<Signed>)
    ensures forall i :: 0 <= i < |a| ==> (a + b)[i] == a[i] && (IsFirst(a + b, i) <==> IsFirst(a, i))
  {
    var c := a + b;
    forall i | 0 <= i < |a| ensures IsFirst(c, i) <==> IsFirst(a, i) {
      assert forall j :: 0 <= j <= i ==> c[j] == a[j];
      if IsFirst(c, i) {
        assert forall j :: 0 <= j < i ==> c[j].id != c[i].id;
      }
    }
  }

  lemma FirstsVerifyAppend(a: seq<Signed>, b: seq<Signed>, verifies: Signed -> bool)
    ensures FirstsVerify(a, verifies) && FirstsVerify(b, verifies) ==> FirstsVerify(a + b, verifies)
    ensures FirstsVerify(a + b, verifies) ==> FirstsVerify(a, verifies)
  {
    var c := a + b;
    FirstsOfPrefix(a, b);
    forall i | 0 <= i < |b| && IsFirst(c, |a| + i) ensures c[|a| + i] == b[i] && IsFirst(b, i) {
      forall j | 0 <= j < i ensures b[j].id != b[i].id {
        assert c[|a| + j] == b[j];
      }
    }
    if FirstsVerify(a, verifies) && FirstsVerify(b, verifies) {
      forall k | 0 <= k < |c| && IsFirst(c, k) ensures verifies(c[k]) {
        if k >= |a| {
          assert IsFirst(c, |a| + (k - |a|));
          assert verifies(b[k - |a|]);
        }
      }
    }
  }

  lemma {:induction false} EachVerifiesAll(ps: seq<Proof>, verifies: Signed -> bool)
    requires forall p :: p in ps ==> FirstsVerify(p.attestations, verifies)
    ensures FirstsVerify(AllAttestations(ps), verifies)
  {
    if ps != [] {
      assert ps == ps[..|ps| - 1] + [ps[|ps| - 1]];
      EachVerifiesAll(ps[..|ps| - 1], verifies);
      FirstsVerifyAppend(AllAttestations(ps[..|ps| - 1]), ps[|ps| - 1].attestations, verifies);
    }
  }

  lemma {:induction false} FrontIsRead(ps: seq<Proof>)
    requires ps != []
    ensures Firsts(ps) != [] && Firsts(ps)[0] == ps[0]
  {
    if |ps| > 1 {
      FrontIsRead(ps[..|ps| - 1]);
    } else {
      assert ps[..0] == [];
    }
  }

  lemma {:induction false} FrontIsPrefix(ps: seq<Proof>) returns (rest: seq<Signed>)
    requires ps != []
    ensures AllAttestations(ps) == ps[0].attestations + rest
  {
    if |ps| == 1 {
      rest := [];
      assert ps[..0] == [];
    } else {
      var front := ps[..|ps| - 1];
      var r := FrontIsPrefix(front);
      rest := r + ps[|ps| - 1].attestations;
      Appended(front[0].attestations, r, ps[|ps| - 1].attestations);
    }
  }

  lemma Appended(a: seq<Signed>, b: seq<Signed>, c: seq<Signed>)
    ensures (a + b) + c == a + (b + c)
  {
  }

  lemma FrontVerifies(ps: seq<Proof>, verifies: Signed -> bool)
    requires ps != [] && FirstsVerify(AllAttestations(ps), verifies)
    ensures FirstsVerify(ps[0].attestations, verifies)
  {
    var rest := FrontIsPrefix(ps);
    FirstsVerifyAppend(ps[0].attestations, rest, verifies);
  }

  /**
   * Every order and repetition of the inputs is accepted exactly when each input on its own would be: the first
   * envelope under each of its content ids verifies.
   */
  lemma EveryOrderAcceptedIff(ps: seq<Proof>, verifies: Signed -> bool)
    ensures (forall qs :: SameInputs(ps, qs) ==> MergeAllAttestations(Firsts(qs), verifies).Some?)
            <==> (forall p :: p in ps ==> FirstsVerify(p.attestations, verifies))
  {
    if forall p :: p in ps ==> FirstsVerify(p.attestations, verifies) {
      forall qs | SameInputs(ps, qs) ensures MergeAllAttestations(Firsts(qs), verifies).Some? {
        FirstsAreInputs(qs);
        EachVerifiesAll(Firsts(qs), verifies);
        AcceptedIff(qs, verifies);
      }
    }
    if forall qs :: SameInputs(ps, qs) ==> MergeAllAttestations(Firsts(qs), verifies).Some? {
      forall p | p in ps ensures FirstsVerify(p.attestations, verifies) {
        var qs := [p] + ps;
        assert SameInputs(ps, qs);
        AcceptedIff(qs, verifies);
        FrontIsRead(qs);
        FrontVerifies(Firsts(qs), verifies);
      }
    }
  }
}
