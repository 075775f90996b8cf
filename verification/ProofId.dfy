/**
 * The binding that a proof id hashes: the canonical encoding of a map holding
 * the proposition, the creation time and the sorted member id lists. Two proofs
 * have the same binding exactly when they agree on all of these.
 */
module ProofId {
  import opened Bytes
  import opened CborOrder
  import opened CborPrefix
  import opened CborTextKeys
  import opened CborValue
  import opened StableSort
  import opened Utf8

  datatype Vocabulary = Vocabulary(ns: bytes, version: u64)

  /** The arguments of `proof_id_full`; strings are their UTF-8 bytes. */
  datatype Parts = Parts(
    proposition: Value,
    createdAt: u64,
    events: seq<bytes>,
    attestations: seq<bytes>,
    evidence: seq<bytes>,
    relationships: seq<bytes>,
    referencedProofs: seq<bytes>,
    vocabularies: seq<Vocabulary>
  )

  /** The field names of a binding, in the order the source lists them. */
  const NAMES: seq<bytes> := [
    Ascii("attestations"),
    Ascii("created_at"),
    Ascii("events"),
    Ascii("evidence"),
    Ascii("relationships"),
    Ascii("proposition"),
    Ascii("v"),
    Ascii("referenced_proofs"),
    Ascii("vocabularies")
  ]

  const NS: bytes := Ascii("ns")
  const VERSION: bytes := Ascii("version")

  // ---------- the binding ----------

  function BySelf(ids: seq<bytes>): (r: seq<Keyed<bytes>>)
    ensures |r| == |ids|
    ensures forall i :: 0 <= i < |ids| ==> r[i] == Keyed(ids[i], ids[i])
  {
    seq(|ids|, i requires 0 <= i < |ids| => Keyed(ids[i], ids[i]))
  }

  function SortedIds(ids: seq<bytes>): (r: seq<bytes>)
    ensures |r| == |ids|
  {
    Unkeyed(Sort(BySelf(ids)))
  }

  function Texts(ids: seq<bytes>): (r: seq<Value>)
    ensures |r| == |ids|
    ensures forall i :: 0 <= i < |ids| ==> r[i] == Text(ids[i])
  {
    seq(|ids|, i requires 0 <= i < |ids| => Text(ids[i]))
  }

  /** The inner `sorted`: an id list as an array of text in ascending order. */
  function IdArray(ids: seq<bytes>): Value {
    Array(Texts(SortedIds(ids)))
  }

  function ByNamespace(vs: seq<Vocabulary>): (r: seq<Keyed<Vocabulary>>)
    ensures |r| == |vs|
    ensures forall i :: 0 <= i < |vs| ==> r[i] == Keyed(vs[i].ns, vs[i])
  {
    seq(|vs|, i requires 0 <= i < |vs| => Keyed(vs[i].ns, vs[i]))
  }

  function SortedVocabularies(vs: seq<Vocabulary>): (r: seq<Vocabulary>)
    ensures |r| == |vs|
  {
    Unkeyed(Sort(ByNamespace(vs)))
  }

  function VocabularyMap(v: Vocabulary): Value {
    Map([Entry(Text(NS), Text(v.ns)), Entry(Text(VERSION), Uint(v.version))])
  }

  function VocabularyMaps(vs: seq<Vocabulary>): (r: seq<Value>)
    ensures |r| == |vs|
    ensures forall i :: 0 <= i < |vs| ==> r[i] == VocabularyMap(vs[i])
  {
    seq(|vs|, i requires 0 <= i < |vs| => VocabularyMap(vs[i]))
  }

  function VocabularyArray(vs: seq<Vocabulary>): Value {
    Array(VocabularyMaps(SortedVocabularies(vs)))
  }

  /** The value of each field, by the position of its name. */
  function FieldValues(p: Parts): (r: seq<Value>)
    ensures |r| == 9
  {
    [ IdArray(p.attestations),
      Uint(p.createdAt),
      IdArray(p.events),
      IdArray(p.evidence),
      IdArray(p.relationships),
      p.proposition,
      Uint(1),
      IdArray(p.referencedProofs),
      VocabularyArray(p.vocabularies) ]
  }

  /** Which fields are there: seven always, two when their lists are not empty. */
  function Present(p: Parts): (r: seq<nat>)
    ensures forall i :: 0 <= i < |r| ==> r[i] < 9
    ensures forall i, j :: 0 <= i < j < |r| ==> r[i] < r[j]
    ensures forall k :: k in r <==>
              0 <= k < 7 || (k == 7 && p.referencedProofs != []) || (k == 8 && p.vocabularies != [])
  {
    [0, 1, 2, 3, 4, 5, 6]
    + (if p.referencedProofs == [] then [] else [7])
    + (if p.vocabularies == [] then [] else [8])
  }

  function Fields(names: seq<bytes>, vals: seq<Value>, present: seq<nat>): (r: seq<Entry>)
    requires |names| == |vals| == 9 && forall i :: 0 <= i < |present| ==> present[i] < 9
    ensures |r| == |present|
    ensures forall i :: 0 <= i < |present| ==> r[i] == Entry(Text(names[present[i]]), vals[present[i]])
  {
    seq(|present|, i requires 0 <= i < |present| => Entry(Text(names[present[i]]), vals[present[i]]))
  }

  /** What `proof_id_full` hashes. */
  function Binding(p: Parts): bytes {
    Encode(Map(Fields(NAMES, FieldValues(p), Present(p))))
  }

  /** The source's steps: seven fields always, two pushed when their lists are not empty. */
  method BuildEntries(names: seq<bytes>, p: Parts) returns (pairs: seq<Entry>)
    requires |names| == 9
    ensures pairs == Fields(names, FieldValues(p), Present(p))
  {
    pairs := [
      Entry(Text(names[0]), IdArray(p.attestations)),
      Entry(Text(names[1]), Uint(p.createdAt)),
      Entry(Text(names[2]), IdArray(p.events)),
      Entry(Text(names[3]), IdArray(p.evidence)),
      Entry(Text(names[4]), IdArray(p.relationships)),
      Entry(Text(names[5]), p.proposition),
      Entry(Text(names[6]), Uint(1))
    ];
    assert pairs == Fields(names, FieldValues(p), [0, 1, 2, 3, 4, 5, 6]);
    ghost var kept := [0, 1, 2, 3, 4, 5, 6];
    if p.referencedProofs != [] {
      pairs := pairs + [Entry(Text(names[7]), IdArray(p.referencedProofs))];
      FieldsPush(names, FieldValues(p), kept, 7);
      kept := kept + [7];
    }
    if p.vocabularies != [] {
      pairs := pairs + [Entry(Text(names[8]), VocabularyArray(p.vocabularies))];
      FieldsPush(names, FieldValues(p), kept, 8);
      kept := kept + [8];
    }
    assert kept == Present(p);
  }

  method BuildBinding(p: Parts) returns (b: bytes)
    ensures b == Binding(p)
  {
    var pairs := BuildEntries(NAMES, p);
    return Encode(Map(pairs));
  }

  lemma FieldsPush(names: seq<bytes>, vals: seq<Value>, present: seq<nat>, k: nat)
    requires |names| == |vals| == 9 && k < 9 && forall i :: 0 <= i < |present| ==> present[i] < 9
    ensures Fields(names, vals, present + [k]) == Fields(names, vals, present) + [Entry(Text(names[k]), vals[k])]
  {
  }

  // ---------- what Rust's types guarantee ----------

  ghost predicate Strings(ids: seq<bytes>) {
    |ids| < TWO_TO_THE_64 && forall i :: 0 <= i < |ids| ==> IsString(ids[i])
  }

  ghost predicate Proper(p: Parts) {
    && WellFormed(p.proposition)
    && Strings(p.events) && Strings(p.attestations) && Strings(p.evidence) && Strings(p.relationships)
    && Strings(p.referencedProofs)
    && |p.vocabularies| < TWO_TO_THE_64
    && forall i :: 0 <= i < |p.vocabularies| ==> IsString(p.vocabularies[i].ns)
  }

  // ---------- sorted lists ----------

  lemma {:induction false} WithKeyOfSelf(ids: seq<bytes>, id: bytes)
    ensures WithKey(BySelf(ids), id) == seq(multiset(ids)[id], i => Keyed(id, id))
  {
    if ids != [] {
      WithKeyOfSelf(ids[1..], id);
      assert BySelf(ids)[1..] == BySelf(ids[1..]);
      assert ids == [ids[0]] + ids[1..];
      assert multiset(ids) == multiset{ids[0]} + multiset(ids[1..]);
    }
  }

  lemma SortedIdsEqualIff(a: seq<bytes>, b: seq<bytes>)
    ensures SortedIds(a) == SortedIds(b) <==> multiset(a) == multiset(b)
  {
    SortEqualIff(BySelf(a), BySelf(b));
    BySelfOfSorted(a);
    BySelfOfSorted(b);
    if multiset(a) == multiset(b) {
      forall id ensures WithKey(BySelf(a), id) == WithKey(BySelf(b), id) {
        WithKeyOfSelf(a, id);
        WithKeyOfSelf(b, id);
      }
    }
    if SortedIds(a) == SortedIds(b) {
      forall id ensures multiset(a)[id] == multiset(b)[id] {
        assert WithKey(BySelf(a), id) == WithKey(BySelf(b), id);
        WithKeyOfSelf(a, id);
        WithKeyOfSelf(b, id);
      }
    }
  }

  lemma BySelfOfSorted(ids: seq<bytes>)
    ensures BySelf(SortedIds(ids)) == Sort(BySelf(ids))
    ensures forall i :: 0 <= i < |ids| ==> SortedIds(ids)[i] in ids
  {
    SortMembers(BySelf(ids));
    forall i | 0 <= i < |ids|
      ensures BySelf(SortedIds(ids))[i] == Sort(BySelf(ids))[i] && SortedIds(ids)[i] in ids
    {
      assert Sort(BySelf(ids))[i] in Sort(BySelf(ids));
    }
  }

  lemma ByNamespaceOfSorted(vs: seq<Vocabulary>)
    ensures ByNamespace(SortedVocabularies(vs)) == Sort(ByNamespace(vs))
    ensures forall i :: 0 <= i < |vs| ==> SortedVocabularies(vs)[i] in vs
  {
    SortMembers(ByNamespace(vs));
    forall i | 0 <= i < |vs|
      ensures ByNamespace(SortedVocabularies(vs))[i] == Sort(ByNamespace(vs))[i] && SortedVocabularies(vs)[i] in vs
    {
      assert Sort(ByNamespace(vs))[i] in Sort(ByNamespace(vs));
    }
  }

  lemma IdArraysEqualIff(a: seq<bytes>, b: seq<bytes>)
    ensures IdArray(a) == IdArray(b) <==> multiset(a) == multiset(b)
  {
    SortedIdsEqualIff(a, b);
    if IdArray(a) == IdArray(b) {
      forall i | 0 <= i < |a| ensures SortedIds(a)[i] == SortedIds(b)[i] {
        assert Texts(SortedIds(a))[i] == Texts(SortedIds(b))[i];
      }
      assert SortedIds(a) == SortedIds(b);
    }
  }

  lemma VocabularyArraysEqualIff(a: seq<Vocabulary>, b: seq<Vocabulary>)
    ensures VocabularyArray(a) == VocabularyArray(b) <==> StablyPermuted(ByNamespace(a), ByNamespace(b))
  {
    SortEqualIff(ByNamespace(a), ByNamespace(b));
    ByNamespaceOfSorted(a);
    ByNamespaceOfSorted(b);
    if VocabularyArray(a) == VocabularyArray(b) {
      forall i | 0 <= i < |a| ensures SortedVocabularies(a)[i] == SortedVocabularies(b)[i] {
        assert VocabularyMaps(SortedVocabularies(a))[i] == VocabularyMaps(SortedVocabularies(b))[i];
        VocabularyMapInjective(SortedVocabularies(a)[i], SortedVocabularies(b)[i]);
      }
      assert SortedVocabularies(a) == SortedVocabularies(b);
    }
  }

  lemma VocabularyMapInjective(a: Vocabulary, b: Vocabulary)
    requires VocabularyMap(a) == VocabularyMap(b)
    ensures a == b
  {
    assert VocabularyMap(a).entries[0] == VocabularyMap(b).entries[0];
    assert VocabularyMap(a).entries[1] == VocabularyMap(b).entries[1];
  }

  // ---------- records ----------

  /** Nine different ASCII names. */
  ghost predicate FieldNames(names: seq<bytes>) {
    && |names| == 9
    && (forall i :: 0 <= i < 9 ==> |names[i]| < 128 && AllAscii(names[i]))
    && (forall i, j :: 0 <= i < j < 9 ==> names[i] != names[j])
  }

  ghost predicate Rising(present: seq<nat>) {
    && (forall i :: 0 <= i < |present| ==> present[i] < 9)
    && (forall i, j :: 0 <= i < j < |present| ==> present[i] < present[j])
  }

  /** The same fields are present, with the same values. */
  ghost predicate Agree(x: seq<Value>, xs: seq<nat>, y: seq<Value>, ys: seq<nat>)
    requires |x| == |y| == 9 && Rising(xs) && Rising(ys)
  {
    (forall k :: k in xs <==> k in ys) && (forall k :: k in xs ==> x[k] == y[k])
  }

  /** A field of one record that another also has is the same field there. */
  lemma SharedField(names: seq<bytes>, x: seq<Value>, xs: seq<nat>, y: seq<Value>, ys: seq<nat>, k: nat)
    requires |x| == |y| == 9 && FieldNames(names) && Rising(xs) && Rising(ys)
    requires forall e :: e in Fields(names, x, xs) ==> e in Fields(names, y, ys)
    requires k in xs
    ensures k in ys && x[k] == y[k]
  {
    var i :| 0 <= i < |xs| && xs[i] == k;
    var e := Fields(names, x, xs)[i];
    assert e in Fields(names, x, xs);
    var j :| 0 <= j < |ys| && Fields(names, y, ys)[j] == e;
    assert names[ys[j]] == names[k];
  }

  /** Two records have the same entries exactly when they have the same fields present, with the same values. */
  lemma FieldsEqualIff(names: seq<bytes>, x: seq<Value>, xs: seq<nat>, y: seq<Value>, ys: seq<nat>)
    requires |x| == |y| == 9 && FieldNames(names) && Rising(xs) && Rising(ys)
    ensures SameEntries(Fields(names, x, xs), Fields(names, y, ys)) <==> Agree(x, xs, y, ys)
  {
    if SameEntries(Fields(names, x, xs), Fields(names, y, ys)) {
      forall k | k in xs ensures k in ys && x[k] == y[k] {
        SharedField(names, x, xs, y, ys, k);
      }
      forall k | k in ys ensures k in xs {
        SharedField(names, y, ys, x, xs, k);
      }
    }
    if Agree(x, xs, y, ys) {
      SameFields(names, x, xs, y, ys);
      SameFields(names, y, ys, x, xs);
    }
  }

  lemma SameFields(names: seq<bytes>, x: seq<Value>, xs: seq<nat>, y: seq<Value>, ys: seq<nat>)
    requires |names| == |x| == |y| == 9 && Rising(xs) && Rising(ys)
    requires forall k :: k in xs ==> k in ys && x[k] == y[k]
    ensures forall e :: e in Fields(names, x, xs) ==> e in Fields(names, y, ys)
  {
    forall e | e in Fields(names, x, xs) ensures e in Fields(names, y, ys) {
      var i :| 0 <= i < |xs| && Fields(names, x, xs)[i] == e;
      assert xs[i] in ys;
      var j :| 0 <= j < |ys| && ys[j] == xs[i];
      assert Fields(names, y, ys)[j] == e;
    }
  }

  lemma FieldsUnique(names: seq<bytes>, x: seq<Value>, xs: seq<nat>)
    requires |x| == 9 && FieldNames(names) && Rising(xs)
    ensures UniqueKeys(Fields(names, x, xs))
  {
    var es := Fields(names, x, xs);
    forall i, j | 0 <= i < j < |es| ensures Encode(es[i].key) != Encode(es[j].key) {
      TextKeysInjective(names[xs[i]], names[xs[j]]);
    }
  }

  // ---------- a binding is well formed and sorts only inside the proposition ----------

  lemma IdArrayIsFixed(ids: seq<bytes>)
    ensures SortMaps(IdArray(ids)) == IdArray(ids)
    ensures Strings(ids) ==> WellFormed(IdArray(ids))
  {
    OrderedIsFixed(IdArray(ids));
    BySelfOfSorted(ids);
  }

  lemma VocabularyMapIsFixed(v: Vocabulary)
    ensures Ordered(VocabularyMap(v))
    ensures IsString(v.ns) ==> WellFormed(VocabularyMap(v))
  {
    AsciiIsUtf8(NS);
    AsciiIsUtf8(VERSION);
    TwoFields(NS, VERSION, Text(v.ns), Uint(v.version));
  }

  lemma VocabularyArrayIsFixed(vs: seq<Vocabulary>)
    ensures SortMaps(VocabularyArray(vs)) == VocabularyArray(vs)
    ensures |vs| < TWO_TO_THE_64 && (forall i :: 0 <= i < |vs| ==> IsString(vs[i].ns)) ==>
              WellFormed(VocabularyArray(vs))
  {
    var sorted := SortedVocabularies(vs);
    ByNamespaceOfSorted(vs);
    forall i | 0 <= i < |sorted|
      ensures Ordered(VocabularyMap(sorted[i]))
      ensures IsString(sorted[i].ns) ==> WellFormed(VocabularyMap(sorted[i]))
    {
      VocabularyMapIsFixed(sorted[i]);
    }
    OrderedIsFixed(VocabularyArray(vs));
  }

  /** The binding's own arrays are already in order. */
  lemma FieldValuesFixed(p: Parts, k: nat)
    requires k < 9 && k != 5
    ensures SortMaps(FieldValues(p)[k]) == FieldValues(p)[k]
  {
    if k == 0 {
      IdArrayIsFixed(p.attestations);
    } else if k == 2 {
      IdArrayIsFixed(p.events);
    } else if k == 3 {
      IdArrayIsFixed(p.evidence);
    } else if k == 4 {
      IdArrayIsFixed(p.relationships);
    } else if k == 7 {
      IdArrayIsFixed(p.referencedProofs);
    } else if k == 8 {
      VocabularyArrayIsFixed(p.vocabularies);
    }
  }

  ghost function SortedParts(p: Parts): Parts {
    p.(proposition := SortMaps(p.proposition))
  }

  lemma FieldValuesSort(p: Parts, k: nat)
    requires k < 9
    ensures SortMaps(FieldValues(p)[k]) == FieldValues(SortedParts(p))[k]
  {
    if k != 5 {
      FieldValuesFixed(p, k);
      assert FieldValues(SortedParts(p))[k] == FieldValues(p)[k];
    }
  }

  lemma FieldValuesWellFormed(p: Parts, k: nat)
    requires k < 9 && Proper(p)
    ensures WellFormed(FieldValues(p)[k])
  {
    if k == 8 {
      VocabularyArrayIsFixed(p.vocabularies);
    } else if k == 7 {
      IdArrayIsFixed(p.referencedProofs);
    } else if k < 3 {
      IdArrayIsFixed(p.attestations);
      IdArrayIsFixed(p.events);
    } else {
      IdArrayIsFixed(p.evidence);
      IdArrayIsFixed(p.relationships);
    }
  }

  lemma SortFields(names: seq<bytes>, x: seq<Value>, y: seq<Value>, present: seq<nat>)
    requires |names| == |x| == |y| == 9 && Rising(present)
    requires forall k :: 0 <= k < 9 ==> SortMaps(x[k]) == y[k]
    ensures SortMapsEntries(Fields(names, x, present)) == Fields(names, y, present)
  {
    var es, fs := Fields(names, x, present), Fields(names, y, present);
    forall i | 0 <= i < |es| ensures SortMapsEntry(es[i]) == fs[i] {
      var k := present[i];
      assert SortMaps(x[k]) == y[k];
    }
  }

  ghost function Record(names: seq<bytes>, p: Parts): seq<Entry>
    requires |names| == 9
  {
    Fields(names, FieldValues(p), Present(p))
  }

  lemma BindingSortsProposition(names: seq<bytes>, p: Parts)
    requires |names| == 9
    ensures SortMapsEntries(Record(names, p)) == Record(names, SortedParts(p))
  {
    forall k | 0 <= k < 9 ensures SortMaps(FieldValues(p)[k]) == FieldValues(SortedParts(p))[k] {
      FieldValuesSort(p, k);
    }
    SortFields(names, FieldValues(p), FieldValues(SortedParts(p)), Present(p));
  }

  lemma BindingWellFormed(names: seq<bytes>, p: Parts)
    requires FieldNames(names) && Proper(p)
    ensures WellFormed(Map(Record(names, p))) && UniqueKeys(Record(names, p))
  {
    FieldsUnique(names, FieldValues(p), Present(p));
    var es := Record(names, p);
    forall i | 0 <= i < |es| ensures WellFormedEntry(es[i]) {
      AsciiIsUtf8(names[Present(p)[i]]);
      FieldValuesWellFormed(p, Present(p)[i]);
    }
    assert |es| <= 9 by {
      assert |Present(p)| <= 9;
    }
  }

  // ---------- what a binding stands for ----------

  /** Lists as multisets, vocabularies as what a stable sort by namespace keeps. */
  ghost predicate SameParts(a: Parts, b: Parts) {
    && SortMaps(a.proposition) == SortMaps(b.proposition)
    && a.createdAt == b.createdAt
    && multiset(a.events) == multiset(b.events)
    && multiset(a.attestations) == multiset(b.attestations)
    && multiset(a.evidence) == multiset(b.evidence)
    && multiset(a.relationships) == multiset(b.relationships)
    && multiset(a.referencedProofs) == multiset(b.referencedProofs)
    && StablyPermuted(ByNamespace(a.vocabularies), ByNamespace(b.vocabularies))
  }

  lemma FieldValuesEqualIff(a: Parts, b: Parts)
    ensures FieldValues(a) == FieldValues(b) <==> a.proposition == b.proposition && SameParts(a, b)
  {
    IdArraysEqualIff(a.attestations, b.attestations);
    IdArraysEqualIff(a.events, b.events);
    IdArraysEqualIff(a.evidence, b.evidence);
    IdArraysEqualIff(a.relationships, b.relationships);
    IdArraysEqualIff(a.referencedProofs, b.referencedProofs);
    VocabularyArraysEqualIff(a.vocabularies, b.vocabularies);
    var x, y := FieldValues(a), FieldValues(b);
    assert x == y <==> x[0] == y[0] && x[1] == y[1] && x[2] == y[2] && x[3] == y[3] && x[4] == y[4] && x[5] == y[5]
                       && x[7] == y[7] && x[8] == y[8];
  }

  /** An absent optional field and an empty list say the same. */
  lemma PresentFieldsDecide(a: Parts, b: Parts)
    ensures Agree(FieldValues(a), Present(a), FieldValues(b), Present(b)) <==> FieldValues(a) == FieldValues(b)
  {
    var x, y := FieldValues(a), FieldValues(b);
    assert |x[7].items| == |a.referencedProofs| && |y[7].items| == |b.referencedProofs|;
    assert |x[8].items| == |a.vocabularies| && |y[8].items| == |b.vocabularies|;
    if Agree(x, Present(a), y, Present(b)) {
      EmptyArraysEqual(a, b);
      forall k | 0 <= k < 9 ensures x[k] == y[k] {
        assert k in Present(a) || k == 7 || k == 8;
      }
    }
    if x == y {
      assert 7 in Present(a) <==> 7 in Present(b);
      assert 8 in Present(a) <==> 8 in Present(b);
    }
  }

  lemma EmptyArraysEqual(a: Parts, b: Parts)
    ensures a.referencedProofs == [] && b.referencedProofs == [] ==> FieldValues(a)[7] == FieldValues(b)[7]
    ensures a.vocabularies == [] && b.vocabularies == [] ==> FieldValues(a)[8] == FieldValues(b)[8]
  {
  }

  lemma SourceNamesDiffer()
    ensures FieldNames(NAMES)
  {
    assert NAMES[0][0] == 'a' as int && NAMES[8][0] == 'v' as int;
    var sizes := [12, 10, 6, 8, 13, 11, 1, 17, 12];
    assert forall i :: 0 <= i < 9 ==> |NAMES[i]| == sizes[i];
  }

  /**
   * The hashed binding is the same for two proofs exactly when they have the same proposition up to map order,
   * the same creation time, the same ids in each member list, the same referenced proofs and the same vocabularies.
   */
  lemma BindingEqualIff(a: Parts, b: Parts)
    requires Proper(a) && Proper(b)
    ensures Binding(a) == Binding(b) <==> SameParts(a, b)
  {
    SourceNamesDiffer();
    RecordsEqualIff(NAMES, a, b);
    FieldValuesEqualIff(SortedParts(a), SortedParts(b));
    SortMapsIdempotent(a.proposition);
    SortMapsIdempotent(b.proposition);
  }

  lemma RecordsEqualIff(names: seq<bytes>, a: Parts, b: Parts)
    requires FieldNames(names) && Proper(a) && Proper(b)
    ensures (Encode(Map(Record(names, a))) == Encode(Map(Record(names, b)))) <==>
            FieldValues(SortedParts(a)) == FieldValues(SortedParts(b))
  {
    BindingWellFormed(names, a);
    BindingWellFormed(names, b);
    MapsEncodeAlikeIff(Record(names, a), Record(names, b));
    BindingSortsProposition(names, a);
    BindingSortsProposition(names, b);
    RecordEntriesEqualIff(names, SortedParts(a), SortedParts(b));
  }

  lemma RecordEntriesEqualIff(names: seq<bytes>, x: Parts, y: Parts)
    requires FieldNames(names)
    ensures SameEntries(Record(names, x), Record(names, y)) <==> FieldValues(x) == FieldValues(y)
  {
    FieldsEqualIff(names, FieldValues(x), Present(x), FieldValues(y), Present(y));
    PresentFieldsDecide(x, y);
  }

  // ---------- vocabularies ----------

  ghost predicate DistinctNamespaces(vs: seq<Vocabulary>) {
    forall i, j :: 0 <= i < j < |vs| ==> vs[i].ns != vs[j].ns
  }

  /** With distinct namespaces, as the callers guarantee, the vocabularies count as a set. */
  lemma VocabulariesAreASet(a: seq<Vocabulary>, b: seq<Vocabulary>)
    requires DistinctNamespaces(a) && DistinctNamespaces(b)
    ensures StablyPermuted(ByNamespace(a), ByNamespace(b)) <==> forall v :: v in a <==> v in b
  {
    var x, y := ByNamespace(a), ByNamespace(b);
    assert Distinct(x) && Distinct(y);
    DistinctPermutedIff(x, y);
    if StablyPermuted(x, y) {
      forall v ensures v in a <==> v in b {
        KeyedMember(a, v);
        KeyedMember(b, v);
      }
    }
    if forall v :: v in a <==> v in b {
      forall k ensures k in x <==> k in y {
        KeyedMember(a, k.item);
        KeyedMember(b, k.item);
      }
    }
  }

  lemma KeyedMember(vs: seq<Vocabulary>, v: Vocabulary)
    ensures v in vs <==> Keyed(v.ns, v) in ByNamespace(vs)
    ensures forall k :: k in ByNamespace(vs) && k.item == v ==> k == Keyed(v.ns, v)
  {
    if v in vs {
      var i :| 0 <= i < |vs| && vs[i] == v;
      assert ByNamespace(vs)[i] == Keyed(v.ns, v);
    }
  }

  /** With a repeated namespace the order of the two declarations is bound as well. */
  lemma RepeatedNamespaceBindsOrder(p: Parts, ns: bytes, v: u64, w: u64)
    requires Proper(p) && IsString(ns) && v != w
    ensures Binding(p.(vocabularies := [Vocabulary(ns, v), Vocabulary(ns, w)])) !=
            Binding(p.(vocabularies := [Vocabulary(ns, w), Vocabulary(ns, v)]))
  {
    var x, y := [Vocabulary(ns, v), Vocabulary(ns, w)], [Vocabulary(ns, w), Vocabulary(ns, v)];
    assert ByNamespace(x)[1..] == [ByNamespace(x)[1]] && ByNamespace(y)[1..] == [ByNamespace(y)[1]];
    assert WithKey(ByNamespace(x), ns)[0] == ByNamespace(x)[0];
    assert WithKey(ByNamespace(y), ns)[0] == ByNamespace(y)[0];
    assert !StablyPermuted(ByNamespace(x), ByNamespace(y));
    BindingEqualIff(p.(vocabularies := x), p.(vocabularies := y));
  }

  /** Equal namespaces carry equal versions. */
  ghost predicate Agreeing(vs: seq<Vocabulary>) {
    forall i, j :: 0 <= i < j < |vs| && vs[i].ns == vs[j].ns ==> vs[i] == vs[j]
  }

  ghost predicate Reordering(ws: seq<Vocabulary>, vs: seq<Vocabulary>) {
    multiset(ws) == multiset(vs)
  }

  /** Every declaration under `v`'s namespace is `v`. */
  ghost predicate OnlyVersion(vs: seq<Vocabulary>, v: Vocabulary) {
    forall x :: x in vs && x.ns == v.ns ==> x == v
  }

  ghost function Copies(k: Keyed<Vocabulary>, n: nat): seq<Keyed<Vocabulary>> {
    if n == 0 then [] else [k] + Copies(k, n - 1)
  }

  lemma FirstCounts(vs: seq<Vocabulary>, v: Vocabulary)
    requires vs != []
    ensures multiset(vs)[v] == multiset(vs[1..])[v] + if vs[0] == v then 1 else 0
  {
    assert vs == [vs[0]] + vs[1..];
  }

  lemma {:induction false} WithNamespace(vs: seq<Vocabulary>, v: Vocabulary)
    requires OnlyVersion(vs, v)
    ensures WithKey(ByNamespace(vs), v.ns) == Copies(Keyed(v.ns, v), multiset(vs)[v])
  {
    if vs != [] {
      assert vs[0] in vs && forall x :: x in vs[1..] ==> x in vs;
      WithNamespace(vs[1..], v);
      FirstCounts(vs, v);
      assert ByNamespace(vs)[1..] == ByNamespace(vs[1..]);
    }
  }

  lemma {:induction false} FirstWithKey(xs: seq<Keyed<Vocabulary>>, i: nat)
    requires i < |xs| && forall j :: 0 <= j < i ==> xs[j].key != xs[i].key
    ensures WithKey(xs, xs[i].key) != [] && WithKey(xs, xs[i].key)[0] == xs[i]
  {
    if i > 0 {
      FirstWithKey(xs[1..], i - 1);
    }
  }

  lemma ReorderedMembers(ws: seq<Vocabulary>, vs: seq<Vocabulary>, v: Vocabulary)
    requires Reordering(ws, vs)
    ensures v in ws <==> v in vs
  {
    assert v in ws <==> multiset(ws)[v] > 0;
    assert v in vs <==> multiset(vs)[v] > 0;
  }

  lemma AgreeingReorders(ws: seq<Vocabulary>, vs: seq<Vocabulary>)
    requires Reordering(ws, vs) && Agreeing(vs)
    ensures StablyPermuted(ByNamespace(ws), ByNamespace(vs))
  {
    forall ns ensures WithKey(ByNamespace(ws), ns) == WithKey(ByNamespace(vs), ns) {
      var v := VersionOf(vs, ns);
      forall x | x in ws && x.ns == ns ensures x == v {
        ReorderedMembers(ws, vs, x);
      }
      WithNamespace(vs, v);
      WithNamespace(ws, v);
    }
  }

  lemma VersionOf(vs: seq<Vocabulary>, ns: bytes) returns (v: Vocabulary)
    requires Agreeing(vs)
    ensures v.ns == ns && OnlyVersion(vs, v)
  {
    if x :| x in vs && x.ns == ns {
      v := x;
      var i :| 0 <= i < |vs| && vs[i] == v;
      forall y | y in vs && y.ns == ns ensures y == v {
        var j :| 0 <= j < |vs| && vs[j] == y;
      }
    } else {
      v := Vocabulary(ns, 0);
    }
  }

  ghost function ToFront(vs: seq<Vocabulary>, j: nat): seq<Vocabulary>
    requires j < |vs|
  {
    [vs[j]] + (vs[..j] + vs[j + 1..])
  }

  lemma ToFrontReorders(vs: seq<Vocabulary>, j: nat)
    requires j < |vs|
    ensures Reordering(ToFront(vs, j), vs)
  {
    assert vs == vs[..j] + [vs[j]] + vs[j + 1..];
  }

  lemma FirstOfNamespace(vs: seq<Vocabulary>, ns: bytes, k: nat) returns (i: nat)
    requires k < |vs| && vs[k].ns == ns
    ensures i <= k && vs[i].ns == ns && forall j :: 0 <= j < i ==> vs[j].ns != ns
  {
    i := 0;
    while vs[i].ns != ns
      invariant i <= k && forall j :: 0 <= j < i ==> vs[j].ns != ns
      decreases k - i
    {
      i := i + 1;
    }
  }

  /** A declaration moved before the first of its namespace, from which it differs, is bound differently. */
  lemma MovedIsNoticed(vs: seq<Vocabulary>, i: nat, j: nat)
    requires i < |vs| && j < |vs| && vs[i].ns == vs[j].ns && vs[i] != vs[j]
    requires forall k :: 0 <= k < i ==> vs[k].ns != vs[i].ns
    ensures !StablyPermuted(ByNamespace(ToFront(vs, j)), ByNamespace(vs))
  {
    var ns := vs[i].ns;
    FirstWithKey(ByNamespace(vs), i);
    FirstWithKey(ByNamespace(ToFront(vs, j)), 0);
    assert WithKey(ByNamespace(ToFront(vs, j)), ns)[0] != WithKey(ByNamespace(vs), ns)[0];
  }

  lemma DisagreeingIsNoticed(vs: seq<Vocabulary>) returns (ws: seq<Vocabulary>)
    requires !Agreeing(vs)
    ensures Reordering(ws, vs) && !StablyPermuted(ByNamespace(ws), ByNamespace(vs))
  {
    var a, b :| 0 <= a < b < |vs| && vs[a].ns == vs[b].ns && vs[a] != vs[b];
    var i := FirstOfNamespace(vs, vs[a].ns, a);
    var j := if vs[i] != vs[a] then a else b;
    MovedIsNoticed(vs, i, j);
    ToFrontReorders(vs, j);
    ws := ToFront(vs, j);
  }

  lemma ReorderedProper(p: Parts, ws: seq<Vocabulary>)
    requires Proper(p) && Reordering(ws, p.vocabularies)
    ensures Proper(p.(vocabularies := ws))
  {
    assert |ws| == |multiset(ws)| && |p.vocabularies| == |multiset(p.vocabularies)|;
    forall i | 0 <= i < |ws| ensures IsString(ws[i].ns) {
      ReorderedMembers(ws, p.vocabularies, ws[i]);
    }
  }

  /** The order of vocabulary declarations is not bound exactly when equal namespaces carry equal versions. */
  lemma VocabularyOrderIff(p: Parts)
    requires Proper(p)
    ensures (forall ws :: Reordering(ws, p.vocabularies) ==> Binding(p.(vocabularies := ws)) == Binding(p))
            <==> Agreeing(p.vocabularies)
  {
    forall ws | Reordering(ws, p.vocabularies)
      ensures Binding(p.(vocabularies := ws)) == Binding(p) <==>
              StablyPermuted(ByNamespace(ws), ByNamespace(p.vocabularies))
    {
      ReorderedProper(p, ws);
      BindingEqualIff(p.(vocabularies := ws), p);
    }
    if Agreeing(p.vocabularies) {
      forall ws | Reordering(ws, p.vocabularies) ensures Binding(p.(vocabularies := ws)) == Binding(p) {
        AgreeingReorders(ws, p.vocabularies);
      }
    } else {
      var ws := DisagreeingIsNoticed(p.vocabularies);
      assert Reordering(ws, p.vocabularies);
    }
  }
}
