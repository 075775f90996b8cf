/**
 * What a proof id hashes, read back: strictly decoded, the binding is a map that
 * holds every part of the proof under its name, each id list in ascending order.
 */
module BindingContent {
  import opened Bytes
  import opened CborAmple
  import opened CborDecode
  import opened CborLookup
  import opened CborOrder
  import opened CborTheorems
  import opened CborValue
  import opened LimitSets
  import opened ProofId
  import opened StableSort
  import opened Utf8

  // ---------- the property ----------

  ghost predicate AllTexts(items: seq<Value>) {
    forall i :: 0 <= i < |items| ==> items[i].Text?
  }

  ghost function TextsIn(items: seq<Value>): seq<bytes>
    requires AllTexts(items)
  {
    seq(|items|, i requires 0 <= i < |items| => items[i].text)
  }

  ghost predicate AscendingTexts(ts: seq<bytes>) {
    forall i, j :: 0 <= i < j < |ts| ==> Leq(ts[i], ts[j])
  }

  /** An array of texts in ascending order, with exactly these ids. */
  ghost predicate ListsIds(v: Option<Value>, ids: seq<bytes>) {
    && v.Some? && v.value.Array? && AllTexts(v.value.items)
    && AscendingTexts(TextsIn(v.value.items))
    && multiset(TextsIn(v.value.items)) == multiset(ids)
  }

  /** A vocabulary declaration: its namespace and its version. */
  ghost predicate Declares(v: Value, d: Vocabulary) {
    && v.Map? && |v.entries| == 2
    && Holding(v.entries, "ns", Text(d.ns))
    && Holding(v.entries, "version", Uint(d.version))
  }

  /** An array with exactly these declarations, by namespace. */
  ghost predicate ListsVocabularies(v: Option<Value>, vs: seq<Vocabulary>) {
    && v.Some? && v.value.Array?
    && exists ws :: DeclaresAll(v.value.items, ws) && multiset(ws) == multiset(vs)
  }

  ghost predicate DeclaresAll(items: seq<Value>, ws: seq<Vocabulary>) {
    && |items| == |ws|
    && (forall i :: 0 <= i < |ws| ==> Declares(items[i], ws[i]))
    && forall i, j :: 0 <= i < j < |ws| ==> Leq(ws[i].ns, ws[j].ns)
  }

  /** A binding map: every part under its name, the two optional lists only when not empty, and nothing else. */
  ghost predicate EntriesSay(m: seq<Entry>, p: Parts) {
    && |m| == 7 + (if p.referencedProofs == [] then 0 else 1) + (if p.vocabularies == [] then 0 else 1)
    && ScalarsSay(m, p) && MembersSay(m, p) && OptionalsSay(m, p)
  }

  ghost predicate ScalarsSay(m: seq<Entry>, p: Parts) {
    && Holding(m, "v", Uint(1))
    && Holding(m, "created_at", Uint(p.createdAt))
    && Holding(m, "proposition", SortMaps(p.proposition))
  }

  ghost predicate MembersSay(m: seq<Entry>, p: Parts) {
    && ListsIds(Find(m, Ascii("attestations")), p.attestations)
    && ListsIds(Find(m, Ascii("events")), p.events)
    && ListsIds(Find(m, Ascii("evidence")), p.evidence)
    && ListsIds(Find(m, Ascii("relationships")), p.relationships)
  }

  ghost predicate OptionalsSay(m: seq<Entry>, p: Parts) {
    var proofs, vocabularies := Find(m, Ascii("referenced_proofs")), Find(m, Ascii("vocabularies"));
    && (if p.referencedProofs == [] then proofs == None else ListsIds(proofs, p.referencedProofs))
    && (if p.vocabularies == [] then vocabularies == None else ListsVocabularies(vocabularies, p.vocabularies))
  }

  // ---------- lists ----------

  lemma ItemsCons<T>(xs: seq<Keyed<T>>)
    requires xs != []
    ensures multiset(Unkeyed(xs)) == multiset{xs[0].item} + multiset(Unkeyed(xs[1..]))
  {
    assert Unkeyed(xs) == [xs[0].item] + Unkeyed(xs[1..]);
  }

  lemma {:induction false} InsertedItems<T>(x: Keyed<T>, xs: seq<Keyed<T>>)
    ensures multiset(Unkeyed(Insert(x, xs))) == multiset{x.item} + multiset(Unkeyed(xs))
  {
    ItemsCons(Insert(x, xs));
    if xs != [] && !Leq(x.key, xs[0].key) {
      InsertedItems(x, xs[1..]);
      ItemsCons(xs);
      assert Insert(x, xs)[1..] == Insert(x, xs[1..]);
    } else {
      assert Insert(x, xs)[1..] == xs;
    }
  }

  /** Sorting keeps the items, each as often as it was there. */
  lemma {:induction false} SortedItems<T>(xs: seq<Keyed<T>>)
    ensures multiset(Unkeyed(Sort(xs))) == multiset(Unkeyed(xs))
  {
    if xs != [] {
      SortedItems(xs[1..]);
      InsertedItems(xs[0], Sort(xs[1..]));
      ItemsCons(xs);
    }
  }

  lemma IdArrayLists(ids: seq<bytes>)
    ensures ListsIds(Some(IdArray(ids)), ids)
  {
    var sorted := SortedIds(ids);
    assert TextsIn(IdArray(ids).items) == sorted;
    SortIsSorted(BySelf(ids));
    BySelfOfSorted(ids);
    forall i, j | 0 <= i < j < |sorted| ensures Leq(sorted[i], sorted[j]) {
      assert Leq(BySelf(sorted)[i].key, BySelf(sorted)[j].key);
    }
    SortedItems(BySelf(ids));
    assert Unkeyed(BySelf(ids)) == ids;
  }

  lemma VocabularyDeclares(v: Vocabulary)
    ensures Declares(VocabularyMap(v), v)
  {
    var es := VocabularyMap(v).entries;
    VocabularyMapIsFixed(v);
    AscendingIsOneEach(es);
    FindIs(es, NS, Text(v.ns));
    FindIs(es, VERSION, Uint(v.version));
  }

  lemma VocabularyArrayLists(vs: seq<Vocabulary>)
    ensures ListsVocabularies(Some(VocabularyArray(vs)), vs)
  {
    var ws, items := SortedVocabularies(vs), VocabularyArray(vs).items;
    SortIsSorted(ByNamespace(vs));
    ByNamespaceOfSorted(vs);
    forall i | 0 <= i < |ws| ensures Declares(items[i], ws[i]) {
      VocabularyDeclares(ws[i]);
    }
    forall i, j | 0 <= i < j < |ws| ensures Leq(ws[i].ns, ws[j].ns) {
      assert Leq(ByNamespace(ws)[i].key, ByNamespace(ws)[j].key);
    }
    SortedItems(ByNamespace(vs));
    assert Unkeyed(ByNamespace(vs)) == vs;
    assert DeclaresAll(items, ws);
  }

  // ---------- the map ----------

  /** The decoded entries, looked up by the position of a name. */
  lemma FindPart(names: seq<bytes>, p: Parts, k: nat)
    requires FieldNames(names) && k < 9
    ensures Find(SortedEntries(Record(names, p)), names[k]) ==
            if k in Present(p) then Some(ProofId.FieldValues(SortedParts(p))[k]) else None
  {
    var es, present := Record(names, p), Present(p);
    if k in present {
      var i :| 0 <= i < |present| && present[i] == k;
      FieldsUnique(names, ProofId.FieldValues(p), present);
      FindSorted(es, i, names[k]);
      FieldValuesSort(p, k);
    } else {
      forall i | 0 <= i < |es| ensures es[i].key.Text? && es[i].key.text != names[k] {
        var j := present[i];
        assert j != k;
      }
      FindSortedNothing(es, names[k]);
    }
  }

  lemma RecordSays(p: Parts, m: seq<Entry>)
    requires m == SortedEntries(Record(NAMES, p))
    ensures EntriesSay(m, p)
  {
    ProofId.SourceNamesDiffer();
    AllFound(NAMES, p);
    FoundScalars(m, p);
    FoundMembers(m, p);
    FoundOptionals(m, p);
  }

  /** The decoded entries by the positions of their names. */
  ghost predicate Found(names: seq<bytes>, m: seq<Entry>, p: Parts)
    requires |names| == 9
  {
    && Find(m, names[0]) == Some(IdArray(p.attestations))
    && Find(m, names[1]) == Some(Uint(p.createdAt))
    && Find(m, names[2]) == Some(IdArray(p.events))
    && Find(m, names[3]) == Some(IdArray(p.evidence))
    && Find(m, names[4]) == Some(IdArray(p.relationships))
    && Find(m, names[5]) == Some(SortMaps(p.proposition))
    && Find(m, names[6]) == Some(Uint(1))
    && Find(m, names[7]) == (if p.referencedProofs == [] then None else Some(IdArray(p.referencedProofs)))
    && Find(m, names[8]) == (if p.vocabularies == [] then None else Some(VocabularyArray(p.vocabularies)))
  }

  ghost predicate FoundIn(names: seq<bytes>, m: seq<Entry>, p: Parts, vals: seq<Value>)
    requires |names| == |vals| == 9
  {
    forall k :: 0 <= k < 9 ==> Find(m, names[k]) == if k in Present(p) then Some(vals[k]) else None
  }

  lemma PartValues(p: Parts, vals: seq<Value>)
    requires vals == ProofId.FieldValues(SortedParts(p))
    ensures vals[0] == IdArray(p.attestations) && vals[1] == Uint(p.createdAt) && vals[2] == IdArray(p.events)
    ensures vals[3] == IdArray(p.evidence) && vals[4] == IdArray(p.relationships) && vals[5] == SortMaps(p.proposition)
    ensures vals[6] == Uint(1) && vals[7] == IdArray(p.referencedProofs) && vals[8] == VocabularyArray(p.vocabularies)
  {
  }

  lemma FoundByPosition(names: seq<bytes>, m: seq<Entry>, p: Parts, vals: seq<Value>)
    requires |names| == 9 && vals == ProofId.FieldValues(SortedParts(p)) && FoundIn(names, m, p, vals)
    ensures Found(names, m, p)
  {
    PartValues(p, vals);
    assert forall k :: 0 <= k < 7 ==> k in Present(p);
    assert 7 in Present(p) <==> p.referencedProofs != [];
    assert 8 in Present(p) <==> p.vocabularies != [];
  }

  lemma AllFound(names: seq<bytes>, p: Parts)
    requires FieldNames(names)
    ensures Found(names, SortedEntries(Record(names, p)), p)
  {
    var m, vals := SortedEntries(Record(names, p)), ProofId.FieldValues(SortedParts(p));
    forall k | 0 <= k < 9 ensures Find(m, names[k]) == if k in Present(p) then Some(vals[k]) else None {
      FindPart(names, p, k);
    }
    FoundByPosition(names, m, p, vals);
  }

  lemma FoundScalars(m: seq<Entry>, p: Parts)
    requires Found(NAMES, m, p)
    ensures ScalarsSay(m, p)
  {
  }

  lemma FoundMembers(m: seq<Entry>, p: Parts)
    requires Found(NAMES, m, p)
    ensures MembersSay(m, p)
  {
    IdArrayLists(p.attestations);
    IdArrayLists(p.events);
    IdArrayLists(p.evidence);
    IdArrayLists(p.relationships);
  }

  lemma FoundOptionals(m: seq<Entry>, p: Parts)
    requires Found(NAMES, m, p)
    ensures OptionalsSay(m, p)
  {
    IdArrayLists(p.referencedProofs);
    VocabularyArrayLists(p.vocabularies);
  }

  lemma PartDistinct(p: Parts, k: nat)
    requires k < 9 && k != 5
    ensures DistinctKeys(ProofId.FieldValues(p)[k])
  {
    if k == 8 {
      VocabularyArrayDistinct(p.vocabularies);
    }
  }

  lemma VocabularyArrayDistinct(vs: seq<Vocabulary>)
    ensures DistinctKeys(VocabularyArray(vs))
  {
    var items := VocabularyArray(vs).items;
    forall i | 0 <= i < |items| ensures DistinctKeys(items[i]) {
      VocabularyMapIsFixed(SortedVocabularies(vs)[i]);
      OrderedIsDistinct(items[i]);
    }
  }

  lemma BindingDistinct(names: seq<bytes>, p: Parts)
    requires FieldNames(names)
    ensures DistinctKeys(Map(Record(names, p))) <==> DistinctKeys(p.proposition)
  {
    var es, present := Record(names, p), Present(p);
    FieldsUnique(names, ProofId.FieldValues(p), present);
    forall i | 0 <= i < |es|
      ensures DistinctKeysEntry(es[i]) <==> (present[i] == 5 ==> DistinctKeys(p.proposition))
    {
      if present[i] != 5 {
        PartDistinct(p, present[i]);
      }
    }
    assert present[5] == 5;
  }

  /**
   * Whatever limits accept it, the hashed binding decodes to a map that holds the proof's parts under their names; and
   * limits large enough accept it exactly when the proposition repeats no key.
   */
  lemma BindingSays(p: Parts, l: Limits)
    requires Proper(p)
    ensures var r := DecodeStrict(Binding(p), l); r.Ok? ==> r.value.Map? && EntriesSay(r.value.entries, p)
    ensures DecodeStrict(Binding(p), Ample(|Binding(p)|)).Ok? <==> DistinctKeys(p.proposition)
  {
    ProofId.SourceNamesDiffer();
    var v := Map(Record(NAMES, p));
    BindingWellFormed(NAMES, p);
    BindingDistinct(NAMES, p);
    RoundTripOrReject(v, l);
    DecodesSomewhereIff(v);
    RecordSays(p, SortedEntries(Record(NAMES, p)));
  }
}
