/**
 * What sorting does to a value: `SortMaps` puts every map in order once and for
 * all, the encoder never sees the difference, and `Encode` is `Flat` of the
 * sorted form.
 */
module CborOrder {
  import opened Bytes
  import opened CborValue
  import opened LimitSets
  import opened StableSort

  /** Every map, at every level, is non-decreasing in its encoded keys. */
  ghost predicate Arranged(v: Value) {
    match v
    case Array(items) => forall i :: 0 <= i < |items| ==> Arranged(items[i])
    case Map(entries) =>
      Sorted(ByKey(entries)) && forall i :: 0 <= i < |entries| ==> ArrangedEntry(entries[i])
    case _ => true
  }

  ghost predicate ArrangedEntry(e: Entry) {
    Arranged(e.key) && Arranged(e.val)
  }

  // ---------- an arranged value is a fixed point, and is written as it stands ----------

  lemma {:induction false} ArrangedIsFixed(v: Value)
    requires Arranged(v)
    ensures SortMaps(v) == v && Encode(v) == Flat(v)
  {
    match v
    case Array(items) =>
      ArrangedItems(items);
    case Map(entries) =>
      ArrangedEntries(entries);
      assert SortMapsEntries(entries) == entries;
      SortOfSorted(ByKey(entries));
      assert SortEntries(entries) == entries;
      var enc := EncodeEntries(entries);
      assert Sorted(enc) by {
        forall i, j | 0 <= i < j < |enc| ensures Leq(enc[i].key, enc[j].key) {
          assert Leq(ByKey(entries)[i].key, ByKey(entries)[j].key);
        }
      }
      SortOfSorted(enc);
    case _ =>
  }

  lemma {:induction false} ArrangedItems(items: seq<Value>)
    requires forall i :: 0 <= i < |items| ==> Arranged(items[i])
    ensures SortMapsItems(items) == items && EncodeItems(items) == FlatItems(items)
  {
    if items != [] {
      ArrangedIsFixed(items[0]);
      ArrangedItems(items[1..]);
    }
  }

  lemma {:induction false} ArrangedEntries(entries: seq<Entry>)
    requires forall i :: 0 <= i < |entries| ==> ArrangedEntry(entries[i])
    ensures SortMapsEntries(entries) == entries && Joined(EncodeEntries(entries)) == FlatEntries(entries)
  {
    if entries != [] {
      var e := entries[0];
      ArrangedEntryIsFixed(e);
      ArrangedEntries(entries[1..]);
      assert EncodeEntries(entries)[1..] == EncodeEntries(entries[1..]);
    }
  }

  lemma {:induction false} ArrangedEntryIsFixed(e: Entry)
    requires ArrangedEntry(e)
    ensures SortMapsEntry(e) == e
    ensures EncodeEntry(e).key + EncodeEntry(e).item == FlatEntry(e)
  {
    ArrangedIsFixed(e.key);
    ArrangedIsFixed(e.val);
  }

  // ---------- sorting arranges ----------

  lemma SortEntriesMembers(entries: seq<Entry>)
    ensures forall e :: e in SortEntries(entries) <==> e in entries
  {
    var keyed, sorted := ByKey(entries), SortEntries(entries);
    SortMembers(keyed);
    forall e ensures e in sorted <==> e in entries {
      if e in sorted {
        var i :| 0 <= i < |sorted| && sorted[i] == e;
        assert Sort(keyed)[i] in keyed;
      }
      if e in entries {
        var i :| 0 <= i < |entries| && entries[i] == e;
        assert keyed[i] in Sort(keyed);
        var j :| 0 <= j < |sorted| && Sort(keyed)[j] == keyed[i];
        assert sorted[j] == e;
      }
    }
  }

  lemma ByKeyOfSorted(entries: seq<Entry>)
    ensures ByKey(SortEntries(entries)) == Sort(ByKey(entries))
  {
    var keyed := ByKey(entries);
    SortMembers(keyed);
    forall i | 0 <= i < |entries|
      ensures ByKey(SortEntries(entries))[i] == Sort(keyed)[i]
    {
      assert Sort(keyed)[i] in Sort(keyed);
    }
  }

  lemma {:induction false} SortMapsArranges(v: Value)
    ensures Arranged(SortMaps(v))
  {
    match v
    case Array(items) =>
      forall i | 0 <= i < |items| ensures Arranged(SortMaps(items[i])) {
        SortMapsArranges(items[i]);
      }
    case Map(entries) =>
      forall i | 0 <= i < |entries| ensures ArrangedEntry(SortMapsEntry(entries[i])) {
        SortMapsArranges(entries[i].key);
        SortMapsArranges(entries[i].val);
      }
      var p := SortMapsEntries(entries);
      ByKeyOfSorted(p);
      SortIsSorted(ByKey(p));
      SortEntriesMembers(p);
      var q := SortEntries(p);
      forall i | 0 <= i < |q| ensures ArrangedEntry(q[i]) {
        assert q[i] in p;
      }
    case _ =>
  }

  // ---------- the encoder sorts for itself ----------

  lemma EncodeEntriesCons(e: Entry, rest: seq<Entry>)
    ensures EncodeEntries([e] + rest) == [EncodeEntry(e)] + EncodeEntries(rest)
  {
    assert ([e] + rest)[1..] == rest;
  }

  lemma ByKeyCons(e: Entry, rest: seq<Entry>)
    ensures ByKey([e] + rest) == [Keyed(Encode(e.key), e)] + ByKey(rest)
  {
  }

  lemma UnkeyedCons(k: Keyed<Entry>, rest: seq<Keyed<Entry>>)
    ensures Unkeyed([k] + rest) == [k.item] + Unkeyed(rest)
  {
  }

  lemma WithKeyCons<T>(x: Keyed<T>, xs: seq<Keyed<T>>, key: bytes)
    ensures WithKey([x] + xs, key) == if x.key == key then [x] + WithKey(xs, key) else WithKey(xs, key)
  {
    assert ([x] + xs)[1..] == xs;
  }

  lemma {:induction false} WithKeyEncoded(entries: seq<Entry>, key: bytes)
    ensures WithKey(EncodeEntries(entries), key) == EncodeEntries(Unkeyed(WithKey(ByKey(entries), key)))
  {
    if entries != [] {
      var e, rest := entries[0], entries[1..];
      assert entries == [e] + rest;
      WithKeyEncoded(rest, key);
      EncodeEntriesCons(e, rest);
      ByKeyCons(e, rest);
      WithKeyCons(EncodeEntry(e), EncodeEntries(rest), key);
      WithKeyCons(Keyed(Encode(e.key), e), ByKey(rest), key);
      var tail := WithKey(ByKey(rest), key);
      if Encode(e.key) == key {
        UnkeyedCons(Keyed(Encode(e.key), e), tail);
        EncodeEntriesCons(e, Unkeyed(tail));
      }
    }
  }

  lemma EncodingForgetsOrder(entries: seq<Entry>)
    ensures Sort(EncodeEntries(SortEntries(entries))) == Sort(EncodeEntries(entries))
  {
    var sorted := SortEntries(entries);
    ByKeyOfSorted(entries);
    forall key ensures WithKey(EncodeEntries(sorted), key) == WithKey(EncodeEntries(entries), key) {
      SortWithKey(ByKey(entries), key);
      WithKeyEncoded(entries, key);
      WithKeyEncoded(sorted, key);
    }
    SortEqualIff(EncodeEntries(sorted), EncodeEntries(entries));
  }

  /** Encoding values after sorting by key, as the source does, or before makes no difference. */
  lemma SortThenEncode(entries: seq<Entry>)
    ensures Sort(EncodeEntries(entries)) == EncodeEntries(SortEntries(entries))
  {
    var sorted := SortEntries(entries);
    var enc := EncodeEntries(sorted);
    ByKeyOfSorted(entries);
    SortIsSorted(ByKey(entries));
    forall i, j | 0 <= i < j < |enc| ensures Leq(enc[i].key, enc[j].key) {
      assert Leq(ByKey(sorted)[i].key, ByKey(sorted)[j].key);
    }
    SortOfSorted(enc);
    EncodingForgetsOrder(entries);
  }

  /** `sort_maps` does not change the encoding. */
  lemma {:induction false} EncodeSortMaps(v: Value)
    ensures Encode(SortMaps(v)) == Encode(v)
  {
    match v
    case Array(items) =>
      EncodeSortMapsItems(items);
    case Map(entries) =>
      var p := SortMapsEntries(entries);
      forall i | 0 <= i < |entries| ensures EncodeEntry(p[i]) == EncodeEntry(entries[i]) {
        EncodeSortMaps(entries[i].key);
        EncodeSortMaps(entries[i].val);
      }
      assert EncodeEntries(p) == EncodeEntries(entries);
      EncodingForgetsOrder(p);
    case _ =>
  }

  lemma {:induction false} EncodeSortMapsItems(items: seq<Value>)
    ensures EncodeItems(SortMapsItems(items)) == EncodeItems(items)
  {
    if items != [] {
      EncodeSortMaps(items[0]);
      EncodeSortMapsItems(items[1..]);
      assert SortMapsItems(items)[1..] == SortMapsItems(items[1..]);
    }
  }

  /** The encoder writes the sorted form, in order. */
  lemma EncodeIsFlatOfSorted(v: Value)
    ensures Encode(v) == Flat(SortMaps(v))
  {
    SortMapsArranges(v);
    ArrangedIsFixed(SortMaps(v));
    EncodeSortMaps(v);
  }

  lemma SortMapsIdempotent(v: Value)
    ensures SortMaps(SortMaps(v)) == SortMaps(v)
  {
    SortMapsArranges(v);
    ArrangedIsFixed(SortMaps(v));
  }

  // ---------- strictly ordered values ----------

  lemma {:induction false} OrderedIsArranged(v: Value)
    requires Ordered(v)
    ensures Arranged(v)
  {
    match v
    case Array(items) =>
      forall i | 0 <= i < |items| ensures Arranged(items[i]) {
        OrderedIsArranged(items[i]);
      }
    case Map(entries) =>
      forall i, j | 0 <= i < j < |entries|
        ensures Leq(ByKey(entries)[i].key, ByKey(entries)[j].key)
      {
        LessAsymmetric(Encode(entries[i].key), Encode(entries[j].key));
      }
      forall i | 0 <= i < |entries| ensures ArrangedEntry(entries[i]) {
        OrderedIsArranged(entries[i].key);
        OrderedIsArranged(entries[i].val);
      }
    case _ =>
  }

  lemma OrderedIsFixed(v: Value)
    requires Ordered(v)
    ensures SortMaps(v) == v && Encode(v) == Flat(v)
  {
    OrderedIsArranged(v);
    ArrangedIsFixed(v);
  }

  // ---------- sorting keeps what it should ----------

  lemma SortedEntriesAll(entries: seq<Entry>, ok: Entry -> bool)
    ensures var sorted := SortEntries(entries);
            (forall i :: 0 <= i < |sorted| ==> ok(sorted[i])) <==> (forall i :: 0 <= i < |entries| ==> ok(entries[i]))
  {
    var sorted := SortEntries(entries);
    SortEntriesMembers(entries);
    if forall i :: 0 <= i < |sorted| ==> ok(sorted[i]) {
      forall i | 0 <= i < |entries| ensures ok(entries[i]) {
        assert entries[i] in sorted;
      }
    }
    if forall i :: 0 <= i < |entries| ==> ok(entries[i]) {
      forall i | 0 <= i < |sorted| ensures ok(sorted[i]) {
        assert sorted[i] in entries;
      }
    }
  }

  lemma {:induction false} SortMapsWellFormed(v: Value)
    ensures WellFormed(SortMaps(v)) <==> WellFormed(v)
  {
    match v
    case Array(items) =>
      forall i | 0 <= i < |items| ensures WellFormed(SortMaps(items[i])) <==> WellFormed(items[i]) {
        SortMapsWellFormed(items[i]);
      }
    case Map(entries) =>
      forall i | 0 <= i < |entries| ensures WellFormedEntry(SortMapsEntry(entries[i])) <==> WellFormedEntry(entries[i]) {
        SortMapsWellFormed(entries[i].key);
        SortMapsWellFormed(entries[i].val);
      }
      SortedEntriesAll(SortMapsEntries(entries), e => WellFormedEntry(e));
    case _ =>
  }

  lemma {:induction false} SortMapsFits(v: Value, depth: nat, l: Limits)
    ensures Fits(SortMaps(v), depth, l) <==> Fits(v, depth, l)
  {
    match v
    case Array(items) =>
      forall i | 0 <= i < |items|
        ensures Fits(SortMaps(items[i]), depth + 1, l) <==> Fits(items[i], depth + 1, l)
      {
        SortMapsFits(items[i], depth + 1, l);
      }
    case Map(entries) =>
      forall i | 0 <= i < |entries|
        ensures FitsEntry(SortMapsEntry(entries[i]), depth + 1, l) <==> FitsEntry(entries[i], depth + 1, l)
      {
        SortMapsFits(entries[i].key, depth + 1, l);
        SortMapsFits(entries[i].val, depth + 1, l);
      }
      SortedEntriesAll(SortMapsEntries(entries), e => FitsEntry(e, depth + 1, l));
    case _ =>
  }

  /** Sorting gives strictly ordered maps exactly when no map repeats a key. */
  lemma {:induction false} SortMapsOrdered(v: Value)
    ensures Ordered(SortMaps(v)) <==> DistinctKeys(v)
  {
    match v
    case Array(items) =>
      forall i | 0 <= i < |items| ensures Ordered(SortMaps(items[i])) <==> DistinctKeys(items[i]) {
        SortMapsOrdered(items[i]);
      }
    case Map(entries) =>
      forall i | 0 <= i < |entries|
        ensures OrderedEntry(SortMapsEntry(entries[i])) <==> DistinctKeysEntry(entries[i])
      {
        SortMapsOrdered(entries[i].key);
        SortMapsOrdered(entries[i].val);
      }
      SortedEntriesAll(SortMapsEntries(entries), e => OrderedEntry(e));
      AscendingIffDistinct(entries);
    case _ =>
  }

  lemma OrderedIsDistinct(v: Value)
    requires Ordered(v)
    ensures DistinctKeys(v)
  {
    OrderedIsFixed(v);
    SortMapsOrdered(v);
  }

  lemma AscendingIffDistinct(entries: seq<Entry>)
    ensures Ascending(SortEntries(SortMapsEntries(entries))) <==> UniqueKeys(entries)
  {
    var p := SortMapsEntries(entries);
    forall i | 0 <= i < |entries| ensures ByKey(p)[i].key == ByKey(entries)[i].key {
      EncodeSortMaps(entries[i].key);
    }
    assert Distinct(ByKey(p)) <==> Distinct(ByKey(entries));
    assert Distinct(ByKey(entries)) <==> UniqueKeys(entries) by {
      assert forall i :: 0 <= i < |entries| ==> ByKey(entries)[i].key == Encode(entries[i].key);
    }
    ByKeyOfSorted(p);
    SortDistinct(ByKey(p));
    var q := SortEntries(p);
    assert forall i :: 0 <= i < |q| ==> ByKey(q)[i].key == Encode(q[i].key);
    assert Ascending(q) <==> Increasing(ByKey(q));
  }

  /** The same entries, in whatever order. */
  ghost predicate SameEntries(a: seq<Entry>, b: seq<Entry>) {
    forall e :: e in a <==> e in b
  }

  /** Strictly ordered entries are determined by which entries there are. */
  lemma AscendingIsDetermined(a: seq<Entry>, b: seq<Entry>)
    requires Ascending(a) && Ascending(b) && SameEntries(a, b)
    ensures a == b
  {
    var x, y := ByKey(a), ByKey(b);
    assert Increasing(x) && Increasing(y);
    forall k ensures k in x <==> k in y {
      if k in x {
        var i :| 0 <= i < |a| && x[i] == k;
        assert a[i] in b;
        var j :| 0 <= j < |b| && b[j] == a[i];
        assert y[j] == k;
      }
      if k in y {
        var i :| 0 <= i < |b| && y[i] == k;
        assert b[i] in a;
        var j :| 0 <= j < |a| && a[j] == b[i];
        assert x[j] == k;
      }
    }
    IncreasingIsDetermined(x, y);
    forall i | 0 <= i < |a| ensures a[i] == b[i] {
      assert x[i] == y[i];
    }
  }
}
