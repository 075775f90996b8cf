/** Limits large enough: every well-formed value without repeated keys decodes under some limit set. */
module CborAmple {
  import opened CborDecode
  import opened CborOrder
  import opened CborTheorems
  import opened CborValue
  import opened LimitSets
  import opened Results

  /** The limit set with every bound `n`. */
  function Ample(n: nat): Limits {
    Limits(n, n, n, n, n, n, n, n, n, n, n, n, n, n, n)
  }

  lemma {:induction false} FlatItemBound(items: seq<Value>, i: nat)
    requires i < |items|
    ensures |Flat(items[i])| <= |FlatItems(items)|
    decreases items
  {
    if i > 0 {
      FlatItemBound(items[1..], i - 1);
    }
  }

  lemma {:induction false} FlatItemsCount(items: seq<Value>)
    ensures |items| <= |FlatItems(items)|
  {
    if items != [] {
      FlatItemsCount(items[1..]);
    }
  }

  lemma {:induction false} FlatEntryBound(entries: seq<Entry>, i: nat)
    requires i < |entries|
    ensures |Flat(entries[i].key)| + |Flat(entries[i].val)| <= |FlatEntries(entries)|
    decreases entries
  {
    if i > 0 {
      FlatEntryBound(entries[1..], i - 1);
    }
  }

  lemma {:induction false} FlatEntriesCount(entries: seq<Entry>)
    ensures |entries| <= |FlatEntries(entries)|
  {
    if entries != [] {
      FlatEntriesCount(entries[1..]);
    }
  }

  /** No nesting, count or length in a value exceeds the length of its encoding. */
  lemma {:induction false} FitsAmple(v: Value, depth: nat, n: nat)
    requires depth + |Flat(v)| <= n
    ensures Fits(v, depth, Ample(n))
    decreases v
  {
    match v
    case Array(items) =>
      FlatItemsCount(items);
      forall i | 0 <= i < |items| ensures Fits(items[i], depth + 1, Ample(n)) {
        FlatItemBound(items, i);
        FitsAmple(items[i], depth + 1, n);
      }
    case Map(entries) =>
      FlatEntriesCount(entries);
      forall i | 0 <= i < |entries| ensures FitsEntry(entries[i], depth + 1, Ample(n)) {
        var e := entries[i];
        assert e.key < e && e.val < e;
        FlatEntryBound(entries, i);
        FitsAmple(e.key, depth + 1, n);
        FitsAmple(e.val, depth + 1, n);
      }
    case _ =>
  }

  /** A well-formed value decodes under some limits exactly when no map repeats a key, and then to its sorted form. */
  lemma DecodesSomewhereIff(v: Value)
    requires WellFormed(v)
    ensures DistinctKeys(v) <==> DecodeStrict(Encode(v), Ample(|Encode(v)|)).Ok?
    ensures DistinctKeys(v) ==> DecodeStrict(Encode(v), Ample(|Encode(v)|)) == Ok(SortMaps(v))
  {
    EncodeIsFlatOfSorted(v);
    FitsAmple(SortMaps(v), 0, |Encode(v)|);
    SortMapsFits(v, 0, Ample(|Encode(v)|));
    RoundTripOrReject(v, Ample(|Encode(v)|));
  }
}
