/**
 * The data a value stands for, with maps as finite maps: the generic data model
 * of section 2 of RFC 8949. The encoding is a canonical form for it: equal data
 * have equal bytes, and equal bytes stand for equal data.
 */
module CborData {
  import opened Bytes
  import opened CborOrder
  import opened CborPrefix
  import opened CborValue

  datatype Datum =
    | DInt(i: int)
    | DText(t: bytes)
    | DBytes(b: bytes)
    | DList(items: seq<Datum>)
    | DMap(m: map<Datum, Datum>)
    | DBool(v: bool)
    | DNull

  ghost function Data(v: Value): Datum {
    match v
    case Uint(n) => DInt(n)
    case Nint(i) => DInt(i)
    case Text(t) => DText(t)
    case Bytes(b) => DBytes(b)
    case Array(items) => DList(DataOfItems(items))
    case Map(entries) => DMap(DataOfEntries(entries))
    case Bool(b) => DBool(b)
    case Null => DNull
  }

  ghost function DataOfItems(items: seq<Value>): (r: seq<Datum>)
    ensures |r| == |items|
    ensures forall i :: 0 <= i < |items| ==> r[i] == Data(items[i])
  {
    if items == [] then [] else [Data(items[0])] + DataOfItems(items[1..])
  }

  ghost function DataOfEntry(e: Entry): (Datum, Datum) {
    (Data(e.key), Data(e.val))
  }

  ghost function DataOfEntries(entries: seq<Entry>): map<Datum, Datum> {
    if entries == [] then map[]
    else
      var (k, v) := DataOfEntry(entries[0]);
      DataOfEntries(entries[1..])[k := v]
  }

  // ---------- a map holds exactly its entries ----------

  ghost predicate UniqueData(entries: seq<Entry>) {
    forall i, j :: 0 <= i < j < |entries| ==> Data(entries[i].key) != Data(entries[j].key)
  }

  /** `d` holds the entries of the sequence and nothing else. */
  ghost predicate Holds(d: map<Datum, Datum>, entries: seq<Entry>) {
    && (forall e :: e in entries ==> Data(e.key) in d && d[Data(e.key)] == Data(e.val))
    && (forall k :: k in d ==> exists e :: e in entries && Data(e.key) == k)
  }

  lemma {:induction false} EntriesHeld(entries: seq<Entry>)
    requires UniqueData(entries)
    ensures Holds(DataOfEntries(entries), entries)
  {
    if entries != [] {
      EntriesHeld(entries[1..]);
      var d := DataOfEntries(entries[1..]);
      assert DataOfEntries(entries) == d[Data(entries[0].key) := Data(entries[0].val)];
      forall e | e in entries
        ensures Data(e.key) in DataOfEntries(entries) && DataOfEntries(entries)[Data(e.key)] == Data(e.val)
      {
        var i :| 0 <= i < |entries| && entries[i] == e;
        if i > 0 { assert entries[1..][i - 1] == e; }
      }
      forall k | k in DataOfEntries(entries) ensures exists e :: e in entries && Data(e.key) == k {
        if k == Data(entries[0].key) {
          assert entries[0] in entries;
        } else {
          var e :| e in entries[1..] && Data(e.key) == k;
          assert e in entries;
        }
      }
    }
  }

  /** At most one map holds exactly a given list of entries. */
  lemma HeldIsDetermined(d1: map<Datum, Datum>, d2: map<Datum, Datum>, entries: seq<Entry>)
    requires Holds(d1, entries) && Holds(d2, entries)
    ensures d1 == d2
  {
    forall k ensures k in d1 <==> k in d2 {
      if k in d1 {
        var e :| e in entries && Data(e.key) == k;
      }
      if k in d2 {
        var e :| e in entries && Data(e.key) == k;
      }
    }
    forall k | k in d1 ensures d1[k] == d2[k] {
      var e :| e in entries && Data(e.key) == k;
    }
  }

  // ---------- ordered values are told apart by their data ----------

  lemma {:induction false} NodesOfItem(items: seq<Value>, i: nat)
    requires i < |items|
    ensures Nodes(items[i]) <= NodesOfItems(items)
  {
    if i > 0 { NodesOfItem(items[1..], i - 1); }
  }

  lemma {:induction false} NodesOfOneEntry(entries: seq<Entry>, i: nat)
    requires i < |entries|
    ensures Nodes(entries[i].key) + Nodes(entries[i].val) <= NodesOfEntries(entries)
  {
    if i > 0 { NodesOfOneEntry(entries[1..], i - 1); }
  }

  lemma {:induction false} SameDataSameValue(n: nat, v: Value, w: Value)
    requires Nodes(v) <= n && Nodes(w) <= n
    requires WellFormed(v) && WellFormed(w) && Ordered(v) && Ordered(w)
    requires Data(v) == Data(w)
    ensures v == w
    decreases n, 2
  {
    match v
    case Array(items) =>
      forall i | 0 <= i < |items| ensures items[i] == w.items[i] {
        NodesOfItem(items, i);
        NodesOfItem(w.items, i);
        assert DataOfItems(items)[i] == DataOfItems(w.items)[i];
        SameDataSameValue(n - 1, items[i], w.items[i]);
      }
    case Map(entries) =>
      SameDataSameEntries(n, v, w);
    case _ =>
  }

  lemma {:induction false} OrderedHasUniqueData(n: nat, v: Value)
    requires v.Map? && Nodes(v) <= n && WellFormed(v) && Ordered(v)
    ensures UniqueData(v.entries)
    decreases n, 0
  {
    var es := v.entries;
    forall i, j | 0 <= i < j < |es| ensures Data(es[i].key) != Data(es[j].key) {
      if Data(es[i].key) == Data(es[j].key) {
        NodesOfOneEntry(es, i);
        NodesOfOneEntry(es, j);
        assert WellFormedEntry(es[i]) && WellFormedEntry(es[j]) && OrderedEntry(es[i]) && OrderedEntry(es[j]);
        SameDataSameValue(n - 1, es[i].key, es[j].key);
        LessIrreflexive(Encode(es[i].key));
        assert false;
      }
    }
  }

  lemma {:induction false} HeldEntry(n: nat, v: Value, w: Value, i: nat)
    requires v.Map? && w.Map? && Nodes(v) <= n && Nodes(w) <= n
    requires WellFormed(v) && WellFormed(w) && Ordered(v) && Ordered(w)
    requires Holds(DataOfEntries(w.entries), v.entries) && Holds(DataOfEntries(w.entries), w.entries)
    requires i < |v.entries|
    ensures v.entries[i] in w.entries
    decreases n, 0
  {
    var e := v.entries[i];
    assert e in v.entries;
    var f :| f in w.entries && Data(f.key) == Data(e.key);
    var j :| 0 <= j < |w.entries| && w.entries[j] == f;
    NodesOfOneEntry(v.entries, i);
    NodesOfOneEntry(w.entries, j);
    assert WellFormedEntry(e) && OrderedEntry(e) && WellFormedEntry(f) && OrderedEntry(f);
    SameDataSameValue(n - 1, e.key, f.key);
    SameDataSameValue(n - 1, e.val, f.val);
  }

  lemma {:induction false} SameDataSameEntries(n: nat, v: Value, w: Value)
    requires v.Map? && w.Map? && Nodes(v) <= n && Nodes(w) <= n
    requires WellFormed(v) && WellFormed(w) && Ordered(v) && Ordered(w)
    requires Data(v) == Data(w)
    ensures v == w
    decreases n, 1
  {
    OrderedHasUniqueData(n, v);
    OrderedHasUniqueData(n, w);
    EntriesHeld(v.entries);
    EntriesHeld(w.entries);
    forall e ensures e in v.entries <==> e in w.entries {
      if e in v.entries {
        var i :| 0 <= i < |v.entries| && v.entries[i] == e;
        HeldEntry(n, v, w, i);
      }
      if e in w.entries {
        var i :| 0 <= i < |w.entries| && w.entries[i] == e;
        HeldEntry(n, w, v, i);
      }
    }
    assert SameEntries(v.entries, w.entries);
    AscendingIsDetermined(v.entries, w.entries);
  }

  // ---------- sorting keeps the data ----------

  lemma {:induction false} SortMapsKeepsData(v: Value)
    requires WellFormed(v) && DistinctKeys(v)
    ensures Data(SortMaps(v)) == Data(v)
  {
    match v
    case Array(items) =>
      forall i | 0 <= i < |items| ensures Data(SortMaps(items[i])) == Data(items[i]) {
        SortMapsKeepsData(items[i]);
      }
      assert DataOfItems(SortMapsItems(items)) == DataOfItems(items);
    case Map(entries) =>
      var p := SortMapsEntries(entries);
      forall i | 0 <= i < |entries| ensures DataOfEntry(p[i]) == DataOfEntry(entries[i]) {
        assert WellFormedEntry(entries[i]) && DistinctKeysEntry(entries[i]);
        SortMapsKeepsData(entries[i].key);
        SortMapsKeepsData(entries[i].val);
      }
      SameDataOfEntries(p, entries);
      SortedEntriesKeepData(entries);
    case _ =>
  }

  lemma SortedEntriesKeepData(entries: seq<Entry>)
    requires WellFormed(Map(entries)) && DistinctKeys(Map(entries))
    ensures DataOfEntries(SortEntries(SortMapsEntries(entries))) == DataOfEntries(SortMapsEntries(entries))
  {
    var p, q := SortMapsEntries(entries), SortMaps(Map(entries));
    SortMapsWellFormed(Map(entries));
    SortMapsOrdered(Map(entries));
    OrderedHasUniqueData(Nodes(q), q);
    EntriesHeld(q.entries);
    forall i, j | 0 <= i < j < |p| ensures Encode(p[i].key) != Encode(p[j].key) {
      EncodeSortMaps(entries[i].key);
      EncodeSortMaps(entries[j].key);
    }
    UniqueDataOfPermuted(p);
    EntriesHeld(p);
    SortEntriesMembers(p);
    HeldBySameMembers(DataOfEntries(q.entries), q.entries, p);
    HeldIsDetermined(DataOfEntries(q.entries), DataOfEntries(p), p);
  }

  lemma HeldBySameMembers(d: map<Datum, Datum>, a: seq<Entry>, b: seq<Entry>)
    requires Holds(d, a) && forall e :: e in a <==> e in b
    ensures Holds(d, b)
  {
    forall k | k in d ensures exists e :: e in b && Data(e.key) == k {
      var e :| e in a && Data(e.key) == k;
      assert e in b;
    }
  }

  lemma {:induction false} SameDataOfEntries(a: seq<Entry>, b: seq<Entry>)
    requires |a| == |b| && forall i :: 0 <= i < |a| ==> DataOfEntry(a[i]) == DataOfEntry(b[i])
    ensures DataOfEntries(a) == DataOfEntries(b)
  {
    if a != [] {
      assert DataOfEntry(a[0]) == DataOfEntry(b[0]);
      SameDataOfEntries(a[1..], b[1..]);
    }
  }

  /** Unequal data under sorting: a repeated key datum would show up twice after sorting as well. */
  lemma UniqueDataOfPermuted(p: seq<Entry>)
    requires UniqueData(SortEntries(p))
    requires UniqueKeys(p)
    ensures UniqueData(p)
  {
    var q := SortEntries(p);
    SortEntriesMembers(p);
    forall i, j | 0 <= i < j < |p| ensures Data(p[i].key) != Data(p[j].key) {
      assert p[i] in q && p[j] in q;
      var a :| 0 <= a < |q| && q[a] == p[i];
      var b :| 0 <= b < |q| && q[b] == p[j];
      assert Encode(p[i].key) != Encode(p[j].key);
      assert a != b;
    }
  }

  /** The encoding is a canonical form: two values without repeated keys have the same bytes exactly when they stand for the same data. */
  lemma EncodingIsCanonicalForm(v: Value, w: Value)
    requires WellFormed(v) && DistinctKeys(v) && WellFormed(w) && DistinctKeys(w)
    ensures Encode(v) == Encode(w) <==> Data(v) == Data(w)
  {
    EncodeEqualIff(v, w);
    SortMapsKeepsData(v);
    SortMapsKeepsData(w);
    if Data(v) == Data(w) {
      SortMapsWellFormed(v);
      SortMapsWellFormed(w);
      SortMapsOrdered(v);
      SortMapsOrdered(w);
      var x, y := SortMaps(v), SortMaps(w);
      SameDataSameValue(Nodes(x) + Nodes(y), x, y);
    }
  }
}
