/** The encoding is self-delimiting, and so injective up to the order of map entries. */
module CborPrefix {
  import opened Bytes
  import opened CborHead
  import opened CborOrder
  import opened CborValue
  import opened StableSort

  /** Every item is a head and a body. */
  ghost function Major(v: Value): (m: nat)
    ensures m < 8
  {
    match v
    case Uint(_) => 0
    case Nint(i) => if i >= 0 then 0 else 1
    case Bytes(_) => 2
    case Text(_) => 3
    case Array(_) => 4
    case Map(_) => 5
    case Bool(_) => 7
    case Null => 7
  }

  ghost function Arg(v: Value): nat {
    match v
    case Uint(n) => n
    case Nint(i) => if i >= 0 then i else -1 - i
    case Bytes(b) => |b|
    case Text(t) => |t|
    case Array(items) => |items|
    case Map(entries) => |entries|
    case Bool(b) => if b then 21 else 20
    case Null => 22
  }

  ghost function Body(v: Value): bytes {
    match v
    case Bytes(b) => b
    case Text(t) => t
    case Array(items) => FlatItems(items)
    case Map(entries) => FlatEntries(entries)
    case _ => []
  }

  /** The first byte names the kind: section 3.1 of RFC 8949, with the three simple values. */
  lemma InitialByte(v: Value)
    requires WellFormed(v)
    ensures match v
            case Uint(n) => Encode(v)[0] / 32 == 0
            case Nint(i) => Encode(v)[0] / 32 == 1
            case Bytes(b) => Encode(v)[0] / 32 == 2
            case Text(t) => Encode(v)[0] / 32 == 3
            case Array(items) => Encode(v)[0] / 32 == 4
            case Map(entries) => Encode(v)[0] / 32 == 5
            case Bool(b) => Encode(v) == if b then [0xf5] else [0xf4]
            case Null => Encode(v) == [0xf6]
  {
    match v
    case Uint(n) => ReadArgOfHead(0, n, []);
    case Nint(i) => ReadArgOfHead(1, -1 - i, []);
    case Bytes(b) => ReadArgOfHead(2, |b|, b);
    case Text(t) => ReadArgOfHead(3, |t|, t);
    case Array(items) => ReadArgOfHead(4, |items|, EncodeItems(items));
    case Map(entries) => ReadArgOfHead(5, |entries|, Joined(Sort(EncodeEntries(entries))));
    case Bool(b) =>
    case Null =>
  }

  lemma FlatIsHeadAndBody(v: Value)
    ensures Flat(v) == Head(Major(v), Arg(v)) + Body(v)
  {
    match v
    case Uint(n) => assert Head(0, n) + [] == Head(0, n);
    case Nint(i) => assert Flat(v) + [] == Flat(v);
    case Bool(b) => assert Head(7, Arg(v)) == Flat(v);
    case Null => assert Head(7, 22) == Flat(v);
    case _ =>
  }

  /** Written in order, no item is a proper prefix of another: the first item of a stream is determined by its bytes. */
  lemma {:induction false} FlatPrefixFree(v: Value, w: Value, x: bytes, y: bytes)
    requires WellFormed(v) && WellFormed(w)
    requires Flat(v) + x == Flat(w) + y
    ensures v == w && x == y
    decreases v, 1
  {
    FlatIsHeadAndBody(v);
    FlatIsHeadAndBody(w);
    Associative(Head(Major(v), Arg(v)), Body(v), x);
    Associative(Head(Major(w), Arg(w)), Body(w), y);
    HeadPrefixFree(Major(v), Arg(v), Body(v) + x, Major(w), Arg(w), Body(w) + y);
    BodyPrefixFree(v, w, x, y);
  }

  lemma {:induction false} BodyPrefixFree(v: Value, w: Value, x: bytes, y: bytes)
    requires WellFormed(v) && WellFormed(w)
    requires Major(v) == Major(w) && Arg(v) == Arg(w) && Body(v) + x == Body(w) + y
    ensures v == w && x == y
    decreases v, 0
  {
    match v
    case Array(items) =>
      FlatItemsPrefixFree(items, w.items, x, y);
    case Map(entries) =>
      FlatEntriesPrefixFree(entries, w.entries, x, y);
    case _ =>
      SplitAt(Body(v), Body(w), x, y);
  }

  lemma SplitAt(a: bytes, b: bytes, x: bytes, y: bytes)
    requires |a| == |b| && a + x == b + y
    ensures a == b && x == y
  {
    assert a == (a + x)[..|a|] && x == (a + x)[|a|..];
  }

  lemma {:induction false} FlatItemsPrefixFree(a: seq<Value>, b: seq<Value>, x: bytes, y: bytes)
    requires |a| == |b|
    requires forall i :: 0 <= i < |a| ==> WellFormed(a[i]) && WellFormed(b[i])
    requires FlatItems(a) + x == FlatItems(b) + y
    ensures a == b && x == y
    decreases a
  {
    if a != [] {
      Associative(Flat(a[0]), FlatItems(a[1..]), x);
      Associative(Flat(b[0]), FlatItems(b[1..]), y);
      FlatPrefixFree(a[0], b[0], FlatItems(a[1..]) + x, FlatItems(b[1..]) + y);
      FlatItemsPrefixFree(a[1..], b[1..], x, y);
      ConsEqual(a, b);
    } else {
      SplitAt([], [], x, y);
    }
  }

  lemma {:induction false} FlatEntriesPrefixFree(a: seq<Entry>, b: seq<Entry>, x: bytes, y: bytes)
    requires |a| == |b|
    requires forall i :: 0 <= i < |a| ==> WellFormedEntry(a[i]) && WellFormedEntry(b[i])
    requires FlatEntries(a) + x == FlatEntries(b) + y
    ensures a == b && x == y
    decreases a
  {
    if a != [] {
      Associative(FlatEntry(a[0]), FlatEntries(a[1..]), x);
      Associative(FlatEntry(b[0]), FlatEntries(b[1..]), y);
      FlatEntryPrefixFree(a[0], b[0], FlatEntries(a[1..]) + x, FlatEntries(b[1..]) + y);
      FlatEntriesPrefixFree(a[1..], b[1..], x, y);
      ConsEqual(a, b);
    } else {
      SplitAt([], [], x, y);
    }
  }

  lemma {:induction false} FlatEntryPrefixFree(a: Entry, b: Entry, x: bytes, y: bytes)
    requires WellFormedEntry(a) && WellFormedEntry(b)
    requires FlatEntry(a) + x == FlatEntry(b) + y
    ensures a == b && x == y
    decreases a
  {
    Associative(Flat(a.key), Flat(a.val), x);
    Associative(Flat(b.key), Flat(b.val), y);
    FlatPrefixFree(a.key, b.key, Flat(a.val) + x, Flat(b.val) + y);
    FlatPrefixFree(a.val, b.val, x, y);
  }

  /** The encoder's output is self-delimiting, and tells its values apart up to the order of map entries. */
  lemma EncodePrefixFree(v: Value, w: Value, x: bytes, y: bytes)
    requires WellFormed(v) && WellFormed(w)
    requires Encode(v) + x == Encode(w) + y
    ensures SortMaps(v) == SortMaps(w) && x == y
  {
    EncodeIsFlatOfSorted(v);
    EncodeIsFlatOfSorted(w);
    SortMapsWellFormed(v);
    SortMapsWellFormed(w);
    FlatPrefixFree(SortMaps(v), SortMaps(w), x, y);
  }

  lemma EncodeEqualIff(v: Value, w: Value)
    requires WellFormed(v) && WellFormed(w)
    ensures Encode(v) == Encode(w) <==> SortMaps(v) == SortMaps(w)
  {
    EncodeSortMaps(v);
    EncodeSortMaps(w);
    if Encode(v) == Encode(w) {
      EncodePrefixFree(v, w, [], []);
    }
  }

  /** Maps without repeated keys encode alike exactly when they have the same entries, up to order within. */
  lemma MapsEncodeAlikeIff(a: seq<Entry>, b: seq<Entry>)
    requires WellFormed(Map(a)) && WellFormed(Map(b)) && UniqueKeys(a) && UniqueKeys(b)
    ensures Encode(Map(a)) == Encode(Map(b)) <==> SameEntries(SortMapsEntries(a), SortMapsEntries(b))
  {
    EncodeEqualIff(Map(a), Map(b));
    SortEntriesMembers(SortMapsEntries(a));
    SortEntriesMembers(SortMapsEntries(b));
    AscendingIffDistinct(a);
    AscendingIffDistinct(b);
    if SameEntries(SortMapsEntries(a), SortMapsEntries(b)) {
      AscendingIsDetermined(SortEntries(SortMapsEntries(a)), SortEntries(SortMapsEntries(b)));
    }
  }

  // ---------- size ----------

  /** Every data item costs at least one byte. */
  lemma {:induction false} NodesWithinBytes(v: Value)
    ensures Nodes(v) <= |Flat(v)|
  {
    match v
    case Array(items) => NodesWithinItems(items);
    case Map(entries) => NodesWithinEntries(entries);
    case _ =>
  }

  lemma {:induction false} NodesWithinItems(items: seq<Value>)
    ensures NodesOfItems(items) <= |FlatItems(items)|
  {
    if items != [] {
      NodesWithinBytes(items[0]);
      NodesWithinItems(items[1..]);
    }
  }

  lemma {:induction false} NodesWithinEntries(entries: seq<Entry>)
    ensures NodesOfEntries(entries) <= |FlatEntries(entries)|
  {
    if entries != [] {
      NodesWithinEntry(entries[0]);
      NodesWithinEntries(entries[1..]);
    }
  }

  lemma {:induction false} NodesWithinEntry(e: Entry)
    ensures NodesOfEntry(e) <= |FlatEntry(e)|
  {
    NodesWithinBytes(e.key);
    NodesWithinBytes(e.val);
  }
}
