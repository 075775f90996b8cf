/**
 * The closed CBOR value set and its deterministic encoding.
 *
 * `Encode` is the encoder: it sorts every map by encoded key while writing.
 * `Flat` writes a value in the order its maps happen to have; it is the simple
 * form that the encoder is compared with.
 */
module CborValue {
  import opened Bytes
  import opened CborHead
  import opened LimitSets
  import opened StableSort
  import opened Utf8

  datatype Value =
    | Uint(n: u64)
    | Nint(i: i64)
    | Text(text: bytes)      // the UTF-8 bytes of the string
    | Bytes(blob: bytes)
    | Array(items: seq<Value>)
    | Map(entries: seq<Entry>)
    | Bool(b: bool)
    | Null

  datatype Entry = Entry(key: Value, val: Value)

  predicate Scalar(v: Value) {
    !v.Array? && !v.Map?
  }

  // ---------- encoder ----------

  /** `encode_canonical`. A non-negative `Nint` is normalised to an unsigned integer. */
  function Encode(v: Value): (r: bytes)
    ensures r != []
  {
    match v
    case Uint(n) => Head(0, n)
    case Nint(i) => if i >= 0 then Head(0, i) else Head(1, -1 - i)
    case Bytes(b) => Head(2, |b|) + b
    case Text(t) => Head(3, |t|) + t
    case Array(items) => Head(4, |items|) + EncodeItems(items)
    case Map(entries) => Head(5, |entries|) + Joined(Sort(EncodeEntries(entries)))
    case Bool(b) => if b then [0xf5] else [0xf4]
    case Null => [0xf6]
  }

  function EncodeItems(items: seq<Value>): bytes {
    if items == [] then [] else Encode(items[0]) + EncodeItems(items[1..])
  }

  /** An entry as its encoded key and its encoded value. */
  function EncodeEntry(e: Entry): Keyed<bytes> {
    Keyed(Encode(e.key), Encode(e.val))
  }

  function EncodeEntries(entries: seq<Entry>): (r: seq<Keyed<bytes>>)
    ensures |r| == |entries|
    ensures forall i :: 0 <= i < |entries| ==> r[i] == EncodeEntry(entries[i])
  {
    if entries == [] then [] else [EncodeEntry(entries[0])] + EncodeEntries(entries[1..])
  }

  function Joined(xs: seq<Keyed<bytes>>): bytes {
    if xs == [] then [] else xs[0].key + xs[0].item + Joined(xs[1..])
  }

  // ---------- sorting ----------

  /** `sort_maps`: every map, innermost first, put in order of encoded keys. */
  function SortMaps(v: Value): Value {
    match v
    case Array(items) => Array(SortMapsItems(items))
    case Map(entries) => Map(SortEntries(SortMapsEntries(entries)))
    case _ => v
  }

  function SortMapsItems(items: seq<Value>): (r: seq<Value>)
    ensures |r| == |items|
    ensures forall i :: 0 <= i < |items| ==> r[i] == SortMaps(items[i])
  {
    if items == [] then [] else [SortMaps(items[0])] + SortMapsItems(items[1..])
  }

  function SortMapsEntry(e: Entry): Entry {
    Entry(SortMaps(e.key), SortMaps(e.val))
  }

  function SortMapsEntries(entries: seq<Entry>): (r: seq<Entry>)
    ensures |r| == |entries|
    ensures forall i :: 0 <= i < |entries| ==> r[i] == SortMapsEntry(entries[i])
  {
    if entries == [] then [] else [SortMapsEntry(entries[0])] + SortMapsEntries(entries[1..])
  }

  function ByKey(entries: seq<Entry>): (r: seq<Keyed<Entry>>)
    ensures |r| == |entries|
    ensures forall i :: 0 <= i < |entries| ==> r[i] == Keyed(Encode(entries[i].key), entries[i])
  {
    seq(|entries|, i requires 0 <= i < |entries| => Keyed(Encode(entries[i].key), entries[i]))
  }

  function Unkeyed<T>(xs: seq<Keyed<T>>): (r: seq<T>)
    ensures |r| == |xs|
    ensures forall i :: 0 <= i < |xs| ==> r[i] == xs[i].item
  {
    seq(|xs|, i requires 0 <= i < |xs| => xs[i].item)
  }

  function SortEntries(entries: seq<Entry>): (r: seq<Entry>)
    ensures |r| == |entries|
  {
    Unkeyed(Sort(ByKey(entries)))
  }

  // ---------- what values can be ----------

  /** A value the Rust type can hold with the invariant its encoder asserts: text is UTF-8, `Nint` is negative. */
  ghost predicate WellFormed(v: Value) {
    match v
    case Nint(i) => i < 0
    case Bytes(b) => |b| < TWO_TO_THE_64
    case Text(t) => IsString(t)
    case Array(items) => |items| < TWO_TO_THE_64 && forall i :: 0 <= i < |items| ==> WellFormed(items[i])
    case Map(entries) =>
      |entries| < TWO_TO_THE_64 && forall i :: 0 <= i < |entries| ==> WellFormedEntry(entries[i])
    case _ => true
  }

  ghost predicate WellFormedEntry(e: Entry) {
    WellFormed(e.key) && WellFormed(e.val)
  }

  /** Every map, at every level, has pairwise different encoded keys. */
  ghost predicate DistinctKeys(v: Value) {
    match v
    case Array(items) => forall i :: 0 <= i < |items| ==> DistinctKeys(items[i])
    case Map(entries) =>
      UniqueKeys(entries) && forall i :: 0 <= i < |entries| ==> DistinctKeysEntry(entries[i])
    case _ => true
  }

  ghost predicate DistinctKeysEntry(e: Entry) {
    DistinctKeys(e.key) && DistinctKeys(e.val)
  }

  ghost predicate UniqueKeys(entries: seq<Entry>) {
    forall i, j :: 0 <= i < j < |entries| ==> Encode(entries[i].key) != Encode(entries[j].key)
  }

  /** Every map, at every level, is strictly increasing in its encoded keys. */
  ghost predicate Ordered(v: Value) {
    match v
    case Array(items) => forall i :: 0 <= i < |items| ==> Ordered(items[i])
    case Map(entries) =>
      Ascending(entries) && forall i :: 0 <= i < |entries| ==> OrderedEntry(entries[i])
    case _ => true
  }

  ghost predicate OrderedEntry(e: Entry) {
    Ordered(e.key) && Ordered(e.val)
  }

  ghost predicate Ascending(entries: seq<Entry>) {
    forall i, j :: 0 <= i < j < |entries| ==> Less(Encode(entries[i].key), Encode(entries[j].key))
  }

  /** `v`, met at nesting level `depth`, is within every limit at every level. */
  ghost predicate Fits(v: Value, depth: nat, l: Limits) {
    && depth <= l.maxDepth
    && match v
       case Bytes(b) => |b| <= l.maxFieldSize
       case Text(t) => |t| <= l.maxFieldSize
       case Array(items) =>
         |items| <= l.maxArrayItems && forall i :: 0 <= i < |items| ==> Fits(items[i], depth + 1, l)
       case Map(entries) =>
         |entries| <= l.maxMapEntries && forall i :: 0 <= i < |entries| ==> FitsEntry(entries[i], depth + 1, l)
       case _ => true
  }

  ghost predicate FitsEntry(e: Entry, depth: nat, l: Limits) {
    Fits(e.key, depth, l) && Fits(e.val, depth, l)
  }

  // ---------- encoding without sorting ----------

  ghost function Flat(v: Value): (r: bytes)
    ensures r != []
  {
    match v
    case Array(items) => Head(4, |items|) + FlatItems(items)
    case Map(entries) => Head(5, |entries|) + FlatEntries(entries)
    case _ => Encode(v)
  }

  ghost function FlatItems(items: seq<Value>): bytes {
    if items == [] then [] else Flat(items[0]) + FlatItems(items[1..])
  }

  ghost function FlatEntry(e: Entry): bytes {
    Flat(e.key) + Flat(e.val)
  }

  ghost function FlatEntries(entries: seq<Entry>): bytes {
    if entries == [] then [] else FlatEntry(entries[0]) + FlatEntries(entries[1..])
  }

  /** How many data items a value consists of. */
  ghost function Nodes(v: Value): nat {
    match v
    case Array(items) => 1 + NodesOfItems(items)
    case Map(entries) => 1 + NodesOfEntries(entries)
    case _ => 1
  }

  ghost function NodesOfItems(items: seq<Value>): nat {
    if items == [] then 0 else Nodes(items[0]) + NodesOfItems(items[1..])
  }

  ghost function NodesOfEntry(e: Entry): nat {
    Nodes(e.key) + Nodes(e.val)
  }

  ghost function NodesOfEntries(entries: seq<Entry>): nat {
    if entries == [] then 0 else NodesOfEntry(entries[0]) + NodesOfEntries(entries[1..])
  }
}
