/** The Python codec and the Rust codec accept the same bytes, with the same value. */
module PyAgrees {
  import opened Bytes
  import opened CborDecode
  import opened CborHead
  import opened CborOrder
  import opened CborPrefix
  import opened CborStrict
  import opened CborTheorems
  import opened CborValue
  import opened LimitSets
  import opened PyCbor
  import opened Results
  import opened StableSort
  import opened Utf8

  // ---------- one value in both languages ----------

  ghost function ToPy(v: Value): PyValue {
    match v
    case Uint(n) => PInt(n)
    case Nint(i) => PInt(i)
    case Text(t) => PStr(t)
    case Bytes(b) => PBytes(b)
    case Array(items) => PList(ToPyItems(items))
    case Map(entries) => PMap(ToPyPairs(entries))
    case Bool(b) => PBool(b)
    case Null => PNone
  }

  ghost function ToPyItems(items: seq<Value>): (r: seq<PyValue>)
    ensures |r| == |items|
    ensures forall i :: 0 <= i < |items| ==> r[i] == ToPy(items[i])
  {
    if items == [] then [] else [ToPy(items[0])] + ToPyItems(items[1..])
  }

  ghost function ToPyPair(e: Entry): PyPair {
    PyPair(ToPy(e.key), ToPy(e.val))
  }

  ghost function ToPyPairs(entries: seq<Entry>): (r: seq<PyPair>)
    ensures |r| == |entries|
    ensures forall i :: 0 <= i < |entries| ==> r[i] == ToPyPair(entries[i])
  {
    if entries == [] then [] else [ToPyPair(entries[0])] + ToPyPairs(entries[1..])
  }

  /** No map, at any level, has an array or a map for a key. */
  ghost predicate ScalarKeys(v: Value) {
    match v
    case Array(items) => forall i :: 0 <= i < |items| ==> ScalarKeys(items[i])
    case Map(entries) => forall i :: 0 <= i < |entries| ==> ScalarKeysEntry(entries[i])
    case _ => true
  }

  ghost predicate ScalarKeysEntry(e: Entry) {
    Scalar(e.key) && ScalarKeys(e.val)
  }

  // ---------- the encoders agree ----------

  lemma EncAgrees(v: Value)
    requires Scalar(v) && WellFormed(v)
    ensures Enc(ToPy(v)) == Returned(Encode(v))
  {
  }

  lemma {:induction false} EncAnyAgrees(v: Value)
    requires WellFormed(v) && ScalarKeys(v) && DistinctKeys(v)
    ensures EncAny(ToPy(v)) == Returned(Encode(v))
  {
    match v
    case Array(items) =>
      EncListAgrees(items);
    case Map(entries) =>
      EncPairsAgree(entries);
      SortedKeysDiffer(entries);
    case _ =>
      EncAgrees(v);
  }

  lemma SortedKeysDiffer(entries: seq<Entry>)
    requires UniqueKeys(entries)
    ensures NoNeighboursEqual(Sort(EncodeEntries(entries)))
  {
    var ek := EncodeEntries(entries);
    forall i, j | 0 <= i < j < |ek| ensures ek[i].key != ek[j].key {
      assert ek[i] == EncodeEntry(entries[i]) && ek[j] == EncodeEntry(entries[j]);
    }
    SortDistinct(ek);
    IncreasingIsSortedDistinct(Sort(ek));
  }

  lemma {:induction false} EncListAgrees(items: seq<Value>)
    requires forall i :: 0 <= i < |items| ==> WellFormed(items[i]) && ScalarKeys(items[i]) && DistinctKeys(items[i])
    ensures EncList(ToPyItems(items)) == Returned(EncodeItems(items))
  {
    if items != [] {
      EncAnyAgrees(items[0]);
      EncListAgrees(items[1..]);
      assert ToPyItems(items)[1..] == ToPyItems(items[1..]);
    }
  }

  lemma {:induction false} EncPairAgrees(e: Entry)
    requires WellFormedEntry(e) && ScalarKeysEntry(e) && DistinctKeysEntry(e)
    ensures EncPair(ToPyPair(e)) == Returned(EncodeEntry(e))
  {
    EncAgrees(e.key);
    EncAnyAgrees(e.val);
  }

  lemma {:induction false} EncPairsAgree(entries: seq<Entry>)
    requires forall i :: 0 <= i < |entries| ==>
               WellFormedEntry(entries[i]) && ScalarKeysEntry(entries[i]) && DistinctKeysEntry(entries[i])
    ensures EncPairs(ToPyPairs(entries)) == Returned(EncodeEntries(entries))
  {
    if entries != [] {
      EncPairAgrees(entries[0]);
      EncPairsAgree(entries[1..]);
      assert ToPyPairs(entries)[1..] == ToPyPairs(entries[1..]);
    }
  }

  // ---------- what Rust accepts, Python decodes ----------

  lemma ArgTakesHead(b: byte, s: bytes, n: nat, x: bytes)
    requires ReadArg(s, b % 32) == Ok(Parsed(n, x))
    ensures PyArg(s, b % 32) == Returned(Parsed(n, x)) && !NotShortest(b % 32, n)
  {
  }

  ghost predicate Readable(v: Value, depth: nat, l: Limits) {
    Acceptable(v, depth, l) && ScalarKeys(v)
  }

  ghost predicate ReadableEntry(e: Entry, depth: nat, l: Limits) {
    AcceptableEntry(e, depth, l) && ScalarKeysEntry(e)
  }

  lemma {:induction false} DecComplete(v: Value, x: bytes, depth: nat, l: Limits)
    requires l.maxDepth <= 16 && Readable(v, depth, l)
    ensures Dec(Flat(v) + x, depth) == Returned(Parsed(ToPy(v), x))
    decreases v, 1
  {
    FlatIsHeadAndBody(v);
    var s := Flat(v) + x;
    Associative(Head(Major(v), Arg(v)), Body(v), x);
    ReadArgOfHead(Major(v), Arg(v), Body(v) + x);
    if Major(v) == 7 {
      assert s[1..] == x;
    } else {
      ArgTakesHead(s[0], s[1..], Arg(v), Body(v) + x);
      DecBodyComplete(v, x, depth, l);
    }
  }

  lemma {:induction false} DecBodyComplete(v: Value, x: bytes, depth: nat, l: Limits)
    requires l.maxDepth <= 16 && Readable(v, depth, l) && Major(v) < 6
    ensures DecBody(Major(v), Arg(v), Body(v) + x, depth) == Returned(Parsed(ToPy(v), x))
    decreases v, 0
  {
    match v
    case Uint(_) => assert [] + x == x;
    case Nint(_) => assert [] + x == x;
    case Bytes(b) =>
      assert (b + x)[..|b|] == b && (b + x)[|b|..] == x;
    case Text(t) =>
      assert (t + x)[..|t|] == t && (t + x)[|t|..] == x;
    case Array(items) =>
      AcceptableArray(items, depth, l);
      DecListComplete(items, x, depth + 1, l);
    case Map(entries) =>
      AcceptableMap(entries, depth, l);
      DecPairsComplete(None, entries, x, depth + 1, l);
    case Bool(_) =>
    case Null =>
  }

  lemma {:induction false} DecListComplete(items: seq<Value>, x: bytes, depth: nat, l: Limits)
    requires l.maxDepth <= 16
    requires forall i :: 0 <= i < |items| ==> Readable(items[i], depth, l)
    ensures DecList(|items|, FlatItems(items) + x, depth) == Returned(Parsed(ToPyItems(items), x))
    decreases items, 1
  {
    if items == [] {
      assert [] + x == x;
    } else {
      Associative(Flat(items[0]), FlatItems(items[1..]), x);
      DecComplete(items[0], FlatItems(items[1..]) + x, depth, l);
      DecListComplete(items[1..], x, depth, l);
    }
  }

  lemma {:induction false} DecPairsComplete(prev: Option<bytes>, entries: seq<Entry>, x: bytes, depth: nat, l: Limits)
    requires l.maxDepth <= 16 && AscendingFrom(prev, entries)
    requires forall i :: 0 <= i < |entries| ==> ReadableEntry(entries[i], depth, l)
    ensures DecPairs(|entries|, prev, FlatEntries(entries) + x, depth) == Returned(Parsed(ToPyPairs(entries), x))
    decreases entries, 1
  {
    if entries == [] {
      assert [] + x == x;
    } else {
      var e, tail := entries[0], FlatEntries(entries[1..]) + x;
      var kb := Encode(e.key);
      Associative(FlatEntry(e), FlatEntries(entries[1..]), x);
      DecPairComplete(e, tail, depth, l);
      EncAgrees(e.key);
      if prev.Some? {
        LessAsymmetric(prev.value, kb);
        LessIrreflexive(kb);
      }
      DecPairsComplete(Some(kb), entries[1..], x, depth, l);
    }
  }

  lemma {:induction false} DecPairComplete(e: Entry, x: bytes, depth: nat, l: Limits)
    requires l.maxDepth <= 16 && ReadableEntry(e, depth, l)
    ensures DecPair(FlatEntry(e) + x, depth) == Returned(Parsed(ToPyPair(e), x))
    decreases e, 1
  {
    Associative(Flat(e.key), Flat(e.val), x);
    DecComplete(e.key, Flat(e.val) + x, depth, l);
    DecComplete(e.val, x, depth, l);
  }

  // ---------- what Python accepts is a value of the closed set ----------

  /** The Rust value a Python value stands for; meaningful when the integers are in range. */
  ghost function FromPy(p: PyValue): Value {
    match p
    case PInt(i) =>
      if 0 <= i < TWO_TO_THE_64 then Uint(i)
      else if -TWO_TO_THE_63 <= i < 0 then Nint(i)
      else Null
    case PBytes(b) => Bytes(b)
    case PStr(t) => Text(t)
    case PList(items) => Array(FromPyItems(items))
    case PMap(pairs) => Map(FromPyPairs(pairs))
    case PBool(v) => Bool(v)
    case PNone => Null
  }

  ghost function FromPyItems(items: seq<PyValue>): (r: seq<Value>)
    ensures |r| == |items|
    ensures forall i :: 0 <= i < |items| ==> r[i] == FromPy(items[i])
  {
    if items == [] then [] else [FromPy(items[0])] + FromPyItems(items[1..])
  }

  ghost function FromPyPair(p: PyPair): Entry {
    Entry(FromPy(p.key), FromPy(p.val))
  }

  ghost function FromPyPairs(pairs: seq<PyPair>): (r: seq<Entry>)
    ensures |r| == |pairs|
    ensures forall i :: 0 <= i < |pairs| ==> r[i] == FromPyPair(pairs[i])
  {
    if pairs == [] then [] else [FromPyPair(pairs[0])] + FromPyPairs(pairs[1..])
  }

  ghost predicate PyAscendingFrom(prev: Option<bytes>, pairs: seq<PyPair>)
    decreases pairs
  {
    pairs == [] ||
    (var kb := Enc(pairs[0].key);
     kb.Returned? && (prev.Some? ==> Less(prev.value, kb.value)) && PyAscendingFrom(Some(kb.value), pairs[1..]))
  }

  /** What the lenient decoder does guarantee: depth, UTF-8, key order, and sizes below the input's. */
  ghost predicate Decoded(p: PyValue, depth: nat, size: nat) {
    && depth <= MAX_DEPTH
    && match p
       case PBytes(b) => |b| <= size
       case PStr(t) => |t| <= size && ValidUtf8(t)
       case PList(items) => |items| <= size && forall i :: 0 <= i < |items| ==> Decoded(items[i], depth + 1, size)
       case PMap(pairs) =>
         && |pairs| <= size && PyAscendingFrom(None, pairs)
         && forall i :: 0 <= i < |pairs| ==> DecodedPair(pairs[i], depth + 1, size)
       case _ => true
  }

  ghost predicate DecodedPair(p: PyPair, depth: nat, size: nat) {
    Decoded(p.key, depth, size) && Decoded(p.val, depth, size)
  }

  lemma {:induction false} DecSound(s: bytes, depth: nat, size: nat)
    requires Dec(s, depth).Returned? && |s| <= size
    ensures Decoded(Dec(s, depth).value.value, depth, size)
    decreases |s|, 0
  {
    if s[0] / 32 < 6 {
      var head := PyArg(s[1..], s[0] % 32).value;
      DecBodySound(s[0] / 32, head.value, head.rest, depth, size);
    }
  }

  lemma {:induction false} DecBodySound(major: nat, n: nat, s: bytes, depth: nat, size: nat)
    requires major < 6 && depth <= MAX_DEPTH && |s| <= size
    requires DecBody(major, n, s, depth).Returned?
    ensures Decoded(DecBody(major, n, s, depth).value.value, depth, size)
    decreases |s|, 3
  {
    if major == 4 {
      DecListSound(n, s, depth + 1, size);
    } else if major == 5 {
      DecPairsSound(n, None, s, depth + 1, size);
    }
  }

  lemma {:induction false} DecListSound(n: nat, s: bytes, depth: nat, size: nat)
    requires DecList(n, s, depth).Returned? && |s| <= size
    ensures var p := DecList(n, s, depth).value;
            && |p.value| <= |s| - |p.rest|
            && forall i :: 0 <= i < |p.value| ==> Decoded(p.value[i], depth, size)
    decreases |s|, 2
  {
    if n > 0 {
      DecSound(s, depth, size);
      DecListSound(n - 1, Dec(s, depth).value.rest, depth, size);
    }
  }

  lemma {:induction false} DecPairSound(s: bytes, depth: nat, size: nat)
    requires DecPair(s, depth).Returned? && |s| <= size
    ensures DecodedPair(DecPair(s, depth).value.value, depth, size)
    decreases |s|, 1
  {
    DecSound(s, depth, size);
    DecSound(Dec(s, depth).value.rest, depth, size);
  }

  lemma {:induction false} DecPairsSound(n: nat, prev: Option<bytes>, s: bytes, depth: nat, size: nat)
    requires DecPairs(n, prev, s, depth).Returned? && |s| <= size
    ensures var p := DecPairs(n, prev, s, depth).value;
            && |p.value| <= |s| - |p.rest|
            && PyAscendingFrom(prev, p.value)
            && forall i :: 0 <= i < |p.value| ==> DecodedPair(p.value[i], depth, size)
    decreases |s|, 2
  {
    if n > 0 {
      var head := DecPair(s, depth).value;
      var kb := Enc(head.value.key).value;
      DecPairSound(s, depth, size);
      DecPairsSound(n - 1, Some(kb), head.rest, depth, size);
      if prev.Some? { LessTotal(prev.value, kb); }
    }
  }

  // ---------- and, once re-encoded, an acceptable one ----------

  /** Rust limits that amount to Python's: depth 16, sizes bounded by the input alone. */
  function PyLimits(size: nat): Limits {
    DEFAULT.(maxProofSize := size, maxFieldSize := size, maxDepth := 16,
             maxArrayItems := size, maxMapEntries := size)
  }

  lemma ScalarOfEnc(p: PyValue, depth: nat, size: nat)
    requires Enc(p).Returned? && Decoded(p, depth, size)
    ensures var v := FromPy(p);
            && Scalar(v) && ToPy(v) == p && Readable(v, depth, PyLimits(size)) && Enc(p) == Returned(Encode(v))
  {
  }

  lemma {:induction false} ValueOfEncAny(p: PyValue, depth: nat, size: nat)
    requires EncAny(p).Returned? && Decoded(p, depth, size)
    ensures var v := FromPy(p);
            && ToPy(v) == p && Readable(v, depth, PyLimits(size))
    decreases p
  {
    var v, l := FromPy(p), PyLimits(size);
    match p
    case PList(items) =>
      ItemsOfEncList(items, depth + 1, size);
      AcceptableArray(v.items, depth, l);
      assert ToPyItems(v.items) == items;
    case PMap(pairs) =>
      EntriesOfEncPairs(None, pairs, depth + 1, size);
      AcceptableMap(v.entries, depth, l);
      assert ToPyPairs(v.entries) == pairs;
    case _ =>
      ScalarOfEnc(p, depth, size);
  }

  lemma {:induction false} ItemsOfEncList(items: seq<PyValue>, depth: nat, size: nat)
    requires EncList(items).Returned?
    requires forall i :: 0 <= i < |items| ==> Decoded(items[i], depth, size)
    ensures var vs := FromPyItems(items);
            forall i :: 0 <= i < |vs| ==> ToPy(vs[i]) == items[i] && Readable(vs[i], depth, PyLimits(size))
    decreases items
  {
    if items != [] {
      ValueOfEncAny(items[0], depth, size);
      ItemsOfEncList(items[1..], depth, size);
      assert FromPyItems(items)[1..] == FromPyItems(items[1..]);
    }
  }

  lemma {:induction false} EntryOfEncPair(p: PyPair, depth: nat, size: nat)
    requires EncPair(p).Returned? && DecodedPair(p, depth, size)
    ensures var e := FromPyPair(p);
            && ToPyPair(e) == p && ReadableEntry(e, depth, PyLimits(size)) && Enc(p.key) == Returned(Encode(e.key))
    decreases p
  {
    ScalarOfEnc(p.key, depth, size);
    ValueOfEncAny(p.val, depth, size);
  }

  lemma {:induction false} EntriesOfEncPairs(prev: Option<bytes>, pairs: seq<PyPair>, depth: nat, size: nat)
    requires EncPairs(pairs).Returned? && PyAscendingFrom(prev, pairs)
    requires forall i :: 0 <= i < |pairs| ==> DecodedPair(pairs[i], depth, size)
    ensures var es := FromPyPairs(pairs);
            && AscendingFrom(prev, es)
            && forall i :: 0 <= i < |es| ==> ToPyPair(es[i]) == pairs[i] && ReadableEntry(es[i], depth, PyLimits(size))
    decreases pairs
  {
    if pairs != [] {
      EntryOfEncPair(pairs[0], depth, size);
      EntriesOfEncPairs(Some(Enc(pairs[0].key).value), pairs[1..], depth, size);
      assert FromPyPairs(pairs)[1..] == FromPyPairs(pairs[1..]);
    }
  }

  // ---------- the theorem ----------

  lemma {:induction false} FromPyToPy(v: Value)
    requires WellFormed(v)
    ensures FromPy(ToPy(v)) == v
  {
    match v
    case Array(items) =>
      forall i | 0 <= i < |items| ensures FromPy(ToPy(items[i])) == items[i] {
        FromPyToPy(items[i]);
      }
      assert FromPyItems(ToPyItems(items)) == items;
    case Map(entries) =>
      forall i | 0 <= i < |entries| ensures FromPyPair(ToPyPair(entries[i])) == entries[i] {
        assert WellFormedEntry(entries[i]);
        FromPyToPy(entries[i].key);
        FromPyToPy(entries[i].val);
      }
      assert FromPyPairs(ToPyPairs(entries)) == entries;
    case _ =>
  }

  /** Bytes Python accepts are the encoding of one well-formed, ordered value with scalar keys. */
  lemma AcceptedByPython(raw: bytes)
    requires CheckCanonical(raw).Returned?
    ensures var v := FromPy(CheckCanonical(raw).value);
            && ToPy(v) == CheckCanonical(raw).value
            && Readable(v, 0, PyLimits(|raw|))
            && raw == Encode(v)
  {
    var p := CheckCanonical(raw).value;
    DecSound(raw, 0, |raw|);
    ValueOfEncAny(p, 0, |raw|);
    OrderedIsDistinct(FromPy(p));
    EncAnyAgrees(FromPy(p));
  }

  lemma AcceptedByRust(raw: bytes, l: Limits, v: Value)
    requires l.maxDepth <= 16 && DecodeStrict(raw, l) == Ok(v) && ScalarKeys(v)
    ensures CheckCanonical(raw) == Returned(ToPy(v))
  {
    DecodeStrictIff(raw, l, v);
    OrderedIsFixed(v);
    assert Flat(v) + [] == Flat(v);
    DecComplete(v, [], 0, l);
    OrderedIsDistinct(v);
    EncAnyAgrees(v);
  }

  /**
   * Under Rust's default depth, Rust accepts `raw` as a value with scalar keys exactly when
   * Python accepts it as the same value and the value is within Rust's size limits.
   */
  lemma PythonAgreesWithRust(raw: bytes, l: Limits, v: Value)
    requires l.maxDepth <= 16 && WellFormed(v)
    ensures DecodeStrict(raw, l) == Ok(v) && ScalarKeys(v) <==>
            CheckCanonical(raw) == Returned(ToPy(v)) && |raw| <= l.maxProofSize && Fits(v, 0, l)
  {
    DecodeStrictIff(raw, l, v);
    if DecodeStrict(raw, l) == Ok(v) && ScalarKeys(v) {
      AcceptedByRust(raw, l, v);
    }
    if CheckCanonical(raw) == Returned(ToPy(v)) {
      AcceptedByPython(raw);
      FromPyToPy(v);
    }
  }

  /** Without size limits, the Python check is the Rust decoder cut down to scalar keys. */
  lemma PythonIsRustWithScalarKeys(raw: bytes)
    ensures var r := DecodeStrict(raw, PyLimits(|raw|));
            CheckCanonical(raw) == if r.Ok? && ScalarKeys(r.value) then Returned(ToPy(r.value)) else Raised
  {
    var l := PyLimits(|raw|);
    var r := DecodeStrict(raw, l);
    if r.Ok? && ScalarKeys(r.value) {
      AcceptedByRust(raw, l, r.value);
    } else if CheckCanonical(raw).Returned? {
      AcceptedByPython(raw);
      DecodeStrictIff(raw, l, FromPy(CheckCanonical(raw).value));
      assert false;
    }
  }

  /** The two do differ outside scalar keys: a map with an empty array for a key. */
  lemma ArrayKeyTellsThemApart()
    ensures var raw := [0xa1, 0x80, 0x00];
            DecodeStrict(raw, DEFAULT).Ok? && CheckCanonical(raw) == Raised
  {
    var raw: bytes, v := [0xa1, 0x80, 0x00], Map([Entry(Array([]), Uint(0))]);
    ArrayKeyEncoding();
    OrderedIsFixed(v);
    DecodeStrictIff(raw, DEFAULT, v);
    DecodeStrictIff(raw, PyLimits(3), v);
    PythonIsRustWithScalarKeys(raw);
    assert !ScalarKeysEntry(v.entries[0]);
  }

  lemma ArrayKeyEncoding()
    ensures var v := Map([Entry(Array([]), Uint(0))]);
            && Flat(v) == [0xa1, 0x80, 0x00]
            && WellFormed(v) && Ordered(v) && Fits(v, 0, DEFAULT) && Fits(v, 0, PyLimits(3))
  {
    var v := Map([Entry(Array([]), Uint(0))]);
    var e := v.entries[0];
    assert Flat(e.key) == [0x80] && Flat(e.val) == [0x00];
    assert FlatEntries(v.entries[1..]) == [];
    assert FlatEntries(v.entries) == [0x80, 0x00];
    assert OrderedEntry(e) && WellFormedEntry(e) && FitsEntry(e, 1, DEFAULT) && FitsEntry(e, 1, PyLimits(3));
  }
}
