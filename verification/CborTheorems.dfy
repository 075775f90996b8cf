/** The laws of the codec, over every byte string, every value and every limit set. */
module CborTheorems {
  import opened Bytes
  import opened CborDecode
  import opened CborHead
  import opened CborOrder
  import opened CborPrefix
  import opened CborStrict
  import opened CborValue
  import opened LimitSets
  import opened Results

  /** The decoder accepts exactly the encodings of acceptable values, and returns the value encoded. */
  lemma DecodeStrictIff(b: bytes, l: Limits, v: Value)
    ensures DecodeStrict(b, l) == Ok(v) <==>
            |b| <= l.maxProofSize && b == Encode(v) && WellFormed(v) && Ordered(v) && Fits(v, 0, l)
  {
    if DecodeStrict(b, l) == Ok(v) {
      DecodeValueSound(b, 0, l, v, []);
      OrderedIsFixed(v);
      assert Flat(v) + [] == Flat(v);
    }
    if b == Encode(v) && WellFormed(v) && Ordered(v) && Fits(v, 0, l) {
      OrderedIsFixed(v);
      DecodeValueComplete(v, [], 0, l);
      assert Flat(v) + [] == Flat(v);
    }
  }

  /** Accepted bytes re-encode to themselves, so the re-encoding check after a decode never fires. */
  lemma AcceptedBytesAreCanonical(b: bytes, l: Limits)
    ensures DecodeStrict(b, l).Ok? ==> Encode(DecodeStrict(b, l).value) == b
    ensures IsCanonical(b, l) != Ok(false)
    ensures DecodeAndCheckCanonical(b, l) == DecodeStrict(b, l)
  {
    if DecodeStrict(b, l).Ok? {
      DecodeStrictIff(b, l, DecodeStrict(b, l).value);
    }
  }

  /** Encoding then decoding gives the value back with its maps in order, exactly when that is possible at all. */
  lemma RoundTripIff(v: Value, l: Limits)
    ensures DecodeStrict(Encode(v), l) == Ok(SortMaps(v)) <==>
            |Encode(v)| <= l.maxProofSize && WellFormed(v) && DistinctKeys(v) && Fits(v, 0, l)
  {
    DecodeStrictIff(Encode(v), l, SortMaps(v));
    EncodeSortMaps(v);
    SortMapsWellFormed(v);
    SortMapsOrdered(v);
    SortMapsFits(v, 0, l);
  }

  /** The encoding of a well-formed value either decodes to that value or, for a repeated key or an exceeded limit, not at all. */
  lemma RoundTripOrReject(v: Value, l: Limits)
    requires WellFormed(v)
    ensures DecodeStrict(Encode(v), l).Ok? <==> |Encode(v)| <= l.maxProofSize && DistinctKeys(v) && Fits(v, 0, l)
    ensures DecodeStrict(Encode(v), l).Ok? ==> DecodeStrict(Encode(v), l).value == SortMaps(v)
  {
    RoundTripIff(v, l);
    var r := DecodeStrict(Encode(v), l);
    if r.Ok? {
      DecodeStrictIff(Encode(v), l, r.value);
      EncodeEqualIff(v, r.value);
      OrderedIsFixed(r.value);
    }
  }

  /** The `Nint` invariant is needed: a non-negative `Nint` comes back as a `Uint`. */
  lemma NonNegativeNintDoesNotRoundTrip(i: i64, l: Limits)
    requires i >= 0 && l.maxProofSize >= 9
    ensures DecodeStrict(Encode(Nint(i)), l) == Ok(Uint(i))
    ensures SortMaps(Nint(i)) != Uint(i)
  {
    DecodeStrictIff(Encode(Uint(i)), l, Uint(i));
  }

  // ---------- limits ----------

  lemma {:induction false} FitsMonotone(v: Value, depth: nat, tight: Limits, loose: Limits)
    requires Fits(v, depth, tight)
    requires tight.maxFieldSize <= loose.maxFieldSize && tight.maxDepth <= loose.maxDepth
    requires tight.maxArrayItems <= loose.maxArrayItems && tight.maxMapEntries <= loose.maxMapEntries
    ensures Fits(v, depth, loose)
  {
    match v
    case Array(items) =>
      forall i | 0 <= i < |items| ensures Fits(items[i], depth + 1, loose) {
        FitsMonotone(items[i], depth + 1, tight, loose);
      }
    case Map(entries) =>
      forall i | 0 <= i < |entries| ensures FitsEntry(entries[i], depth + 1, loose) {
        FitsMonotone(entries[i].key, depth + 1, tight, loose);
        FitsMonotone(entries[i].val, depth + 1, tight, loose);
      }
    case _ =>
  }

  /** Bytes accepted under one limit set mean the same under any looser one. */
  lemma DecodeMonotoneInLimits(b: bytes, tight: Limits, loose: Limits)
    requires tight.TighterThan(loose)
    ensures DecodeStrict(b, tight).Ok? ==> DecodeStrict(b, loose) == DecodeStrict(b, tight)
  {
    var r := DecodeStrict(b, tight);
    if r.Ok? {
      assert forall i :: 0 <= i < 5 ==> tight.Bounds()[i] <= loose.Bounds()[i];
      assert tight.Bounds()[0] <= loose.Bounds()[0] && tight.Bounds()[1] <= loose.Bounds()[1];
      assert tight.Bounds()[2] <= loose.Bounds()[2] && tight.Bounds()[3] <= loose.Bounds()[3];
      assert tight.Bounds()[4] <= loose.Bounds()[4];
      DecodeStrictIff(b, tight, r.value);
      FitsMonotone(r.value, 0, tight, loose);
      DecodeStrictIff(b, loose, r.value);
    }
  }

  // ---------- streams ----------

  /** Reading one item off a stream takes exactly its encoding, at least a byte per data item, whatever follows. */
  lemma DecodeValueConsumes(s: bytes, depth: nat, l: Limits)
    requires DecodeValue(s, depth, l).Ok?
    ensures var p := DecodeValue(s, depth, l).value;
            && s == Encode(p.value) + p.rest
            && Nodes(p.value) <= |s| - |p.rest|
            && Acceptable(p.value, depth, l)
            && forall x :: DecodeValue(Encode(p.value) + x, depth, l) == Ok(Parsed(p.value, x))
  {
    var p := DecodeValue(s, depth, l).value;
    DecodeValueSound(s, depth, l, p.value, p.rest);
    OrderedIsFixed(p.value);
    NodesWithinBytes(p.value);
    forall x ensures DecodeValue(Encode(p.value) + x, depth, l) == Ok(Parsed(p.value, x)) {
      DecodeValueComplete(p.value, x, depth, l);
    }
  }
}
