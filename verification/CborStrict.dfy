/**
 * What the strict decoder accepts: exactly the encodings of strictly ordered,
 * well-formed values within the limits, and it gives back that value.
 */
module CborStrict {
  import opened Bytes
  import opened CborDecode
  import opened CborHead
  import opened CborPrefix
  import opened CborValue
  import opened LimitSets
  import opened Results

  /** What a decoder may return at nesting level `depth`. */
  ghost predicate Acceptable(v: Value, depth: nat, l: Limits) {
    WellFormed(v) && Ordered(v) && Fits(v, depth, l)
  }

  ghost predicate AcceptableEntry(e: Entry, depth: nat, l: Limits) {
    Acceptable(e.key, depth, l) && Acceptable(e.val, depth, l)
  }

  /** Encoded keys strictly increase, starting above `prev`. */
  ghost predicate AscendingFrom(prev: Option<bytes>, entries: seq<Entry>)
    decreases entries
  {
    entries == [] ||
    (var kb := Encode(entries[0].key);
     (prev.Some? ==> Less(prev.value, kb)) && AscendingFrom(Some(kb), entries[1..]))
  }

  lemma {:induction false} AscendingFromBound(prev: bytes, entries: seq<Entry>, i: nat)
    requires AscendingFrom(Some(prev), entries) && i < |entries|
    ensures Less(prev, Encode(entries[i].key))
    decreases i
  {
    if i > 0 {
      var kb := Encode(entries[0].key);
      AscendingFromBound(kb, entries[1..], i - 1);
      LessTransitive(prev, kb, Encode(entries[i].key));
    }
  }

  /** Comparing neighbours, as the decoder does, is as good as comparing all pairs. */
  lemma {:induction false} AscendingFromIff(prev: Option<bytes>, entries: seq<Entry>)
    ensures AscendingFrom(prev, entries) <==>
            Ascending(entries) && (prev.Some? && entries != [] ==> Less(prev.value, Encode(entries[0].key)))
    decreases entries
  {
    if entries != [] {
      var kb := Encode(entries[0].key);
      AscendingFromIff(Some(kb), entries[1..]);
      if AscendingFrom(prev, entries) {
        forall i, j | 0 <= i < j < |entries| ensures Less(Encode(entries[i].key), Encode(entries[j].key)) {
          if i == 0 {
            AscendingFromBound(kb, entries[1..], j - 1);
          } else {
            assert entries[1..][i - 1] == entries[i] && entries[1..][j - 1] == entries[j];
          }
        }
      }
    }
  }

  // ---------- soundness ----------

  lemma {:induction false} DecodeValueSound(s: bytes, depth: nat, l: Limits, v: Value, rest: bytes)
    requires DecodeValue(s, depth, l) == Ok(Parsed(v, rest))
    ensures s == Flat(v) + rest && Acceptable(v, depth, l)
    decreases |s|, 0
  {
    var major, ai := s[0] / 32, s[0] % 32;
    assert s == [s[0]] + s[1..];
    if major == 7 {
      DecodeSimpleSound(s, depth, l, v, rest);
    } else {
      var head := ReadArg(s[1..], ai).value;
      HeadOfReadArg(s[0], s[1..], head.value, head.rest);
      DecodeBodySound(major, head.value, head.rest, depth, l, v, rest);
      FlatIsHeadAndBody(v);
      Associative(Head(major, head.value), Body(v), rest);
    }
  }

  lemma DecodeSimpleSound(s: bytes, depth: nat, l: Limits, v: Value, rest: bytes)
    requires s != [] && s[0] / 32 == 7 && depth <= l.maxDepth
    requires DecodeSimple(s[1..], s[0] % 32) == Ok(Parsed(v, rest))
    ensures s == Flat(v) + rest && Acceptable(v, depth, l)
  {
    assert s == [s[0]] + s[1..];
  }

  lemma {:induction false} DecodeBodySound(major: nat, n: u64, s: bytes, depth: nat, l: Limits, v: Value, rest: bytes)
    requires major < 6 && depth <= l.maxDepth
    requires DecodeBody(major, n, s, depth, l) == Ok(Parsed(v, rest))
    ensures Major(v) == major && Arg(v) == n && s == Body(v) + rest && Acceptable(v, depth, l)
    decreases |s|, 3
  {
    if major == 4 {
      DecodeItemsSound(n, s, depth + 1, l, v.items, rest);
      AcceptableArray(v.items, depth, l);
    } else if major == 5 {
      DecodeEntriesSound(n, None, s, depth + 1, l, v.entries, rest);
      AcceptableMap(v.entries, depth, l);
    }
  }

  lemma AcceptableArray(items: seq<Value>, depth: nat, l: Limits)
    ensures Acceptable(Array(items), depth, l) <==>
            && depth <= l.maxDepth && |items| < TWO_TO_THE_64 && |items| <= l.maxArrayItems
            && forall i :: 0 <= i < |items| ==> Acceptable(items[i], depth + 1, l)
  {
  }

  lemma AcceptableMap(entries: seq<Entry>, depth: nat, l: Limits)
    ensures Acceptable(Map(entries), depth, l) <==>
            && depth <= l.maxDepth && |entries| < TWO_TO_THE_64 && |entries| <= l.maxMapEntries
            && AscendingFrom(None, entries)
            && forall i :: 0 <= i < |entries| ==> AcceptableEntry(entries[i], depth + 1, l)
  {
    AscendingFromIff(None, entries);
    assert forall i :: 0 <= i < |entries| ==>
        (AcceptableEntry(entries[i], depth + 1, l) <==>
         WellFormedEntry(entries[i]) && OrderedEntry(entries[i]) && FitsEntry(entries[i], depth + 1, l));
  }

  lemma {:induction false} DecodeItemsSound(n: nat, s: bytes, depth: nat, l: Limits, items: seq<Value>, rest: bytes)
    requires DecodeItems(n, s, depth, l) == Ok(Parsed(items, rest))
    ensures |items| == n && s == FlatItems(items) + rest
    ensures forall i :: 0 <= i < |items| ==> Acceptable(items[i], depth, l)
    decreases |s|, 1
  {
    if n > 0 {
      var head := DecodeValue(s, depth, l).value;
      DecodeValueSound(s, depth, l, head.value, head.rest);
      DecodeItemsSound(n - 1, head.rest, depth, l, items[1..], rest);
      Associative(Flat(items[0]), FlatItems(items[1..]), rest);
    }
  }

  lemma {:induction false} DecodeEntrySound(s: bytes, depth: nat, l: Limits, e: Entry, rest: bytes)
    requires DecodeEntry(s, depth, l) == Ok(Parsed(e, rest))
    ensures s == FlatEntry(e) + rest && AcceptableEntry(e, depth, l)
    decreases |s|, 1
  {
    var key := DecodeValue(s, depth, l).value;
    DecodeValueSound(s, depth, l, e.key, key.rest);
    DecodeValueSound(key.rest, depth, l, e.val, rest);
    Associative(Flat(e.key), Flat(e.val), rest);
  }

  lemma {:induction false} DecodeEntriesSound(
    n: nat, prev: Option<bytes>, s: bytes, depth: nat, l: Limits, entries: seq<Entry>, rest: bytes)
    requires DecodeEntries(n, prev, s, depth, l) == Ok(Parsed(entries, rest))
    ensures |entries| == n && s == FlatEntries(entries) + rest
    ensures AscendingFrom(prev, entries)
    ensures forall i :: 0 <= i < |entries| ==> AcceptableEntry(entries[i], depth, l)
    decreases |s|, 2
  {
    if n > 0 {
      var head := DecodeEntry(s, depth, l).value;
      var kb := Encode(head.value.key);
      DecodeEntrySound(s, depth, l, head.value, head.rest);
      DecodeEntriesSound(n - 1, Some(kb), head.rest, depth, l, entries[1..], rest);
      if prev.Some? { LessTotal(prev.value, kb); }
      Associative(FlatEntry(head.value), FlatEntries(entries[1..]), rest);
    }
  }

  // ---------- completeness ----------

  lemma {:induction false} DecodeValueComplete(v: Value, x: bytes, depth: nat, l: Limits)
    requires Acceptable(v, depth, l)
    ensures DecodeValue(Flat(v) + x, depth, l) == Ok(Parsed(v, x))
    decreases v, 1
  {
    FlatIsHeadAndBody(v);
    var s := Flat(v) + x;
    Associative(Head(Major(v), Arg(v)), Body(v), x);
    ReadArgOfHead(Major(v), Arg(v), Body(v) + x);
    if Major(v) == 7 {
      assert s[1..] == x;
    } else {
      DecodeBodyComplete(v, x, depth, l);
    }
  }

  lemma {:induction false} DecodeBodyComplete(v: Value, x: bytes, depth: nat, l: Limits)
    requires Acceptable(v, depth, l) && Major(v) < 6
    ensures DecodeBody(Major(v), Arg(v), Body(v) + x, depth, l) == Ok(Parsed(v, x))
    decreases v, 0
  {
    match v
    case Bytes(b) =>
      assert (b + x)[..|b|] == b && (b + x)[|b|..] == x;
    case Text(t) =>
      assert (t + x)[..|t|] == t && (t + x)[|t|..] == x;
    case Array(items) =>
      AcceptableArray(items, depth, l);
      DecodeItemsComplete(items, x, depth + 1, l);
    case Map(entries) =>
      AcceptableMap(entries, depth, l);
      DecodeEntriesComplete(None, entries, x, depth + 1, l);
    case Uint(_) => assert [] + x == x;
    case Nint(_) => assert [] + x == x;
    case Bool(_) =>
    case Null =>
  }

  lemma {:induction false} DecodeItemsComplete(items: seq<Value>, x: bytes, depth: nat, l: Limits)
    requires forall i :: 0 <= i < |items| ==> Acceptable(items[i], depth, l)
    ensures DecodeItems(|items|, FlatItems(items) + x, depth, l) == Ok(Parsed(items, x))
    decreases items, 1
  {
    if items == [] {
      assert [] + x == x;
    } else {
      Associative(Flat(items[0]), FlatItems(items[1..]), x);
      DecodeValueComplete(items[0], FlatItems(items[1..]) + x, depth, l);
      DecodeItemsComplete(items[1..], x, depth, l);
      assert items == [items[0]] + items[1..];
    }
  }

  lemma {:induction false} DecodeEntriesComplete(prev: Option<bytes>, entries: seq<Entry>, x: bytes, depth: nat, l: Limits)
    requires forall i :: 0 <= i < |entries| ==> AcceptableEntry(entries[i], depth, l)
    requires AscendingFrom(prev, entries)
    ensures DecodeEntries(|entries|, prev, FlatEntries(entries) + x, depth, l) == Ok(Parsed(entries, x))
    decreases entries, 1
  {
    if entries == [] {
      assert [] + x == x;
    } else {
      var e, tail := entries[0], FlatEntries(entries[1..]) + x;
      var kb := Encode(e.key);
      Associative(FlatEntry(e), FlatEntries(entries[1..]), x);
      DecodeEntryComplete(e, tail, depth, l);
      if prev.Some? {
        LessAsymmetric(prev.value, kb);
        LessIrreflexive(kb);
      }
      DecodeEntriesComplete(Some(kb), entries[1..], x, depth, l);
      ConsEqual(entries, [e] + entries[1..]);
    }
  }

  lemma {:induction false} DecodeEntryComplete(e: Entry, x: bytes, depth: nat, l: Limits)
    requires AcceptableEntry(e, depth, l)
    ensures DecodeEntry(FlatEntry(e) + x, depth, l) == Ok(Parsed(e, x))
    decreases e, 1
  {
    Associative(Flat(e.key), Flat(e.val), x);
    DecodeValueComplete(e.key, Flat(e.val) + x, depth, l);
    DecodeValueComplete(e.val, x, depth, l);
  }
}
