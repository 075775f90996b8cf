/** How text keys sort: shorter first, then bytewise. */
module CborTextKeys {
  import opened Bytes
  import opened CborHead
  import opened CborValue
  import opened Utf8

  /** Length first, then lexicographic: the order the encoder puts text keys in. */
  predicate Shortlex(a: bytes, b: bytes) {
    |a| < |b| || (|a| == |b| && Less(a, b))
  }

  lemma TextKeysByLength(a: bytes, b: bytes)
    requires |a| < TWO_TO_THE_64 && |b| < TWO_TO_THE_64
    ensures Less(Encode(Text(a)), Encode(Text(b))) <==> Shortlex(a, b)
  {
    if |a| < |b| {
      HeadIncreasing(3, |a|, |b|, a, b);
    } else if |a| == |b| {
      LessPrefix(Head(3, |a|), a, b);
    } else {
      HeadIncreasing(3, |b|, |a|, b, a);
      LessAsymmetric(Encode(Text(b)), Encode(Text(a)));
    }
  }

  lemma TextKeysInjective(a: bytes, b: bytes)
    requires |a| < TWO_TO_THE_64 && |b| < TWO_TO_THE_64
    ensures Encode(Text(a)) == Encode(Text(b)) <==> a == b
  {
    if Encode(Text(a)) == Encode(Text(b)) {
      HeadPrefixFree(3, |a|, a, 3, |b|, b);
    }
  }

  /** A two-field record with its names in order. */
  lemma TwoFields(a: bytes, b: bytes, x: Value, y: Value)
    requires IsString(a) && IsString(b) && Shortlex(a, b) && Ordered(x) && Ordered(y)
    ensures Ordered(Map([Entry(Text(a), x), Entry(Text(b), y)]))
    ensures WellFormed(x) && WellFormed(y) ==> WellFormed(Map([Entry(Text(a), x), Entry(Text(b), y)]))
  {
    TextKeysByLength(a, b);
    var es := [Entry(Text(a), x), Entry(Text(b), y)];
    assert OrderedEntry(es[0]) && OrderedEntry(es[1]);
    if WellFormed(x) && WellFormed(y) {
      assert WellFormedEntry(es[0]) && WellFormedEntry(es[1]);
    }
  }
}
