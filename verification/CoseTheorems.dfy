/** Assembling and parsing an envelope undo each other, and a signature is bound to everything it should be. */
module CoseTheorems {
  import opened Bytes
  import opened CborDecode
  import opened CborOrder
  import opened CborPrefix
  import opened CborTheorems
  import opened CborValue
  import opened Cose
  import opened LimitSets
  import opened Results
  import opened Utf8

  // ---------- the protected header ----------

  lemma LabelsInOrder()
    ensures Less(Encode(Uint(1)), Encode(Uint(4)))
    ensures !Less(Encode(Uint(1)), Encode(Uint(1))) && !Less(Encode(Uint(4)), Encode(Uint(4)))
    ensures !Less(Encode(Uint(4)), Encode(Uint(1)))
  {
    assert Encode(Uint(1)) == [1] && Encode(Uint(4)) == [4];
    LessIrreflexive([1]);
    LessIrreflexive([4]);
  }

  lemma ProtectedMapShape(alg: i64, kid: bytes)
    ensures Ordered(ProtectedMap(alg, kid))
    ensures WellFormed(ProtectedMap(alg, kid)) <==> |kid| < TWO_TO_THE_64
  {
    LabelsInOrder();
    var es := ProtectedMap(alg, kid).entries;
    assert es[0] == Entry(Uint(1), AlgValue(alg)) && es[1] == Entry(Uint(4), Bytes(kid));
    assert Ordered(AlgValue(alg)) && Ordered(Bytes(kid)) && Ordered(Uint(1)) && Ordered(Uint(4));
    assert OrderedEntry(es[0]) && OrderedEntry(es[1]);
    assert WellFormed(AlgValue(alg)) && WellFormed(Uint(1)) && WellFormed(Uint(4));
    assert WellFormedEntry(es[0]);
    assert WellFormedEntry(es[1]) <==> |kid| < TWO_TO_THE_64;
  }

  /** Limits that leave room for the header map. */
  ghost predicate HeaderFits(kid: bytes, l: Limits) {
    l.maxDepth >= 1 && l.maxMapEntries >= 2 && |kid| <= l.maxFieldSize
  }

  lemma ProtectedMapFits(alg: i64, kid: bytes, l: Limits)
    ensures Fits(ProtectedMap(alg, kid), 0, l) <==> HeaderFits(kid, l)
  {
    var es := ProtectedMap(alg, kid).entries;
    assert es[0] == Entry(Uint(1), AlgValue(alg)) && es[1] == Entry(Uint(4), Bytes(kid));
    assert FitsEntry(es[0], 1, l) <==> l.maxDepth >= 1;
    assert FitsEntry(es[1], 1, l) <==> l.maxDepth >= 1 && |kid| <= l.maxFieldSize;
  }

  lemma ScanOne(h: Header, e: Entry)
    ensures ScanHeader(h, [e]) == ScanEntry(h, e)
  {
    assert [e][1..] == [];
  }

  lemma ScanTwo(h: Header, e: Entry, f: Entry)
    ensures ScanHeader(h, [e, f]) ==
            if ScanEntry(h, e).Ok? then ScanEntry(ScanEntry(h, e).value, f) else ScanEntry(h, e)
  {
    assert [e, f][1..] == [f];
    if ScanEntry(h, e).Ok? {
      ScanOne(ScanEntry(h, e).value, f);
    }
  }

  /** A header that decodes and passes the loop has both labels, in order: the missing-alg and missing-kid errors never occur. */
  lemma HeaderLabelsPresent(entries: seq<Entry>)
    requires |entries| == 2 && WellFormed(Map(entries)) && Ordered(Map(entries))
    requires ScanHeader(Header(None, None), entries).Ok?
    ensures var h := ScanHeader(Header(None, None), entries).value;
            && h.alg.Some? && h.kid.Some?
            && Map(entries) == ProtectedMap(h.alg.value, h.kid.value)
  {
    LabelsInOrder();
    var e, f := entries[0], entries[1];
    assert WellFormedEntry(e) && WellFormedEntry(f);
    assert Less(Encode(e.key), Encode(f.key));
    assert entries == [e, f];
    assert WellFormed(e.val);
    if e.val.Nint? { assert e.val.i < 0; }
    ScanTwo(Header(None, None), e, f);
  }

  lemma ScanProtectedMap(alg: i64, kid: bytes)
    ensures ScanHeader(Header(None, None), ProtectedMap(alg, kid).entries) == Ok(Header(Some(alg), Some(kid)))
  {
    ScanTwo(Header(None, None), Entry(Uint(1), AlgValue(alg)), Entry(Uint(4), Bytes(kid)));
  }

  lemma ParseProtectedIff(raw: bytes, l: Limits, alg: i64, kid: bytes)
    requires l.maxFieldSize < TWO_TO_THE_64
    ensures ParseProtected(raw, l) == Ok((alg, kid)) <==>
            raw == ProtectedBytes(alg, kid) && |raw| <= l.maxProofSize && HeaderFits(kid, l) && KidFits(alg, kid)
  {
    ProtectedMapFits(alg, kid, l);
    ProtectedMapShape(alg, kid);
    DecodeStrictIff(raw, l, ProtectedMap(alg, kid));
    if ParseProtected(raw, l) == Ok((alg, kid)) {
      var inner := DecodeStrict(raw, l).value;
      DecodeStrictIff(raw, l, inner);
      HeaderLabelsPresent(inner.entries);
    }
    ScanProtectedMap(alg, kid);
  }

  // ---------- the envelope ----------

  lemma Sign1ArrayShape(protected: bytes, payload: bytes, signature: bytes)
    ensures Ordered(Sign1Array(protected, payload, signature))
    ensures WellFormed(Sign1Array(protected, payload, signature)) <==>
            |protected| < TWO_TO_THE_64 && |payload| < TWO_TO_THE_64 && |signature| < TWO_TO_THE_64
  {
    var items := Sign1Array(protected, payload, signature).items;
    assert items[0] == Bytes(protected) && items[1] == Map([]) && items[2] == Bytes(payload) && items[3] == Bytes(signature);
  }

  ghost predicate EnvelopeFits(protected: bytes, payload: bytes, signature: bytes, l: Limits) {
    && l.maxDepth >= 1 && l.maxArrayItems >= 4
    && |protected| <= l.maxFieldSize && |payload| <= l.maxFieldSize && |signature| <= l.maxFieldSize
  }

  lemma Sign1ArrayFits(protected: bytes, payload: bytes, signature: bytes, l: Limits)
    ensures Fits(Sign1Array(protected, payload, signature), 0, l) <==> EnvelopeFits(protected, payload, signature, l)
  {
    var items := Sign1Array(protected, payload, signature).items;
    assert items[0] == Bytes(protected) && items[1] == Map([]) && items[2] == Bytes(payload) && items[3] == Bytes(signature);
  }

  /** The size conditions on an envelope: each comes from one limit. */
  ghost predicate WithinLimits(b: bytes, p: ParsedSign1, l: Limits) {
    && |b| <= l.maxProofSize
    && |p.protectedRaw| <= l.maxProofSize && |p.payload| <= l.maxProofSize
    && |p.signature| <= l.maxSigSize
    && EnvelopeFits(p.protectedRaw, p.payload, p.signature, l)
    && HeaderFits(p.kid, l)
  }

  /**
   * The parser accepts exactly the bytes that assembling an algorithm, a key id of its size, a payload and a
   * signature gives, within limits, and returns those four.
   */
  lemma ParseSign1Iff(b: bytes, l: Limits, p: ParsedSign1)
    requires l.maxFieldSize < TWO_TO_THE_64
    ensures ParseSign1(b, l) == Ok(p) <==>
            && b == Sign1(p.alg, p.kid, p.payload, p.signature)
            && p.protectedRaw == ProtectedBytes(p.alg, p.kid)
            && KidFits(p.alg, p.kid)
            && WithinLimits(b, p, l)
  {
    var v := Sign1Array(p.protectedRaw, p.payload, p.signature);
    Sign1ArrayShape(p.protectedRaw, p.payload, p.signature);
    Sign1ArrayFits(p.protectedRaw, p.payload, p.signature, l);
    ParseProtectedIff(p.protectedRaw, l, p.alg, p.kid);
    DecodeStrictIff(b, l, v);
    if ParseSign1(b, l) == Ok(p) {
      var outer := DecodeStrict(b, l).value;
      DecodeStrictIff(b, l, outer);
      assert outer.items == [outer.items[0], outer.items[1], outer.items[2], outer.items[3]];
      assert outer == v;
    }
  }

  // ---------- what a signature covers ----------

  lemma ProtectedBytesInjective(alg: i64, kid: bytes, alg2: i64, kid2: bytes)
    requires |kid| < TWO_TO_THE_64 && |kid2| < TWO_TO_THE_64
    requires ProtectedBytes(alg, kid) == ProtectedBytes(alg2, kid2)
    ensures alg == alg2 && kid == kid2
  {
    var v, w := ProtectedMap(alg, kid), ProtectedMap(alg2, kid2);
    ProtectedMapShape(alg, kid);
    ProtectedMapShape(alg2, kid2);
    EncodeEqualIff(v, w);
    OrderedIsFixed(v);
    OrderedIsFixed(w);
    assert v.entries[0] == w.entries[0] && v.entries[1] == w.entries[1];
  }

  ghost predicate Sized(b: bytes) {
    |b| < TWO_TO_THE_64
  }

  lemma SigStructureInjective(protected: bytes, aad: bytes, payload: bytes, protected2: bytes, aad2: bytes, payload2: bytes)
    requires Sized(protected) && Sized(aad) && Sized(payload) && Sized(protected2) && Sized(aad2) && Sized(payload2)
    requires SigStructure(protected, aad, payload) == SigStructure(protected2, aad2, payload2)
    ensures protected == protected2 && aad == aad2 && payload == payload2
  {
    var v, w := SigStructureArray(protected, aad, payload), SigStructureArray(protected2, aad2, payload2);
    SigStructureArrayShape(protected, aad, payload);
    SigStructureArrayShape(protected2, aad2, payload2);
    EncodeEqualIff(v, w);
    OrderedIsFixed(v);
    OrderedIsFixed(w);
    assert v.items[1] == w.items[1] && v.items[2] == w.items[2] && v.items[3] == w.items[3];
  }

  lemma SigStructureArrayShape(protected: bytes, aad: bytes, payload: bytes)
    requires Sized(protected) && Sized(aad) && Sized(payload)
    ensures WellFormed(SigStructureArray(protected, aad, payload)) && Ordered(SigStructureArray(protected, aad, payload))
  {
    AsciiIsUtf8(CONTEXT);
    var items := SigStructureArray(protected, aad, payload).items;
    assert WellFormed(Text(CONTEXT)) && Ordered(Text(CONTEXT));
    forall i | 0 <= i < 4 ensures WellFormed(items[i]) && Ordered(items[i]) {
      assert items[0] == Text(CONTEXT) && items[1] == Bytes(protected) && items[2] == Bytes(aad) && items[3] == Bytes(payload);
    }
  }

  /** The signed bytes determine the algorithm, the key id, the domain and the payload. */
  lemma ToBeSignedInjective(alg: i64, kid: bytes, aad: bytes, payload: bytes, alg2: i64, kid2: bytes, aad2: bytes, payload2: bytes)
    requires Sized(ProtectedBytes(alg, kid)) && Sized(ProtectedBytes(alg2, kid2))
    requires Sized(kid) && Sized(aad) && Sized(payload) && Sized(kid2) && Sized(aad2) && Sized(payload2)
    ensures ToBeSigned(alg, kid, aad, payload) == ToBeSigned(alg2, kid2, aad2, payload2) <==>
            alg == alg2 && kid == kid2 && aad == aad2 && payload == payload2
  {
    if ToBeSigned(alg, kid, aad, payload) == ToBeSigned(alg2, kid2, aad2, payload2) {
      SigStructureInjective(ProtectedBytes(alg, kid), aad, payload, ProtectedBytes(alg2, kid2), aad2, payload2);
      ProtectedBytesInjective(alg, kid, alg2, kid2);
    }
  }
}
