/** The bytes of headers, envelopes and signed structures, spelled out. */
module CoseBytes {
  import opened Bytes
  import opened CborHead
  import opened CborOrder
  import opened CborValue
  import opened Cose
  import opened CoseTheorems

  /** A CBOR byte string: its head and its bytes. */
  function ByteString(b: bytes): bytes {
    Head(2, |b|) + b
  }

  /** A CBOR integer. */
  function Integer(i: i64): bytes {
    if i >= 0 then Head(0, i) else Head(1, -1 - i)
  }

  /** Array of four, text of ten, then the letters of `Signature1`. */
  const SIGNATURE_1: bytes := [0x84, 0x6a, 0x53, 0x69, 0x67, 0x6e, 0x61, 0x74, 0x75, 0x72, 0x65, 0x31]

  lemma FourItems(a: Value, b: Value, c: Value, d: Value)
    ensures Encode(Array([a, b, c, d])) == [0x84] + Encode(a) + Encode(b) + Encode(c) + Encode(d)
  {
    var w, x, y, z := [a, b, c, d], [b, c, d], [c, d], [d];
    assert w[1..] == x && x[1..] == y && y[1..] == z && z[1..] == [];
    assert EncodeItems(z) == Encode(d) + EncodeItems([]) == Encode(d);
    assert EncodeItems(y) == Encode(c) + Encode(d);
    assert EncodeItems(x) == Encode(b) + (Encode(c) + Encode(d));
    assert Head(4, 4) == [0x84];
    Regroup([0x84], Encode(a), Encode(b), Encode(c), Encode(d));
  }

  lemma Regroup(h: bytes, a: bytes, b: bytes, c: bytes, d: bytes)
    ensures h + (a + (b + (c + d))) == h + a + b + c + d
  {
  }

  lemma RegroupPairs(h: bytes, a: bytes, b: bytes, c: bytes, d: bytes)
    ensures h + ((a + b) + (c + d)) == h + a + b + c + d
  {
  }

  lemma ContextBytes()
    ensures [0x84] + Encode(Text(CONTEXT)) == SIGNATURE_1
  {
    assert |CONTEXT| == 10 && Head(3, 10) == [0x6a];
    assert CONTEXT == [0x53, 0x69, 0x67, 0x6e, 0x61, 0x74, 0x75, 0x72, 0x65, 0x31];
  }

  /** The signed structure: the context, then the protected header, the external data and the payload, in that order. */
  lemma SigStructureBytes(protected: bytes, aad: bytes, payload: bytes)
    ensures SigStructure(protected, aad, payload) ==
            SIGNATURE_1 + ByteString(protected) + ByteString(aad) + ByteString(payload)
  {
    FourItems(Text(CONTEXT), Bytes(protected), Bytes(aad), Bytes(payload));
    ContextBytes();
  }

  lemma EmptyMap()
    ensures Encode(Map([])) == [0xa0]
  {
    assert EncodeEntries([]) == [] && Head(5, 0) == [0xa0];
  }

  /** The envelope: the protected header, an empty map, the payload and the signature, in that order. */
  lemma Sign1Bytes(alg: i64, kid: bytes, payload: bytes, signature: bytes)
    ensures Sign1(alg, kid, payload, signature) ==
            [0x84] + ByteString(ProtectedBytes(alg, kid)) + [0xa0] + ByteString(payload) + ByteString(signature)
  {
    FourItems(Bytes(ProtectedBytes(alg, kid)), Map([]), Bytes(payload), Bytes(signature));
    EmptyMap();
  }

  lemma TwoEntries(e: Entry, f: Entry)
    ensures Flat(Map([e, f])) == [0xa2] + Flat(e.key) + Flat(e.val) + Flat(f.key) + Flat(f.val)
  {
    assert [e, f][1..] == [f] && [f][1..] == [];
    assert FlatEntries([f]) == FlatEntry(f) + FlatEntries([]) == FlatEntry(f);
    assert FlatEntries([e, f]) == FlatEntry(e) + FlatEntry(f);
    assert Head(5, 2) == [0xa2];
    RegroupPairs([0xa2], Flat(e.key), Flat(e.val), Flat(f.key), Flat(f.val));
  }

  lemma HeaderParts(alg: i64, kid: bytes)
    ensures Flat(Uint(1)) == [0x01] && Flat(Uint(4)) == [0x04]
    ensures Flat(AlgValue(alg)) == Integer(alg) && Flat(Bytes(kid)) == ByteString(kid)
  {
    FlatScalar(Uint(1));
    FlatScalar(Uint(4));
    FlatScalar(AlgValue(alg));
    FlatScalar(Bytes(kid));
    SmallHead(1);
    SmallHead(4);
  }

  lemma FlatScalar(v: Value)
    requires Scalar(v)
    ensures Flat(v) == Encode(v)
  {
  }

  lemma SmallHead(n: nat)
    requires n < 24
    ensures Head(0, n) == [n]
  {
  }

  /** The protected header: label 1 with the algorithm, label 4 with the key id. */
  lemma HeaderBytes(alg: i64, kid: bytes)
    ensures ProtectedBytes(alg, kid) == [0xa2] + [0x01] + Integer(alg) + [0x04] + ByteString(kid)
  {
    ProtectedMapShape(alg, kid);
    OrderedIsFixed(ProtectedMap(alg, kid));
    TwoEntries(Entry(Uint(1), AlgValue(alg)), Entry(Uint(4), Bytes(kid)));
    HeaderParts(alg, kid);
  }
}
