/**
 * COSE_Sign1 (sections 4.2 and 4.4 of RFC 9052) with a closed protected header
 * {1: alg, 4: kid}, an empty unprotected header and an embedded payload.
 */
module Cose {
  import opened Bytes
  import opened CborCodec
  import opened CborDecode
  import opened CborValue
  import opened LimitSets
  import opened Results
  import opened Utf8

  const COSE_ED25519: i64 := -19
  const COSE_ESP256: i64 := -9
  const CONTEXT: bytes := Ascii("Signature1")

  // ---------- building ----------

  function AlgValue(alg: i64): Value {
    if alg >= 0 then Uint(alg) else Nint(alg)
  }

  function ProtectedMap(alg: i64, kid: bytes): Value {
    Map([Entry(Uint(1), AlgValue(alg)), Entry(Uint(4), Bytes(kid))])
  }

  /** `protected_bytes`. */
  function ProtectedBytes(alg: i64, kid: bytes): bytes {
    Encode(ProtectedMap(alg, kid))
  }

  function SigStructureArray(protected: bytes, aad: bytes, payload: bytes): Value {
    Array([Text(CONTEXT), Bytes(protected), Bytes(aad), Bytes(payload)])
  }

  /** `sig_structure_with_aad`. */
  function SigStructure(protected: bytes, aad: bytes, payload: bytes): bytes {
    Encode(SigStructureArray(protected, aad, payload))
  }

  /** The bytes a signature is made over. */
  function ToBeSigned(alg: i64, kid: bytes, aad: bytes, payload: bytes): bytes {
    SigStructure(ProtectedBytes(alg, kid), aad, payload)
  }

  function Sign1Array(protected: bytes, payload: bytes, signature: bytes): Value {
    Array([Bytes(protected), Map([]), Bytes(payload), Bytes(signature)])
  }

  /** The envelope that the signing functions assemble around a signature. */
  function Sign1(alg: i64, kid: bytes, payload: bytes, signature: bytes): bytes {
    Encode(Sign1Array(ProtectedBytes(alg, kid), payload, signature))
  }

  // ---------- parsing ----------

  datatype ParsedSign1 = ParsedSign1(alg: i64, kid: bytes, payload: bytes, signature: bytes, protectedRaw: bytes)

  /** The two header parameters found so far. */
  datatype Header = Header(alg: Option<i64>, kid: Option<bytes>)

  /** One round of the loop over the protected header. */
  function ScanEntry(h: Header, e: Entry): Result<Header> {
    if e.key == Uint(1) then
      match e.val
      case Nint(i) => Ok(h.(alg := Some(i)))
      case Uint(n) => if n >= TWO_TO_THE_63 then Err(UnknownAlgorithm) else Ok(h.(alg := Some(n)))
      case _ => Err(UnexpectedHeaderParam)
    else if e.key == Uint(4) then
      match e.val
      case Bytes(b) => Ok(h.(kid := Some(b)))
      case _ => Err(UnexpectedHeaderParam)
    else Err(UnexpectedHeaderParam)
  }

  function ScanHeader(h: Header, entries: seq<Entry>): Result<Header>
    decreases entries
  {
    if entries == [] then Ok(h)
    else
      var next :- ScanEntry(h, entries[0]);
      ScanHeader(next, entries[1..])
  }

  /** The kid must be as long as the algorithm's public keys. */
  predicate KidFits(alg: i64, kid: bytes) {
    (alg == COSE_ED25519 ==> |kid| == 32) && (alg == COSE_ESP256 ==> |kid| == 64)
  }

  /** The protected header's algorithm and key id. */
  function ParseProtected(raw: bytes, l: Limits): Result<(i64, bytes)> {
    var inner :- DecodeStrict(raw, l);
    if Encode(inner) != raw then Err(NonCanonical)
    else if !inner.Map? then Err(Malformed)
    else if |inner.entries| != 2 then Err(UnexpectedHeaderParam)
    else
      var h :- ScanHeader(Header(None, None), inner.entries);
      if h.alg.None? || h.kid.None? then Err(UnexpectedHeaderParam)
      else if !KidFits(h.alg.value, h.kid.value) then Err(AlgorithmConfusion)
      else Ok((h.alg.value, h.kid.value))
  }

  /** `parse_sign1`. */
  function ParseSign1(b: bytes, l: Limits): Result<ParsedSign1> {
    if |b| > l.maxProofSize then Err(LimitExceeded)
    else
      var outer :- DecodeStrict(b, l);
      if Encode(outer) != b then Err(NonCanonical)
      else if !outer.Array? then Err(Malformed)
      else if |outer.items| != 4 then Err(Malformed)
      else if !outer.items[0].Bytes? then Err(Malformed)
      else if outer.items[1] != Map([]) then Err(UnexpectedHeaderParam)
      else if !outer.items[2].Bytes? then Err(Malformed)
      else if |outer.items[2].blob| > l.maxProofSize then Err(LimitExceeded)
      else if !outer.items[3].Bytes? then Err(Malformed)
      else if |outer.items[3].blob| > l.maxSigSize then Err(LimitExceeded)
      else
        var p :- ParseProtected(outer.items[0].blob, l);
        Ok(ParsedSign1(p.0, p.1, outer.items[2].blob, outer.items[3].blob, outer.items[0].blob))
  }

  /** `parse_sign1` with its loop, over the cursor decoder. */
  method RunParseSign1(b: bytes, l: Limits) returns (r: Result<ParsedSign1>)
    ensures r == ParseSign1(b, l)
  {
    if |b| > l.maxProofSize {
      return Err(LimitExceeded);
    }
    var outer :- DecodeBytes(b, l);
    var again := EncodeCanonical(outer);
    if again != b {
      return Err(NonCanonical);
    }
    if !outer.Array? {
      return Err(Malformed);
    }
    var items := outer.items;
    if |items| != 4 || !items[0].Bytes? {
      return Err(Malformed);
    }
    if !(items[1].Map? && |items[1].entries| == 0) {
      return Err(UnexpectedHeaderParam);
    }
    if !items[2].Bytes? {
      return Err(Malformed);
    }
    if |items[2].blob| > l.maxProofSize {
      return Err(LimitExceeded);
    }
    if !items[3].Bytes? {
      return Err(Malformed);
    }
    if |items[3].blob| > l.maxSigSize {
      return Err(LimitExceeded);
    }
    var p :- RunParseProtected(items[0].blob, l);
    return Ok(ParsedSign1(p.0, p.1, items[2].blob, items[3].blob, items[0].blob));
  }

  method RunParseProtected(raw: bytes, l: Limits) returns (r: Result<(i64, bytes)>)
    ensures r == ParseProtected(raw, l)
  {
    var inner :- DecodeBytes(raw, l);
    var again := EncodeCanonical(inner);
    if again != raw {
      return Err(NonCanonical);
    }
    if !inner.Map? {
      return Err(Malformed);
    }
    var pairs := inner.entries;
    if |pairs| != 2 {
      return Err(UnexpectedHeaderParam);
    }
    var alg: Option<i64>, kid: Option<bytes> := None, None;
    for i := 0 to |pairs|
      invariant ScanHeader(Header(alg, kid), pairs[i..]) == ScanHeader(Header(None, None), pairs)
    {
      var e := pairs[i];
      assert pairs[i..][0] == e && pairs[i..][1..] == pairs[i + 1..];
      if e.key == Uint(1) {
        match e.val {
          case Nint(n) => alg := Some(n);
          case Uint(n) =>
            if n > 0x7fff_ffff_ffff_ffff {
              return Err(UnknownAlgorithm);
            }
            alg := Some(n);
          case _ => return Err(UnexpectedHeaderParam);
        }
      } else if e.key == Uint(4) {
        match e.val {
          case Bytes(k) => kid := Some(k);
          case _ => return Err(UnexpectedHeaderParam);
        }
      } else {
        return Err(UnexpectedHeaderParam);
      }
    }
    if alg.None? || kid.None? {
      return Err(UnexpectedHeaderParam);
    }
    if (alg.value == COSE_ED25519 && |kid.value| != 32) || (alg.value == COSE_ESP256 && |kid.value| != 64) {
      return Err(AlgorithmConfusion);
    }
    return Ok((alg.value, kid.value));
  }
}
