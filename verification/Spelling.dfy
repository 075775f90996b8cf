/**
 * Canonical spellings: object ids `<prefix>:v1:<digest>` and key references
 * `key:<alg>:<public key>`, with the binary part in base64url.
 *
 * The library that decodes base64url is a parameter, known only to undo the
 * encoder. However lenient it is elsewhere, comparing the re-encoding with the
 * input leaves one accepted spelling for each value.
 */
module Spelling {
  import opened Bytes
  import opened Results
  import opened Utf8
  import Base64Url

  type Decoder = bytes -> Option<bytes>

  /** The decoder gives back what was encoded; nothing is known about other inputs. */
  ghost predicate UndoesEncoder(dec: Decoder) {
    forall b :: dec(Base64Url.Encode(b)) == Some(b)
  }

  const V1: bytes := Ascii(":v1:")
  const PROOF_REF: bytes := Ascii("prf:v1:")
  const ED25519_REF: bytes := Ascii("key:ed25519:")
  const P256_REF: bytes := Ascii("key:p256:")

  /** What follows `prefix` in `s`, decoded, if it is the canonical spelling of `size` bytes. */
  function Canonical(prefix: bytes, s: bytes, size: nat, dec: Decoder, missing: ErrorCode, wrong: ErrorCode): Result<bytes> {
    if !(prefix <= s) then Err(missing)
    else
      var rest := s[|prefix|..];
      match dec(rest)
      case None => Err(InvalidBase64Url)
      case Some(raw) =>
        if Base64Url.Encode(raw) != rest then Err(wrong)
        else if |raw| != size then Err(wrong)
        else Ok(raw)
  }

  lemma CanonicalIff(prefix: bytes, s: bytes, size: nat, dec: Decoder, missing: ErrorCode, wrong: ErrorCode, raw: bytes)
    requires UndoesEncoder(dec)
    ensures Canonical(prefix, s, size, dec, missing, wrong) == Ok(raw) <==>
            |raw| == size && s == prefix + Base64Url.Encode(raw)
  {
    if Canonical(prefix, s, size, dec, missing, wrong) == Ok(raw) {
      assert s == s[..|prefix|] + s[|prefix|..];
    }
    if |raw| == size && s == prefix + Base64Url.Encode(raw) {
      assert s[..|prefix|] == prefix && s[|prefix|..] == Base64Url.Encode(raw);
      assert dec(Base64Url.Encode(raw)) == Some(raw);
    }
  }

  /** Different bytes never share a spelling. */
  lemma SpellingInjective(prefix: bytes, a: bytes, b: bytes)
    requires prefix + Base64Url.Encode(a) == prefix + Base64Url.Encode(b)
    ensures a == b
  {
    assert (prefix + Base64Url.Encode(a))[|prefix|..] == Base64Url.Encode(a);
    assert (prefix + Base64Url.Encode(b))[|prefix|..] == Base64Url.Encode(b);
    Base64Url.EncodeInjective(a, b);
  }

  // ---------- object ids ----------

  /** `id_with`, over any hash. */
  function IdWith(prefix: bytes, canonical: bytes, sha256: bytes -> bytes): bytes {
    prefix + V1 + Base64Url.Encode(sha256(canonical))
  }

  /** `verify_id`. */
  function VerifyId(prefix: bytes, id: bytes, canonical: bytes, sha256: bytes -> bytes, dec: Decoder): Result<()> {
    var raw :- Canonical(prefix + V1, id, 32, dec, IdMismatch, IdMismatch);
    if raw != sha256(canonical) then Err(IdMismatch) else Ok(())
  }

  /** `check_proof_ref_shape`. */
  function CheckProofRefShape(id: bytes, dec: Decoder): Result<()> {
    var raw :- Canonical(PROOF_REF, id, 32, dec, SchemaViolation, SchemaViolation);
    Ok(())
  }

  /** An id is accepted for some content exactly when it is the id made from that content. */
  lemma VerifyIdIff(prefix: bytes, id: bytes, canonical: bytes, sha256: bytes -> bytes, dec: Decoder)
    requires UndoesEncoder(dec) && |sha256(canonical)| == 32
    ensures VerifyId(prefix, id, canonical, sha256, dec).Ok? <==> id == IdWith(prefix, canonical, sha256)
    ensures VerifyId(prefix, id, canonical, sha256, dec).Ok? <==>
            id == prefix + Ascii(":v1:") + Base64Url.Encode(sha256(canonical))
  {
    CanonicalIff(prefix + V1, id, 32, dec, IdMismatch, IdMismatch, sha256(canonical));
  }

  /** One id verifies against two contents exactly when they have the same digest. */
  lemma IdNamesOneDigest(prefix: bytes, id: bytes, a: bytes, b: bytes, sha256: bytes -> bytes, dec: Decoder)
    requires UndoesEncoder(dec) && |sha256(a)| == 32 && |sha256(b)| == 32
    requires VerifyId(prefix, id, a, sha256, dec).Ok?
    ensures VerifyId(prefix, id, b, sha256, dec).Ok? <==> sha256(a) == sha256(b)
  {
    VerifyIdIff(prefix, id, a, sha256, dec);
    VerifyIdIff(prefix, id, b, sha256, dec);
    if VerifyId(prefix, id, b, sha256, dec).Ok? {
      SpellingInjective(prefix + V1, sha256(a), sha256(b));
    }
  }

  /** A proof reference has the right shape exactly when it spells some 32-byte digest. */
  lemma ProofRefShapeIff(id: bytes, dec: Decoder)
    requires UndoesEncoder(dec)
    ensures CheckProofRefShape(id, dec).Ok? <==>
            exists digest: bytes :: |digest| == 32 && id == Ascii("prf:v1:") + Base64Url.Encode(digest)
  {
    var r := Canonical(PROOF_REF, id, 32, dec, SchemaViolation, SchemaViolation);
    if r.Ok? {
      CanonicalIff(PROOF_REF, id, 32, dec, SchemaViolation, SchemaViolation, r.value);
    }
    if exists digest: bytes :: |digest| == 32 && id == PROOF_REF + Base64Url.Encode(digest) {
      var digest: bytes :| |digest| == 32 && id == PROOF_REF + Base64Url.Encode(digest);
      CanonicalIff(PROOF_REF, id, 32, dec, SchemaViolation, SchemaViolation, digest);
    }
  }

  // ---------- key references ----------

  function Ed25519KeyRef(key: bytes): bytes {
    ED25519_REF + Base64Url.Encode(key)
  }

  function P256KeyRef(key: bytes): bytes {
    P256_REF + Base64Url.Encode(key)
  }

  /** `parse_ed25519_keyref`. */
  function ParseEd25519KeyRef(s: bytes, dec: Decoder): Result<bytes> {
    Canonical(ED25519_REF, s, 32, dec, SchemaViolation, SchemaViolation)
  }

  /** `parse_p256_keyref`. */
  function ParseP256KeyRef(s: bytes, dec: Decoder): Result<bytes> {
    Canonical(P256_REF, s, 64, dec, SchemaViolation, SchemaViolation)
  }

  /** Each key of the right size has exactly one accepted key reference. */
  lemma KeyRefsIff(s: bytes, dec: Decoder, key: bytes)
    requires UndoesEncoder(dec)
    ensures ParseEd25519KeyRef(s, dec) == Ok(key) <==> |key| == 32 && s == Ed25519KeyRef(key)
    ensures ParseP256KeyRef(s, dec) == Ok(key) <==> |key| == 64 && s == P256KeyRef(key)
    ensures Ed25519KeyRef(key) == Ascii("key:ed25519:") + Base64Url.Encode(key)
    ensures P256KeyRef(key) == Ascii("key:p256:") + Base64Url.Encode(key)
  {
    CanonicalIff(ED25519_REF, s, 32, dec, SchemaViolation, SchemaViolation, key);
    CanonicalIff(P256_REF, s, 64, dec, SchemaViolation, SchemaViolation, key);
  }

  /** The hand-written loop is one such decoder, its second spellings notwithstanding. */
  lemma LoopUndoesEncoder()
    ensures UndoesEncoder(s => Base64Url.Decode(s))
  {
    forall b ensures Base64Url.Decode(Base64Url.Encode(b)) == Some(b) {
      Base64Url.DecodeEncode(b);
    }
  }
}
