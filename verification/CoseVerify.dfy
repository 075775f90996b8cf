/**
 * Verification of an envelope: shape, algorithm policy, key binding, signature.
 * The signature primitives are parameters; what is proved is which question
 * they were asked.
 */
module CoseVerify {
  import opened Bytes
  import opened Cose
  import opened CoseTheorems
  import opened LimitSets
  import opened Results
  import opened Spelling

  datatype AllowedAlgs = AllowedAlgs(ed25519: bool, esp256: bool, allowDeprecated: bool)

  predicate IsAllowed(a: AllowedAlgs, alg: i64) {
    if alg == COSE_ED25519 then a.ed25519 else alg == COSE_ESP256 && a.esp256
  }

  predicate IsDeprecated(alg: i64) {
    alg == -8 || alg == -7 || alg == -35 || alg == -36
  }

  /** The signature libraries: key and signature shapes they refuse, and their verdict on (key, message, signature). */
  datatype Crypto = Crypto(
    edKeyValid: bytes -> bool,
    edVerify: (bytes, bytes, bytes) -> bool,
    p256KeyValid: bytes -> bool,
    p256SigValid: bytes -> bool,
    p256Verify: (bytes, bytes, bytes) -> bool
  )

  /** Which operation checks signatures under `alg`; a deprecated id maps to the operation it meant, if policy allows. */
  function SelectOp(a: AllowedAlgs, alg: i64, kidLen: nat): Result<i64> {
    if IsDeprecated(alg) then
      if !a.allowDeprecated then Err(DeprecatedAlgorithm)
      else if alg == -8 && kidLen == 32 then Ok(COSE_ED25519)
      else if alg == -7 && kidLen == 64 && a.esp256 then Ok(COSE_ESP256)
      else if alg == -7 then Err(UnexpectedHeaderParam)
      else Err(DeprecatedAlgorithm)
    else if IsAllowed(a, alg) then Ok(alg)
    else if alg == COSE_ED25519 || alg == COSE_ESP256 then Err(UnexpectedHeaderParam)
    else Err(UnknownAlgorithm)
  }

  /** The checks after parsing: policy, signature length, key binding, signature. */
  function VerifyParsed(p: ParsedSign1, issuer: bytes, a: AllowedAlgs, aad: bytes, dec: Decoder, c: Crypto): Result<ParsedSign1> {
    var op :- SelectOp(a, p.alg, |p.kid|);
    if |p.signature| != 64 then Err(SignatureInvalid)
    else if op == COSE_ED25519 then
      var key :- ParseEd25519KeyRef(issuer, dec);
      if key != p.kid then Err(SignatureInvalid)
      else if !c.edKeyValid(key) then Err(Malformed)
      else if !c.edVerify(key, SigStructure(p.protectedRaw, aad, p.payload), p.signature) then Err(SignatureInvalid)
      else Ok(p)
    else if op == COSE_ESP256 then
      var key :- ParseP256KeyRef(issuer, dec);
      if key != p.kid then Err(SignatureInvalid)
      else if !c.p256KeyValid(key) then Err(Malformed)
      else if !c.p256SigValid(p.signature) then Err(SignatureInvalid)
      else if !c.p256Verify(key, SigStructure(p.protectedRaw, aad, p.payload), p.signature) then Err(SignatureInvalid)
      else Ok(p)
    else Err(UnknownAlgorithm)
  }

  /** `verify_sign1_with_aad`. */
  function VerifySign1(b: bytes, issuer: bytes, a: AllowedAlgs, l: Limits, aad: bytes, dec: Decoder, c: Crypto)
    : Result<ParsedSign1>
  {
    if |aad| > 1024 then Err(LimitExceeded)
    else
      var p :- ParseSign1(b, l);
      VerifyParsed(p, issuer, a, aad, dec, c)
  }

  /** The primitive says yes to this signature by `kid` over the algorithm, the key id, the domain and the payload. */
  ghost predicate Endorsed(c: Crypto, op: i64, alg: i64, kid: bytes, aad: bytes, payload: bytes, signature: bytes) {
    var msg := ToBeSigned(alg, kid, aad, payload);
    if op == COSE_ED25519 then |kid| == 32 && c.edKeyValid(kid) && c.edVerify(kid, msg, signature)
    else |kid| == 64 && c.p256KeyValid(kid) && c.p256SigValid(signature) && c.p256Verify(kid, msg, signature)
  }

  function KeyRefFor(op: i64, kid: bytes): bytes {
    if op == COSE_ED25519 then Ed25519KeyRef(kid) else P256KeyRef(kid)
  }

  /**
   * The algorithms a policy admits and the operation each means: -19 and -9 are themselves when enabled; under the
   * historical policy -8 with a 32-byte key means -19, and -7 with a 64-byte key means -9 when that is enabled.
   */
  ghost predicate Selects(a: AllowedAlgs, alg: i64, kidLen: nat, op: i64) {
    || (op == -19 && alg == -19 && a.ed25519)
    || (op == -9 && alg == -9 && a.esp256)
    || (op == -19 && alg == -8 && kidLen == 32 && a.allowDeprecated)
    || (op == -9 && alg == -7 && kidLen == 64 && a.allowDeprecated && a.esp256)
  }

  lemma SelectOpIff(a: AllowedAlgs, alg: i64, kidLen: nat, op: i64)
    ensures SelectOp(a, alg, kidLen) == Ok(op) <==> Selects(a, alg, kidLen, op)
  {
  }

  /** Checked as `op`: the issuer is the one reference of the key id, and the primitive endorsed exactly these parts. */
  ghost predicate AcceptsAs(op: i64, issuer: bytes, p: ParsedSign1, aad: bytes, c: Crypto) {
    issuer == KeyRefFor(op, p.kid) && Endorsed(c, op, p.alg, p.kid, aad, p.payload, p.signature)
  }

  lemma VerifyParsedIff(p: ParsedSign1, issuer: bytes, a: AllowedAlgs, aad: bytes, dec: Decoder, c: Crypto)
    requires UndoesEncoder(dec) && p.protectedRaw == ProtectedBytes(p.alg, p.kid)
    ensures VerifyParsed(p, issuer, a, aad, dec, c) == Ok(p) <==>
            && |p.signature| == 64
            && exists op: i64 :: Selects(a, p.alg, |p.kid|, op) && AcceptsAs(op, issuer, p, aad, c)
  {
    KeyRefsIff(issuer, dec, p.kid);
    forall op: i64 ensures SelectOp(a, p.alg, |p.kid|) == Ok(op) <==> Selects(a, p.alg, |p.kid|, op) {
      SelectOpIff(a, p.alg, |p.kid|, op);
    }
    var selected := SelectOp(a, p.alg, |p.kid|);
    if selected.Ok? {
      assert Selects(a, p.alg, |p.kid|, selected.value);
    }
  }

  lemma VerifiedIsParsed(
    b: bytes, issuer: bytes, a: AllowedAlgs, l: Limits, aad: bytes, dec: Decoder, c: Crypto, p: ParsedSign1)
    ensures VerifySign1(b, issuer, a, l, aad, dec, c) == Ok(p) <==>
            |aad| <= 1024 && ParseSign1(b, l) == Ok(p) && VerifyParsed(p, issuer, a, aad, dec, c) == Ok(p)
  {
  }

  /**
   * Acceptance means exactly this: the bytes are an envelope assembled from the returned parts within limits, policy
   * selects an operation for the algorithm, the issuer is the one key reference of the key id, and the primitive
   * endorsed the signature over those parts and the caller's domain.
   */
  lemma VerifySign1Iff(
    b: bytes, issuer: bytes, a: AllowedAlgs, l: Limits, aad: bytes, dec: Decoder, c: Crypto, p: ParsedSign1)
    requires UndoesEncoder(dec) && l.maxFieldSize < TWO_TO_THE_64
    ensures VerifySign1(b, issuer, a, l, aad, dec, c) == Ok(p) <==>
            && |aad| <= 1024
            && b == Sign1(p.alg, p.kid, p.payload, p.signature)
            && p.protectedRaw == ProtectedBytes(p.alg, p.kid)
            && KidFits(p.alg, p.kid) && WithinLimits(b, p, l) && |p.signature| == 64
            && exists op: i64 :: Selects(a, p.alg, |p.kid|, op) && AcceptsAs(op, issuer, p, aad, c)
  {
    ParseSign1Iff(b, l, p);
    if p.protectedRaw == ProtectedBytes(p.alg, p.kid) {
      VerifyParsedIff(p, issuer, a, aad, dec, c);
    }
    VerifiedIsParsed(b, issuer, a, l, aad, dec, c, p);
  }

  /**
   * Domain separation: a signature that is good for one message only, the one made for some algorithm, key, domain and
   * payload, is accepted for no other algorithm, key, domain or payload.
   */
  lemma DomainSeparation(
    b: bytes, issuer: bytes, a: AllowedAlgs, l: Limits, aad: bytes, dec: Decoder, c: Crypto, p: ParsedSign1,
    alg0: i64, kid0: bytes, aad0: bytes, payload0: bytes)
    requires UndoesEncoder(dec) && l.maxFieldSize < TWO_TO_THE_64
    requires Sized(ProtectedBytes(alg0, kid0)) && Sized(kid0) && Sized(aad0) && Sized(payload0)
    requires forall key, msg :: c.edVerify(key, msg, p.signature) ==> msg == ToBeSigned(alg0, kid0, aad0, payload0)
    requires forall key, msg :: c.p256Verify(key, msg, p.signature) ==> msg == ToBeSigned(alg0, kid0, aad0, payload0)
    requires VerifySign1(b, issuer, a, l, aad, dec, c) == Ok(p)
    ensures p.alg == alg0 && p.kid == kid0 && aad == aad0 && p.payload == payload0
  {
    VerifySign1Iff(b, issuer, a, l, aad, dec, c, p);
    ToBeSignedInjective(p.alg, p.kid, aad, p.payload, alg0, kid0, aad0, payload0);
  }

  /** What `sign_ed25519_with_aad` makes, its own verification accepts under the signer's key reference and domain. */
  lemma SignedVerifies(
    key: bytes, payload: bytes, aad: bytes, signature: bytes, a: AllowedAlgs, l: Limits, dec: Decoder, c: Crypto)
    requires UndoesEncoder(dec) && l.maxFieldSize < TWO_TO_THE_64
    requires |key| == 32 && |signature| == 64 && |aad| <= 1024 && a.ed25519
    requires c.edKeyValid(key) && c.edVerify(key, ToBeSigned(COSE_ED25519, key, aad, payload), signature)
    requires var p := ParsedSign1(COSE_ED25519, key, payload, signature, ProtectedBytes(COSE_ED25519, key));
             WithinLimits(Sign1(COSE_ED25519, key, payload, signature), p, l)
    ensures VerifySign1(Sign1(COSE_ED25519, key, payload, signature), Ed25519KeyRef(key), a, l, aad, dec, c) ==
            Ok(ParsedSign1(COSE_ED25519, key, payload, signature, ProtectedBytes(COSE_ED25519, key)))
  {
    var p := ParsedSign1(COSE_ED25519, key, payload, signature, ProtectedBytes(COSE_ED25519, key));
    VerifySign1Iff(Sign1(COSE_ED25519, key, payload, signature), Ed25519KeyRef(key), a, l, aad, dec, c, p);
    assert Selects(a, -19, |key|, -19) && AcceptsAs(-19, Ed25519KeyRef(key), p, aad, c);
  }

  /** Deprecated algorithm ids are accepted only under the historical policy, and only the two that have an operation. */
  lemma DeprecatedNeedsPolicy(
    b: bytes, issuer: bytes, a: AllowedAlgs, l: Limits, aad: bytes, dec: Decoder, c: Crypto, p: ParsedSign1)
    requires VerifySign1(b, issuer, a, l, aad, dec, c) == Ok(p)
    ensures p.alg in {COSE_ED25519, COSE_ESP256} || (a.allowDeprecated && p.alg in {-8, -7})
    ensures p.alg in {COSE_ESP256, -7} ==> a.esp256
  {
  }
}
