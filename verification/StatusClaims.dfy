/**
 * The status builders: revocation, withdrawal, supersession and compromise. Their
 * field lists are in encoder order, so under the default limits a status object
 * is signed exactly when its texts are not empty and at most 1024 bytes.
 */
module StatusClaims {
  import opened Attestations
  import Base64Url
  import opened Bytes
  import opened CborDecode
  import opened CborLookup
  import opened CborTextKeys
  import opened CborValue
  import opened Claims
  import opened LimitSets
  import opened Results
  import opened SignedContent
  import opened SigningLimits
  import opened Spelling
  import opened Utf8

  const REASON: bytes := Ascii("reason")
  const TARGET: bytes := Ascii("target")
  const AT_TIME: bytes := Ascii("at_time")
  const NEW: bytes := Ascii("new")
  const OLD: bytes := Ascii("old")

  const REVOKE: bytes := Ascii("revoke")
  const WITHDRAW: bytes := Ascii("withdraw")
  const SUPERSEDE: bytes := Ascii("supersede")
  const COMPROMISE: bytes := Ascii("compromise")

  // ---------- field lists ----------

  function ReasonList(reason: Option<bytes>): seq<Field> {
    if reason.Some? then [Field(REASON, MText(reason.value))] else []
  }

  /** An optional reason, then the target. */
  method TargetFields(target: bytes, reason: Option<bytes>) returns (r: Result<seq<Field>>)
    ensures r.Ok? <==> target != [] && reason != Some([])
    ensures r.Ok? ==> InEncoderOrder(r.value) && r.value == ReasonList(reason) + [Field(TARGET, MText(target))]
  {
    if target == [] {
      return Err(SchemaViolation);
    }
    var fields: seq<Field> := [];
    if reason.Some? {
      if reason.value == [] {
        return Err(SchemaViolation);
      }
      fields := fields + [Field(REASON, MText(reason.value))];
    }
    fields := fields + [Field(TARGET, MText(target))];
    NamesInOrder();
    return Ok(fields);
  }

  /** The new id before the old one. */
  method SupersedeFields(old_: bytes, new_: bytes) returns (r: Result<seq<Field>>)
    ensures r.Ok? <==> old_ != [] && new_ != [] && old_ != new_
    ensures r.Ok? ==> InEncoderOrder(r.value) && r.value == [Field(NEW, MText(new_)), Field(OLD, MText(old_))]
  {
    if old_ == [] || new_ == [] || old_ == new_ {
      return Err(SchemaViolation);
    }
    NamesInOrder();
    return Ok([Field(NEW, MText(new_)), Field(OLD, MText(old_))]);
  }

  /** The time comes last, its name being longer. */
  method CompromiseFields(target: bytes, atTime: u64, reason: Option<bytes>) returns (r: Result<seq<Field>>)
    ensures r.Ok? <==> target != [] && reason != Some([])
    ensures r.Ok? ==> InEncoderOrder(r.value)
    ensures r.Ok? ==>
              r.value == ReasonList(reason) + [Field(TARGET, MText(target)), Field(AT_TIME, MUint(atTime))]
  {
    if target == [] {
      return Err(SchemaViolation);
    }
    var fields: seq<Field> := [];
    if reason.Some? {
      if reason.value == [] {
        return Err(SchemaViolation);
      }
      fields := fields + [Field(REASON, MText(reason.value))];
    }
    fields := fields + [Field(TARGET, MText(target))];
    fields := fields + [Field(AT_TIME, MUint(atTime))];
    NamesInOrder();
    return Ok(fields);
  }

  lemma NamesInOrder()
    ensures Shortlex(REASON, TARGET) && Shortlex(TARGET, AT_TIME) && Shortlex(REASON, AT_TIME) && Shortlex(NEW, OLD)
  {
    assert REASON[0] == 'r' as int && TARGET[0] == 't' as int;
    assert NEW[0] == 'n' as int && OLD[0] == 'o' as int;
    assert |TARGET| == 6 && |REASON| == 6 && |AT_TIME| == 7;
  }

  // ---------- what is signed ----------

  /** The content every builder passes to `attest`. */
  function StatusContent(kind: bytes, key: bytes, subject: bytes, fields: seq<Field>, issuedAt: u64): Content
    requires |key| == 32
  {
    Content(1, Ed25519KeyRef(key), subject, Claim(kind, fields), issuedAt, None, None)
  }

  /** One of the builders' names, with a text that is a string. */
  ghost predicate StatusField(f: Field) {
    f.name in {REASON, TARGET, AT_TIME, NEW, OLD} && MetaString(f.val)
  }

  lemma StatusNames(name: bytes)
    requires name in {REASON, TARGET, AT_TIME, NEW, OLD}
    ensures IsString(name) && |name| <= 7 && name != TYPE
  {
    AsciiIsUtf8(name);
    assert |TYPE| == 4 && |REASON| == 6 && |TARGET| == 6 && |AT_TIME| == 7 && |NEW| == 3 && |OLD| == 3;
  }

  lemma StatusKinds(kind: bytes)
    requires kind in {REVOKE, WITHDRAW, SUPERSEDE, COMPROMISE}
    ensures IsString(kind) && ProperKind(kind)
  {
    AsciiIsUtf8(kind);
    assert |REVOKE| == 6 && |WITHDRAW| == 8 && |SUPERSEDE| == 9 && |COMPROMISE| == 10;
  }

  /** The signer's reference is a text the schema accepts. */
  lemma KeyRefIsText(key: bytes)
    requires |key| == 32
    ensures IsString(Ed25519KeyRef(key)) && TextBounds(Ed25519KeyRef(key))
  {
    EncodedIsAscii(key);
    AsciiIsUtf8(Ed25519KeyRef(key));
  }

  lemma {:induction false} DigitsBound(b: bytes)
    ensures |Base64Url.Digits(b)| <= 2 * |b|
  {
    if |b| >= 3 {
      DigitsBound(b[3..]);
    }
  }

  lemma EncodedIsAscii(b: bytes)
    ensures AllAscii(Base64Url.Encode(b)) && |Base64Url.Encode(b)| <= 2 * |b|
  {
    DigitsBound(b);
  }

  lemma StatusStrings(kind: bytes, key: bytes, subject: bytes, fields: seq<Field>, issuedAt: u64)
    requires kind in {REVOKE, WITHDRAW, SUPERSEDE, COMPROMISE} && |key| == 32 && IsString(subject)
    requires |fields| <= 3 && forall i :: 0 <= i < |fields| ==> StatusField(fields[i])
    ensures var a := StatusContent(kind, key, subject, fields, issuedAt);
            && ContentStrings(a) && ShortNames(a.claim) && ProperKind(kind) && TextBounds(a.issuer)
            && forall i :: 0 <= i < |fields| ==> fields[i].name != TYPE
  {
    KeyRefIsText(key);
    StatusKinds(kind);
    forall i | 0 <= i < |fields| ensures IsString(fields[i].name) && |fields[i].name| <= 7 && fields[i].name != TYPE {
      StatusNames(fields[i].name);
    }
  }

  /** `a` is signed exactly when the texts in it have proper lengths; a custom limit set must hold it, the default does. */
  ghost predicate SignedWhen(r: Result<bytes>, proper: bool, a: Content, l: Limits) {
    && (r.Ok? <==> proper && Within(a, l))
    && (l == DEFAULT ==> (r.Ok? <==> proper))
    && (r.Ok? ==> r == Attest(a, a.issuer, l))
  }

  lemma StatusSignedIff(kind: bytes, key: bytes, subject: bytes, fields: seq<Field>, issuedAt: u64, l: Limits)
    requires kind in {REVOKE, WITHDRAW, SUPERSEDE, COMPROMISE} && |key| == 32 && IsString(subject)
    requires |fields| <= 3 && InEncoderOrder(fields) && forall i :: 0 <= i < |fields| ==> StatusField(fields[i])
    ensures var a := StatusContent(kind, key, subject, fields, issuedAt);
            SignedWhen(Attest(a, a.issuer, l),
                       TextBounds(subject) && forall i :: 0 <= i < |fields| ==> ShortMeta(fields[i].val), a, l)
  {
    var a := StatusContent(kind, key, subject, fields, issuedAt);
    StatusStrings(kind, key, subject, fields, issuedAt);
    AttestIff(a, a.issuer, l);
    AttestDefaultIff(a, a.issuer);
  }

  /**
   * What the signed bytes of a status object say: strictly decoded, a map with the kind, the signer, the subject, the
   * time and the named claim fields, no expiry, no evidence and nothing else.
   */
  ghost predicate StatusSays(
    b: bytes, l: Limits, kind: bytes, key: bytes, subject: bytes, issuedAt: u64, named: seq<(bytes, Value)>)
  {
    var r := DecodeStrict(b, l);
    && r.Ok? && r.value.Map? && |r.value.entries| == 7
    && EnvelopeSays(r.value.entries, key, subject, issuedAt)
    && StatusClaimSays(Find(r.value.entries, Ascii("claim")), kind, named)
  }

  ghost predicate EnvelopeSays(m: seq<Entry>, key: bytes, subject: bytes, issuedAt: u64) {
    && Holding(m, "v", Uint(1))
    && Holding(m, "issuer", Text(Ascii("key:ed25519:") + Base64Url.Encode(key)))
    && Holding(m, "subject", Text(subject))
    && Holding(m, "issued_at", Uint(issuedAt))
    && Holding(m, "expires_at", Null)
    && Holding(m, "evidence_ref", Null)
  }

  ghost predicate StatusClaimSays(claim: Option<Value>, kind: bytes, named: seq<(bytes, Value)>) {
    && claim.Some? && claim.value.Map? && |claim.value.entries| == |named| + 1
    && Holding(claim.value.entries, "type", Text(kind))
    && forall i :: 0 <= i < |named| ==> Find(claim.value.entries, named[i].0) == Some(named[i].1)
  }

  lemma StatusBytesSay(
    kind: bytes, key: bytes, subject: bytes, fields: seq<Field>, issuedAt: u64, l: Limits, named: seq<(bytes, Value)>)
    requires kind in {REVOKE, WITHDRAW, SUPERSEDE, COMPROMISE} && |key| == 32 && IsString(subject)
    requires |fields| <= 3 && forall i :: 0 <= i < |fields| ==> StatusField(fields[i])
    requires |named| == |fields|
    requires forall i :: 0 <= i < |fields| ==>
               fields[i].name == named[i].0 && MetaToCbor(fields[i].val) == named[i].1
    ensures var r := Attest(StatusContent(kind, key, subject, fields, issuedAt), Ed25519KeyRef(key), l);
            r.Ok? ==> StatusSays(r.value, l, kind, key, subject, issuedAt, named)
  {
    var a := StatusContent(kind, key, subject, fields, issuedAt);
    StatusStrings(kind, key, subject, fields, issuedAt);
    var r := Attest(a, Ed25519KeyRef(key), l);
    if r.Ok? {
      SignedSays(a, Ed25519KeyRef(key), l);
      ContentSaysStatus(kind, key, subject, fields, issuedAt, DecodeStrict(r.value, l).value.entries, named);
    }
  }

  lemma ClaimSaysStatus(v: Option<Value>, kind: bytes, fields: seq<Field>, named: seq<(bytes, Value)>)
    requires ClaimSays(v, Claim(kind, fields)) && |named| == |fields|
    requires forall i :: 0 <= i < |fields| ==>
               fields[i].name == named[i].0 && MetaToCbor(fields[i].val) == named[i].1
    ensures StatusClaimSays(v, kind, named)
  {
    forall i | 0 <= i < |named| ensures Find(v.value.entries, named[i].0) == Some(named[i].1) {
      assert MetaSays(Find(v.value.entries, fields[i].name), fields[i].val);
    }
  }

  lemma ContentSaysStatus(
    kind: bytes, key: bytes, subject: bytes, fields: seq<Field>, issuedAt: u64, m: seq<Entry>, named: seq<(bytes, Value)>)
    requires |key| == 32 && EntriesSay(m, StatusContent(kind, key, subject, fields, issuedAt)) && |named| == |fields|
    requires forall i :: 0 <= i < |fields| ==>
               fields[i].name == named[i].0 && MetaToCbor(fields[i].val) == named[i].1
    ensures EnvelopeSays(m, key, subject, issuedAt) && StatusClaimSays(Find(m, Ascii("claim")), kind, named)
  {
    ClaimSaysStatus(Find(m, Ascii("claim")), kind, fields, named);
  }

  // The claim fields of each kind of status object, by name.

  function NamedReason(reason: Option<bytes>): seq<(bytes, Value)> {
    if reason.Some? then [(Ascii("reason"), Text(reason.value))] else []
  }

  function NamedTarget(target: bytes): seq<(bytes, Value)> {
    [(Ascii("target"), Text(target))]
  }

  function NamedPair(old_: bytes, new_: bytes): seq<(bytes, Value)> {
    [(Ascii("new"), Text(new_)), (Ascii("old"), Text(old_))]
  }

  function NamedTimed(target: bytes, atTime: u64): seq<(bytes, Value)> {
    [(Ascii("target"), Text(target)), (Ascii("at_time"), Uint(atTime))]
  }

  ghost predicate OptString(o: Option<bytes>) {
    o.Some? ==> IsString(o.value)
  }

  ghost predicate OptBounds(o: Option<bytes>) {
    o.Some? ==> TextBounds(o.value)
  }

  /** Fields and the names and values they have on the wire. */
  ghost predicate Spelled(fields: seq<Field>, named: seq<(bytes, Value)>) {
    && |named| == |fields|
    && forall i :: 0 <= i < |fields| ==> fields[i].name == named[i].0 && MetaToCbor(fields[i].val) == named[i].1
  }

  ghost predicate StatusList(fields: seq<Field>) {
    |fields| <= 3 && InEncoderOrder(fields) && forall i :: 0 <= i < |fields| ==> StatusField(fields[i])
  }

  ghost predicate AllShort(fields: seq<Field>) {
    forall i :: 0 <= i < |fields| ==> ShortMeta(fields[i].val)
  }

  /** A reason, if any, before other fields. */
  lemma AfterReason(reason: Option<bytes>, rest: seq<Field>, named: seq<(bytes, Value)>)
    requires OptString(reason) && |rest| <= 2 && StatusList(rest) && Spelled(rest, named)
    requires forall i :: 0 <= i < |rest| ==> Shortlex(REASON, rest[i].name)
    ensures StatusList(ReasonList(reason) + rest) && Spelled(ReasonList(reason) + rest, NamedReason(reason) + named)
    ensures AllShort(ReasonList(reason) + rest) <==> (reason.Some? ==> |reason.value| <= 1024) && AllShort(rest)
  {
    var all := ReasonList(reason) + rest;
    if reason.Some? {
      assert all[0] == Field(REASON, MText(reason.value));
      assert forall i :: 0 <= i < |rest| ==> all[i + 1] == rest[i];
      assert forall i :: 1 <= i < |all| ==> all[i] == rest[i - 1];
    } else {
      assert all == rest && NamedReason(reason) + named == named;
    }
  }

  lemma StatusSigned(
    kind: bytes, key: bytes, subject: bytes, fields: seq<Field>, named: seq<(bytes, Value)>, issuedAt: u64, l: Limits)
    requires kind in {REVOKE, WITHDRAW, SUPERSEDE, COMPROMISE} && |key| == 32 && IsString(subject)
    requires StatusList(fields) && Spelled(fields, named)
    ensures var a := StatusContent(kind, key, subject, fields, issuedAt);
            var r := Attest(a, Ed25519KeyRef(key), l);
            && SignedWhen(r, TextBounds(subject) && AllShort(fields), a, l)
            && (r.Ok? ==> StatusSays(r.value, l, kind, key, subject, issuedAt, named))
  {
    StatusSignedIff(kind, key, subject, fields, issuedAt, l);
    StatusBytesSay(kind, key, subject, fields, issuedAt, l, named);
  }

  lemma TargetList(target: bytes)
    requires IsString(target)
    ensures var fields := [Field(TARGET, MText(target))];
            StatusList(fields) && Spelled(fields, NamedTarget(target))
            && (AllShort(fields) <==> |target| <= 1024)
            && forall i :: 0 <= i < |fields| ==> Shortlex(REASON, fields[i].name)
  {
    NamesInOrder();
    assert ShortMeta([Field(TARGET, MText(target))][0].val) <==> |target| <= 1024;
  }

  /** `revoke_attestation` and `withdraw_attestation`, up to the signature. */
  method TargetAttestation(kind: bytes, target: bytes, reason: Option<bytes>, key: bytes, issuedAt: u64, l: Limits)
    returns (r: Result<bytes>)
    requires kind == Ascii("revoke") || kind == Ascii("withdraw")
    requires IsString(target) && OptString(reason) && |key| == 32
    ensures var fields := ReasonList(reason) + [Field(TARGET, MText(target))];
            SignedWhen(r, TextBounds(target) && OptBounds(reason), StatusContent(kind, key, target, fields, issuedAt), l)
    ensures r.Ok? ==>
              StatusSays(r.value, l, kind, key, target, issuedAt, NamedReason(reason) + NamedTarget(target))
  {
    var fields :- TargetFields(target, reason);
    TargetList(target);
    AfterReason(reason, [Field(TARGET, MText(target))], NamedTarget(target));
    StatusSigned(kind, key, target, fields, NamedReason(reason) + NamedTarget(target), issuedAt, l);
    r := Attest(StatusContent(kind, key, target, fields, issuedAt), Ed25519KeyRef(key), l);
  }

  lemma PairList(old_: bytes, new_: bytes)
    requires IsString(old_) && IsString(new_)
    ensures var fields := [Field(NEW, MText(new_)), Field(OLD, MText(old_))];
            StatusList(fields) && Spelled(fields, NamedPair(old_, new_))
            && (AllShort(fields) <==> |old_| <= 1024 && |new_| <= 1024)
  {
    NamesInOrder();
    var fields := [Field(NEW, MText(new_)), Field(OLD, MText(old_))];
    assert fields[0].val == MText(new_) && fields[1].val == MText(old_);
    assert ShortMeta(fields[0].val) <==> |new_| <= 1024;
    assert ShortMeta(fields[1].val) <==> |old_| <= 1024;
  }

  /** `supersede_attestation`, up to the signature. */
  method SupersedeAttestation(old_: bytes, new_: bytes, key: bytes, issuedAt: u64, l: Limits) returns (r: Result<bytes>)
    requires IsString(old_) && IsString(new_) && |key| == 32
    ensures r.Ok? ==>
              StatusSays(r.value, l, Ascii("supersede"), key, old_, issuedAt, NamedPair(old_, new_))
    ensures var fields := [Field(NEW, MText(new_)), Field(OLD, MText(old_))];
            SignedWhen(r, TextBounds(old_) && TextBounds(new_) && old_ != new_,
                       StatusContent(SUPERSEDE, key, old_, fields, issuedAt), l)
  {
    var fields :- SupersedeFields(old_, new_);
    PairList(old_, new_);
    StatusSigned(SUPERSEDE, key, old_, fields, NamedPair(old_, new_), issuedAt, l);
    r := Attest(StatusContent(SUPERSEDE, key, old_, fields, issuedAt), Ed25519KeyRef(key), l);
  }

  lemma TimedList(target: bytes, atTime: u64)
    requires IsString(target)
    ensures var fields := [Field(TARGET, MText(target)), Field(AT_TIME, MUint(atTime))];
            StatusList(fields) && Spelled(fields, NamedTimed(target, atTime))
            && (AllShort(fields) <==> |target| <= 1024)
            && forall i :: 0 <= i < |fields| ==> Shortlex(REASON, fields[i].name)
  {
    NamesInOrder();
    var fields := [Field(TARGET, MText(target)), Field(AT_TIME, MUint(atTime))];
    assert fields[0].val == MText(target) && fields[1].val == MUint(atTime);
    assert ShortMeta(fields[0].val) <==> |target| <= 1024;
  }

  /** `compromise_attestation`, up to the signature. */
  method CompromiseAttestation(target: bytes, atTime: u64, reason: Option<bytes>, key: bytes, issuedAt: u64, l: Limits)
    returns (r: Result<bytes>)
    requires IsString(target) && OptString(reason) && |key| == 32
    ensures r.Ok? ==>
              StatusSays(r.value, l, Ascii("compromise"), key, target, issuedAt,
                         NamedReason(reason) + NamedTimed(target, atTime))
    ensures var fields := ReasonList(reason) + [Field(TARGET, MText(target)), Field(AT_TIME, MUint(atTime))];
            SignedWhen(r, TextBounds(target) && OptBounds(reason),
                       StatusContent(COMPROMISE, key, target, fields, issuedAt), l)
  {
    var fields :- CompromiseFields(target, atTime, reason);
    ghost var named := NamedTimed(target, atTime);
    TimedList(target, atTime);
    AfterReason(reason, [Field(TARGET, MText(target)), Field(AT_TIME, MUint(atTime))], named);
    StatusSigned(COMPROMISE, key, target, fields, NamedReason(reason) + named, issuedAt, l);
    r := Attest(StatusContent(COMPROMISE, key, target, fields, issuedAt), Ed25519KeyRef(key), l);
  }
}
