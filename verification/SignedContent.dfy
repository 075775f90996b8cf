/**
 * What signed bytes say: strictly decoded, they are a map that holds every part
 * of the attestation under its name, and nothing else.
 */
module SignedContent {
  import opened Attestations
  import opened Bytes
  import opened CborDecode
  import opened CborLookup
  import opened CborTheorems
  import opened CborValue
  import opened Claims
  import opened LimitSets
  import opened Results
  import opened Utf8

  ghost predicate MetaSays(v: Option<Value>, m: MetaValue) {
    match m
    case MText(t) => v == Some(Text(t))
    case MUint(n) => v == Some(Uint(n))
    case MBool(b) => v == Some(Bool(b))
  }

  /** A claim map: its type and each field under its name. */
  ghost predicate ClaimSays(v: Option<Value>, c: Claim) {
    && v.Some? && v.value.Map? && |v.value.entries| == |c.fields| + 1
    && Holding(v.value.entries, "type", Text(c.kind))
    && forall i :: 0 <= i < |c.fields| ==> MetaSays(Find(v.value.entries, c.fields[i].name), c.fields[i].val)
  }

  /** An attestation map: each part under its name. */
  ghost predicate EntriesSay(m: seq<Entry>, a: Content) {
    && |m| == 7 && PartsSay(m, a)
    && ClaimSays(Find(m, Ascii("claim")), a.claim)
  }

  ghost predicate PartsSay(m: seq<Entry>, a: Content) {
    && Holding(m, "v", Uint(a.v))
    && Holding(m, "issuer", Text(a.issuer))
    && Holding(m, "subject", Text(a.subject))
    && Holding(m, "issued_at", Uint(a.issuedAt))
    && Holding(m, "expires_at", if a.expiresAt.Some? then Uint(a.expiresAt.value) else Null)
    && Holding(m, "evidence_ref", if a.evidenceRef.Some? then Text(a.evidenceRef.value) else Null)
  }

  ghost predicate BytesSay(b: bytes, l: Limits, a: Content) {
    var r := DecodeStrict(b, l);
    r.Ok? && r.value.Map? && EntriesSay(r.value.entries, a)
  }

  lemma FieldSays(c: Claim, i: nat)
    requires UniqueKeys(ClaimEntries(c)) && i < |c.fields|
    ensures MetaSays(Find(SortEntries(ClaimEntries(c)), c.fields[i].name), c.fields[i].val)
  {
    var es, f := ClaimEntries(c), c.fields[i];
    ClaimEntriesFixed(c);
    assert es[i + 1] == FieldEntry(f);
    FindSorted(es, i + 1, f.name);
    ScalarFixed(FieldEntry(f).val);
  }

  lemma SortedClaimSays(c: Claim)
    requires UniqueKeys(ClaimEntries(c))
    ensures ClaimSays(Some(Map(SortEntries(ClaimEntries(c)))), c)
  {
    var es := ClaimEntries(c);
    ClaimEntriesFixed(c);
    assert es[0] == TypeEntry(c.kind);
    FindSorted(es, 0, TYPE);
    ScalarFixed(Text(c.kind));
    forall i | 0 <= i < |c.fields| ensures MetaSays(Find(SortEntries(es), c.fields[i].name), c.fields[i].val) {
      FieldSays(c, i);
    }
  }

  lemma HeldSays(entries: seq<Entry>, a: Content)
    requires Attestations.Holds(NAMES, entries, a) && |entries| == 7 && UniqueKeys(ClaimEntries(a.claim))
    ensures EntriesSay(entries, a)
  {
    SortedClaimSays(a.claim);
  }

  lemma SignedDecodes(a: Content, l: Limits)
    requires ContentStrings(a) && Signable(a) && Within(a, l)
    ensures DecodeStrict(Encode(AttestationMap(a)), l) == Ok(Map(Sorted(NAMES, FieldValues(a))))
    ensures UniqueKeys(ClaimEntries(a.claim))
  {
    ReadsBackIff(a.claim);
    SourceNamesDiffer();
    ValuesWellFormed(a, FieldValues(a));
    ValuesDistinct(a, FieldValues(a));
    RecordWellFormed(NAMES, FieldValues(a));
    RecordDistinct(NAMES, FieldValues(a));
    RoundTripOrReject(AttestationMap(a), l);
  }

  lemma SortedSays(a: Content)
    requires UniqueKeys(ClaimEntries(a.claim))
    ensures EntriesSay(Sorted(NAMES, FieldValues(a)), a)
  {
    SourceNamesDiffer();
    SortedIsClosed(NAMES, FieldValues(a));
    SortedHolds(NAMES, a, FieldValues(a));
    HeldSays(Sorted(NAMES, FieldValues(a)), a);
  }

  /** The bytes `attest` signs say the content, part by part. */
  lemma SignedSays(a: Content, keyRef: bytes, l: Limits)
    requires ContentStrings(a) && Attest(a, keyRef, l).Ok?
    ensures BytesSay(Attest(a, keyRef, l).value, l, a)
  {
    AttestIff(a, keyRef, l);
    SignedBytesSay(a, l);
  }

  lemma SignedBytesSay(a: Content, l: Limits)
    requires ContentStrings(a) && Signable(a) && Within(a, l)
    ensures BytesSay(Encode(AttestationMap(a)), l, a)
  {
    SignedDecodes(a, l);
    SortedSays(a);
  }
}
