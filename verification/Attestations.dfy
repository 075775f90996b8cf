/**
 * Signing an attestation. Before it signs, `attest` encodes the content, decodes
 * it strictly, reads it back through the schema and compares. What is proved is
 * which contents pass, in terms a caller can check.
 */
module Attestations {
  import opened Bytes
  import opened CborDecode
  import opened CborLookup
  import opened CborOrder
  import opened CborTextKeys
  import opened CborTheorems
  import opened CborValue
  import opened Claims
  import opened LimitSets
  import opened Results
  import opened Utf8

  datatype Content = Content(
    v: byte,
    issuer: bytes,
    subject: bytes,
    claim: Claim,
    issuedAt: u64,
    expiresAt: Option<u64>,
    evidenceRef: Option<bytes>
  )

  /** The field names of an attestation, in the order the source lists them. */
  const NAMES: seq<bytes> := [
    Ascii("claim"),
    Ascii("evidence_ref"),
    Ascii("expires_at"),
    Ascii("issued_at"),
    Ascii("issuer"),
    Ascii("subject"),
    Ascii("v")
  ]

  const EVIDENCE_PREFIX: bytes := Ascii("evd:v1:")

  // ---------- writing ----------

  function OptText(o: Option<bytes>): Value {
    if o.Some? then Text(o.value) else Null
  }

  function OptUint(o: Option<u64>): Value {
    if o.Some? then Uint(o.value) else Null
  }

  function FieldValues(a: Content): (r: seq<Value>)
    ensures |r| == 7
  {
    [ClaimMap(a.claim), OptText(a.evidenceRef), OptUint(a.expiresAt), Uint(a.issuedAt),
     Text(a.issuer), Text(a.subject), Uint(a.v)]
  }

  function Record(names: seq<bytes>, vals: seq<Value>): (r: seq<Entry>)
    requires |names| == |vals|
    ensures |r| == |names|
    ensures forall i :: 0 <= i < |names| ==> r[i] == Entry(Text(names[i]), vals[i])
  {
    seq(|names|, i requires 0 <= i < |names| => Entry(Text(names[i]), vals[i]))
  }

  /** `attestation_to_cbor`. */
  function AttestationMap(a: Content): Value {
    Map(Record(NAMES, FieldValues(a)))
  }

  // ---------- reading ----------

  function TextField(entries: seq<Entry>, name: bytes): Result<bytes> {
    match Find(entries, name)
    case Some(Text(s)) => if s == [] || |s| > 1024 then Err(SchemaViolation) else Ok(s)
    case _ => Err(SchemaViolation)
  }

  function UintField(entries: seq<Entry>, name: bytes): Result<u64> {
    match Find(entries, name)
    case Some(Uint(n)) => Ok(n)
    case _ => Err(SchemaViolation)
  }

  function OptUintField(entries: seq<Entry>, name: bytes): Result<Option<u64>> {
    match Find(entries, name)
    case Some(Null) => Ok(None)
    case Some(Uint(n)) => Ok(Some(n))
    case _ => Err(SchemaViolation)
  }

  function OptRefField(entries: seq<Entry>, name: bytes, prefix: bytes): Result<Option<bytes>> {
    match Find(entries, name)
    case Some(Null) => Ok(None)
    case Some(Text(s)) =>
      if s == [] || |s| > 1024 then Err(SchemaViolation)
      else if prefix <= s then Ok(Some(s))
      else Err(SchemaViolation)
    case _ => Err(SchemaViolation)
  }

  function ClaimField(entries: seq<Entry>, name: bytes): Result<Claim> {
    match Find(entries, name)
    case Some(Map(pairs)) =>
      (match ReadClaim(pairs)
       case Some(c) => Ok(c)
       case None => Err(SchemaViolation))
    case _ => Err(SchemaViolation)
  }

  /** The version field, which must be 1. */
  function VersionField(entries: seq<Entry>, name: bytes): Result<byte> {
    match Find(entries, name)
    case None => Err(SchemaViolation)
    case Some(v) => if v == Uint(1) then Ok(1) else Err(UnsupportedVersion)
  }

  /** Only the given names occur. */
  predicate Closed(entries: seq<Entry>, names: seq<bytes>) {
    forall i :: 0 <= i < |entries| ==> entries[i].key.Text? && entries[i].key.text in names
  }

  function ReadContent(names: seq<bytes>, entries: seq<Entry>, l: Limits): Result<Content>
    requires |names| == 7
  {
    if |entries| > l.maxMapEntries then Err(LimitExceeded)
    else if !Closed(entries, names) then Err(SchemaViolation)
    else
      var v :- VersionField(entries, names[6]);
      var issuer :- TextField(entries, names[4]);
      var subject :- TextField(entries, names[5]);
      var issuedAt :- UintField(entries, names[3]);
      var expiresAt :- OptUintField(entries, names[2]);
      var evidenceRef :- OptRefField(entries, names[1], EVIDENCE_PREFIX);
      if expiresAt.Some? && expiresAt.value < issuedAt then Err(SchemaViolation)
      else
        var claim :- ClaimField(entries, names[0]);
        Ok(Content(v, issuer, subject, claim, issuedAt, expiresAt, evidenceRef))
  }

  /** `cbor_to_attestation`. */
  function ReadAttestation(v: Value, l: Limits): Result<Content> {
    if v.Map? then ReadContent(NAMES, v.entries, l) else Err(SchemaViolation)
  }

  /** `attest`, up to the signature: the canonical bytes that are signed. */
  function Attest(a: Content, keyRef: bytes, l: Limits): Result<bytes> {
    if a.v != 1 then Err(UnsupportedVersion)
    else if a.issuer != keyRef then Err(SchemaViolation)
    else
      var canonical := Encode(AttestationMap(a));
      var value :- DecodeAndCheckCanonical(canonical, l);
      var back :- ReadAttestation(value, l);
      if back != a then Err(SchemaViolation) else Ok(canonical)
  }

  // ---------- which contents are signed ----------

  /** What the type system says of a content. */
  ghost predicate ContentStrings(a: Content) {
    && IsString(a.issuer) && IsString(a.subject) && ClaimStrings(a.claim)
    && (a.evidenceRef.Some? ==> IsString(a.evidenceRef.value))
  }

  predicate TextBounds(s: bytes) {
    1 <= |s| <= 1024
  }

  ghost predicate Signable(a: Content) {
    && a.v == 1 && TextBounds(a.issuer) && TextBounds(a.subject)
    && (a.expiresAt.Some? ==> a.issuedAt <= a.expiresAt.value)
    && (a.evidenceRef.Some? ==> TextBounds(a.evidenceRef.value) && Ascii("evd:v1:") <= a.evidenceRef.value)
    && Orderly(a.claim)
  }

  ghost predicate Within(a: Content, l: Limits) {
    Fits(AttestationMap(a), 0, l) && |Encode(AttestationMap(a))| <= l.maxProofSize
  }

  ghost predicate GoodNames(names: seq<bytes>) {
    |names| == 7 && NoRepeats(names) && forall i :: 0 <= i < |names| ==> IsString(names[i])
  }

  /** The entries as the decoder returns them. */
  ghost function Sorted(names: seq<bytes>, vals: seq<Value>): seq<Entry>
    requires |names| == |vals|
  {
    SortedEntries(Record(names, vals))
  }

  lemma RecordUnique(names: seq<bytes>, vals: seq<Value>)
    requires GoodNames(names) && |vals| == 7
    ensures UniqueKeys(Record(names, vals))
  {
    var es := Record(names, vals);
    forall i, j | 0 <= i < j < |es| ensures Encode(es[i].key) != Encode(es[j].key) {
      TextKeysInjective(names[i], names[j]);
    }
  }

  lemma FindField(names: seq<bytes>, vals: seq<Value>, k: nat)
    requires GoodNames(names) && |vals| == 7 && k < 7
    ensures Find(Sorted(names, vals), names[k]) == Some(SortMaps(vals[k]))
  {
    RecordUnique(names, vals);
    FindSorted(Record(names, vals), k, names[k]);
  }

  lemma SortedIsClosed(names: seq<bytes>, vals: seq<Value>)
    requires |names| == |vals|
    ensures Closed(Sorted(names, vals), names) && |Sorted(names, vals)| == |names|
  {
    var es, sorted := SortMapsEntries(Record(names, vals)), Sorted(names, vals);
    SortEntriesMembers(es);
    forall i | 0 <= i < |sorted| ensures sorted[i].key.Text? && sorted[i].key.text in names {
      assert sorted[i] in es;
      var j :| 0 <= j < |es| && es[j] == sorted[i];
      assert es[j] == SortMapsEntry(Record(names, vals)[j]);
      assert SortMaps(Text(names[j])) == Text(names[j]);
    }
  }

  /** Each field, looked up by its name, has the content's value. */
  ghost predicate Holds(names: seq<bytes>, entries: seq<Entry>, a: Content)
    requires |names| == 7
  {
    && Find(entries, names[0]) == Some(Map(SortEntries(ClaimEntries(a.claim))))
    && Find(entries, names[1]) == Some(OptText(a.evidenceRef))
    && Find(entries, names[2]) == Some(OptUint(a.expiresAt))
    && Find(entries, names[3]) == Some(Uint(a.issuedAt))
    && Find(entries, names[4]) == Some(Text(a.issuer))
    && Find(entries, names[5]) == Some(Text(a.subject))
    && Find(entries, names[6]) == Some(Uint(a.v))
  }

  lemma FindScalar(names: seq<bytes>, vals: seq<Value>, k: nat)
    requires GoodNames(names) && |vals| == 7 && k < 7 && Scalar(vals[k])
    ensures Find(Sorted(names, vals), names[k]) == Some(vals[k])
  {
    FindField(names, vals, k);
    ScalarFixed(vals[k]);
  }

  lemma FindClaim(names: seq<bytes>, vals: seq<Value>, c: Claim)
    requires GoodNames(names) && |vals| == 7 && vals[0] == ClaimMap(c)
    ensures Find(Sorted(names, vals), names[0]) == Some(Map(SortEntries(ClaimEntries(c))))
  {
    FindField(names, vals, 0);
    ClaimSorts(c);
  }

  lemma ValuesAre(a: Content, vals: seq<Value>)
    requires vals == FieldValues(a)
    ensures vals[0] == ClaimMap(a.claim) && vals[1] == OptText(a.evidenceRef) && vals[2] == OptUint(a.expiresAt)
    ensures vals[3] == Uint(a.issuedAt) && vals[4] == Text(a.issuer) && vals[5] == Text(a.subject) && vals[6] == Uint(a.v)
  {
  }

  lemma ScalarsFound(names: seq<bytes>, vals: seq<Value>)
    requires GoodNames(names) && |vals| == 7 && forall k :: 1 <= k < 7 ==> Scalar(vals[k])
    ensures forall k :: 1 <= k < 7 ==> Find(Sorted(names, vals), names[k]) == Some(vals[k])
  {
    forall k | 1 <= k < 7 ensures Find(Sorted(names, vals), names[k]) == Some(vals[k]) {
      FindScalar(names, vals, k);
    }
  }

  lemma SortedHolds(names: seq<bytes>, a: Content, vals: seq<Value>)
    requires GoodNames(names) && vals == FieldValues(a)
    ensures Holds(names, Sorted(names, vals), a)
  {
    ValuesAre(a, vals);
    FindClaim(names, vals, a.claim);
    ScalarsFound(names, vals);
  }

  lemma HeldReadsBackIff(names: seq<bytes>, entries: seq<Entry>, a: Content, l: Limits)
    requires |names| == 7 && Holds(names, entries, a) && Closed(entries, names)
    ensures ReadContent(names, entries, l) == Ok(a) <==>
            && |entries| <= l.maxMapEntries && a.v == 1 && TextBounds(a.issuer) && TextBounds(a.subject)
            && (a.expiresAt.Some? ==> a.issuedAt <= a.expiresAt.value)
            && (a.evidenceRef.Some? ==> TextBounds(a.evidenceRef.value) && EVIDENCE_PREFIX <= a.evidenceRef.value)
            && ReadClaim(SortEntries(ClaimEntries(a.claim))) == Some(a.claim)
  {
  }

  lemma ReadBackIff(names: seq<bytes>, a: Content, l: Limits)
    requires GoodNames(names) && ContentStrings(a) && UniqueKeys(ClaimEntries(a.claim))
    ensures ReadContent(names, Sorted(names, FieldValues(a)), l) == Ok(a) <==> Signable(a) && 7 <= l.maxMapEntries
  {
    SortedIsClosed(names, FieldValues(a));
    SortedHolds(names, a, FieldValues(a));
    HeldReadsBackIff(names, Sorted(names, FieldValues(a)), a, l);
    ReadsBackIff(a.claim);
  }

  lemma RecordWellFormed(names: seq<bytes>, vals: seq<Value>)
    requires GoodNames(names) && |vals| == 7 && forall i :: 0 <= i < 7 ==> WellFormed(vals[i])
    ensures WellFormed(Map(Record(names, vals)))
  {
    var es := Record(names, vals);
    forall i | 0 <= i < |es| ensures WellFormedEntry(es[i]) {
      assert WellFormed(Text(names[i]));
    }
  }

  lemma RecordDistinct(names: seq<bytes>, vals: seq<Value>)
    requires GoodNames(names) && |vals| == 7
    ensures DistinctKeys(Map(Record(names, vals))) <==> forall i :: 0 <= i < 7 ==> DistinctKeys(vals[i])
  {
    var es := Record(names, vals);
    RecordUnique(names, vals);
    forall i | 0 <= i < 7 ensures DistinctKeysEntry(es[i]) <==> DistinctKeys(vals[i]) {
      assert DistinctKeys(Text(names[i]));
    }
    if DistinctKeys(Map(es)) {
      forall i | 0 <= i < 7 ensures DistinctKeys(vals[i]) {
        assert DistinctKeysEntry(es[i]);
      }
    }
  }

  lemma ScalarValue(a: Content, k: nat)
    requires ContentStrings(a) && 1 <= k < 7
    ensures Scalar(FieldValues(a)[k]) && WellFormed(FieldValues(a)[k]) && DistinctKeys(FieldValues(a)[k])
  {
    if k == 1 {
    } else if k == 2 {
    } else if k == 3 {
    } else if k == 4 {
    } else if k == 5 {
    }
  }

  lemma ValuesWellFormed(a: Content, vals: seq<Value>)
    requires ContentStrings(a) && vals == FieldValues(a)
    ensures forall i :: 0 <= i < 7 ==> WellFormed(vals[i])
  {
    ClaimWellFormed(a.claim);
    assert vals[0] == ClaimMap(a.claim);
    forall i | 1 <= i < 7 ensures WellFormed(vals[i]) {
      ScalarValue(a, i);
    }
  }

  lemma ValuesDistinct(a: Content, vals: seq<Value>)
    requires ContentStrings(a) && vals == FieldValues(a)
    ensures (forall i :: 0 <= i < 7 ==> DistinctKeys(vals[i])) <==> UniqueKeys(ClaimEntries(a.claim))
  {
    ClaimSorts(a.claim);
    assert vals[0] == ClaimMap(a.claim);
    if UniqueKeys(ClaimEntries(a.claim)) {
      forall i | 0 <= i < 7 ensures DistinctKeys(vals[i]) {
        if i > 0 {
          ScalarValue(a, i);
        }
      }
    }
  }

  lemma SourceNamesDiffer()
    ensures GoodNames(NAMES)
  {
    var sizes := [5, 12, 10, 9, 6, 7, 1];
    assert forall i :: 0 <= i < 7 ==> |NAMES[i]| == sizes[i];
    forall i | 0 <= i < 7 ensures IsString(NAMES[i]) {
      AsciiIsUtf8(NAMES[i]);
    }
  }

  /** The round trip inside `attest` gives the content back exactly when it is signable and within limits. */
  lemma AttestedReadsBackIff(a: Content, l: Limits)
    requires ContentStrings(a)
    ensures var r := DecodeAndCheckCanonical(Encode(AttestationMap(a)), l);
            r.Ok? && ReadAttestation(r.value, l) == Ok(a) <==> Signable(a) && Within(a, l)
  {
    SourceNamesDiffer();
    ValuesWellFormed(a, FieldValues(a));
    ValuesDistinct(a, FieldValues(a));
    RecordWellFormed(NAMES, FieldValues(a));
    RecordDistinct(NAMES, FieldValues(a));
    RoundTripOrReject(AttestationMap(a), l);
    AcceptedBytesAreCanonical(Encode(AttestationMap(a)), l);
    assert SortMaps(AttestationMap(a)) == Map(Sorted(NAMES, FieldValues(a)));
    if UniqueKeys(ClaimEntries(a.claim)) {
      ReadBackIff(NAMES, a, l);
    } else {
      ReadsBackIff(a.claim);
    }
  }

  /** `attest` signs a content exactly when its issuer is the signing key, it is signable and within limits. */
  lemma AttestIff(a: Content, keyRef: bytes, l: Limits)
    requires ContentStrings(a)
    ensures Attest(a, keyRef, l).Ok? <==> a.issuer == keyRef && Signable(a) && Within(a, l)
  {
    AttestedReadsBackIff(a, l);
  }

  /** Bytes that were signed name one content. */
  lemma SignedBytesNameOneContent(a: Content, b: Content, k: bytes, k2: bytes, l: Limits)
    requires ContentStrings(a) && ContentStrings(b)
    requires Attest(a, k, l).Ok? && Attest(b, k2, l).Ok?
    ensures Attest(a, k, l) == Attest(b, k2, l) <==> a == b
  {
    AttestIff(a, k, l);
    AttestIff(b, k2, l);
    AttestedReadsBackIff(a, l);
    AttestedReadsBackIff(b, l);
  }
}
