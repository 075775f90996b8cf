/** Resource limits and the downward-only check on custom limit sets. */
module LimitSets {
  import opened Results

  datatype Limits = Limits(
    maxProofSize: nat,
    maxFieldSize: nat,
    maxDepth: nat,
    maxArrayItems: nat,
    maxMapEntries: nat,
    maxEvidenceItems: nat,
    maxNodes: nat,
    maxEdges: nat,
    maxSigSize: nat,
    maxPolicyRequirements: nat,
    maxStatusObjects: nat,
    maxTrustedIssuers: nat,
    maxRevocationAuthorities: nat,
    maxReferencedProofs: nat,
    maxVocabularies: nat
  )
  {
    /** The table `checked` scans, in its order. */
    function Bounds(): seq<nat> {
      [maxProofSize, maxFieldSize, maxDepth, maxArrayItems, maxMapEntries, maxEvidenceItems, maxNodes,
       maxEdges, maxSigSize, maxPolicyRequirements, maxStatusObjects, maxTrustedIssuers,
       maxRevocationAuthorities, maxReferencedProofs, maxVocabularies]
    }

    /** Every bound of `this` is at most the same bound of `other`. */
    ghost predicate TighterThan(other: Limits) {
      && maxProofSize <= other.maxProofSize && maxFieldSize <= other.maxFieldSize && maxDepth <= other.maxDepth
      && maxArrayItems <= other.maxArrayItems && maxMapEntries <= other.maxMapEntries
      && maxEvidenceItems <= other.maxEvidenceItems && maxNodes <= other.maxNodes && maxEdges <= other.maxEdges
      && maxSigSize <= other.maxSigSize && maxPolicyRequirements <= other.maxPolicyRequirements
      && maxStatusObjects <= other.maxStatusObjects && maxTrustedIssuers <= other.maxTrustedIssuers
      && maxRevocationAuthorities <= other.maxRevocationAuthorities
      && maxReferencedProofs <= other.maxReferencedProofs && maxVocabularies <= other.maxVocabularies
    }

    /** Every bound is at least 1 and at most what the source compiles in. */
    ghost predicate InBounds() {
      && 1 <= maxProofSize <= 1048576 && 1 <= maxFieldSize <= 65536 && 1 <= maxDepth <= 16
      && 1 <= maxArrayItems <= 256 && 1 <= maxMapEntries <= 64 && 1 <= maxEvidenceItems <= 64
      && 1 <= maxNodes <= 128 && 1 <= maxEdges <= 256 && 1 <= maxSigSize <= 256
      && 1 <= maxPolicyRequirements <= 32 && 1 <= maxStatusObjects <= 64 && 1 <= maxTrustedIssuers <= 32
      && 1 <= maxRevocationAuthorities <= 16 && 1 <= maxReferencedProofs <= 16 && 1 <= maxVocabularies <= 16
    }
  }

  const DEFAULT: Limits := Limits(
    maxProofSize := 1024 * 1024,
    maxFieldSize := 64 * 1024,
    maxDepth := 16,
    maxArrayItems := 256,
    maxMapEntries := 64,
    maxEvidenceItems := 64,
    maxNodes := 128,
    maxEdges := 256,
    maxSigSize := 256,
    maxPolicyRequirements := 32,
    maxStatusObjects := 64,
    maxTrustedIssuers := 32,
    maxRevocationAuthorities := 16,
    maxReferencedProofs := 16,
    maxVocabularies := 16
  )

  /** `Limits::checked`: accepts a limit set exactly when no bound is zero and none is above its default. */
  method Checked(l: Limits) returns (r: Result<Limits>)
    ensures r.Ok? <==> l.InBounds()
    ensures r.Ok? ==> r.value == l && l.TighterThan(DEFAULT)
    ensures r.Err? ==> r.code == LimitExceeded
  {
    var got, max := l.Bounds(), DEFAULT.Bounds();
    for i := 0 to |got|
      invariant forall j :: 0 <= j < i ==> 0 < got[j] <= max[j]
    {
      if got[i] == 0 || got[i] > max[i] {
        EachBound(l, i);
        return Err(LimitExceeded);
      }
    }
    AllBounds(l);
    return Ok(l);
  }

  lemma EachBound(l: Limits, i: nat)
    requires i < |l.Bounds()| && !(0 < l.Bounds()[i] <= DEFAULT.Bounds()[i])
    ensures !l.InBounds()
  {
  }

  lemma AllBounds(l: Limits)
    requires forall i :: 0 <= i < |l.Bounds()| ==> 0 < l.Bounds()[i] <= DEFAULT.Bounds()[i]
    ensures l.InBounds()
  {
    var b, d := l.Bounds(), DEFAULT.Bounds();
    assert 0 < b[0] <= d[0] && 0 < b[1] <= d[1] && 0 < b[2] <= d[2] && 0 < b[3] <= d[3] && 0 < b[4] <= d[4];
    assert 0 < b[5] <= d[5] && 0 < b[6] <= d[6] && 0 < b[7] <= d[7] && 0 < b[8] <= d[8] && 0 < b[9] <= d[9];
    assert 0 < b[10] <= d[10] && 0 < b[11] <= d[11] && 0 < b[12] <= d[12] && 0 < b[13] <= d[13] && 0 < b[14] <= d[14];
  }
}
