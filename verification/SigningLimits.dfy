/**
 * Signing under the default limits: no signable attestation is too large, so
 * only the length of the field names is left to check.
 */
module SigningLimits {
  import opened Attestations
  import opened Bytes
  import opened CborHead
  import opened CborValue
  import opened Claims
  import opened LimitSets
  import opened StableSort

  // ---------- sizes ----------

  /** Bytes an entry takes up. */
  ghost function EntrySize(e: Entry): nat {
    |Encode(e.key)| + |Encode(e.val)|
  }

  ghost function EntriesSize(entries: seq<Entry>): nat {
    if entries == [] then 0 else EntrySize(entries[0]) + EntriesSize(entries[1..])
  }

  lemma {:induction false} InsertSize(x: Keyed<bytes>, xs: seq<Keyed<bytes>>)
    ensures |Joined(Insert(x, xs))| == |x.key| + |x.item| + |Joined(xs)|
  {
    if xs != [] && !Leq(x.key, xs[0].key) {
      InsertSize(x, xs[1..]);
      assert Insert(x, xs)[1..] == Insert(x, xs[1..]);
    } else {
      assert Insert(x, xs)[1..] == xs;
    }
  }

  /** Sorting moves bytes but makes none. */
  lemma {:induction false} SortSize(xs: seq<Keyed<bytes>>)
    ensures |Joined(Sort(xs))| == |Joined(xs)|
  {
    if xs != [] {
      SortSize(xs[1..]);
      InsertSize(xs[0], Sort(xs[1..]));
    }
  }

  lemma {:induction false} EncodedEntriesSize(entries: seq<Entry>)
    ensures |Joined(EncodeEntries(entries))| == EntriesSize(entries)
  {
    if entries != [] {
      EncodedEntriesSize(entries[1..]);
      assert EncodeEntries(entries)[1..] == EncodeEntries(entries[1..]);
    }
  }

  lemma {:induction false} BigEndianSize(n: nat, width: nat)
    ensures |BigEndian(n, width)| == width
  {
    if width > 0 {
      BigEndianSize(n / 256, width - 1);
    }
  }

  lemma HeadSize(major: nat, n: nat)
    requires major < 8
    ensures |Head(major, n)| <= 9
  {
    if n >= 24 {
      BigEndianSize(n, ArgWidth(ShortestAi(n)));
    }
  }

  lemma MapSize(entries: seq<Entry>)
    ensures |Encode(Map(entries))| <= 9 + EntriesSize(entries)
  {
    HeadSize(5, |entries|);
    SortSize(EncodeEntries(entries));
    EncodedEntriesSize(entries);
  }

  lemma TextSize(t: bytes)
    ensures |Encode(Text(t))| <= 9 + |t|
  {
    HeadSize(3, |t|);
  }

  lemma OneMore(n: nat, bound: nat)
    ensures (n + 1) * bound == bound + n * bound
  {
  }

  lemma {:induction false} EntriesBound(entries: seq<Entry>, bound: nat)
    requires forall i :: 0 <= i < |entries| ==> EntrySize(entries[i]) <= bound
    ensures EntriesSize(entries) <= |entries| * bound
  {
    if entries != [] {
      EntriesBound(entries[1..], bound);
      OneMore(|entries| - 1, bound);
      assert EntrySize(entries[0]) <= bound;
    }
  }

  ghost predicate ShortNames(c: Claim) {
    forall i :: 0 <= i < |c.fields| ==> |c.fields[i].name| <= DEFAULT.maxFieldSize
  }

  lemma FieldSize(f: Field)
    requires ShortMeta(f.val) && |f.name| <= DEFAULT.maxFieldSize
    ensures EntrySize(FieldEntry(f)) <= 66578
  {
    TextSize(f.name);
    match f.val
    case MText(t) => TextSize(t);
    case MUint(n) => HeadSize(0, n);
    case MBool(b) =>
  }

  lemma ClaimSize(c: Claim)
    requires Orderly(c) && ShortNames(c)
    ensures |Encode(ClaimMap(c))| <= 998829
  {
    var es, fs := ClaimEntries(c), FieldEntries(c.fields);
    assert es[0] == TypeEntry(c.kind) && es[1..] == fs;
    TextSize(TYPE);
    TextSize(c.kind);
    forall i | 0 <= i < |fs| ensures EntrySize(fs[i]) <= 66578 {
      FieldSize(c.fields[i]);
    }
    EntriesBound(fs, 66578);
    assert |fs| * 66578 <= 15 * 66578;
    MapSize(es);
  }

  lemma OtherFieldSize(a: Content, vals: seq<Value>, k: nat)
    requires vals == FieldValues(a) && Signable(a) && 1 <= k < 7
    ensures |Encode(vals[k])| <= 1033
  {
    ValuesAre(a, vals);
    if k == 1 {
      if a.evidenceRef.Some? {
        TextSize(a.evidenceRef.value);
      }
    } else if k == 2 {
      if a.expiresAt.Some? {
        HeadSize(0, a.expiresAt.value);
      }
    } else if k == 3 {
      HeadSize(0, a.issuedAt);
    } else if k == 4 {
      TextSize(a.issuer);
    } else if k == 5 {
      TextSize(a.subject);
    } else {
      HeadSize(0, a.v);
    }
  }

  lemma RecordSize(names: seq<bytes>, vals: seq<Value>)
    requires |names| == |vals| == 7 && forall i :: 0 <= i < 7 ==> |names[i]| <= 12
    requires |Encode(vals[0])| <= 998829 && forall k :: 1 <= k < 7 ==> |Encode(vals[k])| <= 1033
    ensures |Encode(Map(Record(names, vals)))| <= DEFAULT.maxProofSize
  {
    var es := Record(names, vals);
    var rest := es[1..];
    TextSize(names[0]);
    forall i | 0 <= i < |rest| ensures EntrySize(rest[i]) <= 1054 {
      TextSize(names[i + 1]);
      assert rest[i] == es[i + 1];
    }
    EntriesBound(rest, 1054);
    MapSize(es);
  }

  lemma SourceNamesShort()
    ensures forall i :: 0 <= i < 7 ==> |NAMES[i]| <= 12
  {
    var sizes := [5, 12, 10, 9, 6, 7, 1];
    assert forall i :: 0 <= i < 7 ==> |NAMES[i]| == sizes[i];
  }

  // ---------- limits ----------

  lemma FieldFitsIff(f: Field, depth: nat)
    requires ShortMeta(f.val) && depth <= 16
    ensures FitsEntry(FieldEntry(f), depth, DEFAULT) <==> |f.name| <= DEFAULT.maxFieldSize
  {
  }

  lemma TypeFits(kind: bytes, depth: nat)
    requires ProperKind(kind) && depth <= 16
    ensures FitsEntry(TypeEntry(kind), depth, DEFAULT)
  {
    assert |TYPE| == 4;
  }

  lemma MapFitsIff(entries: seq<Entry>, depth: nat)
    requires |entries| <= 16 && depth < 16
    ensures Fits(Map(entries), depth, DEFAULT) <==>
            forall i :: 0 <= i < |entries| ==> FitsEntry(entries[i], depth + 1, DEFAULT)
  {
  }

  lemma ClaimFitsIff(c: Claim, depth: nat)
    requires Orderly(c) && depth < 16
    ensures Fits(ClaimMap(c), depth, DEFAULT) <==> ShortNames(c)
  {
    var es := ClaimEntries(c);
    MapFitsIff(es, depth);
    TypeFits(c.kind, depth + 1);
    forall i | 0 <= i < |c.fields|
      ensures FitsEntry(es[i + 1], depth + 1, DEFAULT) <==> |c.fields[i].name| <= DEFAULT.maxFieldSize
    {
      assert es[i + 1] == FieldEntry(c.fields[i]);
      FieldFitsIff(c.fields[i], depth + 1);
    }
    if ShortNames(c) {
      forall i | 0 <= i < |es| ensures FitsEntry(es[i], depth + 1, DEFAULT) {
        if i > 0 {
          assert |c.fields[i - 1].name| <= DEFAULT.maxFieldSize;
          assert FitsEntry(es[(i - 1) + 1], depth + 1, DEFAULT);
        }
      }
    }
  }

  lemma RecordFits(names: seq<bytes>, vals: seq<Value>)
    requires |names| == |vals| == 7 && forall i :: 0 <= i < 7 ==> |names[i]| <= 12
    requires forall k :: 1 <= k < 7 ==> Fits(vals[k], 1, DEFAULT)
    ensures Fits(Map(Record(names, vals)), 0, DEFAULT) <==> Fits(vals[0], 1, DEFAULT)
  {
    var es := Record(names, vals);
    forall i | 0 <= i < 7 ensures FitsEntry(es[i], 1, DEFAULT) <==> Fits(vals[i], 1, DEFAULT) {
      assert Fits(Text(names[i]), 1, DEFAULT);
    }
    if Fits(Map(es), 0, DEFAULT) {
      assert FitsEntry(es[0], 1, DEFAULT);
    }
  }

  lemma OtherFieldFits(a: Content, vals: seq<Value>, k: nat)
    requires vals == FieldValues(a) && Signable(a) && 1 <= k < 7
    ensures Fits(vals[k], 1, DEFAULT)
  {
    ValuesAre(a, vals);
    if k == 1 {
    } else if k == 2 {
    } else if k == 3 {
    } else if k == 4 {
    } else if k == 5 {
    }
  }

  lemma WithinDefaultIff(a: Content)
    requires Signable(a)
    ensures Within(a, DEFAULT) <==> ShortNames(a.claim)
  {
    var vals := FieldValues(a);
    SourceNamesShort();
    ValuesAre(a, vals);
    forall k | 1 <= k < 7 ensures Fits(vals[k], 1, DEFAULT) && |Encode(vals[k])| <= 1033 {
      OtherFieldFits(a, vals, k);
      OtherFieldSize(a, vals, k);
    }
    RecordFits(NAMES, vals);
    ClaimFitsIff(a.claim, 1);
    if ShortNames(a.claim) {
      ClaimSize(a.claim);
      RecordSize(NAMES, vals);
    }
  }

  /** Under the default limits, `attest` signs exactly the signable contents of its own issuer whose names are short. */
  lemma AttestDefaultIff(a: Content, keyRef: bytes)
    requires ContentStrings(a)
    ensures Attest(a, keyRef, DEFAULT).Ok? <==> a.issuer == keyRef && Signable(a) && ShortNames(a.claim)
  {
    AttestIff(a, keyRef, DEFAULT);
    if Signable(a) {
      WithinDefaultIff(a);
    }
  }
}
