/**
 * Claims. A claim's type and fields are one map on the wire, and its fields are
 * a list in memory. A claim survives encoding and decoding exactly when the list
 * is already in the order the encoder gives the map and the reader's checks on
 * count, names and lengths hold.
 */
module Claims {
  import opened Bytes
  import opened CborDecode
  import opened CborLookup
  import opened CborOrder
  import opened CborTextKeys
  import opened CborTheorems
  import opened CborValue
  import opened LimitSets
  import opened StableSort
  import opened Utf8

  datatype MetaValue = MText(t: bytes) | MUint(n: u64) | MBool(b: bool)

  datatype Field = Field(name: bytes, val: MetaValue)

  datatype Claim = Claim(kind: bytes, fields: seq<Field>)

  const TYPE: bytes := Ascii("type")

  function MetaToCbor(m: MetaValue): Value {
    match m
    case MText(t) => Text(t)
    case MUint(n) => Uint(n)
    case MBool(b) => Bool(b)
  }

  function MetaFromCbor(v: Value): Option<MetaValue> {
    match v
    case Text(t) => if |t| > 1024 then None else Some(MText(t))
    case Uint(n) => Some(MUint(n))
    case Bool(b) => Some(MBool(b))
    case _ => None
  }

  function FieldEntry(f: Field): Entry {
    Entry(Text(f.name), MetaToCbor(f.val))
  }

  function FieldEntries(fields: seq<Field>): (r: seq<Entry>)
    ensures |r| == |fields|
    ensures forall i :: 0 <= i < |fields| ==> r[i] == FieldEntry(fields[i])
  {
    seq(|fields|, i requires 0 <= i < |fields| => FieldEntry(fields[i]))
  }

  function TypeEntry(kind: bytes): Entry {
    Entry(Text(TYPE), Text(kind))
  }

  /** A claim on the wire: its type and its fields in one map. */
  function ClaimEntries(c: Claim): seq<Entry> {
    [TypeEntry(c.kind)] + FieldEntries(c.fields)
  }

  function ClaimMap(c: Claim): Value {
    Map(ClaimEntries(c))
  }

  // ---------- the reader ----------

  /** What the reader's loop carries: the type once met, the fields so far, the names met. */
  datatype Reading = Reading(kind: Option<bytes>, fields: seq<Field>, seen: set<bytes>)

  function ReadEntry(r: Reading, e: Entry): Option<Reading> {
    if !e.key.Text? || e.key.text in r.seen then None
    else
      var seen := r.seen + {e.key.text};
      if e.key.text == TYPE then
        if !e.val.Text? || e.val.text == [] || |e.val.text| > 128 then None
        else Some(Reading(Some(e.val.text), r.fields, seen))
      else
        match MetaFromCbor(e.val)
        case None => None
        case Some(m) => Some(Reading(r.kind, r.fields + [Field(e.key.text, m)], seen))
  }

  function ReadEntries(entries: seq<Entry>): Option<Reading> {
    if entries == [] then Some(Reading(None, [], {}))
    else
      match ReadEntries(entries[..|entries| - 1])
      case None => None
      case Some(r) => ReadEntry(r, entries[|entries| - 1])
  }

  /** The claim part of `cbor_to_attestation`; every failure is a schema violation. */
  function ReadClaim(entries: seq<Entry>): Option<Claim> {
    if |entries| > 16 || entries == [] then None
    else
      match ReadEntries(entries)
      case None => None
      case Some(r) => if r.kind.Some? then Some(Claim(r.kind.value, r.fields)) else None
  }

  method RunReadClaim(entries: seq<Entry>) returns (r: Option<Claim>)
    ensures r == ReadClaim(entries)
  {
    if |entries| > 16 || entries == [] {
      return None;
    }
    var kind: Option<bytes>, fields: seq<Field>, seen: set<bytes> := None, [], {};
    for i := 0 to |entries|
      invariant ReadEntries(entries[..i]) == Some(Reading(kind, fields, seen))
    {
      var e := entries[i];
      assert entries[..i + 1][..i] == entries[..i];
      if ReadEntry(Reading(kind, fields, seen), e).None? {
        ReadFailsEarly(entries, i + 1);
      }
      if !e.key.Text? || e.key.text in seen {
        return None;
      }
      seen := seen + {e.key.text};
      if e.key.text == TYPE {
        if !e.val.Text? || e.val.text == [] || |e.val.text| > 128 {
          return None;
        }
        kind := Some(e.val.text);
      } else {
        var m := MetaFromCbor(e.val);
        if m.None? {
          return None;
        }
        fields := fields + [Field(e.key.text, m.value)];
      }
    }
    assert entries[..|entries|] == entries;
    if kind.None? {
      return None;
    }
    return Some(Claim(kind.value, fields));
  }

  lemma {:induction false} ReadFailsEarly(entries: seq<Entry>, i: nat)
    requires i <= |entries| && ReadEntries(entries[..i]).None?
    ensures ReadEntries(entries).None?
  {
    if i == |entries| {
      assert entries[..i] == entries;
    } else {
      assert entries[..|entries| - 1][..i] == entries[..i];
      ReadFailsEarly(entries[..|entries| - 1], i);
    }
  }

  // ---------- what the reader accepts ----------

  /** The fields of a claim map: every entry but the type, in the map's order. */
  ghost function FieldsOf(entries: seq<Entry>): Option<seq<Field>> {
    if entries == [] then Some([])
    else
      var e := entries[|entries| - 1];
      var front := FieldsOf(entries[..|entries| - 1]);
      if front.None? || !e.key.Text? then None
      else if e.key.text == TYPE then front
      else
        match MetaFromCbor(e.val)
        case None => None
        case Some(m) => Some(front.value + [Field(e.key.text, m)])
  }

  /** Some entry is keyed by this name. */
  ghost predicate Names(entries: seq<Entry>, name: bytes) {
    exists i :: 0 <= i < |entries| && entries[i].key == Text(name)
  }

  predicate ProperKind(kind: bytes) {
    1 <= |kind| <= 128
  }

  /** Entries keyed by the type's name hold a proper type. */
  ghost predicate ProperTypes(entries: seq<Entry>) {
    forall i :: 0 <= i < |entries| && entries[i].key == Text(TYPE) ==>
                  entries[i].val.Text? && ProperKind(entries[i].val.text)
  }

  /** What the loop has read is what the entries say. */
  ghost predicate Reads(entries: seq<Entry>, r: Reading) {
    && FieldsOf(entries) == Some(r.fields)
    && (forall name :: name in r.seen <==> Names(entries, name))
    && (forall kind :: r.kind == Some(kind) <==> TypeEntry(kind) in entries)
  }

  lemma NamesSnoc(entries: seq<Entry>, e: Entry, name: bytes)
    ensures Names(entries + [e], name) <==> Names(entries, name) || e.key == Text(name)
  {
    var more := entries + [e];
    assert more[|entries|] == e;
    if Names(entries, name) {
      var i :| 0 <= i < |entries| && entries[i].key == Text(name);
      assert more[i].key == Text(name);
    }
  }

  lemma OneEachSnoc(entries: seq<Entry>, e: Entry)
    requires e.key.Text?
    ensures OneEach(entries + [e]) <==> OneEach(entries) && !Names(entries, e.key.text)
  {
    var more := entries + [e];
    assert more[|entries|] == e && forall i :: 0 <= i < |entries| ==> more[i] == entries[i];
  }

  lemma ProperTypesSnoc(entries: seq<Entry>, e: Entry)
    ensures ProperTypes(entries + [e]) <==>
            ProperTypes(entries) && (e.key == Text(TYPE) ==> e.val.Text? && ProperKind(e.val.text))
  {
    var more := entries + [e];
    assert more[|entries|] == e && forall i :: 0 <= i < |entries| ==> more[i] == entries[i];
  }

  /** One step of the loop, seen from the entries. */
  lemma ReadEntryReads(entries: seq<Entry>, r: Reading, e: Entry)
    requires Reads(entries, r) && OneEach(entries) && ProperTypes(entries)
    ensures ReadEntry(r, e).Some? <==>
            FieldsOf(entries + [e]).Some? && OneEach(entries + [e]) && ProperTypes(entries + [e])
    ensures ReadEntry(r, e).Some? ==> Reads(entries + [e], ReadEntry(r, e).value)
  {
    var more := entries + [e];
    assert more[..|entries|] == entries && more[|entries|] == e;
    ProperTypesSnoc(entries, e);
    if e.key.Text? {
      OneEachSnoc(entries, e);
    }
    if ReadEntry(r, e).Some? {
      var q := ReadEntry(r, e).value;
      forall name ensures name in q.seen <==> Names(more, name) {
        NamesSnoc(entries, e, name);
      }
      forall kind ensures q.kind == Some(kind) <==> TypeEntry(kind) in more {
        assert TypeEntry(kind) in more <==> TypeEntry(kind) in entries || TypeEntry(kind) == e;
        if TypeEntry(kind) in entries {
          TypeIsNamed(entries, kind);
        }
      }
    }
  }

  lemma TypeIsNamed(entries: seq<Entry>, kind: bytes)
    requires TypeEntry(kind) in entries
    ensures Names(entries, TYPE)
  {
    var i :| 0 <= i < |entries| && entries[i] == TypeEntry(kind);
    assert entries[i].key == Text(TYPE);
  }

  lemma {:induction false} ReadEntriesIff(entries: seq<Entry>)
    ensures ReadEntries(entries).Some? <==> FieldsOf(entries).Some? && OneEach(entries) && ProperTypes(entries)
    ensures ReadEntries(entries).Some? ==> Reads(entries, ReadEntries(entries).value)
  {
    if entries != [] {
      var front, e := entries[..|entries| - 1], entries[|entries| - 1];
      assert entries == front + [e];
      ReadEntriesIff(front);
      ProperTypesSnoc(front, e);
      if e.key.Text? {
        OneEachSnoc(front, e);
      }
      if ReadEntries(front).Some? {
        ReadEntryReads(front, ReadEntries(front).value, e);
      }
    }
  }

  lemma OneType(entries: seq<Entry>, kind: bytes)
    requires OneEach(entries) && TypeEntry(kind) in entries && ProperKind(kind)
    ensures ProperTypes(entries)
  {
    var k :| 0 <= k < |entries| && entries[k] == TypeEntry(kind);
    forall i | 0 <= i < |entries| && entries[i].key == Text(TYPE) ensures i == k {
    }
  }

  /** The reader accepts exactly the maps of one to sixteen entries under different names, one of them a proper type. */
  lemma ReadClaimIff(entries: seq<Entry>, c: Claim)
    ensures ReadClaim(entries) == Some(c) <==>
            && 1 <= |entries| <= 16 && OneEach(entries)
            && TypeEntry(c.kind) in entries && ProperKind(c.kind)
            && FieldsOf(entries) == Some(c.fields)
  {
    ReadEntriesIff(entries);
    if ReadClaim(entries) == Some(c) {
      assert TypeEntry(c.kind) in entries;
      var i :| 0 <= i < |entries| && entries[i] == TypeEntry(c.kind);
      assert ProperKind(entries[i].val.text);
    } else if OneEach(entries) && TypeEntry(c.kind) in entries && ProperKind(c.kind) {
      OneType(entries, c.kind);
    }
  }

  // ---------- which claims survive ----------

  ghost predicate MetaString(m: MetaValue) {
    m.MText? ==> IsString(m.t)
  }

  /** What the type system says of a claim: texts are UTF-8 strings, and the fields are a vector. */
  ghost predicate ClaimStrings(c: Claim) {
    && IsString(c.kind) && |c.fields| < TWO_TO_THE_64 - 1
    && forall i :: 0 <= i < |c.fields| ==> IsString(c.fields[i].name) && MetaString(c.fields[i].val)
  }

  predicate ShortMeta(m: MetaValue) {
    m.MText? ==> |m.t| <= 1024
  }

  /** A field a claim can carry: not named like the type, and no text over 1024 bytes. */
  predicate ProperField(f: Field) {
    f.name != TYPE && ShortMeta(f.val)
  }

  ghost predicate ProperFields(fields: seq<Field>) {
    && (forall i :: 0 <= i < |fields| ==> IsString(fields[i].name) && ProperField(fields[i]))
    && (forall i, j :: 0 <= i < j < |fields| ==> fields[i].name != fields[j].name)
  }

  /** The claims that survive: a proper type, at most fifteen proper fields, in encoder order. */
  ghost predicate Orderly(c: Claim) {
    && ProperKind(c.kind) && |c.fields| <= 15
    && (forall i :: 0 <= i < |c.fields| ==> ProperField(c.fields[i]))
    && InEncoderOrder(c.fields)
  }

  /** Shorter names first, then bytewise. */
  ghost predicate InEncoderOrder(fields: seq<Field>) {
    forall i, j :: 0 <= i < j < |fields| ==> Shortlex(fields[i].name, fields[j].name)
  }

  function ByName(fields: seq<Field>): (r: seq<Keyed<Field>>)
    ensures |r| == |fields|
    ensures forall i :: 0 <= i < |fields| ==> r[i] == Keyed(Encode(Text(fields[i].name)), fields[i])
  {
    seq(|fields|, i requires 0 <= i < |fields| => Keyed(Encode(Text(fields[i].name)), fields[i]))
  }

  lemma InEncoderOrderIff(fields: seq<Field>)
    requires forall i :: 0 <= i < |fields| ==> IsString(fields[i].name)
    ensures InEncoderOrder(fields) <==> Increasing(ByName(fields))
  {
    var k := ByName(fields);
    forall i, j | 0 <= i < j < |fields|
      ensures Less(k[i].key, k[j].key) <==> Shortlex(fields[i].name, fields[j].name)
    {
      TextKeysByLength(fields[i].name, fields[j].name);
    }
  }

  /** Where a field of a claim map comes from. */
  lemma {:induction false} FieldsOfMembers(entries: seq<Entry>)
    requires forall e :: e in entries ==> e.key.Text? && (e.key.text == TYPE || MetaFromCbor(e.val).Some?)
    ensures FieldsOf(entries).Some?
    ensures forall f :: f in FieldsOf(entries).value <==> f.name != TYPE && ShortMeta(f.val) && FieldEntry(f) in entries
  {
    if entries != [] {
      var front, e := entries[..|entries| - 1], entries[|entries| - 1];
      assert entries == front + [e];
      FieldsOfMembers(front);
      var r, t := FieldsOf(entries).value, FieldsOf(front).value;
      forall f ensures f in r <==> f.name != TYPE && ShortMeta(f.val) && FieldEntry(f) in entries {
        assert FieldEntry(f) in entries <==> FieldEntry(f) == e || FieldEntry(f) in front;
      }
    }
  }

  lemma {:induction false} FieldsOfNamed(entries: seq<Entry>)
    requires FieldsOf(entries).Some?
    ensures forall f :: f in FieldsOf(entries).value ==> Names(entries, f.name) && ProperField(f)
  {
    if entries != [] {
      var front, e := entries[..|entries| - 1], entries[|entries| - 1];
      assert entries == front + [e];
      FieldsOfNamed(front);
      forall f | f in FieldsOf(entries).value ensures Names(entries, f.name) && ProperField(f) {
        NamesSnoc(front, e, f.name);
      }
    }
  }

  lemma LastKeyGreater(entries: seq<Entry>, name: bytes)
    requires entries != [] && Ascending(entries) && Names(entries[..|entries| - 1], name)
    ensures Less(Encode(Text(name)), Encode(entries[|entries| - 1].key))
  {
    var i :| 0 <= i < |entries| - 1 && entries[..|entries| - 1][i].key == Text(name);
    assert entries[i].key == Text(name);
  }

  lemma {:induction false} FieldsOfAscending(entries: seq<Entry>)
    requires Ascending(entries) && FieldsOf(entries).Some?
    ensures Increasing(ByName(FieldsOf(entries).value))
  {
    if entries != [] {
      var front, e := entries[..|entries| - 1], entries[|entries| - 1];
      FieldsOfAscending(front);
      FieldsOfNamed(front);
      var r, t := FieldsOf(entries).value, FieldsOf(front).value;
      if e.key.text != TYPE {
        forall j | 0 <= j < |t| ensures Less(Encode(Text(t[j].name)), Encode(e.key)) {
          assert t[j] in t;
          LastKeyGreater(entries, t[j].name);
        }
        assert ByName(r)[..|t|] == ByName(t);
        IncreasingSnoc(ByName(r));
      }
    }
  }

  lemma IncreasingSnoc(ks: seq<Keyed<Field>>)
    requires ks != [] && Increasing(ks[..|ks| - 1])
    requires forall j :: 0 <= j < |ks| - 1 ==> Less(ks[j].key, ks[|ks| - 1].key)
    ensures Increasing(ks)
  {
    var front := ks[..|ks| - 1];
    assert forall j :: 0 <= j < |front| ==> front[j] == ks[j];
  }

  lemma ScalarFixed(v: Value)
    requires Scalar(v)
    ensures SortMaps(v) == v && DistinctKeys(v)
  {
  }

  lemma FieldEntryFixed(f: Field)
    ensures SortMapsEntry(FieldEntry(f)) == FieldEntry(f) && DistinctKeysEntry(FieldEntry(f))
  {
    ScalarFixed(FieldEntry(f).key);
    ScalarFixed(FieldEntry(f).val);
  }

  lemma ClaimEntriesFixed(c: Claim)
    ensures SortMapsEntries(ClaimEntries(c)) == ClaimEntries(c)
    ensures forall i :: 0 <= i <= |c.fields| ==> DistinctKeysEntry(ClaimEntries(c)[i])
  {
    var es := ClaimEntries(c);
    var type_ := Field(TYPE, MText(c.kind));
    assert es[0] == FieldEntry(type_);
    forall i | 0 <= i < |es| ensures SortMapsEntry(es[i]) == es[i] && DistinctKeysEntry(es[i]) {
      var f := if i == 0 then type_ else c.fields[i - 1];
      assert es[i] == FieldEntry(f);
      FieldEntryFixed(f);
    }
  }

  lemma UniqueIsProper(c: Claim)
    requires ClaimStrings(c)
    ensures UniqueKeys(ClaimEntries(c)) <==>
            && (forall i :: 0 <= i < |c.fields| ==> c.fields[i].name != TYPE)
            && (forall i, j :: 0 <= i < j < |c.fields| ==> c.fields[i].name != c.fields[j].name)
  {
    var es := ClaimEntries(c);
    forall i, j | 0 <= i < j < |es|
      ensures Encode(es[i].key) == Encode(es[j].key) <==>
              (if i == 0 then TYPE else c.fields[i - 1].name) == c.fields[j - 1].name
    {
      TextKeysInjective(if i == 0 then TYPE else c.fields[i - 1].name, c.fields[j - 1].name);
    }
    if UniqueKeys(es) {
      forall i | 0 <= i < |c.fields| ensures c.fields[i].name != TYPE {
        assert Encode(es[0].key) != Encode(es[i + 1].key);
      }
      forall i, j | 0 <= i < j < |c.fields| ensures c.fields[i].name != c.fields[j].name {
        assert Encode(es[i + 1].key) != Encode(es[j + 1].key);
      }
    }
  }

  /** What the decoder makes of a claim map: the entries in order, under different keys. */
  lemma SortedClaim(c: Claim)
    requires UniqueKeys(ClaimEntries(c))
    ensures var sorted := SortEntries(ClaimEntries(c));
            Ascending(sorted) && OneEach(sorted) && TypeEntry(c.kind) in sorted && |sorted| == |c.fields| + 1
  {
    var es := ClaimEntries(c);
    ClaimEntriesFixed(c);
    AscendingIffDistinct(es);
    AscendingIsOneEach(SortEntries(es));
    SortEntriesMembers(es);
    assert es[0] == TypeEntry(c.kind);
  }

  /** Proper fields are all found in the map as decoded, in encoder order, and nothing else is. */
  lemma SortedClaimFields(c: Claim)
    requires ProperFields(c.fields) && UniqueKeys(ClaimEntries(c))
    ensures var r := FieldsOf(SortEntries(ClaimEntries(c)));
            && r.Some?
            && Increasing(ByName(r.value))
            && forall f :: f in r.value <==> f in c.fields
  {
    var es := ClaimEntries(c);
    var sorted := SortEntries(es);
    SortEntriesMembers(es);
    SortedClaim(c);
    forall e | e in sorted ensures e.key.Text? && (e.key.text == TYPE || MetaFromCbor(e.val).Some?) {
      assert e in es;
    }
    FieldsOfMembers(sorted);
    FieldsOfAscending(sorted);
    forall f ensures f in FieldsOf(sorted).value <==> f in c.fields {
      ClaimMember(c, f);
    }
  }

  lemma ClaimMember(c: Claim, f: Field)
    requires ProperFields(c.fields)
    ensures f.name != TYPE && ShortMeta(f.val) && FieldEntry(f) in ClaimEntries(c) <==> f in c.fields
  {
    var es := ClaimEntries(c);
    if f.name != TYPE && FieldEntry(f) in es {
      var i :| 0 <= i < |es| && es[i] == FieldEntry(f);
      assert es[i] == FieldEntry(c.fields[i - 1]);
      assert f == c.fields[i - 1];
    }
    if f in c.fields {
      var i :| 0 <= i < |c.fields| && c.fields[i] == f;
      assert es[i + 1] == FieldEntry(f);
    }
  }

  /** Proper fields are read back in the order they have exactly when that is encoder order. */
  lemma OrderReadsBackIff(c: Claim)
    requires ProperFields(c.fields) && UniqueKeys(ClaimEntries(c))
    ensures FieldsOf(SortEntries(ClaimEntries(c))) == Some(c.fields) <==> InEncoderOrder(c.fields)
  {
    SortedClaimFields(c);
    InEncoderOrderIff(c.fields);
    if InEncoderOrder(c.fields) {
      FieldsDetermined(FieldsOf(SortEntries(ClaimEntries(c))).value, c.fields);
    }
  }

  lemma OrderedNamesDiffer(fields: seq<Field>)
    requires InEncoderOrder(fields)
    ensures forall i, j :: 0 <= i < j < |fields| ==> fields[i].name != fields[j].name
  {
    forall i, j | 0 <= i < j < |fields| ensures fields[i].name != fields[j].name {
      LessIrreflexive(fields[i].name);
    }
  }

  /** A claim whose map the decoder accepts is read back unchanged exactly when it is orderly. */
  lemma ReadsBackIff(c: Claim)
    requires ClaimStrings(c)
    ensures UniqueKeys(ClaimEntries(c)) && ReadClaim(SortEntries(ClaimEntries(c))) == Some(c) <==> Orderly(c)
  {
    var sorted := SortEntries(ClaimEntries(c));
    UniqueIsProper(c);
    ReadClaimIff(sorted, c);
    if Orderly(c) {
      OrderedNamesDiffer(c.fields);
      SortedClaim(c);
      OrderReadsBackIff(c);
    } else if UniqueKeys(ClaimEntries(c)) && FieldsOf(sorted) == Some(c.fields) {
      FieldsOfNamed(sorted);
      forall i | 0 <= i < |c.fields| ensures ProperField(c.fields[i]) {
        assert c.fields[i] in c.fields;
      }
      SortedClaim(c);
      OrderReadsBackIff(c);
    }
  }

  /** The claim map, encoded and strictly decoded, is read as the same claim. */
  ghost predicate Survives(c: Claim, l: Limits) {
    var r := DecodeStrict(Encode(ClaimMap(c)), l);
    r.Ok? && r.value.Map? && ReadClaim(r.value.entries) == Some(c)
  }

  ghost predicate ClaimFits(c: Claim, l: Limits) {
    Fits(ClaimMap(c), 0, l) && |Encode(ClaimMap(c))| <= l.maxProofSize
  }

  lemma ClaimWellFormed(c: Claim)
    requires ClaimStrings(c)
    ensures WellFormed(ClaimMap(c))
  {
    AsciiIsUtf8(TYPE);
    var es := ClaimEntries(c);
    assert WellFormed(Text(TYPE)) && WellFormed(Text(c.kind));
    forall i | 0 <= i < |es| ensures WellFormedEntry(es[i]) {
      if i > 0 {
        assert es[i] == FieldEntry(c.fields[i - 1]);
      }
    }
  }

  lemma ClaimSorts(c: Claim)
    ensures SortMaps(ClaimMap(c)) == Map(SortEntries(ClaimEntries(c)))
    ensures DistinctKeys(ClaimMap(c)) <==> UniqueKeys(ClaimEntries(c))
  {
    ClaimEntriesFixed(c);
  }

  /** A claim survives exactly when it is orderly and within the limits. */
  lemma SurvivesIff(c: Claim, l: Limits)
    requires ClaimStrings(c)
    ensures Survives(c, l) <==> Orderly(c) && ClaimFits(c, l)
  {
    ClaimWellFormed(c);
    ClaimSorts(c);
    RoundTripOrReject(ClaimMap(c), l);
    ReadsBackIff(c);
  }

  /** A field named like the type makes two entries with one key, which the decoder refuses whatever the limits. */
  lemma TypeFieldIsRefused(c: Claim, i: nat, l: Limits)
    requires ClaimStrings(c) && i < |c.fields| && c.fields[i].name == TYPE
    ensures DecodeStrict(Encode(ClaimMap(c)), l).Err?
  {
    ClaimWellFormed(c);
    ClaimSorts(c);
    UniqueIsProper(c);
    RoundTripOrReject(ClaimMap(c), l);
  }

  lemma FieldsDetermined(a: seq<Field>, b: seq<Field>)
    requires Increasing(ByName(a)) && Increasing(ByName(b)) && forall f :: f in a <==> f in b
    ensures a == b
  {
    var x, y := ByName(a), ByName(b);
    forall k ensures k in x <==> k in y {
      if k in x {
        var i :| 0 <= i < |a| && x[i] == k;
        assert a[i] in b;
        var j :| 0 <= j < |b| && b[j] == a[i];
        assert y[j] == k;
      }
      if k in y {
        var i :| 0 <= i < |b| && y[i] == k;
        assert b[i] in a;
        var j :| 0 <= j < |a| && a[j] == b[i];
        assert x[j] == k;
      }
    }
    IncreasingIsDetermined(x, y);
    forall i | 0 <= i < |a| ensures a[i] == b[i] {
      assert x[i] == y[i];
    }
  }
}
