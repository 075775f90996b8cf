/**
 * The command line's field syntax, `name=value` pairs between commas: the
 * parser, what it accepts, how a field list is written so that it is read back,
 * and which parsed lists make a claim that survives.
 */
module FieldText {
  import opened Attestations
  import opened Bytes
  import opened CborTextKeys
  import opened CborValue
  import opened Claims
  import opened LimitSets
  import opened SigningLimits
  import opened StableSort
  import opened Utf8

  const COMMA: byte := ',' as int
  const EQUALS: byte := '=' as int
  const ZERO: byte := '0' as int

  // ---------- the parser ----------

  /** `str::split(c)`. */
  function Split(s: bytes, c: byte): (r: seq<bytes>)
    ensures r != []
  {
    if s == [] then [[]]
    else
      var tail := Split(s[1..], c);
      if s[0] == c then [[]] + tail else [[s[0]] + tail[0]] + tail[1..]
  }

  /** `str::split_once(c)`: what stands before and after the first `c`. */
  function SplitOnce(s: bytes, c: byte): Option<(bytes, bytes)> {
    if s == [] then None
    else if s[0] == c then Some(([], s[1..]))
    else
      match SplitOnce(s[1..], c)
      case None => None
      case Some((a, b)) => Some(([s[0]] + a, b))
  }

  predicate AllDigits(s: bytes) {
    forall i :: 0 <= i < |s| ==> '0' as int <= s[i] <= '9' as int
  }

  function Decimal(s: bytes): nat
    requires AllDigits(s)
  {
    if s == [] then 0 else Decimal(s[..|s| - 1]) * 10 + (s[|s| - 1] - '0' as int)
  }

  /** `str::parse::<u64>`: digits, after an optional plus sign, that fit. */
  function ParseU64(s: bytes): Option<u64> {
    var d := if s != [] && s[0] == '+' as int then s[1..] else s;
    if d == [] || !AllDigits(d) then None
    else if Decimal(d) < TWO_TO_THE_64 then Some(Decimal(d))
    else None
  }

  function ParseMeta(v: bytes): MetaValue {
    if v == Ascii("true") then MBool(true)
    else if v == Ascii("false") then MBool(false)
    else
      match ParseU64(v)
      case Some(n) => MUint(n)
      case None => MText(v)
  }

  function ParseField(pair: bytes): Option<Field> {
    match SplitOnce(pair, EQUALS)
    case None => None
    case Some((k, v)) => if k == [] || v == [] then None else Some(Field(k, ParseMeta(v)))
  }

  function ParsePairs(pairs: seq<bytes>): Option<seq<Field>> {
    if pairs == [] then Some([])
    else
      match (ParseField(pairs[0]), ParsePairs(pairs[1..]))
      case (Some(f), Some(fs)) => Some([f] + fs)
      case (_, _) => None
  }

  /** The fields as they are written, before sorting. */
  function WrittenFields(spec: Option<bytes>): Option<seq<Field>> {
    if spec.None? then Some([]) else ParsePairs(Split(spec.value, COMMA))
  }

  lemma {:induction false} ParsePairsAppend(done: seq<bytes>, pair: bytes)
    requires ParsePairs(done).Some?
    ensures ParsePairs(done + [pair]) ==
            if ParseField(pair).Some? then Some(ParsePairs(done).value + [ParseField(pair).value]) else None
  {
    if done == [] {
      assert done + [pair] == [pair] && [pair][1..] == [];
      assert ParsePairs([pair][1..]) == Some([]);
      if ParseField(pair).Some? {
        var x := ParseField(pair).value;
        assert [x] + [] == [] + [x];
      }
    } else {
      var all := done + [pair];
      assert all[1..] == done[1..] + [pair] && all[0] == done[0];
      ParsePairsAppend(done[1..], pair);
      if ParseField(pair).Some? {
        var f, fs, x := ParseField(done[0]).value, ParsePairs(done[1..]).value, ParseField(pair).value;
        assert [f] + (fs + [x]) == ([f] + fs) + [x];
      }
    }
  }

  lemma {:induction false} ParsePairsFails(pairs: seq<bytes>, i: nat)
    requires i < |pairs| && ParseField(pairs[i]).None?
    ensures ParsePairs(pairs).None?
  {
    if i > 0 { ParsePairsFails(pairs[1..], i - 1); }
  }

  /**
   * `parse_fields`: fails when some pair is malformed; otherwise returns the written fields stably sorted by
   * encoded name.
   */
  method ParseFields(spec: Option<bytes>) returns (r: Option<seq<Field>>)
    ensures r.Some? <==> WrittenFields(spec).Some?
    ensures r.Some? ==> ByName(r.value) == Sort(ByName(WrittenFields(spec).value))
  {
    if spec.None? {
      return Some([]);
    }
    var pairs := Split(spec.value, COMMA);
    var out: seq<Field> := [];
    assert pairs[..0] == [];
    for i := 0 to |pairs|
      invariant ParsePairs(pairs[..i]) == Some(out)
    {
      var f := ParseField(pairs[i]);
      ParsePairsAppend(pairs[..i], pairs[i]);
      assert pairs[..i] + [pairs[i]] == pairs[..i + 1];
      if f.None? {
        ParsePairsFails(pairs, i);
        return None;
      }
      out := out + [f.value];
    }
    assert pairs[..|pairs|] == pairs;
    var sorted := Unkeyed(Sort(ByName(out)));
    ByNameOfSorted(out);
    return Some(sorted);
  }

  lemma ByNameOfSorted(fields: seq<Field>)
    ensures ByName(Unkeyed(Sort(ByName(fields)))) == Sort(ByName(fields))
  {
    var keyed := ByName(fields);
    SortMembers(keyed);
    forall i | 0 <= i < |fields| ensures ByName(Unkeyed(Sort(keyed)))[i] == Sort(keyed)[i] {
      assert Sort(keyed)[i] in Sort(keyed);
    }
  }

  // ---------- splitting ----------

  ghost function Joined(parts: seq<bytes>, c: byte): bytes {
    if parts == [] then []
    else if |parts| == 1 then parts[0]
    else parts[0] + [c] + Joined(parts[1..], c)
  }

  ghost predicate Free(parts: seq<bytes>, c: byte) {
    forall i :: 0 <= i < |parts| ==> c !in parts[i]
  }

  lemma JoinedPush(x: byte, part: bytes, rest: seq<bytes>, c: byte)
    ensures Joined([[x] + part] + rest, c) == [x] + Joined([part] + rest, c)
  {
    assert ([[x] + part] + rest)[1..] == rest && ([part] + rest)[1..] == rest;
    assert rest != [] ==> [x] + part + [c] + Joined(rest, c) == [x] + (part + [c] + Joined(rest, c));
  }

  lemma JoinedEmpty(rest: seq<bytes>, c: byte)
    requires rest != []
    ensures Joined([[]] + rest, c) == [c] + Joined(rest, c)
  {
    assert ([[]] + rest)[1..] == rest;
    assert [] + [c] == [c];
  }

  lemma {:induction false} SplitJoins(s: bytes, c: byte)
    ensures Joined(Split(s, c), c) == s && Free(Split(s, c), c)
  {
    if s != [] {
      var tail := Split(s[1..], c);
      SplitJoins(s[1..], c);
      if s[0] == c {
        JoinedEmpty(tail, c);
      } else {
        JoinedPush(s[0], tail[0], tail[1..], c);
        assert [tail[0]] + tail[1..] == tail;
      }
    }
  }

  lemma {:induction false} SplitOfJoined(part: bytes, rest: seq<bytes>, c: byte)
    requires c !in part && Free(rest, c)
    ensures Split(Joined([part] + rest, c), c) == [part] + rest
    decreases |rest|, |part|
  {
    if part != [] {
      assert part == [part[0]] + part[1..];
      JoinedPush(part[0], part[1..], rest, c);
      SplitOfJoined(part[1..], rest, c);
      assert ([part[1..]] + rest)[1..] == rest;
    } else if rest != [] {
      JoinedEmpty(rest, c);
      SplitOfJoined(rest[0], rest[1..], c);
      assert [rest[0]] + rest[1..] == rest;
      assert ([c] + Joined(rest, c))[1..] == Joined(rest, c);
    }
  }

  /** Splitting gives exactly the separator-free parts whose joining is the text. */
  lemma SplitIff(s: bytes, c: byte, parts: seq<bytes>)
    ensures Split(s, c) == parts <==> parts != [] && Free(parts, c) && s == Joined(parts, c)
  {
    SplitJoins(s, c);
    if parts != [] && Free(parts, c) {
      assert parts == [parts[0]] + parts[1..];
      SplitOfJoined(parts[0], parts[1..], c);
    }
  }

  lemma {:induction false} SplitOnceIff(s: bytes, c: byte, a: bytes, b: bytes)
    ensures SplitOnce(s, c) == Some((a, b)) <==> s == a + [c] + b && c !in a
  {
    if s != [] && a != [] && s[0] != c {
      SplitOnceIff(s[1..], c, a[1..], b);
      assert a == [a[0]] + a[1..];
      assert s == [s[0]] + s[1..];
      assert a + [c] + b == [a[0]] + (a[1..] + [c] + b);
    } else if s != [] {
      assert a == [] ==> a + [c] + b == [c] + b;
      assert s == [s[0]] + s[1..];
      assert a != [] ==> (a + [c] + b)[0] == a[0];
    }
  }

  // ---------- pairs ----------

  /** A pair reads as a field exactly when it is the field's name, a first `=`, and a value with the field's meaning. */
  lemma ParseFieldIff(pair: bytes, f: Field)
    ensures ParseField(pair) == Some(f) <==>
            && f.name != [] && '=' as int !in f.name
            && exists v: bytes :: v != [] && pair == f.name + ['=' as int] + v && f.val == ParseMeta(v)
  {
    var split := SplitOnce(pair, EQUALS);
    if split.Some? {
      SplitOnceIff(pair, EQUALS, split.value.0, split.value.1);
    }
    forall v: bytes ensures split == Some((f.name, v)) <==> pair == f.name + [EQUALS] + v && EQUALS !in f.name {
      SplitOnceIff(pair, EQUALS, f.name, v);
    }
  }

  // ---------- values ----------

  function Numeral(n: nat): (s: bytes)
    ensures s != [] && AllDigits(s) && Decimal(s) == n
  {
    if n < 10 then
      var s := [ZERO + n];
      assert s[..0] == [];
      s
    else
      var s := Numeral(n / 10) + [ZERO + n % 10];
      assert s[..|s| - 1] == Numeral(n / 10);
      s
  }

  /** So many zeros. */
  ghost function Zeros(n: nat): bytes {
    seq(n, i => ZERO)
  }

  lemma {:induction false} DecimalZeros(n: nat, s: bytes)
    requires AllDigits(s)
    ensures AllDigits(Zeros(n) + s) && Decimal(Zeros(n) + s) == Decimal(s)
    decreases |s|, n
  {
    var t := Zeros(n) + s;
    if s != [] {
      var front := s[..|s| - 1];
      DecimalZeros(n, front);
      assert t[..|t| - 1] == Zeros(n) + front && t[|t| - 1] == s[|s| - 1];
    } else if n > 0 {
      DecimalZeros(n - 1, s);
      assert t == Zeros(n) && t[..|t| - 1] == Zeros(n - 1) + s;
    }
  }

  /** A digit string is zeros and the numeral of its value. */
  lemma {:induction false} DigitsAreNumeral(s: bytes) returns (zeros: nat)
    requires AllDigits(s) && s != []
    ensures s == Zeros(zeros) + Numeral(Decimal(s))
  {
    var front, d := s[..|s| - 1], s[|s| - 1];
    assert s == front + [d];
    if front == [] {
      zeros := 0;
      assert s[..0] == [];
    } else {
      var z := DigitsAreNumeral(front);
      var n := Decimal(front);
      assert Decimal(s) == n * 10 + (d - ZERO);
      if n == 0 {
        zeros := z + 1;
        assert Numeral(0) == [ZERO];
        assert front + [d] == Zeros(z + 1) + [d];
      } else {
        zeros := z;
        assert (n * 10 + (d - ZERO)) / 10 == n && (n * 10 + (d - ZERO)) % 10 == d - ZERO;
        assert Zeros(z) + Numeral(n) + [d] == Zeros(z) + (Numeral(n) + [d]);
      }
    }
  }

  /** A numeral as the parser takes it: an optional plus sign, any zeros, the number. */
  ghost function Written(plus: bool, zeros: nat, n: nat): bytes {
    (if plus then ['+' as int] else []) + (Zeros(zeros) + Numeral(n))
  }

  lemma ReadIsWritten(s: bytes, n: u64)
    requires ParseU64(s) == Some(n)
    ensures exists plus, zeros :: s == Written(plus, zeros, n)
  {
    var plus := s[0] == '+' as int;
    var d := if plus then s[1..] else s;
    var zeros := DigitsAreNumeral(d);
    assert s == Written(plus, zeros, n);
  }

  lemma WrittenDigits(zeros: nat, n: nat)
    ensures var d := Zeros(zeros) + Numeral(n);
            d != [] && d[0] != '+' as int && AllDigits(d) && Decimal(d) == n
  {
    DecimalZeros(zeros, Numeral(n));
    var d := Zeros(zeros) + Numeral(n);
    assert ZERO <= d[0];
  }

  lemma WrittenIsRead(plus: bool, zeros: nat, n: u64)
    ensures ParseU64(Written(plus, zeros, n)) == Some(n)
  {
    var s, d := Written(plus, zeros, n), Zeros(zeros) + Numeral(n);
    WrittenDigits(zeros, n);
    if plus {
      assert s[0] == '+' as int && s[1..] == d;
    } else {
      assert s == d;
    }
  }

  /** The parser reads a number from exactly its numeral, with any leading zeros and an optional plus sign. */
  lemma ParseU64Iff(s: bytes, n: u64)
    ensures ParseU64(s) == Some(n) <==> exists plus, zeros :: s == Written(plus, zeros, n)
  {
    if ParseU64(s) == Some(n) {
      ReadIsWritten(s, n);
    }
    if plus, zeros :| s == Written(plus, zeros, n) {
      WrittenIsRead(plus, zeros, n);
    }
  }

  function TextOf(m: MetaValue): bytes {
    match m
    case MText(t) => t
    case MUint(n) => Numeral(n)
    case MBool(b) => if b then Ascii("true") else Ascii("false")
  }

  /** A text that is not taken for a boolean or a number. */
  predicate Plain(t: bytes) {
    t != Ascii("true") && t != Ascii("false") && ParseU64(t).None?
  }

  lemma MetaReadsBackIff(m: MetaValue)
    ensures ParseMeta(TextOf(m)) == m <==> (m.MText? ==> Plain(m.t))
  {
    match m
    case MText(t) =>
    case MUint(n) =>
      var s := Numeral(n);
      assert ZERO <= s[0] <= ZERO + 9;
      assert Ascii("true")[0] == 't' as int && Ascii("false")[0] == 'f' as int;
    case MBool(b) =>
      assert Ascii("true")[0] == 't' as int && Ascii("false")[0] == 'f' as int;
  }

  // ---------- lists ----------

  function PairOf(f: Field): bytes {
    f.name + [EQUALS] + TextOf(f.val)
  }

  ghost function PairsOf(fields: seq<Field>): seq<bytes> {
    seq(|fields|, i requires 0 <= i < |fields| => PairOf(fields[i]))
  }

  /** A field that can be written: the separators are not part of it and its value is not taken for another. */
  ghost predicate Writable(f: Field) {
    && f.name != [] && EQUALS !in f.name && COMMA !in PairOf(f)
    && (f.val.MText? ==> f.val.t != [] && Plain(f.val.t))
  }

  lemma PairReadsBack(f: Field)
    requires Writable(f)
    ensures ParseField(PairOf(f)) == Some(f)
  {
    MetaReadsBackIff(f.val);
    ParseFieldIff(PairOf(f), f);
    assert TextOf(f.val) != [];
  }

  lemma PairsOfCons(fields: seq<Field>)
    requires fields != []
    ensures PairsOf(fields) == [PairOf(fields[0])] + PairsOf(fields[1..])
  {
  }

  lemma ParsePairsCons(pair: bytes, rest: seq<bytes>)
    requires ParseField(pair).Some? && ParsePairs(rest).Some?
    ensures ParsePairs([pair] + rest) == Some([ParseField(pair).value] + ParsePairs(rest).value)
  {
    assert ([pair] + rest)[1..] == rest;
  }

  lemma {:induction false} PairsReadBack(fields: seq<Field>)
    requires forall i :: 0 <= i < |fields| ==> Writable(fields[i])
    ensures ParsePairs(PairsOf(fields)) == Some(fields)
  {
    if fields != [] {
      PairReadsBack(fields[0]);
      PairsReadBack(fields[1..]);
      PairsOfCons(fields);
      ParsePairsCons(PairOf(fields[0]), PairsOf(fields[1..]));
      assert fields == [fields[0]] + fields[1..];
    }
  }

  /** Writing a field list and parsing it gives the list back. */
  lemma FieldsReadBack(fields: seq<Field>)
    requires fields != [] && forall i :: 0 <= i < |fields| ==> Writable(fields[i])
    ensures WrittenFields(Some(Joined(PairsOf(fields), ',' as int))) == Some(fields)
  {
    SplitIff(Joined(PairsOf(fields), COMMA), COMMA, PairsOf(fields));
    PairsReadBack(fields);
  }

  // ---------- the parsed list ----------

  /** Fields sorted by the parser are in encoder order exactly when no name was written twice. */
  lemma ParsedInOrderIff(written: seq<Field>, sorted: seq<Field>)
    requires ByName(sorted) == Sort(ByName(written))
    requires forall i :: 0 <= i < |written| ==> IsString(written[i].name)
    ensures InEncoderOrder(sorted) <==> forall i, j :: 0 <= i < j < |written| ==> written[i].name != written[j].name
  {
    SortDistinct(ByName(written));
    SortMembers(ByName(written));
    forall i | 0 <= i < |sorted| ensures IsString(sorted[i].name) {
      assert ByName(sorted)[i] in Sort(ByName(written));
      var j :| 0 <= j < |written| && ByName(written)[j] == ByName(sorted)[i];
      assert written[j] == sorted[i];
    }
    InEncoderOrderIff(sorted);
    forall i, j | 0 <= i < j < |written|
      ensures ByName(written)[i].key == ByName(written)[j].key <==> written[i].name == written[j].name
    {
      TextKeysInjective(written[i].name, written[j].name);
    }
  }

  // ---------- which parsed lists survive ----------

  lemma PartsAreStrings(parts: seq<bytes>, c: byte)
    requires c < 0x80 && IsString(Joined(parts, c))
    ensures forall i :: 0 <= i < |parts| ==> IsString(parts[i])
    ensures parts != [] ==> |parts| <= |Joined(parts, c)| + 1
  {
    if |parts| > 1 {
      var rest := Joined(parts[1..], c);
      ValidAround(parts[0], c, rest);
      PartsAreStrings(parts[1..], c);
    }
  }

  lemma PairIsString(pair: bytes)
    requires IsString(pair) && ParseField(pair).Some?
    ensures IsString(ParseField(pair).value.name) && MetaString(ParseField(pair).value.val)
  {
    var split := SplitOnce(pair, EQUALS).value;
    SplitOnceIff(pair, EQUALS, split.0, split.1);
    ValidAround(split.0, EQUALS, split.1);
  }

  lemma {:induction false} PairsAreStrings(pairs: seq<bytes>)
    requires ParsePairs(pairs).Some? && forall i :: 0 <= i < |pairs| ==> IsString(pairs[i])
    ensures |ParsePairs(pairs).value| == |pairs|
    ensures forall i :: 0 <= i < |pairs| ==>
              IsString(ParsePairs(pairs).value[i].name) && MetaString(ParsePairs(pairs).value[i].val)
  {
    if pairs != [] {
      PairIsString(pairs[0]);
      PairsAreStrings(pairs[1..]);
    }
  }

  ghost predicate FieldStrings(fields: seq<Field>) {
    forall i :: 0 <= i < |fields| ==> IsString(fields[i].name) && MetaString(fields[i].val)
  }

  /** Splitting UTF-8 at ASCII separators leaves UTF-8. */
  lemma WrittenAreStrings(spec: Option<bytes>)
    requires (spec.Some? ==> IsString(spec.value)) && WrittenFields(spec).Some?
    ensures FieldStrings(WrittenFields(spec).value)
    ensures |WrittenFields(spec).value| <= if spec.Some? then |spec.value| + 1 else 0
  {
    if spec.Some? {
      SplitJoins(spec.value, COMMA);
      PartsAreStrings(Split(spec.value, COMMA), COMMA);
      PairsAreStrings(Split(spec.value, COMMA));
    }
  }

  /** The written fields make an orderly claim once sorted: checked on the list as written. */
  ghost predicate Accepted(kind: bytes, written: seq<Field>) {
    && ProperKind(kind) && |written| <= 15
    && (forall i :: 0 <= i < |written| ==> ProperField(written[i]))
    && (forall i, j :: 0 <= i < j < |written| ==> written[i].name != written[j].name)
  }

  /** `sorted` is what the parser returns for `written`. */
  ghost predicate SortedFrom(sorted: seq<Field>, written: seq<Field>) {
    ByName(sorted) == Sort(ByName(written))
  }

  lemma SortedHasSame(sorted: seq<Field>, written: seq<Field>)
    requires SortedFrom(sorted, written)
    ensures |sorted| == |written| && forall f :: f in sorted <==> f in written
  {
    SortMembers(ByName(written));
    assert |ByName(sorted)| == |ByName(written)|;
    forall f ensures f in sorted <==> f in written {
      InByName(sorted, f);
      InByName(written, f);
    }
  }

  lemma InByName(fields: seq<Field>, f: Field)
    ensures f in fields <==> Keyed(Encode(Text(f.name)), f) in ByName(fields)
  {
    var k := ByName(fields);
    if f in fields {
      var i :| 0 <= i < |fields| && fields[i] == f;
      assert k[i] in k;
    }
    if Keyed(Encode(Text(f.name)), f) in k {
      var i :| 0 <= i < |k| && k[i] == Keyed(Encode(Text(f.name)), f);
      assert fields[i] == f;
    }
  }

  lemma SortedStrings(sorted: seq<Field>, written: seq<Field>)
    requires SortedFrom(sorted, written) && FieldStrings(written)
    ensures FieldStrings(sorted)
  {
    SortedHasSame(sorted, written);
    forall i | 0 <= i < |sorted| ensures IsString(sorted[i].name) && MetaString(sorted[i].val) {
      assert sorted[i] in written;
    }
  }

  lemma ParsedOrderlyIff(kind: bytes, written: seq<Field>, sorted: seq<Field>)
    requires SortedFrom(sorted, written) && FieldStrings(written)
    ensures Orderly(Claim(kind, sorted)) <==> Accepted(kind, written)
  {
    SortedHasSame(sorted, written);
    ParsedInOrderIff(written, sorted);
    forall i | 0 <= i < |written| ensures written[i] in sorted {
      assert written[i] in written;
    }
    forall i | 0 <= i < |sorted| ensures sorted[i] in written {
      assert sorted[i] in sorted;
    }
  }

  /**
   * What the command line writes survives exactly when no name is written twice, none is the type's, every text is at
   * most 1024 bytes, there are at most fifteen pairs, the type is proper and the claim is within the limits.
   */
  lemma ParsedClaimSurvivesIff(kind: bytes, spec: Option<bytes>, sorted: seq<Field>, l: Limits)
    requires IsString(kind) && (spec.Some? ==> IsString(spec.value) && |spec.value| < TWO_TO_THE_64 - 2)
    requires WrittenFields(spec).Some? && SortedFrom(sorted, WrittenFields(spec).value)
    ensures Survives(Claim(kind, sorted), l) <==>
            Accepted(kind, WrittenFields(spec).value) && ClaimFits(Claim(kind, sorted), l)
  {
    var written := WrittenFields(spec).value;
    WrittenAreStrings(spec);
    SortedStrings(sorted, written);
    SortedHasSame(sorted, written);
    ParsedOrderlyIff(kind, written, sorted);
    SurvivesIff(Claim(kind, sorted), l);
  }

  /** The command line's attestation is signed, under the default limits, exactly when all its parts can be. */
  lemma ParsedIsSignedIff(a: Content, keyRef: bytes, spec: Option<bytes>)
    requires ContentStrings(a.(claim := Claim(a.claim.kind, [])))
    requires (spec.Some? ==> IsString(spec.value) && |spec.value| < TWO_TO_THE_64 - 2) && WrittenFields(spec).Some?
    requires SortedFrom(a.claim.fields, WrittenFields(spec).value)
    ensures Attest(a, keyRef, DEFAULT).Ok? <==>
            && a.issuer == keyRef && Signable(a.(claim := Claim(a.claim.kind, [])))
            && Accepted(a.claim.kind, WrittenFields(spec).value)
            && forall i :: 0 <= i < |WrittenFields(spec).value| ==>
                 |WrittenFields(spec).value[i].name| <= DEFAULT.maxFieldSize
  {
    var written, sorted := WrittenFields(spec).value, a.claim.fields;
    WrittenAreStrings(spec);
    SortedStrings(sorted, written);
    SortedHasSame(sorted, written);
    ParsedOrderlyIff(a.claim.kind, written, sorted);
    AttestDefaultIff(a, keyRef);
    forall i | 0 <= i < |written| ensures written[i] in sorted {
      assert written[i] in written;
    }
    forall i | 0 <= i < |sorted| ensures sorted[i] in written {
      assert sorted[i] in sorted;
    }
  }

  /** One pair naming the type parses, is in order, and yet no claim with it survives. */
  lemma TypePairDoesNotSurvive(kind: bytes, l: Limits)
    requires IsString(kind)
    ensures var fields := [Field(TYPE, MText(['x' as int]))];
            && WrittenFields(Some(PairOf(fields[0]))) == Some(fields) && InEncoderOrder(fields)
            && !Survives(Claim(kind, fields), l)
  {
    var x: bytes := ['x' as int];
    var f := Field(TYPE, MText(x));
    TypePairIsWritable();
    FieldsReadBack([f]);
    assert PairsOf([f]) == [PairOf(f)];
    AsciiIsUtf8(TYPE);
    AsciiIsUtf8(x);
    TypeFieldIsRefused(Claim(kind, [f]), 0, l);
  }

  lemma TypePairIsWritable()
    ensures Writable(Field(TYPE, MText(['x' as int])))
  {
    var x: bytes := ['x' as int];
    assert !AllDigits(x) by {
      assert x[0] > ZERO + 9;
    }
    assert |Ascii("true")| == 4 && |Ascii("false")| == 5;
    assert TYPE == ['t' as int, 'y' as int, 'p' as int, 'e' as int];
    assert PairOf(Field(TYPE, MText(x))) == ['t' as int, 'y' as int, 'p' as int, 'e' as int, EQUALS, 'x' as int];
  }
}
