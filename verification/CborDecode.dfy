/**
 * The strict decoder, as a function from the bytes not yet read to a value and
 * the bytes left over. `Decoder.DecodeNext` in `CborCodec` computes it with a
 * cursor.
 */
module CborDecode {
  import opened Bytes
  import opened CborHead
  import opened CborValue
  import opened LimitSets
  import opened Results
  import opened Utf8

  function Take(s: bytes, n: nat): (r: Result<Parsed<bytes>>)
    ensures r.Ok? ==> |r.value.rest| <= |s|
  {
    if n > |s| then Err(Malformed) else Ok(Parsed(s[..n], s[n..]))
  }

  /** The bytes remaining are what every call, and every round of the two loops, uses up. */
  function DecodeValue(s: bytes, depth: nat, l: Limits): (r: Result<Parsed<Value>>)
    ensures r.Ok? ==> |r.value.rest| < |s|
    decreases |s|, 0
  {
    if depth > l.maxDepth then Err(LimitExceeded)
    else if s == [] then Err(Malformed)
    else
      var major, ai := s[0] / 32, s[0] % 32;
      if major == 7 then DecodeSimple(s[1..], ai)
      else if major == 6 then Err(ForbiddenCborConstruct)
      else
        var head :- ReadArg(s[1..], ai);
        DecodeBody(major, head.value, head.rest, depth, l)
  }

  function DecodeSimple(s: bytes, ai: byte): (r: Result<Parsed<Value>>)
    ensures r.Ok? ==> r.value.rest == s
  {
    if ai == 20 then Ok(Parsed(Bool(false), s))
    else if ai == 21 then Ok(Parsed(Bool(true), s))
    else if ai == 22 then Ok(Parsed(Null, s))
    else Err(ForbiddenCborConstruct)
  }

  /** What follows the head of an item of major type 0 to 5 with argument `n`. */
  function DecodeBody(major: nat, n: u64, s: bytes, depth: nat, l: Limits): (r: Result<Parsed<Value>>)
    requires major < 6
    ensures r.Ok? ==> |r.value.rest| <= |s|
    decreases |s|, 3
  {
    if major == 0 then
      Ok(Parsed(Uint(n), s))
    else if major == 1 then
      if -1 - n < -TWO_TO_THE_63 then Err(ForbiddenCborConstruct) else Ok(Parsed(Nint(-1 - n), s))
    else if major == 2 then
      if n > l.maxFieldSize then Err(LimitExceeded)
      else
        var b :- Take(s, n);
        Ok(Parsed(Bytes(b.value), b.rest))
    else if major == 3 then
      if n > l.maxFieldSize then Err(LimitExceeded)
      else
        var t :- Take(s, n);
        if ValidUtf8(t.value) then Ok(Parsed(Text(t.value), t.rest)) else Err(Malformed)
    else if major == 4 then
      if n > l.maxArrayItems then Err(LimitExceeded)
      else
        var items :- DecodeItems(n, s, depth + 1, l);
        Ok(Parsed(Array(items.value), items.rest))
    else
      if n > l.maxMapEntries then Err(LimitExceeded)
      else
        var entries :- DecodeEntries(n, None, s, depth + 1, l);
        Ok(Parsed(Map(entries.value), entries.rest))
  }

  function DecodeItems(n: nat, s: bytes, depth: nat, l: Limits): (r: Result<Parsed<seq<Value>>>)
    ensures r.Ok? ==> |r.value.rest| <= |s|
    decreases |s|, 1
  {
    if n == 0 then Ok(Parsed([], s))
    else
      var head :- DecodeValue(s, depth, l);
      var tail :- DecodeItems(n - 1, head.rest, depth, l);
      Ok(Parsed([head.value] + tail.value, tail.rest))
  }

  function DecodeEntry(s: bytes, depth: nat, l: Limits): (r: Result<Parsed<Entry>>)
    ensures r.Ok? ==> |r.value.rest| < |s|
    decreases |s|, 1
  {
    var key :- DecodeValue(s, depth, l);
    var val :- DecodeValue(key.rest, depth, l);
    Ok(Parsed(Entry(key.value, val.value), val.rest))
  }

  /** `prev` is the encoded key of the entry before, if there was one. */
  function DecodeEntries(n: nat, prev: Option<bytes>, s: bytes, depth: nat, l: Limits): (r: Result<Parsed<seq<Entry>>>)
    ensures r.Ok? ==> |r.value.rest| <= |s|
    decreases |s|, 2
  {
    if n == 0 then Ok(Parsed([], s))
    else
      var head :- DecodeEntry(s, depth, l);
      var kb := Encode(head.value.key);
      if prev.Some? && kb == prev.value then Err(DuplicateMapKey)
      else if prev.Some? && Less(kb, prev.value) then Err(NonCanonical)
      else
        var tail :- DecodeEntries(n - 1, Some(kb), head.rest, depth, l);
        Ok(Parsed([head.value] + tail.value, tail.rest))
  }

  /** `decode_strict`: exactly one item, the whole input, within limits. */
  function DecodeStrict(b: bytes, l: Limits): (r: Result<Value>) {
    if |b| > l.maxProofSize then Err(LimitExceeded)
    else
      var p :- DecodeValue(b, 0, l);
      if p.rest != [] then Err(Malformed) else Ok(p.value)
  }

  /** `is_canonical`. */
  function IsCanonical(b: bytes, l: Limits): (r: Result<bool>) {
    var v :- DecodeStrict(b, l);
    Ok(Encode(v) == b)
  }

  /** `decode_and_check_canonical`. */
  function DecodeAndCheckCanonical(b: bytes, l: Limits): (r: Result<Value>) {
    var v :- DecodeStrict(b, l);
    if Encode(v) != b then Err(NonCanonical) else Ok(v)
  }
}
