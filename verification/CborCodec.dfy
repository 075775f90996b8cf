/** The codec as the source runs it: an encoder that appends to a buffer, a decoder that moves a cursor. */
module CborCodec {
  import opened Bytes
  import opened CborDecode
  import opened CborHead
  import opened CborOrder
  import opened CborValue
  import opened LimitSets
  import opened Results
  import opened StableSort
  import opened Utf8

  /** A growable byte vector. */
  class Buffer {
    var data: bytes

    constructor ()
      ensures data == []
    {
      data := [];
    }

    method Extend(b: bytes)
      modifies this
      ensures data == old(data) + b
    {
      data := data + b;
    }
  }

  method EncodeHead(major: nat, n: nat, out: Buffer)
    requires major < 8
    modifies out
    ensures out.data == old(out.data) + Head(major, n)
  {
    if n < 24 {
      out.Extend([major * 32 + n]);
    } else if n <= 0xff {
      EncodeWide(major, 24, n, out);
    } else if n <= 0xffff {
      EncodeWide(major, 25, n, out);
    } else if n <= 0xffff_ffff {
      EncodeWide(major, 26, n, out);
    } else {
      EncodeWide(major, 27, n, out);
    }
  }

  /** One initial byte, then the argument in as many bytes as it announces. */
  method EncodeWide(major: nat, ai: byte, n: nat, out: Buffer)
    requires major < 8 && 24 <= ai <= 27
    modifies out
    ensures out.data == old(out.data) + ([major * 32 + ai] + BigEndian(n, ArgWidth(ai)))
  {
    Associative(out.data, [major * 32 + ai], BigEndian(n, ArgWidth(ai)));
    out.Extend([major * 32 + ai]);
    out.Extend(BigEndian(n, ArgWidth(ai)));
  }

  /** `encode_value` appends the encoding, and touches nothing that was already there. */
  method EncodeValue(v: Value, out: Buffer)
    modifies out
    ensures out.data == old(out.data) + Encode(v)
    decreases v, 1
  {
    match v
    case Uint(n) => EncodeHead(0, n, out);
    case Nint(i) =>
      if i >= 0 {
        EncodeHead(0, i, out);
      } else {
        EncodeHead(1, -1 - i, out);
      }
    case Bytes(b) => EncodeString(2, b, out);
    case Text(t) => EncodeString(3, t, out);
    case Array(items) =>
      EncodeArray(items, out);
    case Map(entries) =>
      EncodeMap(entries, out);
    case Bool(b) => out.Extend(if b then [0xf5] else [0xf4]);
    case Null => out.Extend([0xf6]);
  }

  method EncodeString(major: nat, s: bytes, out: Buffer)
    requires major < 8
    modifies out
    ensures out.data == old(out.data) + (Head(major, |s|) + s)
  {
    Associative(out.data, Head(major, |s|), s);
    EncodeHead(major, |s|, out);
    out.Extend(s);
  }

  lemma ItemsStep(done: bytes, items: seq<Value>, i: nat)
    requires i < |items|
    ensures done + EncodeItems(items[i..]) == done + Encode(items[i]) + EncodeItems(items[i + 1..])
  {
    assert items[i..][1..] == items[i + 1..];
  }

  lemma JoinedStep(done: bytes, xs: seq<Keyed<bytes>>, i: nat)
    requires i < |xs|
    ensures done + Joined(xs[i..]) == done + xs[i].key + xs[i].item + Joined(xs[i + 1..])
  {
    assert xs[i..][1..] == xs[i + 1..];
  }

  method EncodeArray(items: seq<Value>, out: Buffer)
    modifies out
    ensures out.data == old(out.data) + (Head(4, |items|) + EncodeItems(items))
    decreases items, 2
  {
    Associative(out.data, Head(4, |items|), EncodeItems(items));
    EncodeHead(4, |items|, out);
    ghost var all := out.data + EncodeItems(items);
    for i := 0 to |items|
      invariant out.data + EncodeItems(items[i..]) == all
    {
      ItemsStep(out.data, items, i);
      EncodeValue(items[i], out);
    }
    assert out.data + [] == out.data;
  }

  /** The map case: keys are encoded and sorted, then each value is encoded behind its key. */
  method EncodeMap(entries: seq<Entry>, out: Buffer)
    modifies out
    ensures out.data == old(out.data) + (Head(5, |entries|) + Joined(Sort(EncodeEntries(entries))))
    decreases entries, 2
  {
    var keyed := EncodeKeys(entries);
    var sorted := Sort(keyed);
    SortThenEncode(entries);
    SortMembers(keyed);
    ghost var enc := EncodeEntries(SortEntries(entries));
    Associative(out.data, Head(5, |entries|), Joined(enc));
    EncodeHead(5, |entries|, out);
    ghost var all := out.data + Joined(enc);
    for i := 0 to |sorted|
      invariant out.data + Joined(enc[i..]) == all
    {
      assert sorted[i] in Sort(keyed);
      assert enc[i] == EncodeEntry(sorted[i].item);
      JoinedStep(out.data, enc, i);
      EncodeKeyed(entries, sorted[i], out);
    }
    assert out.data + [] == out.data;
  }

  method EncodeKeys(entries: seq<Entry>) returns (keyed: seq<Keyed<Entry>>)
    ensures keyed == ByKey(entries)
    decreases entries, 1
  {
    keyed := [];
    for i := 0 to |entries|
      invariant |keyed| == i
      invariant forall j :: 0 <= j < i ==> keyed[j] == Keyed(Encode(entries[j].key), entries[j])
    {
      var e := entries[i];
      assert e.key < e;
      var kb := new Buffer();
      EncodeValue(e.key, kb);
      assert [] + Encode(e.key) == Encode(e.key);
      keyed := keyed + [Keyed(kb.data, e)];
    }
  }

  method EncodeKeyed(ghost entries: seq<Entry>, k: Keyed<Entry>, out: Buffer)
    requires k in ByKey(entries)
    modifies out
    ensures out.data == old(out.data) + EncodeEntry(k.item).key + EncodeEntry(k.item).item
    decreases entries, 1
  {
    ghost var i :| 0 <= i < |entries| && ByKey(entries)[i] == k;
    assert entries[i] == k.item && k.item.val < k.item;
    out.Extend(k.key);
    EncodeValue(k.item.val, out);
  }

  method EncodeCanonical(v: Value) returns (b: bytes)
    ensures b == Encode(v)
  {
    var out := new Buffer();
    EncodeValue(v, out);
    assert [] + Encode(v) == Encode(v);
    return out.data;
  }

  // ---------- decoder ----------

  /** Puts values already decoded in front of the rest of a loop's result. */
  ghost function Prepend<T>(done: seq<T>, r: Result<Parsed<seq<T>>>): Result<Parsed<seq<T>>> {
    if r.Ok? then Ok(Parsed(done + r.value.value, r.value.rest)) else r
  }

  lemma PrependNone<T>(r: Result<Parsed<seq<T>>>)
    ensures Prepend([], r) == r
  {
    if r.Ok? { assert [] + r.value.value == r.value.value; }
  }

  lemma PrependOne<T>(done: seq<T>, x: T, r: Result<Parsed<seq<T>>>)
    ensures Prepend(done, Prepend([x], r)) == Prepend(done + [x], r)
  {
    if r.Ok? { assert done + ([x] + r.value.value) == (done + [x]) + r.value.value; }
  }

  class Decoder {
    const buf: bytes
    const limits: Limits
    var pos: nat
    var depth: nat

    constructor (buf: bytes, limits: Limits)
      ensures this.buf == buf && this.limits == limits && pos == 0 && depth == 0
    {
      this.buf := buf;
      this.limits := limits;
      pos, depth := 0, 0;
    }

    ghost predicate Valid()
      reads this
    {
      pos <= |buf|
    }

    /** The bytes not read yet. */
    ghost function Rest(): bytes
      requires Valid()
      reads this
    {
      buf[pos..]
    }

    method Read(n: nat) returns (r: Result<bytes>)
      requires Valid()
      modifies this`pos
      ensures Valid()
      ensures r.Ok? <==> n <= |old(Rest())|
      ensures r.Ok? ==> r.value == old(Rest())[..n] && Rest() == old(Rest())[n..] && pos == old(pos) + n
      ensures r.Err? ==> r.code == Malformed && pos == old(pos)
    {
      if pos + n > |buf| {
        return Err(Malformed);
      }
      var s := buf[pos..pos + n];
      pos := pos + n;
      return Ok(s);
    }

    method ReadArgument(ai: byte) returns (r: Result<u64>)
      requires Valid() && ai < 32
      modifies this`pos
      ensures Valid() && pos >= old(pos)
      ensures var p := ReadArg(old(Rest()), ai);
              if p.Ok? then r == Ok(p.value.value) && Rest() == p.value.rest else r == Err(p.code)
    {
      if ai < 24 {
        return Ok(ai);
      } else if ai > 27 {
        return Err(ForbiddenCborConstruct);
      }
      var b :- Read(ArgWidth(ai));
      var n := FromBigEndian(b);
      FromBigEndianRoundTrip(b);
      Widths();
      if n < LeastArg(ai) {
        return Err(NonCanonical);
      }
      return Ok(n);
    }

    /**
     * `decode_value` computes the decoding function. After a success the cursor
     * is inside the buffer and past what was read, and the nesting depth is
     * what it was.
     */
    method DecodeNext() returns (r: Result<Value>)
      requires Valid()
      modifies this
      ensures Valid() && pos >= old(pos)
      ensures var p := DecodeValue(old(Rest()), old(depth), limits);
              if p.Ok? then
                r == Ok(p.value.value) && Rest() == p.value.rest && pos > old(pos) && depth == old(depth)
              else r == Err(p.code)
      decreases |buf| - pos, 0
    {
      if depth > limits.maxDepth {
        return Err(LimitExceeded);
      }
      if pos >= |buf| {
        return Err(Malformed);
      }
      ghost var start := Rest();
      var first := Read(1);
      assert Rest() == start[1..];
      var ib := first.value[0];
      var major, ai := ib / 32, ib % 32;
      if major == 7 {
        if ai == 20 {
          return Ok(Bool(false));
        } else if ai == 21 {
          return Ok(Bool(true));
        } else if ai == 22 {
          return Ok(Null);
        }
        return Err(ForbiddenCborConstruct);
      } else if major == 6 {
        return Err(ForbiddenCborConstruct);
      }
      var n :- ReadArgument(ai);
      r := DecodeRest(major, n);
    }

    method DecodeRest(major: nat, n: u64) returns (r: Result<Value>)
      requires Valid() && major < 6
      modifies this
      ensures Valid() && pos >= old(pos)
      ensures var p := DecodeBody(major, n, old(Rest()), old(depth), limits);
              if p.Ok? then r == Ok(p.value.value) && Rest() == p.value.rest && depth == old(depth)
              else r == Err(p.code)
      decreases |buf| - pos, 3
    {
      if major == 0 {
        return Ok(Uint(n));
      } else if major == 1 {
        if -1 - n < -TWO_TO_THE_63 {
          return Err(ForbiddenCborConstruct);
        }
        return Ok(Nint(-1 - n));
      } else if major == 2 {
        if n > limits.maxFieldSize {
          return Err(LimitExceeded);
        }
        var b :- Read(n);
        return Ok(Bytes(b));
      } else if major == 3 {
        if n > limits.maxFieldSize {
          return Err(LimitExceeded);
        }
        var b :- Read(n);
        if !ValidUtf8(b) {
          return Err(Malformed);
        }
        return Ok(Text(b));
      } else if major == 4 {
        if n > limits.maxArrayItems {
          return Err(LimitExceeded);
        }
        depth := depth + 1;
        var items :- DecodeArrayItems(n);
        depth := depth - 1;
        return Ok(Array(items));
      } else {
        if n > limits.maxMapEntries {
          return Err(LimitExceeded);
        }
        depth := depth + 1;
        var entries :- DecodeMapEntries(n);
        depth := depth - 1;
        return Ok(Map(entries));
      }
    }

    /** The loop of the array case. */
    method DecodeArrayItems(n: nat) returns (r: Result<seq<Value>>)
      requires Valid()
      modifies this
      ensures Valid() && pos >= old(pos)
      ensures var p := DecodeItems(n, old(Rest()), old(depth), limits);
              if p.Ok? then r == Ok(p.value.value) && Rest() == p.value.rest && depth == old(depth)
              else r == Err(p.code)
      decreases |buf| - pos, 1
    {
      ghost var whole := DecodeItems(n, Rest(), depth, limits);
      var items: seq<Value> := [];
      PrependNone(whole);
      for i := 0 to n
        invariant Valid() && pos >= old(pos) && depth == old(depth)
        invariant Prepend(items, DecodeItems(n - i, Rest(), depth, limits)) == whole
      {
        var v :- DecodeNext();
        PrependOne(items, v, DecodeItems(n - i - 1, Rest(), depth, limits));
        items := items + [v];
      }
      assert items + [] == items;
      return Ok(items);
    }

    method DecodeNextEntry() returns (r: Result<Entry>)
      requires Valid()
      modifies this
      ensures Valid() && pos >= old(pos)
      ensures var p := DecodeEntry(old(Rest()), old(depth), limits);
              if p.Ok? then r == Ok(p.value.value) && Rest() == p.value.rest && pos > old(pos) && depth == old(depth)
              else r == Err(p.code)
      decreases |buf| - pos, 1
    {
      var k :- DecodeNext();
      var v :- DecodeNext();
      return Ok(Entry(k, v));
    }

    /** The loop of the map case, with the previous key's encoding to compare against. */
    method DecodeMapEntries(n: nat) returns (r: Result<seq<Entry>>)
      requires Valid()
      modifies this
      ensures Valid() && pos >= old(pos)
      ensures var p := DecodeEntries(n, None, old(Rest()), old(depth), limits);
              if p.Ok? then r == Ok(p.value.value) && Rest() == p.value.rest && depth == old(depth)
              else r == Err(p.code)
      decreases |buf| - pos, 2
    {
      ghost var whole := DecodeEntries(n, None, Rest(), depth, limits);
      var entries: seq<Entry> := [];
      var prev: Option<bytes> := None;
      PrependNone(whole);
      for i := 0 to n
        invariant Valid() && pos >= old(pos) && depth == old(depth)
        invariant Prepend(entries, DecodeEntries(n - i, prev, Rest(), depth, limits)) == whole
      {
        var e :- DecodeNextEntry();
        var kb := EncodeCanonical(e.key);
        if prev.Some? {
          if kb == prev.value {
            return Err(DuplicateMapKey);
          }
          if Less(kb, prev.value) {
            return Err(NonCanonical);
          }
        }
        PrependOne(entries, e, DecodeEntries(n - i - 1, Some(kb), Rest(), depth, limits));
        prev := Some(kb);
        entries := entries + [e];
      }
      assert entries + [] == entries;
      return Ok(entries);
    }
  }

  /** `decode_strict`. */
  method DecodeBytes(b: bytes, l: Limits) returns (r: Result<Value>)
    ensures r == DecodeStrict(b, l)
  {
    if |b| > l.maxProofSize {
      return Err(LimitExceeded);
    }
    var d := new Decoder(b, l);
    assert d.Rest() == b;
    var v :- d.DecodeNext();
    if d.pos != |b| {
      return Err(Malformed);
    }
    return Ok(v);
  }
}
