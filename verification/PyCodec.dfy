/** The Python codec as it runs: a position passed along, lists grown in loops. */
module PyCodec {
  import opened Bytes
  import opened CborHead
  import opened CborValue
  import opened PyCbor
  import opened StableSort
  import opened Utf8

  /** `r` is `spec` with the bytes left over given as a position in `buf`. */
  ghost predicate At<T>(r: Outcome<(T, nat)>, spec: Outcome<Parsed<T>>, buf: bytes) {
    && (r.Returned? <==> spec.Returned?)
    && (r.Returned? ==> r.value.1 <= |buf| && spec.value == Parsed(r.value.0, buf[r.value.1..]))
  }

  ghost function Prepend<T>(done: seq<T>, r: Outcome<Parsed<seq<T>>>): Outcome<Parsed<seq<T>>> {
    if r.Returned? then Returned(Parsed(done + r.value.value, r.value.rest)) else r
  }

  lemma PrependNone<T>(r: Outcome<Parsed<seq<T>>>)
    ensures Prepend([], r) == r
  {
    if r.Returned? { assert [] + r.value.value == r.value.value; }
  }

  lemma PrependOne<T>(done: seq<T>, x: T, r: Outcome<Parsed<seq<T>>>)
    ensures Prepend(done, Prepend([x], r)) == Prepend(done + [x], r)
  {
    if r.Returned? { assert done + ([x] + r.value.value) == (done + [x]) + r.value.value; }
  }

  /** `dec`. */
  method RunDec(buf: bytes, start: nat, depth: nat) returns (r: Outcome<(PyValue, nat)>)
    requires start <= |buf|
    ensures At(r, Dec(buf[start..], depth), buf)
    decreases |buf| - start, 0
  {
    if depth > MAX_DEPTH || start >= |buf| {
      return Raised;
    }
    var ib := buf[start];
    var pos := start + 1;
    var major, ai := ib / 32, ib % 32;
    assert buf[start..][1..] == buf[pos..];
    if major < 6 {
      var n := ai;
      if ai > 23 {
        if ai > 27 || pos + ArgWidth(ai) > |buf| {
          return Raised;
        }
        n := FromBigEndian(buf[pos..pos + ArgWidth(ai)]);
        assert buf[pos..][..ArgWidth(ai)] == buf[pos..pos + ArgWidth(ai)];
        pos := pos + ArgWidth(ai);
        assert buf[start + 1..][ArgWidth(ai)..] == buf[pos..];
      }
      if major < 2 && NotShortest(ai, n) {
        return Raised;
      }
      r := RunDecBody(buf, pos, major, n, depth);
    } else if major == 7 && ai == 20 {
      return Returned((PBool(false), pos));
    } else if major == 7 && ai == 21 {
      return Returned((PBool(true), pos));
    } else if major == 7 && ai == 22 {
      return Returned((PNone, pos));
    } else {
      return Raised;
    }
  }

  method RunDecBody(buf: bytes, pos: nat, major: nat, n: nat, depth: nat) returns (r: Outcome<(PyValue, nat)>)
    requires pos <= |buf| && major < 6
    ensures At(r, DecBody(major, n, buf[pos..], depth), buf)
    decreases |buf| - pos, 3
  {
    if major == 0 {
      return Returned((PInt(n), pos));
    } else if major == 1 {
      return Returned((PInt(-1 - n), pos));
    } else if major < 4 {
      if pos + n > |buf| {
        return Raised;
      }
      var b := buf[pos..pos + n];
      assert buf[pos..][..n] == b && buf[pos..][n..] == buf[pos + n..];
      if major == 3 {
        if !ValidUtf8(b) {
          return Raised;
        }
        return Returned((PStr(b), pos + n));
      }
      return Returned((PBytes(b), pos + n));
    } else if major == 4 {
      var d :- RunDecList(buf, pos, n, depth + 1);
      return Returned((PList(d.0), d.1));
    } else {
      var d :- RunDecPairs(buf, pos, n, depth + 1);
      return Returned((PMap(d.0), d.1));
    }
  }

  method RunDecList(buf: bytes, start: nat, n: nat, depth: nat) returns (r: Outcome<(seq<PyValue>, nat)>)
    requires start <= |buf|
    ensures At(r, DecList(n, buf[start..], depth), buf)
    decreases |buf| - start, 2
  {
    ghost var whole := DecList(n, buf[start..], depth);
    var out, pos := [], start;
    PrependNone(whole);
    for i := 0 to n
      invariant start <= pos <= |buf|
      invariant Prepend(out, DecList(n - i, buf[pos..], depth)) == whole
    {
      var d :- RunDec(buf, pos, depth);
      var v, next := d.0, d.1;
      PrependOne(out, v, DecList(n - i - 1, buf[next..], depth));
      out, pos := out + [v], next;
    }
    assert out + [] == out;
    return Returned((out, pos));
  }

  method RunDecPairs(buf: bytes, start: nat, n: nat, depth: nat) returns (r: Outcome<(seq<PyPair>, nat)>)
    requires start <= |buf|
    ensures At(r, DecPairs(n, None, buf[start..], depth), buf)
    decreases |buf| - start, 2
  {
    ghost var whole := DecPairs(n, None, buf[start..], depth);
    var items, prev, pos: nat := [], None, start;
    PrependNone(whole);
    for i := 0 to n
      invariant start <= pos <= |buf|
      invariant Prepend(items, DecPairs(n - i, prev, buf[pos..], depth)) == whole
    {
      var d :- RunDecPair(buf, pos, depth);
      var p, next := d.0, d.1;
      var kb :- Enc(p.key);
      if prev.Some? {
        if kb == prev.value {
          return Raised;
        }
        if Less(kb, prev.value) {
          return Raised;
        }
      }
      PrependOne(items, p, DecPairs(n - i - 1, Some(kb), buf[next..], depth));
      items, prev, pos := items + [p], Some(kb), next;
    }
    assert items + [] == items;
    return Returned((items, pos));
  }

  method RunDecPair(buf: bytes, pos: nat, depth: nat) returns (r: Outcome<(PyPair, nat)>)
    requires pos <= |buf|
    ensures At(r, DecPair(buf[pos..], depth), buf)
    decreases |buf| - pos, 1
  {
    var k :- RunDec(buf, pos, depth);
    var v :- RunDec(buf, k.1, depth);
    return Returned((PyPair(k.0, v.0), v.1));
  }

  // ---------- enc_any, enc_map ----------

  ghost function Before(done: bytes, r: Outcome<bytes>): Outcome<bytes> {
    if r.Returned? then Returned(done + r.value) else r
  }

  /** `enc_any`. */
  method RunEncAny(p: PyValue) returns (r: Outcome<bytes>)
    ensures r == EncAny(p)
    decreases p, 1
  {
    match p
    case PMap(pairs) => r := RunEncMap(pairs);
    case PList(items) => r := RunEncList(items);
    case _ => r := Enc(p);
  }

  method RunEncList(items: seq<PyValue>) returns (r: Outcome<bytes>)
    ensures r == EncAny(PList(items))
    decreases items, 2
  {
    var out :- PyHead(4, |items|);
    ghost var whole := Before(out, EncList(items));
    for i := 0 to |items|
      invariant Before(out, EncList(items[i..])) == whole
    {
      assert items[i..][1..] == items[i + 1..];
      ghost var tail := EncList(items[i + 1..]);
      var x :- RunEncAny(items[i]);
      if tail.Returned? { Associative(out, x, tail.value); }
      out := out + x;
    }
    assert out + [] == out;
    return Returned(out);
  }

  /** `enc_map`: encode, sort by key, refuse equal neighbours, append in order. */
  method RunEncMap(pairs: seq<PyPair>) returns (r: Outcome<bytes>)
    ensures r == EncAny(PMap(pairs))
    decreases pairs, 2
  {
    var ek :- RunEncPairs(pairs);
    var sorted := Sort(ek);
    var i := 1;
    while i < |sorted|
      invariant i >= 1
      invariant forall j :: 1 <= j < i && j < |sorted| ==> sorted[j].key != sorted[j - 1].key
    {
      if sorted[i].key == sorted[i - 1].key {
        return Raised;
      }
      i := i + 1;
    }
    var out :- PyHead(5, |pairs|);
    ghost var whole := out + Joined(sorted);
    for i := 0 to |sorted|
      invariant out + Joined(sorted[i..]) == whole
    {
      assert sorted[i..][1..] == sorted[i + 1..];
      Associative(out, sorted[i].key + sorted[i].item, Joined(sorted[i + 1..]));
      out := out + (sorted[i].key + sorted[i].item);
    }
    assert out + [] == out;
    return Returned(out);
  }

  ghost function Ahead<T>(done: seq<T>, r: Outcome<seq<T>>): Outcome<seq<T>> {
    if r.Returned? then Returned(done + r.value) else r
  }

  method RunEncPairs(pairs: seq<PyPair>) returns (r: Outcome<seq<Keyed<bytes>>>)
    ensures r == EncPairs(pairs)
    decreases pairs, 1
  {
    var out: seq<Keyed<bytes>> := [];
    assert Ahead(out, EncPairs(pairs)) == EncPairs(pairs) by {
      if EncPairs(pairs).Returned? { assert [] + EncPairs(pairs).value == EncPairs(pairs).value; }
    }
    for i := 0 to |pairs|
      invariant Ahead(out, EncPairs(pairs[i..])) == EncPairs(pairs)
    {
      var p := pairs[i];
      assert pairs[i..][1..] == pairs[i + 1..] && p.val < p;
      ghost var tail := EncPairs(pairs[i + 1..]);
      var kb :- Enc(p.key);
      var vb :- RunEncAny(p.val);
      var k := Keyed(kb, vb);
      if tail.Returned? { assert out + ([k] + tail.value) == (out + [k]) + tail.value; }
      out := out + [k];
    }
    assert out + [] == out;
    return Returned(out);
  }

  /** `check_canonical`. */
  method RunCheckCanonical(raw: bytes) returns (r: Outcome<PyValue>)
    ensures r == CheckCanonical(raw)
  {
    assert raw[0..] == raw;
    var d :- RunDec(raw, 0, 0);
    if d.1 != |raw| {
      return Raised;
    }
    var again :- RunEncAny(d.0);
    if again != raw {
      return Raised;
    }
    return Returned(d.0);
  }
}
