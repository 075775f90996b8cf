/**
 * The independent Python codec. It decodes leniently (no shortest-form check on
 * the lengths of strings, arrays and maps) and leaves canonicality to a
 * re-encoding. Any exception, of whatever class, is `Raised`.
 */
module PyCbor {
  import opened Bytes
  import opened CborHead
  import opened CborValue
  import opened StableSort
  import opened Utf8

  datatype PyValue =
    | PInt(i: int)
    | PBytes(b: bytes)
    | PStr(t: bytes)      // the UTF-8 bytes of the string
    | PList(items: seq<PyValue>)
    | PMap(pairs: seq<PyPair>)
    | PBool(v: bool)
    | PNone

  datatype PyPair = PyPair(key: PyValue, val: PyValue)

  datatype Outcome<+T> = Returned(value: T) | Raised {
    predicate IsFailure() {
      Raised?
    }

    function PropagateFailure<U>(): Outcome<U>
      requires Raised?
    {
      Raised
    }

    function Extract(): T
      requires Returned?
    {
      value
    }
  }

  const MAX_DEPTH: nat := 16

  // ---------- enc, enc_map, enc_any ----------

  function PyHead(major: nat, n: nat): Outcome<bytes>
    requires major < 8
  {
    if n < TWO_TO_THE_64 then Returned(Head(major, n)) else Raised
  }

  /** `enc`: scalars only; a list or map has no `.encode()`. */
  function Enc(p: PyValue): Outcome<bytes> {
    match p
    case PBool(v) => Returned(if v then [0xf5] else [0xf4])
    case PNone => Returned([0xf6])
    case PInt(i) =>
      if i >= 0 then PyHead(0, i)
      else if i < -TWO_TO_THE_63 then Raised
      else PyHead(1, -1 - i)
    case PBytes(b) =>
      var h :- PyHead(2, |b|);
      Returned(h + b)
    case PStr(t) =>
      var h :- PyHead(3, |t|);
      Returned(h + t)
    case PList(_) => Raised
    case PMap(_) => Raised
  }

  function EncAny(p: PyValue): Outcome<bytes> {
    match p
    case PMap(pairs) =>
      var ek :- EncPairs(pairs);
      var sorted := Sort(ek);
      if NoNeighboursEqual(sorted) then
        var h :- PyHead(5, |pairs|);
        Returned(h + Joined(sorted))
      else Raised
    case PList(items) =>
      var h :- PyHead(4, |items|);
      var body :- EncList(items);
      Returned(h + body)
    case _ => Enc(p)
  }

  function EncList(items: seq<PyValue>): Outcome<bytes> {
    if items == [] then Returned([])
    else
      var head :- EncAny(items[0]);
      var tail :- EncList(items[1..]);
      Returned(head + tail)
  }

  function EncPair(p: PyPair): Outcome<Keyed<bytes>> {
    var kb :- Enc(p.key);
    var vb :- EncAny(p.val);
    Returned(Keyed(kb, vb))
  }

  function EncPairs(pairs: seq<PyPair>): Outcome<seq<Keyed<bytes>>> {
    if pairs == [] then Returned([])
    else
      var head :- EncPair(pairs[0]);
      var tail :- EncPairs(pairs[1..]);
      Returned([head] + tail)
  }

  predicate NoNeighboursEqual(xs: seq<Keyed<bytes>>) {
    forall i :: 1 <= i < |xs| ==> xs[i].key != xs[i - 1].key
  }

  // ---------- dec ----------

  /** The inner `arg()`: any width is taken. */
  function PyArg(s: bytes, ai: byte): (r: Outcome<Parsed<nat>>)
    ensures r.Returned? ==> |r.value.rest| <= |s|
  {
    if ai < 24 then Returned(Parsed(ai, s))
    else if ai > 27 || |s| < ArgWidth(ai) then Raised
    else Returned(Parsed(FromBigEndian(s[..ArgWidth(ai)]), s[ArgWidth(ai)..]))
  }

  predicate NotShortest(ai: byte, n: nat) {
    24 <= ai <= 27 && n < LeastArg(ai)
  }

  function Dec(s: bytes, depth: nat): (r: Outcome<Parsed<PyValue>>)
    ensures r.Returned? ==> |r.value.rest| < |s|
    decreases |s|, 0
  {
    if depth > MAX_DEPTH || s == [] then Raised
    else
      var major, ai := s[0] / 32, s[0] % 32;
      if major < 6 then
        var head :- PyArg(s[1..], ai);
        if major < 2 && NotShortest(ai, head.value) then Raised
        else DecBody(major, head.value, head.rest, depth)
      else if major == 7 && ai == 20 then Returned(Parsed(PBool(false), s[1..]))
      else if major == 7 && ai == 21 then Returned(Parsed(PBool(true), s[1..]))
      else if major == 7 && ai == 22 then Returned(Parsed(PNone, s[1..]))
      else Raised
  }

  function DecBody(major: nat, n: nat, s: bytes, depth: nat): (r: Outcome<Parsed<PyValue>>)
    requires major < 6
    ensures r.Returned? ==> |r.value.rest| <= |s|
    decreases |s|, 3
  {
    if major == 0 then Returned(Parsed(PInt(n), s))
    else if major == 1 then Returned(Parsed(PInt(-1 - n), s))
    else if major == 2 then
      if n > |s| then Raised else Returned(Parsed(PBytes(s[..n]), s[n..]))
    else if major == 3 then
      if n > |s| || !ValidUtf8(s[..n]) then Raised else Returned(Parsed(PStr(s[..n]), s[n..]))
    else if major == 4 then
      var items :- DecList(n, s, depth + 1);
      Returned(Parsed(PList(items.value), items.rest))
    else
      var pairs :- DecPairs(n, None, s, depth + 1);
      Returned(Parsed(PMap(pairs.value), pairs.rest))
  }

  function DecList(n: nat, s: bytes, depth: nat): (r: Outcome<Parsed<seq<PyValue>>>)
    ensures r.Returned? ==> |r.value.rest| <= |s|
    decreases |s|, 2
  {
    if n == 0 then Returned(Parsed([], s))
    else
      var head :- Dec(s, depth);
      var tail :- DecList(n - 1, head.rest, depth);
      Returned(Parsed([head.value] + tail.value, tail.rest))
  }

  function DecPair(s: bytes, depth: nat): (r: Outcome<Parsed<PyPair>>)
    ensures r.Returned? ==> |r.value.rest| < |s|
    decreases |s|, 1
  {
    var key :- Dec(s, depth);
    var val :- Dec(key.rest, depth);
    Returned(Parsed(PyPair(key.value, val.value), val.rest))
  }

  function DecPairs(n: nat, prev: Option<bytes>, s: bytes, depth: nat): (r: Outcome<Parsed<seq<PyPair>>>)
    ensures r.Returned? ==> |r.value.rest| <= |s|
    decreases |s|, 2
  {
    if n == 0 then Returned(Parsed([], s))
    else
      var head :- DecPair(s, depth);
      var kb :- Enc(head.value.key);
      if prev.Some? && (kb == prev.value || Less(kb, prev.value)) then Raised
      else
        var tail :- DecPairs(n - 1, Some(kb), head.rest, depth);
        Returned(Parsed([head.value] + tail.value, tail.rest))
  }

  /** `decode_strict` of `minicbor.py`. */
  function PyDecodeStrict(raw: bytes): Outcome<PyValue> {
    var p :- Dec(raw, 0);
    if p.rest != [] then Raised else Returned(p.value)
  }

  /** `check_canonical` of `pengine.py`: decode, re-encode, compare. */
  function CheckCanonical(raw: bytes): Outcome<PyValue> {
    var p :- PyDecodeStrict(raw);
    var again :- EncAny(p);
    if again != raw then Raised else Returned(p)
  }
}
