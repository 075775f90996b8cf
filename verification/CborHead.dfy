/**
 * Heads of CBOR items: the initial byte (major type, additional information)
 * and the big-endian argument that may follow it.
 */
module CborHead {
  import opened Bytes
  import opened Results

  /** What a parser took off the front of its input, and what it left. */
  datatype Parsed<+T> = Parsed(value: T, rest: bytes)

  function Pow256(width: nat): (p: nat)
    ensures p > 0
  {
    if width == 0 then 1 else 256 * Pow256(width - 1)
  }

  /** `to_be_bytes` after a cast to `width` bytes: higher digits are dropped. */
  function BigEndian(n: nat, width: nat): (b: bytes)
    ensures |b| == width
  {
    if width == 0 then [] else BigEndian(n / 256, width - 1) + [n % 256]
  }

  /** `from_be_bytes`. */
  function FromBigEndian(b: bytes): nat {
    if b == [] then 0 else FromBigEndian(b[..|b| - 1]) * 256 + b[|b| - 1]
  }

  lemma {:induction false} BigEndianRoundTrip(n: nat, width: nat)
    requires n < Pow256(width)
    ensures FromBigEndian(BigEndian(n, width)) == n
  {
    if width > 0 {
      BigEndianRoundTrip(n / 256, width - 1);
      assert BigEndian(n, width)[..width - 1] == BigEndian(n / 256, width - 1);
    }
  }

  lemma {:induction false} FromBigEndianRoundTrip(b: bytes)
    ensures FromBigEndian(b) < Pow256(|b|)
    ensures BigEndian(FromBigEndian(b), |b|) == b
  {
    if b != [] {
      FromBigEndianRoundTrip(b[..|b| - 1]);
      assert b == b[..|b| - 1] + [b[|b| - 1]];
    }
  }

  lemma {:induction false} BigEndianIncreasing(n: nat, k: nat, width: nat)
    requires n < k < Pow256(width)
    ensures Less(BigEndian(n, width), BigEndian(k, width))
  {
    if n / 256 < k / 256 {
      BigEndianIncreasing(n / 256, k / 256, width - 1);
      LessSameLength(BigEndian(n / 256, width - 1), BigEndian(k / 256, width - 1), [n % 256], [k % 256]);
    } else {
      LessPrefix(BigEndian(n / 256, width - 1), [n % 256], [k % 256]);
    }
  }

  lemma Widths()
    ensures Pow256(1) == 0x100 && Pow256(2) == 0x1_0000
    ensures Pow256(4) == 0x1_0000_0000 && Pow256(8) == TWO_TO_THE_64
  {
    assert Pow256(2) == 256 * Pow256(1);
    assert Pow256(4) == 256 * Pow256(3) == 256 * (256 * Pow256(2));
    assert Pow256(8) == 256 * Pow256(7) == 256 * (256 * Pow256(6));
    assert Pow256(6) == 256 * Pow256(5) == 256 * (256 * Pow256(4));
  }

  function ArgWidth(ai: byte): nat
    requires 24 <= ai <= 27
  {
    if ai == 24 then 1 else if ai == 25 then 2 else if ai == 26 then 4 else 8
  }

  /** The least argument that needs this additional information. */
  function LeastArg(ai: byte): nat
    requires 24 <= ai <= 27
  {
    if ai == 24 then 24 else if ai == 25 then 0x100 else if ai == 26 then 0x1_0000 else 0x1_0000_0000
  }

  /** The additional information of the shortest form of an argument that does not fit the initial byte. */
  function ShortestAi(n: nat): (ai: byte)
    requires n >= 24
    ensures 24 <= ai <= 27 && LeastArg(ai) <= n
    ensures n < TWO_TO_THE_64 ==> n < Pow256(ArgWidth(ai))
  {
    Widths();
    if n < 0x100 then 24 else if n < 0x1_0000 then 25 else if n < 0x1_0000_0000 then 26 else 27
  }

  /** Shortest-form head (`encode_head`); an argument is written as a `u64`. */
  function Head(major: nat, n: nat): (h: bytes)
    requires major < 8
    ensures h != []
  {
    if n < 24 then [major * 32 + n]
    else [major * 32 + ShortestAi(n)] + BigEndian(n, ArgWidth(ShortestAi(n)))
  }

  /** Reads the argument announced by `ai`, refusing all but the shortest form (`read_arg`). */
  function ReadArg(s: bytes, ai: byte): (r: Result<Parsed<nat>>)
    requires ai < 32
    ensures r.Ok? ==> r.value.value < TWO_TO_THE_64 && |r.value.rest| <= |s|
  {
    if ai < 24 then Ok(Parsed(ai, s))
    else if ai > 27 then Err(ForbiddenCborConstruct)
    else if |s| < ArgWidth(ai) then Err(Malformed)
    else
      var n := FromBigEndian(s[..ArgWidth(ai)]);
      FromBigEndianRoundTrip(s[..ArgWidth(ai)]);
      Widths();
      if n < LeastArg(ai) then Err(NonCanonical) else Ok(Parsed(n, s[ArgWidth(ai)..]))
  }

  lemma ReadArgOfBigEndian(n: nat, ai: byte, x: bytes)
    requires 24 <= ai <= 27 && LeastArg(ai) <= n < Pow256(ArgWidth(ai))
    ensures ReadArg(BigEndian(n, ArgWidth(ai)) + x, ai) == Ok(Parsed(n, x))
  {
    var w := ArgWidth(ai);
    var s := BigEndian(n, w) + x;
    BigEndianRoundTrip(n, w);
    assert s[..w] == BigEndian(n, w) && s[w..] == x;
  }

  /** The reader takes back exactly what the writer wrote. */
  lemma ReadArgOfHead(major: nat, n: nat, x: bytes)
    requires major < 8 && n < TWO_TO_THE_64
    ensures var s := Head(major, n) + x;
            s[0] / 32 == major && ReadArg(s[1..], s[0] % 32) == Ok(Parsed(n, x))
  {
    var s := Head(major, n) + x;
    if n < 24 {
      assert s[1..] == x;
    } else {
      var ai := ShortestAi(n);
      assert s[0] == major * 32 + ai;
      assert s[1..] == BigEndian(n, ArgWidth(ai)) + x;
      ReadArgOfBigEndian(n, ai, x);
    }
  }

  lemma ShortestAiIsUnique(n: nat, ai: byte)
    requires 24 <= ai <= 27 && LeastArg(ai) <= n < Pow256(ArgWidth(ai))
    ensures n >= 24 && ShortestAi(n) == ai
  {
    Widths();
  }

  /** Whatever the reader accepts is a shortest head. */
  lemma HeadOfReadArg(b: byte, s: bytes, n: nat, rest: bytes)
    requires ReadArg(s, b % 32) == Ok(Parsed(n, rest))
    ensures [b] + s == Head(b / 32, n) + rest
  {
    var ai := b % 32;
    if ai >= 24 {
      var w := ArgWidth(ai);
      FromBigEndianRoundTrip(s[..w]);
      ShortestAiIsUnique(n, ai);
      assert s == s[..w] + rest;
      assert [b] + s == [b] + s[..w] + rest;
    }
  }

  /** Heads are self-delimiting: no head is a proper prefix of another. */
  lemma HeadPrefixFree(m: nat, n: nat, x: bytes, k: nat, l: nat, y: bytes)
    requires m < 8 && n < TWO_TO_THE_64 && k < 8 && l < TWO_TO_THE_64
    requires Head(m, n) + x == Head(k, l) + y
    ensures m == k && n == l && x == y
  {
    ReadArgOfHead(m, n, x);
    ReadArgOfHead(k, l, y);
  }

  /** Within one major type, heads are ordered as their arguments are, whatever follows. */
  lemma HeadIncreasing(major: nat, n: nat, k: nat, x: bytes, y: bytes)
    requires major < 8 && n < k < TWO_TO_THE_64
    ensures Less(Head(major, n) + x, Head(major, k) + y)
  {
    var a, b := Head(major, n), Head(major, k);
    if n >= 24 && ShortestAi(n) == ShortestAi(k) {
      var w := ArgWidth(ShortestAi(n));
      BigEndianIncreasing(n, k, w);
      LessPrefix([a[0]], BigEndian(n, w), BigEndian(k, w));
      LessSameLength(a, b, x, y);
    }
  }
}
