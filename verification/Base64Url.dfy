/**
 * Base64url without padding (section 5 of RFC 4648), and the hand-written
 * decoding loop that shifts six bits at a time through an accumulator.
 */
module Base64Url {
  import opened Bytes

  type digit = d: int | 0 <= d < 64

  // ---------- the alphabet ----------

  function Symbol(d: digit): byte {
    if d < 26 then 'A' as int + d
    else if d < 52 then 'a' as int + d - 26
    else if d < 62 then '0' as int + d - 52
    else if d == 62 then '-' as int
    else '_' as int
  }

  function DigitOf(c: byte): Option<digit> {
    if 'A' as int <= c <= 'Z' as int then Some(c - 'A' as int)
    else if 'a' as int <= c <= 'z' as int then Some(c - 'a' as int + 26)
    else if '0' as int <= c <= '9' as int then Some(c - '0' as int + 52)
    else if c == '-' as int then Some(62)
    else if c == '_' as int then Some(63)
    else None
  }

  lemma AlphabetRoundTrip(d: digit, c: byte)
    ensures DigitOf(Symbol(d)) == Some(d)
    ensures DigitOf(c).Some? ==> Symbol(DigitOf(c).value) == c
  {
  }

  predicate InAlphabet(s: bytes) {
    forall i :: 0 <= i < |s| ==> DigitOf(s[i]).Some?
  }

  function DigitsOf(s: bytes): (ds: seq<digit>)
    requires InAlphabet(s)
    ensures |ds| == |s|
    ensures forall i :: 0 <= i < |s| ==> Some(ds[i]) == DigitOf(s[i])
  {
    seq(|s|, i requires 0 <= i < |s| => DigitOf(s[i]).value)
  }

  function Symbols(ds: seq<digit>): (s: bytes)
    ensures |s| == |ds|
    ensures forall i :: 0 <= i < |ds| ==> s[i] == Symbol(ds[i])
  {
    seq(|ds|, i requires 0 <= i < |ds| => Symbol(ds[i]))
  }

  // ---------- the encoder ----------

  /** Three bytes as four digits; one or two bytes at the end as two or three, the spare bits zero. */
  function Digits(b: bytes): seq<digit> {
    if |b| == 0 then []
    else if |b| == 1 then [b[0] / 4, b[0] % 4 * 16]
    else if |b| == 2 then [b[0] / 4, b[0] % 4 * 16 + b[1] / 16, b[1] % 16 * 4]
    else Block(b[0], b[1], b[2]) + Digits(b[3..])
  }

  function Block(x: byte, y: byte, z: byte): (r: seq<digit>)
    ensures |r| == 4
  {
    [x / 4, x % 4 * 16 + y / 16, y % 16 * 4 + z / 64, z % 64]
  }

  function Encode(b: bytes): bytes {
    Symbols(Digits(b))
  }

  // ---------- the loop ----------

  /** What the loop carries: `bits` low bits of `buf` are still to be written out. */
  datatype Accum = Accum(buf: nat, bits: nat, out: bytes)

  function Pow2(n: nat): (p: nat)
    ensures p > 0
  {
    if n == 0 then 1 else 2 * Pow2(n - 1)
  }

  /** The accumulator never holds more than six bits between characters. */
  ghost predicate Holds(a: Accum) {
    a.bits in {0, 2, 4, 6} && a.buf < Pow2(a.bits)
  }

  lemma Powers()
    ensures Pow2(0) == 1 && Pow2(2) == 4 && Pow2(4) == 16 && Pow2(6) == 64 && Pow2(8) == 256
  {
    assert Pow2(1) == 2 * Pow2(0);
    assert Pow2(2) == 2 * Pow2(1);
    assert Pow2(3) == 2 * Pow2(2);
    assert Pow2(4) == 2 * Pow2(3);
    assert Pow2(5) == 2 * Pow2(4);
    assert Pow2(6) == 2 * Pow2(5);
    assert Pow2(7) == 2 * Pow2(6);
    assert Pow2(8) == 2 * Pow2(7);
  }

  /** One round of the loop. The cast to a byte truncates. */
  function Step(a: Accum, d: digit): Accum {
    var buf, bits := a.buf * 64 + d, a.bits + 6;
    if bits >= 8 then
      Accum(buf % Pow2(bits - 8), bits - 8, a.out + [buf / Pow2(bits - 8) % 256])
    else Accum(buf, bits, a.out)
  }

  function Run(a: Accum, ds: seq<digit>): Accum
    decreases ds
  {
    if ds == [] then a else Run(Step(a, ds[0]), ds[1..])
  }

  /** The accumulator stays below sixteen bits inside a round, so the `u32` never overflows and the cast loses nothing. */
  lemma StepHolds(a: Accum, d: digit)
    requires Holds(a)
    ensures Holds(Step(a, d)) && a.buf * 64 + d < Pow2(12)
    ensures a.bits + 6 >= 8 ==> (a.buf * 64 + d) / Pow2(a.bits - 2) < 256
  {
    Powers();
    assert Pow2(12) == 4096 by {
      assert Pow2(12) == 2 * Pow2(11) == 4 * Pow2(10);
      assert Pow2(10) == 2 * Pow2(9) == 4 * Pow2(8);
    }
  }

  const EMPTY: Accum := Accum(0, 0, [])

  function Finish(a: Accum): Option<bytes> {
    if a.bits > 0 && a.buf != 0 then None else Some(a.out)
  }

  /** `b64u_decode`. */
  function Decode(s: bytes): Option<bytes> {
    if InAlphabet(s) then Finish(Run(EMPTY, DigitsOf(s))) else None
  }

  lemma RunFrom(a: Accum, ds: seq<digit>, i: nat)
    requires i < |ds|
    ensures Run(a, ds[i..]) == Run(Step(a, ds[i]), ds[i + 1..])
  {
    assert ds[i..][1..] == ds[i + 1..];
  }

  /** The body of the loop. */
  method Push(buf0: nat, bits0: nat, out0: bytes, v: digit) returns (buf: nat, bits: nat, out: bytes)
    ensures Accum(buf, bits, out) == Step(Accum(buf0, bits0, out0), v)
  {
    buf, bits, out := buf0 * 64 + v, bits0 + 6, out0;
    if bits >= 8 {
      bits := bits - 8;
      out := out + [buf / Pow2(bits) % 256];
      buf := buf % Pow2(bits);
    }
  }

  method RunDecode(s: bytes) returns (r: Option<bytes>)
    ensures r == Decode(s)
  {
    for i := 0 to |s|
      invariant forall j :: 0 <= j < i ==> DigitOf(s[j]).Some?
    {
      if DigitOf(s[i]).None? {
        return None;
      }
    }
    var out: bytes, buf: nat, bits: nat := [], 0, 0;
    ghost var ds := DigitsOf(s);
    for i := 0 to |s|
      invariant Holds(Accum(buf, bits, out))
      invariant Run(Accum(buf, bits, out), ds[i..]) == Run(EMPTY, ds)
    {
      var v := DigitOf(s[i]).value;
      ghost var a := Accum(buf, bits, out);
      StepHolds(a, v);
      RunFrom(a, ds, i);
      buf, bits, out := Push(buf, bits, out, v);
    }
    assert ds[|s|..] == [];
    if bits > 0 && buf != 0 {
      return None;
    }
    return Some(out);
  }

  // ---------- what the loop computes ----------

  lemma {:induction false} RunAppends(buf: nat, bits: nat, out: bytes, ds: seq<digit>)
    ensures var r := Run(Accum(buf, bits, []), ds);
            Run(Accum(buf, bits, out), ds) == Accum(r.buf, r.bits, out + r.out)
    decreases ds
  {
    if ds == [] {
      assert out + [] == out;
    } else {
      var a, b := Step(Accum(buf, bits, []), ds[0]), Step(Accum(buf, bits, out), ds[0]);
      RunAppends(a.buf, a.bits, a.out, ds[1..]);
      RunAppends(b.buf, b.bits, b.out, ds[1..]);
      var r := Run(Accum(a.buf, a.bits, []), ds[1..]);
      assert b.out + r.out == out + (a.out + r.out);
    }
  }

  // The bytes that two neighbouring digits make up, by position in a block.

  function Byte0(a: int, b: int): byte
    requires 0 <= a < 64 && 0 <= b < 64
  {
    a * 4 + b / 16
  }

  function Byte1(b: int, c: int): byte
    requires 0 <= b < 64 && 0 <= c < 64
  {
    b % 16 * 16 + c / 4
  }

  function Byte2(c: int, d: int): byte
    requires 0 <= c < 64 && 0 <= d < 64
  {
    c % 4 * 64 + d
  }

  lemma DigitsOfBytes(a: int, b: int, c: int, d: int)
    requires 0 <= a < 64 && 0 <= b < 64 && 0 <= c < 64 && 0 <= d < 64
    ensures Byte0(a, b) / 4 == a && Byte0(a, b) % 4 == b / 16
    ensures Byte1(b, c) / 16 == b % 16 && Byte1(b, c) % 16 == c / 4
    ensures Byte2(c, d) / 64 == c % 4 && Byte2(c, d) % 64 == d
  {
  }

  /** The three bytes that four digits hold. */
  function Unblock(ds: seq<digit>): (b: bytes)
    requires |ds| == 4
    ensures |b| == 3 && Block(b[0], b[1], b[2]) == ds
  {
    DigitsOfBytes(ds[0], ds[1], ds[2], ds[3]);
    [Byte0(ds[0], ds[1]), Byte1(ds[1], ds[2]), Byte2(ds[2], ds[3])]
  }

  lemma StepOne(a: digit)
    ensures Step(EMPTY, a) == Accum(a, 6, [])
  {
  }

  lemma By16(q: nat, r: nat)
    requires r < 16
    ensures (16 * q + r) / 16 == q && (16 * q + r) % 16 == r
  {
  }

  lemma EmitOfSix(buf: digit, d: digit, q: byte, r: nat)
    requires buf * 64 + d == 16 * q + r && r < 16
    ensures Step(Accum(buf, 6, []), d) == Accum(r, 4, [q])
  {
    By16(q, r);
    assert Pow2(4) == 16 by {
      Powers();
    }
  }

  lemma StepTwo(a: digit, b: digit)
    ensures Step(Accum(a, 6, []), b) == Accum(b % 16, 4, [Byte0(a, b)])
  {
    EmitOfSix(a, b, a * 4 + b / 16, b % 16);
  }

  lemma StepThree(a: digit, b: digit, c: digit)
    ensures Step(Accum(b % 16, 4, [Byte0(a, b)]), c) == Accum(c % 4, 2, [Byte0(a, b), Byte1(b, c)])
  {
    Powers();
  }

  lemma StepFour(a: digit, b: digit, c: digit, d: digit)
    ensures Step(Accum(c % 4, 2, [Byte0(a, b), Byte1(b, c)]), d) ==
            Accum(0, 0, [Byte0(a, b), Byte1(b, c), Byte2(c, d)])
  {
    Powers();
  }

  lemma RunOne(a: Accum, ds: seq<digit>)
    requires |ds| >= 1
    ensures Run(a, ds) == Run(Step(a, ds[0]), ds[1..])
  {
  }

  lemma RunBlock(ds: seq<digit>)
    requires |ds| >= 4
    ensures Run(EMPTY, ds) == Run(Accum(0, 0, Unblock(ds[..4])), ds[4..])
  {
    var a, b, c, d := ds[0], ds[1], ds[2], ds[3];
    RunOne(EMPTY, ds);
    StepOne(a);
    RunOne(Accum(a, 6, []), ds[1..]);
    StepTwo(a, b);
    assert ds[1..][1..] == ds[2..];
    RunOne(Accum(b % 16, 4, [Byte0(a, b)]), ds[2..]);
    StepThree(a, b, c);
    assert ds[2..][1..] == ds[3..];
    RunOne(Accum(c % 4, 2, [Byte0(a, b), Byte1(b, c)]), ds[3..]);
    StepFour(a, b, c, d);
    assert ds[3..][1..] == ds[4..];
    assert Unblock(ds[..4]) == [Byte0(a, b), Byte1(b, c), Byte2(c, d)];
  }

  function Prefixed(b: bytes, r: Option<bytes>): Option<bytes> {
    if r.Some? then Some(b + r.value) else None
  }

  lemma DecodeBlock(ds: seq<digit>)
    requires |ds| >= 4
    ensures Finish(Run(EMPTY, ds)) == Prefixed(Unblock(ds[..4]), Finish(Run(EMPTY, ds[4..])))
  {
    RunBlock(ds);
    RunAppends(0, 0, Unblock(ds[..4]), ds[4..]);
  }

  /** `ds` spells `b`: its encoding, or that and one zero digit too many. */
  ghost predicate Spells(ds: seq<digit>, b: bytes) {
    ds == Digits(b) || (|ds| % 4 == 1 && ds == Digits(b) + [0])
  }

  lemma RunShort(ds: seq<digit>)
    requires |ds| < 4
    ensures |ds| == 0 ==> Run(EMPTY, ds) == EMPTY
    ensures |ds| == 1 ==> Run(EMPTY, ds) == Accum(ds[0], 6, [])
    ensures |ds| == 2 ==> Run(EMPTY, ds) == Accum(ds[1] % 16, 4, [Byte0(ds[0], ds[1])])
    ensures |ds| == 3 ==> Run(EMPTY, ds) == Accum(ds[2] % 4, 2, [Byte0(ds[0], ds[1]), Byte1(ds[1], ds[2])])
  {
    if |ds| > 0 {
      StepOne(ds[0]);
      RunOne(EMPTY, ds);
    }
    if |ds| > 1 {
      StepTwo(ds[0], ds[1]);
      RunOne(Accum(ds[0], 6, []), ds[1..]);
      assert ds[1..][1..] == ds[2..];
    }
    if |ds| > 2 {
      StepThree(ds[0], ds[1], ds[2]);
      RunOne(Accum(ds[1] % 16, 4, [Byte0(ds[0], ds[1])]), ds[2..]);
      assert ds[2..][1..] == [];
    }
  }

  lemma OneByte(a: digit, b: digit, x: byte)
    ensures Digits([x]) == [a, b] <==> b % 16 == 0 && Byte0(a, b) == x
  {
    DigitsOfBytes(a, b, 0, 0);
    assert Digits([x]) == [x / 4, x % 4 * 16];
  }

  lemma TwoBytes(a: digit, b: digit, c: digit, x: byte, y: byte)
    ensures Digits([x, y]) == [a, b, c] <==> c % 4 == 0 && Byte0(a, b) == x && Byte1(b, c) == y
  {
    DigitsOfBytes(a, b, c, 0);
    assert Digits([x, y]) == [x / 4, x % 4 * 16 + y / 16, y % 16 * 4];
  }

  lemma DigitsLength(b: bytes)
    ensures |b| == 0 <==> |Digits(b)| == 0
    ensures |b| == 1 <==> |Digits(b)| == 2
    ensures |b| == 2 <==> |Digits(b)| == 3
    ensures |Digits(b)| != 1
  {
  }

  lemma SpellsTwo(ds: seq<digit>, b: bytes)
    requires |ds| == 2
    ensures Finish(Accum(ds[1] % 16, 4, [Byte0(ds[0], ds[1])])) == Some(b) <==> ds == Digits(b)
  {
    assert ds == [ds[0], ds[1]];
    DigitsLength(b);
    if |b| == 1 {
      assert b == [b[0]];
      OneByte(ds[0], ds[1], b[0]);
    }
  }

  lemma SpellsThree(ds: seq<digit>, b: bytes)
    requires |ds| == 3
    ensures Finish(Accum(ds[2] % 4, 2, [Byte0(ds[0], ds[1]), Byte1(ds[1], ds[2])])) == Some(b) <==> ds == Digits(b)
  {
    assert ds == [ds[0], ds[1], ds[2]];
    DigitsLength(b);
    if |b| == 2 {
      assert b == [b[0], b[1]];
      TwoBytes(ds[0], ds[1], ds[2], b[0], b[1]);
    }
  }

  lemma SpellsShort(ds: seq<digit>, b: bytes)
    requires |ds| < 4
    ensures Finish(Run(EMPTY, ds)) == Some(b) <==> Spells(ds, b)
  {
    RunShort(ds);
    DigitsLength(b);
    if |ds| == 2 {
      SpellsTwo(ds, b);
    } else if |ds| == 3 {
      SpellsThree(ds, b);
    }
  }

  lemma {:induction false} RunSpells(ds: seq<digit>, b: bytes)
    ensures Finish(Run(EMPTY, ds)) == Some(b) <==> Spells(ds, b)
    decreases |ds|
  {
    if |ds| < 4 {
      SpellsShort(ds, b);
    } else {
      DecodeBlock(ds);
      var head, tail := Unblock(ds[..4]), ds[4..];
      if |b| < 3 {
        assert |Digits(b)| < 4;
      } else {
        RunSpells(tail, b[3..]);
        assert b == b[..3] + b[3..];
        BlockInjective(b, ds);
      }
    }
  }

  lemma UnblockIff(x: byte, y: byte, z: byte, ds: seq<digit>)
    requires |ds| == 4
    ensures [x, y, z] == Unblock(ds) <==> Block(x, y, z) == ds
  {
    if Block(x, y, z) == ds {
      assert Byte0(ds[0], ds[1]) == x;
      assert Byte1(ds[1], ds[2]) == y;
      assert Byte2(ds[2], ds[3]) == z;
    }
  }

  lemma SplitFour(x: seq<digit>, t: seq<digit>, ds: seq<digit>)
    requires |x| == 4 && |ds| >= 4
    ensures ds == x + t <==> ds[..4] == x && ds[4..] == t
  {
    assert ds == ds[..4] + ds[4..];
  }

  lemma BlockInjective(b: bytes, ds: seq<digit>)
    requires |b| >= 3 && |ds| >= 4
    ensures Spells(ds, b) <==> b[..3] == Unblock(ds[..4]) && Spells(ds[4..], b[3..])
  {
    var x, t := Block(b[0], b[1], b[2]), Digits(b[3..]);
    assert Digits(b) == x + t;
    assert b[..3] == [b[0], b[1], b[2]];
    UnblockIff(b[0], b[1], b[2], ds[..4]);
    SplitFour(x, t, ds);
    SplitFour(x, t + [0], ds);
    assert Digits(b) + [0] == x + (t + [0]);
  }

  /**
   * The loop accepts `s` as `b` exactly when `s` is the encoding of `b`, or has one `A` too many
   * after a whole number of blocks.
   */
  lemma DecodeIff(s: bytes, b: bytes)
    ensures Decode(s) == Some(b) <==> s == Encode(b) || (|s| % 4 == 1 && s == Encode(b) + ['A' as int])
  {
    if InAlphabet(s) {
      RunSpells(DigitsOf(s), b);
      SymbolsOfDigits(s, Digits(b));
      SymbolsOfDigits(s, Digits(b) + [0]);
      assert Symbols(Digits(b) + [0]) == Encode(b) + ['A' as int];
    } else {
      var i :| 0 <= i < |s| && DigitOf(s[i]).None?;
      if i < |Digits(b)| { AlphabetRoundTrip(Digits(b)[i], 0); }
    }
  }

  lemma SymbolsOfDigits(s: bytes, ds: seq<digit>)
    requires InAlphabet(s)
    ensures DigitsOf(s) == ds <==> s == Symbols(ds)
  {
    if DigitsOf(s) == ds {
      forall i | 0 <= i < |s| ensures s[i] == Symbols(ds)[i] {
        AlphabetRoundTrip(0, s[i]);
      }
    }
    if s == Symbols(ds) {
      forall i | 0 <= i < |s| ensures DigitsOf(s)[i] == ds[i] {
        AlphabetRoundTrip(ds[i], 0);
      }
    }
  }

  lemma DecodeEncode(b: bytes)
    ensures Decode(Encode(b)) == Some(b)
  {
    DecodeIff(Encode(b), b);
  }

  lemma EncodeInjective(a: bytes, b: bytes)
    requires Encode(a) == Encode(b)
    ensures a == b
  {
    DecodeEncode(a);
    DecodeEncode(b);
  }

  /** The loop is not canonical: every whole number of blocks has a second spelling. */
  lemma SecondSpelling(b: bytes)
    requires |b| % 3 == 0
    ensures Encode(b) + ['A' as int] != Encode(b) && Decode(Encode(b) + ['A' as int]) == Decode(Encode(b))
  {
    WholeBlocks(b);
    DecodeEncode(b);
    DecodeIff(Encode(b) + ['A' as int], b);
  }

  lemma {:induction false} WholeBlocks(b: bytes)
    ensures |b| % 3 == 0 <==> |Digits(b)| % 4 == 0
    ensures |Digits(b)| % 4 != 1
  {
    if |b| >= 3 { WholeBlocks(b[3..]); }
  }
}
