/**
 * The UTF-8 automaton accepts exactly the encodings of Unicode text: sequences
 * of scalar values, each written with the arithmetic of section 3 of RFC 3629.
 */
module Utf8Chars {
  import opened Bytes
  import opened Utf8

  /** A Unicode scalar value: a code point that is not a surrogate. */
  predicate IsScalar(c: nat) {
    c < 0x11_0000 && !(0xD800 <= c <= 0xDFFF)
  }

  /** The bytes of one character. */
  function CharBytes(c: nat): bytes
    requires IsScalar(c)
  {
    if c < 0x80 then [c]
    else if c < 0x800 then [0xC0 + c / 64, 0x80 + c % 64]
    else if c < 0x1_0000 then [0xE0 + c / 4096, 0x80 + c / 64 % 64, 0x80 + c % 64]
    else [0xF0 + c / 262144, 0x80 + c / 4096 % 64, 0x80 + c / 64 % 64, 0x80 + c % 64]
  }

  ghost predicate AllScalars(cs: seq<nat>) {
    forall i :: 0 <= i < |cs| ==> IsScalar(cs[i])
  }

  ghost function Utf8Of(cs: seq<nat>): bytes
    requires AllScalars(cs)
  {
    if cs == [] then [] else CharBytes(cs[0]) + Utf8Of(cs[1..])
  }

  // ---------- every encoding is accepted ----------

  lemma RunTwo(st: State, a: byte, b: byte)
    ensures Run(st, [a, b]) == Next(Next(st, a), b)
  {
    assert [a, b][1..] == [b] && [b][1..] == [];
    assert Run(Next(st, a), [b]) == Next(Next(st, a), b);
  }

  lemma RunThree(st: State, a: byte, b: byte, c: byte)
    ensures Run(st, [a, b, c]) == Next(Next(Next(st, a), b), c)
  {
    assert [a, b, c][1..] == [b, c];
    RunTwo(Next(st, a), b, c);
  }

  lemma RunFour(st: State, a: byte, b: byte, c: byte, d: byte)
    ensures Run(st, [a, b, c, d]) == Next(Next(Next(Next(st, a), b), c), d)
  {
    assert [a, b, c, d][1..] == [b, c, d];
    RunThree(Next(st, a), b, c, d);
  }

  /** A code point by its digits to base 64. */
  lemma Base64Digits(c: nat)
    ensures c == c / 64 * 64 + c % 64
    ensures c / 64 == c / 4096 * 64 + c / 64 % 64
    ensures c / 4096 == c / 262144 * 64 + c / 4096 % 64
  {
  }

  lemma TwoByteRanges(c: nat)
    requires 0x80 <= c < 0x800
    ensures 2 <= c / 64 < 32
  {
  }

  lemma ThreeByteRanges(c: nat)
    requires 0x800 <= c < 0x1_0000 && IsScalar(c)
    ensures c / 4096 < 16 && (c / 4096 == 0 ==> c / 64 % 64 >= 32) && (c / 4096 == 13 ==> c / 64 % 64 < 32)
  {
    Base64Digits(c);
  }

  lemma FourByteRanges(c: nat)
    requires 0x1_0000 <= c < 0x11_0000
    ensures c / 262144 <= 4
    ensures (c / 262144 == 0 ==> c / 4096 % 64 >= 16) && (c / 262144 == 4 ==> c / 4096 % 64 < 16)
  {
    Base64Digits(c);
  }

  lemma CharIsAccepted(c: nat)
    requires IsScalar(c)
    ensures Run(Start, CharBytes(c)) == Start
  {
    if c < 0x80 {
      assert [c][1..] == [];
    } else if c < 0x800 {
      TwoByteRanges(c);
      RunTwo(Start, 0xC0 + c / 64, 0x80 + c % 64);
    } else if c < 0x1_0000 {
      ThreeByteRanges(c);
      RunThree(Start, 0xE0 + c / 4096, 0x80 + c / 64 % 64, 0x80 + c % 64);
    } else {
      FourByteRanges(c);
      RunFour(Start, 0xF0 + c / 262144, 0x80 + c / 4096 % 64, 0x80 + c / 64 % 64, 0x80 + c % 64);
    }
  }

  lemma {:induction false} EncodingIsAccepted(cs: seq<nat>)
    requires AllScalars(cs)
    ensures ValidUtf8(Utf8Of(cs))
  {
    if cs != [] {
      CharIsAccepted(cs[0]);
      EncodingIsAccepted(cs[1..]);
      RunAppend(Start, CharBytes(cs[0]), Utf8Of(cs[1..]));
    }
  }

  // ---------- everything accepted is an encoding ----------

  lemma TwoBytes(a: int, b: int) returns (n: nat)
    requires 0xC2 <= a <= 0xDF && 0x80 <= b <= 0xBF
    ensures IsScalar(n) && CharBytes(n) == [a, b]
  {
    n := (a - 0xC0) * 64 + (b - 0x80);
  }

  lemma ThreeBytes(a: int, b: int, c: int) returns (n: nat)
    requires 0xE0 <= a <= 0xEF && 0x80 <= b <= 0xBF && 0x80 <= c <= 0xBF
    requires (a == 0xE0 ==> b >= 0xA0) && (a == 0xED ==> b <= 0x9F)
    ensures IsScalar(n) && CharBytes(n) == [a, b, c]
  {
    n := (a - 0xE0) * 4096 + (b - 0x80) * 64 + (c - 0x80);
    assert n / 64 == (a - 0xE0) * 64 + (b - 0x80) && n % 64 == c - 0x80;
    assert n / 4096 == a - 0xE0;
  }

  lemma FourBytes(a: int, b: int, c: int, d: int) returns (n: nat)
    requires 0xF0 <= a <= 0xF4 && 0x80 <= b <= 0xBF && 0x80 <= c <= 0xBF && 0x80 <= d <= 0xBF
    requires (a == 0xF0 ==> b >= 0x90) && (a == 0xF4 ==> b <= 0x8F)
    ensures IsScalar(n) && CharBytes(n) == [a, b, c, d]
  {
    n := (a - 0xF0) * 262144 + (b - 0x80) * 4096 + (c - 0x80) * 64 + (d - 0x80);
    assert n / 64 == (a - 0xF0) * 4096 + (b - 0x80) * 64 + (c - 0x80) && n % 64 == d - 0x80;
    assert n / 4096 == (a - 0xF0) * 64 + (b - 0x80);
    assert n / 262144 == a - 0xF0;
  }

  /** A byte string that is accepted from `st` does not end there or go wrong on its first byte. */
  lemma FirstStep(st: State, s: bytes)
    requires Run(st, s) == Start && st != Start
    ensures s != [] && Next(st, s[0]) != Bad && Run(Next(st, s[0]), s[1..]) == Start
  {
    if s != [] && Next(st, s[0]) == Bad {
      BadStays(s[1..]);
    }
  }

  /** Accepted text starts with a character, and the rest is accepted too. */
  lemma FirstChar(s: bytes) returns (c: nat, rest: bytes)
    requires ValidUtf8(s) && s != []
    ensures IsScalar(c) && s == CharBytes(c) + rest && ValidUtf8(rest)
  {
    var a, t := s[0], s[1..];
    assert Run(Next(Start, a), t) == Start;
    if a < 0x80 {
      c, rest := a, t;
    } else if Next(Start, a) == Bad {
      BadStays(t);
    } else {
      FirstStep(Next(Start, a), t);
      var b, u := t[0], t[1..];
      if a <= 0xDF {
        c := TwoBytes(a, b);
        rest := u;
      } else {
        FirstStep(Next(Next(Start, a), b), u);
        var d, w := u[0], u[1..];
        if a <= 0xEF {
          c := ThreeBytes(a, b, d);
          rest := w;
        } else {
          FirstStep(Next(Next(Next(Start, a), b), d), w);
          c := FourBytes(a, b, d, w[0]);
          rest := w[1..];
        }
      }
    }
  }

  lemma {:induction false} AcceptedIsEncoding(s: bytes) returns (cs: seq<nat>)
    requires ValidUtf8(s)
    ensures AllScalars(cs) && s == Utf8Of(cs)
    decreases |s|
  {
    if s == [] {
      cs := [];
    } else {
      var c, rest := FirstChar(s);
      var tail := AcceptedIsEncoding(rest);
      cs := [c] + tail;
      assert cs[1..] == tail;
    }
  }

  /** The automaton accepts a byte string exactly when it is the UTF-8 encoding of some text. */
  lemma ValidUtf8Iff(s: bytes)
    ensures ValidUtf8(s) <==> exists cs :: AllScalars(cs) && s == Utf8Of(cs)
  {
    if ValidUtf8(s) {
      var cs := AcceptedIsEncoding(s);
    }
    if cs :| AllScalars(cs) && s == Utf8Of(cs) {
      EncodingIsAccepted(cs);
    }
  }

  // ---------- one text ----------

  lemma SameFirstChar(c: nat, d: nat, x: bytes, y: bytes)
    requires IsScalar(c) && IsScalar(d) && CharBytes(c) + x == CharBytes(d) + y
    ensures c == d && x == y
  {
    var p, q := CharBytes(c), CharBytes(d);
    assert (p + x)[0] == p[0] && (q + y)[0] == q[0];
    assert |p| == |q|;
    assert p == (p + x)[..|p|] && q == (q + y)[..|p|];
    assert x == (p + x)[|p|..] && y == (q + y)[|p|..];
    CharInjective(c, d);
  }

  lemma CharInjective(c: nat, d: nat)
    requires IsScalar(c) && IsScalar(d) && CharBytes(c) == CharBytes(d)
    ensures c == d
  {
    var p, q := CharBytes(c), CharBytes(d);
    Base64Digits(c);
    Base64Digits(d);
    if |p| == 1 {
      assert p[0] == q[0];
    } else if |p| == 2 {
      assert p[0] == q[0] && p[1] == q[1];
    } else if |p| == 3 {
      assert p[0] == q[0] && p[1] == q[1] && p[2] == q[2];
    } else {
      assert p[0] == q[0] && p[1] == q[1] && p[2] == q[2] && p[3] == q[3];
    }
  }

  /** Bytes are the encoding of at most one text. */
  lemma {:induction false} OneText(cs: seq<nat>, ds: seq<nat>)
    requires AllScalars(cs) && AllScalars(ds) && Utf8Of(cs) == Utf8Of(ds)
    ensures cs == ds
  {
    if cs == [] || ds == [] {
      assert cs == [] && ds == [];
    } else {
      SameFirstChar(cs[0], ds[0], Utf8Of(cs[1..]), Utf8Of(ds[1..]));
      OneText(cs[1..], ds[1..]);
      assert cs == [cs[0]] + cs[1..] && ds == [ds[0]] + ds[1..];
    }
  }
}
