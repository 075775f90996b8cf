/** UTF-8 as RFC 3629, section 4, defines it: what Rust's `str` and Python's `str.decode` accept. */
module Utf8 {
  import opened Bytes

  /** Between characters, or what must come next inside one. */
  datatype State =
    | Start
    | Tail1        // one more continuation byte
    | Tail2
    | Tail3
    | AfterE0      // no overlong three-byte form
    | AfterED      // no surrogate
    | AfterF0      // no overlong four-byte form
    | AfterF4      // at most U+10FFFF
    | Bad

  function Next(st: State, b: byte): State {
    match st
    case Start =>
      if b < 0x80 then Start
      else if 0xC2 <= b <= 0xDF then Tail1
      else if b == 0xE0 then AfterE0
      else if b == 0xED then AfterED
      else if 0xE1 <= b <= 0xEF then Tail2
      else if b == 0xF0 then AfterF0
      else if 0xF1 <= b <= 0xF3 then Tail3
      else if b == 0xF4 then AfterF4
      else Bad
    case Tail1 => if 0x80 <= b <= 0xBF then Start else Bad
    case Tail2 => if 0x80 <= b <= 0xBF then Tail1 else Bad
    case Tail3 => if 0x80 <= b <= 0xBF then Tail2 else Bad
    case AfterE0 => if 0xA0 <= b <= 0xBF then Tail1 else Bad
    case AfterED => if 0x80 <= b <= 0x9F then Tail1 else Bad
    case AfterF0 => if 0x90 <= b <= 0xBF then Tail2 else Bad
    case AfterF4 => if 0x80 <= b <= 0x8F then Tail2 else Bad
    case Bad => Bad
  }

  function Run(st: State, s: bytes): State
    decreases s
  {
    if s == [] then st else Run(Next(st, s[0]), s[1..])
  }

  predicate ValidUtf8(s: bytes) {
    Run(Start, s) == Start
  }

  /** A Rust `String`: valid UTF-8 of a length a `u64` can hold. */
  predicate IsString(s: bytes) {
    |s| < TWO_TO_THE_64 && ValidUtf8(s)
  }

  ghost predicate AllAscii(s: bytes) {
    forall i :: 0 <= i < |s| ==> s[i] < 0x80
  }

  lemma {:induction false} AsciiIsUtf8(s: bytes)
    requires AllAscii(s)
    ensures ValidUtf8(s)
  {
    if s != [] {
      AsciiIsUtf8(s[1..]);
    }
  }

  lemma {:induction false} RunAppend(st: State, a: bytes, b: bytes)
    ensures Run(st, a + b) == Run(Run(st, a), b)
    decreases a
  {
    if a == [] {
      assert a + b == b;
    } else {
      assert (a + b)[1..] == a[1..] + b;
      RunAppend(Next(st, a[0]), a[1..], b);
    }
  }

  lemma {:induction false} BadStays(s: bytes)
    ensures Run(Bad, s) == Bad
  {
    if s != [] {
      BadStays(s[1..]);
    }
  }

  /** An ASCII byte never stands inside a character. */
  lemma ValidAround(a: bytes, c: byte, b: bytes)
    requires c < 0x80
    ensures ValidUtf8(a + [c] + b) <==> ValidUtf8(a) && ValidUtf8(b)
  {
    RunAppend(Start, a + [c], b);
    RunAppend(Start, a, [c]);
    BadStays(b);
    assert Run(Run(Start, a), [c]) == Next(Run(Start, a), c) by {
      assert [c][1..] == [];
    }
  }

  /** The bytes of a literal of the source. */
  function Ascii(s: string): (b: bytes)
    requires |s| < 128 && forall i :: 0 <= i < |s| ==> s[i] as int < 0x80
    ensures |b| == |s| && AllAscii(b)
  {
    seq(|s|, i requires 0 <= i < |s| => s[i] as int)
  }
}
