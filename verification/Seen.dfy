/**
 * The replay gate: a persistent set of `<context>::<proof id>` keys that is
 * read on every call and written back when a new pair is to be recorded.
 */
module Seen {
  import opened Bytes
  import opened Spelling
  import Base64Url

  const COLON: byte := ':' as int

  function Key(context: bytes, id: bytes): bytes {
    context + [COLON, COLON] + id
  }

  /** The store file: missing, readable, or not parseable. */
  datatype File = Missing | Readable(seen: set<bytes>) | Broken

  datatype Call = Call(context: bytes, id: bytes, record: bool)

  /** What a file holds; a missing one holds nothing. */
  function Contents(f: File): set<bytes> {
    if f.Readable? then f.seen else {}
  }

  /** Outcome of one call: `None` is an error, `Some(true)` a replay. */
  function GateResult(f: File, c: Call): Option<bool> {
    if f.Broken? then None else Some(Key(c.context, c.id) in Contents(f))
  }

  function GateState(f: File, c: Call): File {
    if GateResult(f, c) == Some(false) && c.record then Readable(Contents(f) + {Key(c.context, c.id)}) else f
  }

  class SeenStore {
    var file: File

    /** `gate`: a broken store is an error and stays as it is; only a new pair that is to be recorded changes the file. */
    method Gate(context: bytes, id: bytes, record: bool) returns (r: Option<bool>)
      modifies this
      ensures r == GateResult(old(file), Call(context, id, record))
      ensures file == GateState(old(file), Call(context, id, record))
    {
      if file.Broken? {
        return None;
      }
      var seen := Contents(file);
      var k := Key(context, id);
      if k in seen {
        return Some(true);
      }
      if record {
        seen := seen + {k};
        file := Readable(seen);
      }
      return Some(false);
    }
  }

  // ---------- runs ----------

  function StateAfter(f: File, calls: seq<Call>): File {
    if calls == [] then f else GateState(StateAfter(f, calls[..|calls| - 1]), calls[|calls| - 1])
  }

  /** The answer to the `i`th call of a run. */
  function Answer(f: File, calls: seq<Call>, i: nat): Option<bool>
    requires i < |calls|
  {
    GateResult(StateAfter(f, calls[..i]), calls[i])
  }

  /** Some call of the prefix was asked to record this pair. */
  ghost predicate RecordedBefore(calls: seq<Call>, i: nat, context: bytes, id: bytes)
    requires i <= |calls|
  {
    exists j :: 0 <= j < i && calls[j].record && calls[j].context == context && calls[j].id == id
  }

  // ---------- keys ----------

  /** An id that cannot be mistaken for part of a separator: no `::` inside, no `:` in front. */
  predicate Unambiguous(id: bytes) {
    && (id != [] ==> id[0] != COLON)
    && forall i :: 0 <= i < |id| - 1 ==> !(id[i] == COLON && id[i + 1] == COLON)
  }

  lemma ShorterContextDiffers(c1: bytes, i1: bytes, c2: bytes, i2: bytes)
    requires Unambiguous(i1) && |c1| < |c2|
    ensures Key(c1, i1) != Key(c2, i2)
  {
    var a, b, n, d := Key(c1, i1), Key(c2, i2), |c2|, |c2| - |c1|;
    if |a| == |b| {
      assert b[n] == COLON && b[n + 1] == COLON;
      if d == 1 {
        assert a[n + 1] == i1[0];
      } else {
        assert a[n] == i1[d - 2] && a[n + 1] == i1[d - 1];
      }
    }
  }

  /** Keys of unambiguous ids tell the pairs apart. */
  lemma KeyInjective(c1: bytes, i1: bytes, c2: bytes, i2: bytes)
    requires Unambiguous(i1) && Unambiguous(i2)
    ensures Key(c1, i1) == Key(c2, i2) <==> c1 == c2 && i1 == i2
  {
    if |c1| < |c2| {
      ShorterContextDiffers(c1, i1, c2, i2);
    } else if |c2| < |c1| {
      ShorterContextDiffers(c2, i2, c1, i1);
    } else if Key(c1, i1) == Key(c2, i2) {
      assert c1 == Key(c1, i1)[..|c1|] && c2 == Key(c2, i2)[..|c1|];
      assert i1 == Key(c1, i1)[|c1| + 2..] && i2 == Key(c2, i2)[|c1| + 2..];
    }
  }

  /** Other ids do collide: a separator can move from the id to the context. */
  lemma SeparatorMoves(context: bytes, x: bytes, id: bytes)
    ensures Key(context, x + [COLON, COLON] + id) == Key(context + [COLON, COLON] + x, id)
  {
    var a, b := Key(context, x + [COLON, COLON] + id), Key(context + [COLON, COLON] + x, id);
    assert a == b;
  }

  /** Some other pair with a longer context has the same key as `(context, id)`. */
  ghost predicate Shadowed(context: bytes, id: bytes) {
    exists c: bytes, i: bytes :: |context| < |c| && Key(c, i) == Key(context, id)
  }

  /** The exact condition: in every context, an id is shadowed by a longer context just when it is not unambiguous. */
  lemma UnambiguousIff(context: bytes, id: bytes)
    ensures Shadowed(context, id) <==> !Unambiguous(id)
  {
    if Unambiguous(id) {
      forall c: bytes, i: bytes | |context| < |c| ensures Key(c, i) != Key(context, id) {
        ShorterContextDiffers(context, id, c, i);
      }
    } else if id[0] == COLON {
      var a, b := Key(context, id), Key(context + [COLON], id[1..]);
      assert a == b;
    } else {
      var n :| 0 <= n < |id| - 1 && id[n] == COLON && id[n + 1] == COLON;
      assert id == id[..n] + [COLON, COLON] + id[n + 2..];
      SeparatorMoves(context, id[..n], id[n + 2..]);
    }
  }

  /** Well-shaped proof ids are unambiguous: base64url has no colon. */
  lemma ProofIdsAreUnambiguous(digest: bytes)
    ensures Unambiguous(PROOF_REF + Base64Url.Encode(digest))
  {
    var body := Base64Url.Encode(digest);
    var id := PROOF_REF + body;
    assert PROOF_REF[0] == 'p' as int && PROOF_REF[1] == 'r' as int && PROOF_REF[2] == 'f' as int;
    assert PROOF_REF[3] == COLON && PROOF_REF[4] == 'v' as int && PROOF_REF[5] == '1' as int && PROOF_REF[6] == COLON;
    forall i | 0 <= i < |id| - 1 ensures !(id[i] == COLON && id[i + 1] == COLON) {
      if i >= 6 {
        assert id[i + 1] == body[i - 6];
        assert body[i - 6] == Base64Url.Symbol(Base64Url.Digits(digest)[i - 6]);
      }
    }
  }

  // ---------- what a run guarantees ----------

  lemma {:induction false} ContentsAfter(f: File, calls: seq<Call>, k: bytes)
    requires !f.Broken?
    ensures !StateAfter(f, calls).Broken?
    ensures k in Contents(StateAfter(f, calls)) <==>
            k in Contents(f) || exists j :: 0 <= j < |calls| && calls[j].record && Key(calls[j].context, calls[j].id) == k
  {
    if calls != [] {
      var front := calls[..|calls| - 1];
      ContentsAfter(f, front, k);
      if k in Contents(StateAfter(f, calls)) && k !in Contents(StateAfter(f, front)) {
        assert calls[|calls| - 1].record && Key(calls[|calls| - 1].context, calls[|calls| - 1].id) == k;
      }
      forall j | 0 <= j < |calls| && calls[j].record && Key(calls[j].context, calls[j].id) == k
        ensures k in Contents(StateAfter(f, calls))
      {
        if j < |front| { assert front[j] == calls[j]; }
      }
    }
  }

  ghost predicate UnambiguousCalls(calls: seq<Call>) {
    forall i :: 0 <= i < |calls| ==> Unambiguous(calls[i].id)
  }

  /** A call reports a replay exactly when its pair was in the store at the start or recorded by an earlier call. */
  lemma ReplayIff(f: File, calls: seq<Call>, i: nat)
    requires !f.Broken? && i < |calls| && UnambiguousCalls(calls)
    ensures Answer(f, calls, i) == Some(Key(calls[i].context, calls[i].id) in Contents(f)
                                        || RecordedBefore(calls, i, calls[i].context, calls[i].id))
  {
    var c, front := calls[i], calls[..i];
    ContentsAfter(f, front, Key(c.context, c.id));
    forall j | 0 <= j < i
      ensures Key(front[j].context, front[j].id) == Key(c.context, c.id) <==>
              calls[j].context == c.context && calls[j].id == c.id
    {
      KeyInjective(calls[j].context, calls[j].id, c.context, c.id);
    }
  }

  /** No pair is let through and recorded twice. */
  lemma RecordedOnce(f: File, calls: seq<Call>, i: nat, j: nat)
    requires !f.Broken? && i < j < |calls| && UnambiguousCalls(calls)
    requires calls[i].record && calls[i].context == calls[j].context && calls[i].id == calls[j].id
    ensures Answer(f, calls, j) == Some(true)
  {
    ReplayIff(f, calls, j);
    assert RecordedBefore(calls, j, calls[j].context, calls[j].id);
  }

  /** A broken store answers no call. */
  lemma {:induction false} BrokenStaysBroken(calls: seq<Call>)
    ensures StateAfter(Broken, calls) == Broken
  {
    if calls != [] {
      BrokenStaysBroken(calls[..|calls| - 1]);
    }
  }
}
