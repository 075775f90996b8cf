/**
 * The two artifact stores: a bounded in-memory map, and a directory with one
 * file per artifact. Both bind an id to the first bytes put under it for good,
 * and a caller who keeps to safe ids and the size cap cannot tell them apart.
 */
module Stores {
  import opened Bytes
  import opened Utf8

  const SUFFIX: bytes := Ascii(".cbor")
  const SLASH: byte := '/' as int
  const BACKSLASH: byte := '\\' as int
  const DOT: byte := '.' as int

  datatype Op = Put(id: bytes, cbor: bytes) | Get(id: bytes)

  /** What a caller sees: a put that went through, the answer to a get, or an error. */
  datatype Reply = Stored | Found(data: Option<bytes>) | Refused

  // ---------- the memory store ----------

  /** A put the store considers at all: an id, some bytes, not too many. */
  predicate Admissible(max: nat, id: bytes, cbor: bytes) {
    id != [] && cbor != [] && |cbor| <= max
  }

  function MemReply(inner: map<bytes, bytes>, max: nat, op: Op): Reply {
    match op
    case Put(id, cbor) =>
      if Admissible(max, id, cbor) && (id in inner ==> inner[id] == cbor) then Stored else Refused
    case Get(id) => Found(if id in inner then Some(inner[id]) else None)
  }

  function MemState(inner: map<bytes, bytes>, max: nat, op: Op): map<bytes, bytes> {
    if op.Put? && MemReply(inner, max, op) == Stored then inner[op.id := op.cbor] else inner
  }

  class MemoryStore {
    var inner: map<bytes, bytes>
    const maxBytes: nat

    constructor (maxBytes: nat)
      ensures inner == map[] && this.maxBytes == maxBytes
    {
      inner := map[];
      this.maxBytes := maxBytes;
    }

    method DoPut(id: bytes, cbor: bytes) returns (r: Reply)
      modifies this
      ensures r == MemReply(old(inner), maxBytes, Put(id, cbor))
      ensures inner == MemState(old(inner), maxBytes, Put(id, cbor))
    {
      if id == [] || cbor == [] {
        return Refused;
      }
      if |cbor| > maxBytes {
        return Refused;
      }
      if id in inner && inner[id] != cbor {
        return Refused;
      }
      inner := inner[id := cbor];
      return Stored;
    }

    method DoGet(id: bytes) returns (r: Reply)
      ensures r == MemReply(inner, maxBytes, Get(id))
    {
      return Found(if id in inner then Some(inner[id]) else None);
    }
  }

  // ---------- the file store ----------

  predicate HasDotDot(id: bytes) {
    exists i :: 0 <= i < |id| - 1 && id[i] == DOT && id[i + 1] == DOT
  }

  /** The ids `path` accepts. */
  predicate SafeId(id: bytes) {
    id != [] && SLASH !in id && BACKSLASH !in id && !HasDotDot(id)
  }

  /** The components of a path, between separators of either kind. */
  function Components(path: bytes): (r: seq<bytes>)
    ensures r != []
  {
    if path == [] then [[]]
    else
      var rest := Components(path[1..]);
      if path[0] == '/' as int || path[0] == '\\' as int then [[]] + rest else [[path[0]] + rest[0]] + rest[1..]
  }

  lemma {:induction false} OneComponentIff(path: bytes)
    ensures |Components(path)| == 1 <==> SLASH !in path && BACKSLASH !in path
    ensures |Components(path)| == 1 ==> Components(path) == [path]
  {
    if path != [] {
      OneComponentIff(path[1..]);
      assert path == [path[0]] + path[1..];
    }
  }

  function WithDots(a: bytes, b: bytes): bytes {
    a + ['.' as int, '.' as int] + b
  }

  /** Two dots stand in a row somewhere. */
  ghost predicate Dotted(id: bytes) {
    exists a: bytes, b: bytes :: id == WithDots(a, b)
  }

  lemma DottedIff(id: bytes)
    ensures Dotted(id) <==> HasDotDot(id)
  {
    if a: bytes, b: bytes :| id == WithDots(a, b) {
      assert id[|a|] == DOT && id[|a| + 1] == DOT;
    }
    if HasDotDot(id) {
      var i :| 0 <= i < |id| - 1 && id[i] == DOT && id[i + 1] == DOT;
      assert id == WithDots(id[..i], id[i + 2..]);
    }
  }

  /**
   * The path check accepts exactly the ids, not empty and without two dots in a row, whose file name is a single path
   * component; so the file lies directly in the directory.
   */
  lemma SafeIdIff(id: bytes)
    ensures SafeId(id) <==> id != [] && !Dotted(id) && |Components(FileName(id))| == 1
    ensures SafeId(id) ==> Components(FileName(id)) == [FileName(id)]
    ensures FileName(id) != ['.' as int] && FileName(id) != ['.' as int, '.' as int]
  {
    DottedIff(id);
    OneComponentIff(FileName(id));
    assert |SUFFIX| == 5 && SLASH !in SUFFIX && BACKSLASH !in SUFFIX;
    assert SLASH in FileName(id) <==> SLASH in id || SLASH in SUFFIX;
    assert BACKSLASH in FileName(id) <==> BACKSLASH in id || BACKSLASH in SUFFIX;
  }

  function FileName(id: bytes): bytes {
    id + SUFFIX
  }

  function FileReply(dir: map<bytes, bytes>, op: Op): Reply {
    match op
    case Put(id, cbor) =>
      if cbor == [] || !SafeId(id) then Refused
      else if FileName(id) in dir && dir[FileName(id)] != cbor then Refused
      else Stored
    case Get(id) =>
      if !SafeId(id) then Refused
      else Found(if FileName(id) in dir then Some(dir[FileName(id)]) else None)
  }

  function FileState(dir: map<bytes, bytes>, op: Op): map<bytes, bytes> {
    if op.Put? && FileReply(dir, op) == Stored then dir[FileName(op.id) := op.cbor] else dir
  }

  class FileStore {
    var dir: map<bytes, bytes>

    method DoPut(id: bytes, cbor: bytes) returns (r: Reply)
      modifies this
      ensures r == FileReply(old(dir), Put(id, cbor))
      ensures dir == FileState(old(dir), Put(id, cbor))
    {
      if cbor == [] {
        return Refused;
      }
      if !SafeId(id) {
        return Refused;
      }
      var path := FileName(id);
      if path in dir {
        if dir[path] != cbor {
          return Refused;
        }
        assert dir[path := cbor] == dir;
        return Stored;
      }
      dir := dir[path := cbor];
      return Stored;
    }

    method DoGet(id: bytes) returns (r: Reply)
      ensures r == FileReply(dir, Get(id))
    {
      if !SafeId(id) {
        return Refused;
      }
      var path := FileName(id);
      return Found(if path in dir then Some(dir[path]) else None);
    }
  }

  // ---------- runs ----------

  function MemAfter(inner: map<bytes, bytes>, max: nat, ops: seq<Op>): map<bytes, bytes> {
    if ops == [] then inner else MemState(MemAfter(inner, max, ops[..|ops| - 1]), max, ops[|ops| - 1])
  }

  function FileAfter(dir: map<bytes, bytes>, ops: seq<Op>): map<bytes, bytes> {
    if ops == [] then dir else FileState(FileAfter(dir, ops[..|ops| - 1]), ops[|ops| - 1])
  }

  /** Which store decides: one with a size cap, or one with a path check. */
  datatype Kind = Memory(max: nat) | Directory

  /** A put the store considers at all. */
  predicate Considers(kind: Kind, id: bytes, cbor: bytes) {
    match kind
    case Memory(max) => Admissible(max, id, cbor)
    case Directory => cbor != [] && SafeId(id)
  }

  /** The bytes an id holds after a history: what it held before, or those of the first put the store considers. */
  ghost function FirstBound(kind: Kind, before: Option<bytes>, ops: seq<Op>, id: bytes): Option<bytes>
    decreases ops
  {
    if before.Some? || ops == [] then before
    else if ops[0].Put? && ops[0].id == id && Considers(kind, id, ops[0].cbor) then Some(ops[0].cbor)
    else FirstBound(kind, before, ops[1..], id)
  }

  ghost function Bound(inner: map<bytes, bytes>, id: bytes): Option<bytes> {
    if id in inner then Some(inner[id]) else None
  }

  lemma {:induction false} FirstBoundSnoc(kind: Kind, before: Option<bytes>, ops: seq<Op>, op: Op, id: bytes)
    ensures FirstBound(kind, before, ops + [op], id) ==
            var first := FirstBound(kind, before, ops, id);
            if first.Some? then first
            else if op.Put? && op.id == id && Considers(kind, id, op.cbor) then Some(op.cbor)
            else None
    decreases ops
  {
    if ops == [] {
      assert ops + [op] == [op] && [op][1..] == [];
    } else {
      assert (ops + [op])[1..] == ops[1..] + [op] && (ops + [op])[0] == ops[0];
      FirstBoundSnoc(kind, before, ops[1..], op, id);
    }
  }

  /** Write once: after any history an id holds the first bytes it was bound to, and nothing else ever. */
  lemma {:induction false} FirstPutWins(inner: map<bytes, bytes>, max: nat, ops: seq<Op>, id: bytes)
    ensures Bound(MemAfter(inner, max, ops), id) == FirstBound(Memory(max), Bound(inner, id), ops, id)
  {
    if ops != [] {
      var front, op := ops[..|ops| - 1], ops[|ops| - 1];
      FirstPutWins(inner, max, front, id);
      FirstBoundSnoc(Memory(max), Bound(inner, id), front, op, id);
      assert front + [op] == ops;
    }
  }

  /** The same for the directory. */
  lemma {:induction false} FirstFileWins(dir: map<bytes, bytes>, ops: seq<Op>, id: bytes)
    requires SafeId(id)
    ensures Bound(FileAfter(dir, ops), FileName(id)) == FirstBound(Directory, Bound(dir, FileName(id)), ops, id)
  {
    if ops != [] {
      var front, op := ops[..|ops| - 1], ops[|ops| - 1];
      FirstFileWins(dir, front, id);
      FirstBoundSnoc(Directory, Bound(dir, FileName(id)), front, op, id);
      assert front + [op] == ops;
      if FileName(op.id) == FileName(id) {
        FileNameInjective(op.id, id);
      }
    }
  }

  /** What a store answers, given the first bytes bound to the id: a put goes through for those only, a get returns them. */
  ghost function AnswerFrom(kind: Kind, first: Option<bytes>, op: Op): Reply {
    match op
    case Get(id) => Found(first)
    case Put(id, cbor) =>
      if Considers(kind, id, cbor) && (first.Some? ==> first.value == cbor) then Stored else Refused
  }

  lemma AnswersByHistory(inner: map<bytes, bytes>, max: nat, ops: seq<Op>, op: Op)
    ensures MemReply(MemAfter(inner, max, ops), max, op) ==
            AnswerFrom(Memory(max), FirstBound(Memory(max), Bound(inner, op.id), ops, op.id), op)
  {
    FirstPutWins(inner, max, ops, op.id);
  }

  /** The directory answers in the same way, and refuses every operation on an unsafe id. */
  lemma FileAnswersByHistory(dir: map<bytes, bytes>, ops: seq<Op>, op: Op)
    ensures FileReply(FileAfter(dir, ops), op) ==
            if SafeId(op.id) then
              AnswerFrom(Directory, FirstBound(Directory, Bound(dir, FileName(op.id)), ops, op.id), op)
            else Refused
  {
    if SafeId(op.id) {
      FirstFileWins(dir, ops, op.id);
    }
  }

  /** Files of any name keep their bytes. */
  lemma {:induction false} FilesKeepTheirBytes(dir: map<bytes, bytes>, ops: seq<Op>, name: bytes)
    requires name in dir
    ensures name in FileAfter(dir, ops) && FileAfter(dir, ops)[name] == dir[name]
  {
    if ops != [] {
      FilesKeepTheirBytes(dir, ops[..|ops| - 1], name);
    }
  }

  // ---------- one store for the other ----------

  /**
   * Operations both stores decide alike: ids the path check accepts and bytes
   * within the memory store's cap, and puts that both refuse outright.
   */
  ghost predicate Interchangeable(max: nat, op: Op) {
    match op
    case Get(id) => SafeId(id)
    case Put(id, cbor) => cbor == [] || (SafeId(id) <==> id != [] && |cbor| <= max)
  }

  /** The two stores hold the same under every safe id. */
  ghost predicate SameHoldings(inner: map<bytes, bytes>, dir: map<bytes, bytes>) {
    forall id :: SafeId(id) ==> Bound(inner, id) == Bound(dir, FileName(id))
  }

  lemma FileNameInjective(a: bytes, b: bytes)
    requires FileName(a) == FileName(b)
    ensures a == b
  {
    assert |a| == |b|;
    assert a == FileName(a)[..|a|] && b == FileName(b)[..|a|];
  }

  lemma StoresStepAlike(inner: map<bytes, bytes>, dir: map<bytes, bytes>, max: nat, op: Op)
    requires SameHoldings(inner, dir) && Interchangeable(max, op)
    ensures MemReply(inner, max, op) == FileReply(dir, op)
    ensures SameHoldings(MemState(inner, max, op), FileState(dir, op))
  {
    assert SafeId(op.id) ==> Bound(inner, op.id) == Bound(dir, FileName(op.id));
    forall id | SafeId(id)
      ensures Bound(MemState(inner, max, op), id) == Bound(FileState(dir, op), FileName(id))
    {
      assert Bound(inner, id) == Bound(dir, FileName(id));
      if FileName(id) == FileName(op.id) { FileNameInjective(id, op.id); }
    }
  }

  /** From matching states, on interchangeable operations, the two stores answer alike at every step of every run. */
  lemma {:induction false} StoresAgree(inner: map<bytes, bytes>, dir: map<bytes, bytes>, max: nat, ops: seq<Op>)
    requires SameHoldings(inner, dir) && forall i :: 0 <= i < |ops| ==> Interchangeable(max, ops[i])
    ensures SameHoldings(MemAfter(inner, max, ops), FileAfter(dir, ops))
    ensures forall i :: 0 <= i < |ops| ==>
              MemReply(MemAfter(inner, max, ops[..i]), max, ops[i]) == FileReply(FileAfter(dir, ops[..i]), ops[i])
  {
    if ops != [] {
      var front, op := ops[..|ops| - 1], ops[|ops| - 1];
      StoresAgree(inner, dir, max, front);
      StoresStepAlike(MemAfter(inner, max, front), FileAfter(dir, front), max, op);
      forall i | 0 <= i < |ops|
        ensures MemReply(MemAfter(inner, max, ops[..i]), max, ops[i]) == FileReply(FileAfter(dir, ops[..i]), ops[i])
      {
        if i < |front| {
          assert ops[..i] == front[..i] && ops[i] == front[i];
        }
      }
    }
  }

  /** That domain is exact: any other operation gets two different answers from some matching pair of stores. */
  lemma StoresAgreeIff(max: nat, op: Op)
    ensures (forall inner, dir :: SameHoldings(inner, dir) ==> MemReply(inner, max, op) == FileReply(dir, op))
            <==> Interchangeable(max, op)
  {
    if Interchangeable(max, op) {
      forall inner, dir | SameHoldings(inner, dir) ensures MemReply(inner, max, op) == FileReply(dir, op) {
        StoresStepAlike(inner, dir, max, op);
      }
    } else {
      assert SameHoldings(map[], map[]);
    }
  }
}
