/** Looking up map entries by a text key, and what sorting leaves of it. */
module CborLookup {
  import opened Bytes
  import opened CborOrder
  import opened CborValue
  import opened Utf8

  /** The value of the first entry with this name. */
  function Find(entries: seq<Entry>, name: bytes): Option<Value> {
    if entries == [] then None
    else if entries[0].key == Text(name) then Some(entries[0].val)
    else Find(entries[1..], name)
  }

  /** Under this name the entries hold this value. */
  ghost predicate Holding(entries: seq<Entry>, name: string, v: Value)
    requires |name| < 128 && forall i :: 0 <= i < |name| ==> name[i] as int < 0x80
  {
    Find(entries, Ascii(name)) == Some(v)
  }

  /** No two entries have the same key. */
  ghost predicate OneEach(entries: seq<Entry>) {
    forall i, j :: 0 <= i < j < |entries| ==> entries[i].key != entries[j].key
  }

  lemma AscendingIsOneEach(entries: seq<Entry>)
    requires Ascending(entries)
    ensures OneEach(entries)
  {
    forall i, j | 0 <= i < j < |entries| ensures entries[i].key != entries[j].key {
      LessIrreflexive(Encode(entries[i].key));
    }
  }

  lemma {:induction false} FindIs(entries: seq<Entry>, name: bytes, v: Value)
    requires OneEach(entries) && Entry(Text(name), v) in entries
    ensures Find(entries, name) == Some(v)
  {
    if entries[0].key == Text(name) {
      var i :| 0 <= i < |entries| && entries[i] == Entry(Text(name), v);
      assert i == 0;
    } else {
      assert entries == [entries[0]] + entries[1..];
      FindIs(entries[1..], name, v);
    }
  }

  lemma {:induction false} FindNothing(entries: seq<Entry>, name: bytes)
    requires forall e :: e in entries ==> e.key != Text(name)
    ensures Find(entries, name) == None
  {
    if entries != [] {
      assert entries == [entries[0]] + entries[1..];
      FindNothing(entries[1..], name);
    }
  }

  /** The entries of a map as the decoder returns them. */
  ghost function SortedEntries(entries: seq<Entry>): (r: seq<Entry>)
    ensures |r| == |entries|
  {
    SortEntries(SortMapsEntries(entries))
  }

  /** Under a name a map has one value, the same after sorting. */
  lemma FindSorted(entries: seq<Entry>, k: nat, name: bytes)
    requires UniqueKeys(entries) && k < |entries| && entries[k].key == Text(name)
    ensures Find(SortedEntries(entries), name) == Some(SortMaps(entries[k].val))
  {
    AscendingIffDistinct(entries);
    AscendingIsOneEach(SortedEntries(entries));
    SortEntriesMembers(SortMapsEntries(entries));
    assert SortMaps(Text(name)) == Text(name);
    assert SortMapsEntries(entries)[k] == Entry(Text(name), SortMaps(entries[k].val));
    FindIs(SortedEntries(entries), name, SortMaps(entries[k].val));
  }

  /** A name that is not there is not there after sorting. */
  lemma FindSortedNothing(entries: seq<Entry>, name: bytes)
    requires forall i :: 0 <= i < |entries| ==> entries[i].key.Text? && entries[i].key.text != name
    ensures Find(SortedEntries(entries), name) == None
  {
    var p := SortMapsEntries(entries);
    SortEntriesMembers(p);
    forall e | e in SortedEntries(entries) ensures e.key != Text(name) {
      assert e in p;
      var i :| 0 <= i < |p| && p[i] == e;
      assert SortMaps(entries[i].key) == entries[i].key;
    }
    FindNothing(SortedEntries(entries), name);
  }
}
