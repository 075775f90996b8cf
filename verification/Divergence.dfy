/**
 * Divergent claims in a composition: attestations with the same claim type and
 * subject but different fields. The detector compares each group with its
 * least-id member only.
 */
module Divergence {
  import opened Bytes
  import opened Claims
  import opened StableSort

  datatype Attestation = Attestation(claimType: bytes, subject: bytes, fields: seq<Field>)

  /** What a group shares. */
  datatype Topic = Topic(claimType: bytes, subject: bytes)

  datatype Conflict = Conflict(topic: Topic, base: bytes, other: bytes)

  function TopicOf(a: Attestation): Topic {
    Topic(a.claimType, a.subject)
  }

  // ---------- the property ----------

  type Members = map<bytes, Attestation>

  /** No two members of one topic disagree. */
  ghost predicate Consistent(m: Members) {
    forall x, y :: x in m && y in m && m[x].claimType == m[y].claimType && m[x].subject == m[y].subject ==>
                     m[x].fields == m[y].fields
  }

  /** The attestation is about this claim type and subject. */
  ghost predicate About(a: Attestation, topic: Topic) {
    a.claimType == topic.claimType && a.subject == topic.subject
  }

  /** `id` is the least id of its topic. */
  ghost predicate IsBase(m: Members, topic: Topic, id: bytes) {
    && id in m && About(m[id], topic)
    && forall x :: x in m && About(m[x], topic) ==> Leq(id, x)
  }

  /** A member that disagrees with the least-id member of its topic. */
  ghost predicate IsConflict(m: Members, c: Conflict) {
    && IsBase(m, c.topic, c.base)
    && c.other in m && About(m[c.other], c.topic)
    && m[c.other].fields != m[c.base].fields
  }

  lemma BaseIsUnique(m: Members, topic: Topic, a: bytes, b: bytes)
    requires IsBase(m, topic, a) && IsBase(m, topic, b)
    ensures a == b
  {
    LessTotal(a, b);
  }

  // ---------- grouping ----------

  type Groups = map<Topic, seq<Keyed<Attestation>>>

  /** The groups hold the members in `ids`, each once, under its topic. */
  ghost predicate Grouped(m: Members, ids: set<bytes>, g: Groups) {
    && ids <= m.Keys
    && (forall t :: t in g ==> g[t] != [] && Distinct(g[t]))
    && (forall t, k :: t in g && k in g[t] ==> k.key in ids && k.item == m[k.key] && TopicOf(k.item) == t)
    && (forall id :: id in ids ==> TopicOf(m[id]) in g && Keyed(id, m[id]) in g[TopicOf(m[id])])
  }

  /** Groups the members, visiting them in any order. */
  method GroupByTopic(m: Members) returns (g: Groups)
    ensures Grouped(m, m.Keys, g)
  {
    g := map[];
    var todo := m.Keys;
    while todo != {}
      invariant todo <= m.Keys
      invariant Grouped(m, m.Keys - todo, g)
    {
      var id :| id in todo;
      var t, k := TopicOf(m[id]), Keyed(id, m[id]);
      AddToGroup(m, m.Keys - todo, g, id);
      g := g[t := (if t in g then g[t] else []) + [k]];
      todo := todo - {id};
      assert m.Keys - todo == m.Keys - (todo + {id}) + {id};
    }
  }

  lemma AddToGroup(m: Members, ids: set<bytes>, g: Groups, id: bytes)
    requires Grouped(m, ids, g) && id in m && id !in ids
    ensures var t := TopicOf(m[id]);
            Grouped(m, ids + {id}, g[t := (if t in g then g[t] else []) + [Keyed(id, m[id])]])
  {
    var t, k := TopicOf(m[id]), Keyed(id, m[id]);
    var list := if t in g then g[t] else [];
    var h := g[t := list + [k]];
    assert Distinct(list + [k]) by {
      forall i | 0 <= i < |list| ensures list[i].key != id {
        assert list[i] in list;
      }
    }
    forall x | x in ids + {id} ensures TopicOf(m[x]) in h && Keyed(x, m[x]) in h[TopicOf(m[x])] {
      if x == id { assert k in list + [k]; }
    }
  }

  // ---------- the detector ----------

  /** The sorted group starts with the least id of its topic. */
  lemma GroupBase(m: Members, g: Groups, topic: Topic)
    requires Grouped(m, m.Keys, g) && topic in g
    ensures IsBase(m, topic, Sort(g[topic])[0].key)
    ensures forall k :: k in Sort(g[topic]) <==> k.key in m && k == Keyed(k.key, m[k.key]) && TopicOf(k.item) == topic
    ensures Increasing(Sort(g[topic]))
  {
    var group := Sort(g[topic]);
    SortMembers(g[topic]);
    SortDistinct(g[topic]);
    forall k ensures k in group <==> k.key in m && k == Keyed(k.key, m[k.key]) && TopicOf(k.item) == topic {
    }
    assert group[0] in group;
    forall x | x in m && TopicOf(m[x]) == topic ensures Leq(group[0].key, x) {
      assert Keyed(x, m[x]) in group;
      var i :| 0 <= i < |group| && group[i] == Keyed(x, m[x]);
      if i == 0 {
        LessIrreflexive(x);
      } else {
        LessAsymmetric(group[0].key, x);
      }
    }
  }

  /** `c` is the conflict between the first member of a sorted group and its `j`th. */
  ghost predicate Differs(group: seq<Keyed<Attestation>>, topic: Topic, j: nat, c: Conflict)
    requires j < |group|
  {
    c == Conflict(topic, group[0].key, group[j].key) && group[j].item.fields != group[0].item.fields
  }

  /** Some member before the `n`th makes this conflict with the first. */
  ghost predicate DiffersBefore(group: seq<Keyed<Attestation>>, topic: Topic, n: nat, c: Conflict)
    requires n <= |group|
  {
    exists j :: 1 <= j < n && Differs(group, topic, j, c)
  }

  /** The conflicts between the first member of a sorted group and those before the `n`th. */
  ghost predicate Reported(group: seq<Keyed<Attestation>>, topic: Topic, n: nat, out: seq<Conflict>)
    requires n <= |group|
  {
    (forall c :: c in out <==> DiffersBefore(group, topic, n, c)) && NoRepeats(out)
  }

  lemma DiffersStep(group: seq<Keyed<Attestation>>, topic: Topic, i: nat, c: Conflict)
    requires 1 <= i < |group|
    ensures DiffersBefore(group, topic, i + 1, c) <==> DiffersBefore(group, topic, i, c) || Differs(group, topic, i, c)
  {
    if DiffersBefore(group, topic, i, c) {
      var j :| 1 <= j < i && Differs(group, topic, j, c);
      assert 1 <= j < i + 1;
    }
  }

  lemma NotReportedYet(group: seq<Keyed<Attestation>>, topic: Topic, i: nat, c: Conflict)
    requires 1 <= i < |group| && Increasing(group) && c.other == group[i].key
    ensures !DiffersBefore(group, topic, i, c)
  {
    IncreasingIsSortedDistinct(group);
    forall j | 1 <= j < i ensures !Differs(group, topic, j, c) {
      assert group[j].key != group[i].key;
    }
  }

  lemma ReportNext(group: seq<Keyed<Attestation>>, topic: Topic, i: nat, out: seq<Conflict>)
    requires 1 <= i < |group| && Increasing(group) && Reported(group, topic, i, out)
    ensures var c := Conflict(topic, group[0].key, group[i].key);
            Reported(group, topic, i + 1, if group[0].item.fields != group[i].item.fields then out + [c] else out)
  {
    var c := Conflict(topic, group[0].key, group[i].key);
    var more := if group[0].item.fields != group[i].item.fields then out + [c] else out;
    NotReportedYet(group, topic, i, c);
    assert NoRepeats(more) by {
      assert forall j :: 0 <= j < |out| ==> out[j] in out;
    }
    forall d ensures d in more <==> DiffersBefore(group, topic, i + 1, d) {
      DiffersStep(group, topic, i, d);
    }
  }

  /** One group: its members that differ from the first, each once. */
  method ScanGroup(ghost m: Members, ghost g: Groups, topic: Topic, list: seq<Keyed<Attestation>>) returns (out: seq<Conflict>)
    requires Grouped(m, m.Keys, g) && topic in g && list == g[topic]
    ensures forall c :: c in out <==> IsConflict(m, c) && c.topic == topic
    ensures NoRepeats(out)
  {
    var group := Sort(list);
    GroupBase(m, g, topic);
    var base := group[0];
    out := [];
    for i := 1 to |group|
      invariant Reported(group, topic, i, out)
    {
      ReportNext(group, topic, i, out);
      var candidate := group[i];
      if base.item.fields != candidate.item.fields {
        out := out + [Conflict(topic, base.key, candidate.key)];
      }
    }
    ReportedAreConflicts(m, g, topic, out);
  }

  lemma ReportedAreConflicts(m: Members, g: Groups, topic: Topic, out: seq<Conflict>)
    requires Grouped(m, m.Keys, g) && topic in g
    requires Reported(Sort(g[topic]), topic, |Sort(g[topic])|, out)
    ensures forall c :: c in out <==> IsConflict(m, c) && c.topic == topic
  {
    forall c ensures c in out <==> IsConflict(m, c) && c.topic == topic {
      if c in out {
        assert DiffersBefore(Sort(g[topic]), topic, |Sort(g[topic])|, c);
        var j :| 1 <= j < |Sort(g[topic])| && Differs(Sort(g[topic]), topic, j, c);
        GroupHoldsConflict(m, g, topic, c, j);
      }
      if IsConflict(m, c) && c.topic == topic {
        var j := ConflictIsInGroup(m, g, topic, c);
      }
    }
  }

  lemma ConflictIsInGroup(m: Members, g: Groups, topic: Topic, c: Conflict) returns (j: nat)
    requires Grouped(m, m.Keys, g) && topic in g && IsConflict(m, c) && c.topic == topic
    ensures 1 <= j < |Sort(g[topic])| && Differs(Sort(g[topic]), topic, j, c)
  {
    var group := Sort(g[topic]);
    GroupBase(m, g, topic);
    assert group[0] in group && group[0].item == m[group[0].key];
    BaseIsUnique(m, topic, c.base, group[0].key);
    assert Keyed(c.other, m[c.other]) in group;
    j :| 0 <= j < |group| && group[j] == Keyed(c.other, m[c.other]);
  }

  lemma GroupHoldsConflict(m: Members, g: Groups, topic: Topic, c: Conflict, j: nat)
    requires Grouped(m, m.Keys, g) && topic in g
    requires 1 <= j < |Sort(g[topic])| && Differs(Sort(g[topic]), topic, j, c)
    ensures IsConflict(m, c) && c.topic == topic
  {
    var group := Sort(g[topic]);
    GroupBase(m, g, topic);
    assert group[0] in group && group[0].item == m[group[0].key];
    assert group[j] in group && group[j].item == m[c.other];
  }

  /**
   * The detector reports exactly the members that disagree with the least-id member of their topic, each once,
   * whatever order the maps are walked in; it reports nothing exactly when no two members of a topic disagree.
   */
  method DetectDivergence(m: Members) returns (out: seq<Conflict>)
    ensures forall c :: c in out <==> IsConflict(m, c)
    ensures NoRepeats(out)
    ensures out == [] <==> Consistent(m)
  {
    var g := GroupByTopic(m);
    out := [];
    var todo := g.Keys;
    while todo != {}
      invariant todo <= g.Keys
      invariant forall c :: c in out <==> IsConflict(m, c) && c.topic in g.Keys - todo
      invariant NoRepeats(out)
    {
      var topic :| topic in todo;
      var found := ScanGroup(m, g, topic, g[topic]);
      ghost var before := out;
      assert forall i, j :: 0 <= i < |out| && 0 <= j < |found| ==> out[i] != found[j] by {
        forall i, j | 0 <= i < |out| && 0 <= j < |found| ensures out[i] != found[j] {
          assert out[i] in out && found[j] in found;
        }
      }
      out := out + found;
      todo := todo - {topic};
    }
    forall c ensures c in out <==> IsConflict(m, c) {
      if IsConflict(m, c) { assert c.topic in g; }
    }
    NothingReportedIff(m, out);
  }

  /** Comparing with one representative is enough to see every disagreement. */
  lemma NothingReportedIff(m: Members, out: seq<Conflict>)
    requires forall c :: c in out <==> IsConflict(m, c)
    ensures out == [] <==> Consistent(m)
  {
    if out != [] {
      var c := out[0];
      assert c in out;
      assert m[c.other].fields != m[c.base].fields;
    }
    if out == [] {
      forall x, y | x in m && y in m && TopicOf(m[x]) == TopicOf(m[y]) ensures m[x].fields == m[y].fields {
        var base := LeastOfTopic(m, TopicOf(m[x]), x);
        assert Conflict(TopicOf(m[x]), base, x) !in out;
        assert Conflict(TopicOf(m[x]), base, y) !in out;
      }
    }
  }

  lemma LeastOfTopic(m: Members, topic: Topic, x: bytes) returns (base: bytes)
    requires x in m && TopicOf(m[x]) == topic
    ensures IsBase(m, topic, base)
  {
    base := x;
    LessIrreflexive(base);
    var todo := m.Keys - {x};
    while todo != {}
      invariant todo <= m.Keys
      invariant base in m && TopicOf(m[base]) == topic
      invariant forall y :: y in m && y !in todo && TopicOf(m[y]) == topic ==> Leq(base, y)
    {
      var y :| y in todo;
      todo := todo - {y};
      if TopicOf(m[y]) == topic && Less(y, base) {
        forall z | z in m && z !in todo && TopicOf(m[z]) == topic ensures Leq(y, z) {
          if z == y {
            LessIrreflexive(y);
          } else {
            LessAsymmetric(y, base);
            LeqTransitive(y, base, z);
          }
        }
        base := y;
      }
    }
  }
}
