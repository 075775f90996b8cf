/**
 * The supersession check: the SUPERSEDES edges must form linear chains, free
 * of cycles and no longer than the depth limit. The search is Kahn's: it pops
 * nodes without unvisited predecessors and pushes what they release.
 */
module Supersedes {
  import opened Bytes
  import opened Results
  import opened Utf8
  import Provenance

  const SUPERSEDES: bytes := Ascii("SUPERSEDES")

  datatype Link = Link(source: bytes, target: bytes)

  function Links(edges: seq<Provenance.Edge>): seq<Link> {
    if edges == [] then []
    else
      var rest := Links(edges[..|edges| - 1]);
      var e := edges[|edges| - 1];
      if e.relType == SUPERSEDES then rest + [Link(e.source, e.target)] else rest
  }

  // ---------- the property ----------

  ghost predicate Arc(links: seq<Link>, a: bytes, b: bytes) {
    Link(a, b) in links
  }

  ghost predicate Linear(links: seq<Link>) {
    forall i, j :: 0 <= i < j < |links| ==> links[i].source != links[j].source && links[i].target != links[j].target
  }

  ghost predicate Chain(links: seq<Link>, p: seq<bytes>) {
    p != [] && forall i :: 0 <= i < |p| - 1 ==> Arc(links, p[i], p[i + 1])
  }

  ghost predicate Looped(links: seq<Link>) {
    exists p :: Chain(links, p) && |p| >= 2 && p[0] == p[|p| - 1]
  }

  /** Some chain has `n` nodes and none has more. */
  ghost predicate LongestChain(links: seq<Link>, n: nat) {
    && (exists p :: Chain(links, p) && |p| == n)
    && (forall p :: Chain(links, p) ==> |p| <= n)
  }

  // ---------- degrees ----------

  function Degree(deg: map<bytes, nat>, x: bytes): nat {
    if x in deg then deg[x] else 0
  }

  ghost function OutCount(links: seq<Link>, x: bytes): nat {
    if links == [] then 0
    else OutCount(links[..|links| - 1], x) + if links[|links| - 1].source == x then 1 else 0
  }

  ghost function InCount(links: seq<Link>, x: bytes): nat {
    if links == [] then 0
    else InCount(links[..|links| - 1], x) + if links[|links| - 1].target == x then 1 else 0
  }

  lemma {:induction false} CountedIff(links: seq<Link>, x: bytes)
    ensures OutCount(links, x) > 0 <==> exists i :: 0 <= i < |links| && links[i].source == x
    ensures InCount(links, x) > 0 <==> exists i :: 0 <= i < |links| && links[i].target == x
  {
    if links != [] {
      var front, last := links[..|links| - 1], |links| - 1;
      CountedIff(front, x);
      assert forall i :: 0 <= i < last ==> front[i] == links[i];
    }
  }

  ghost predicate AtMostOnce(links: seq<Link>, x: bytes) {
    OutCount(links, x) <= 1 && InCount(links, x) <= 1
  }

  lemma LinearSnocIff(links: seq<Link>, l: Link)
    ensures Linear(links + [l]) <==> Linear(links) && OutCount(links, l.source) == 0 && InCount(links, l.target) == 0
  {
    var more := links + [l];
    CountedIff(links, l.source);
    CountedIff(links, l.target);
    assert forall i :: 0 <= i < |links| ==> more[i] == links[i];
    assert more[|links|] == l;
  }

  /** Linear links are those that no node starts or ends twice. */
  lemma {:induction false} LinearIff(links: seq<Link>)
    ensures Linear(links) <==> forall x :: AtMostOnce(links, x)
  {
    if links != [] {
      var front, l := links[..|links| - 1], links[|links| - 1];
      assert links == front + [l];
      LinearIff(front);
      LinearSnocIff(front, l);
      if Linear(links) {
        forall x ensures AtMostOnce(links, x) {
          assert AtMostOnce(front, x);
        }
      } else if Linear(front) {
        assert !AtMostOnce(links, l.source) || !AtMostOnce(links, l.target);
      } else {
        var x :| !AtMostOnce(front, x);
        assert !AtMostOnce(links, x);
      }
    }
  }

  // ---------- the tables ----------

  datatype Tables = Tables(outDeg: map<bytes, nat>, inDeg: map<bytes, nat>, adj: map<bytes, seq<bytes>>, nodes: set<bytes>) {
    function Next(a: bytes): seq<bytes> {
      if a in adj then adj[a] else []
    }
  }

  ghost predicate DegreesTallied(links: seq<Link>, t: Tables) {
    forall x :: Degree(t.outDeg, x) == OutCount(links, x) && Degree(t.inDeg, x) == InCount(links, x)
  }

  ghost predicate NextTallied(links: seq<Link>, t: Tables) {
    && (forall a :: |t.Next(a)| == OutCount(links, a))
    && (forall a, b :: b in t.Next(a) <==> Arc(links, a, b))
  }

  ghost predicate NodesTallied(links: seq<Link>, t: Tables) {
    forall x :: x in t.nodes <==> OutCount(links, x) > 0 || InCount(links, x) > 0
  }

  ghost predicate Tallied(links: seq<Link>, t: Tables) {
    DegreesTallied(links, t) && NextTallied(links, t) && NodesTallied(links, t)
  }

  function Add(t: Tables, l: Link): Tables {
    Tables(t.outDeg[l.source := Degree(t.outDeg, l.source) + 1],
           t.inDeg[l.target := Degree(t.inDeg, l.target) + 1],
           t.adj[l.source := t.Next(l.source) + [l.target]],
           t.nodes + {l.source, l.target})
  }

  lemma CountsStep(links: seq<Link>, l: Link, x: bytes)
    ensures OutCount(links + [l], x) == OutCount(links, x) + if l.source == x then 1 else 0
    ensures InCount(links + [l], x) == InCount(links, x) + if l.target == x then 1 else 0
  {
    assert (links + [l])[..|links|] == links;
  }

  lemma AddDegrees(links: seq<Link>, t: Tables, l: Link)
    requires DegreesTallied(links, t) && NodesTallied(links, t)
    ensures DegreesTallied(links + [l], Add(t, l)) && NodesTallied(links + [l], Add(t, l))
  {
    forall x
      ensures Degree(Add(t, l).outDeg, x) == OutCount(links + [l], x) && Degree(Add(t, l).inDeg, x) == InCount(links + [l], x)
      ensures x in Add(t, l).nodes <==> OutCount(links + [l], x) > 0 || InCount(links + [l], x) > 0
    {
      CountsStep(links, l, x);
    }
  }

  lemma AddNext(links: seq<Link>, t: Tables, l: Link)
    requires NextTallied(links, t)
    ensures NextTallied(links + [l], Add(t, l))
  {
    var u, more := Add(t, l), links + [l];
    forall a ensures |u.Next(a)| == OutCount(more, a) {
      CountsStep(links, l, a);
    }
    forall a, b ensures b in u.Next(a) <==> Arc(more, a, b) {
      assert b in t.Next(a) <==> Arc(links, a, b);
    }
  }

  method Tally(links: seq<Link>) returns (t: Tables)
    ensures Tallied(links, t)
  {
    t := Tables(map[], map[], map[], {});
    for i := 0 to |links|
      invariant Tallied(links[..i], t)
    {
      AddDegrees(links[..i], t, links[i]);
      AddNext(links[..i], t, links[i]);
      assert links[..i] + [links[i]] == links[..i + 1];
      t := Add(t, links[i]);
    }
    assert links[..|links|] == links;
  }

  // ---------- the search ----------

  datatype State = State(indeg: map<bytes, nat>, dist: map<bytes, nat>, stack: seq<bytes>, longest: nat)

  ghost predicate InNodes(links: seq<Link>, nodes: set<bytes>) {
    forall a, b :: Arc(links, a, b) ==> a in nodes && b in nodes
  }

  ghost predicate IsSink(links: seq<Link>, a: bytes) {
    forall b :: !Arc(links, a, b)
  }

  /** Stacked or visited nodes are those with no link left to wait for. */
  ghost predicate StackHolds(nodes: set<bytes>, indeg: map<bytes, nat>, stack: seq<bytes>, done: set<bytes>) {
    && done <= nodes && NoRepeats(stack)
    && (forall x :: x in stack ==> x in nodes && x !in done)
    && (forall b :: b in nodes ==> (b in done || b in stack <==> Degree(indeg, b) == 0))
  }

  /** A node waits for its predecessor until that is visited. */
  ghost predicate DegreesHold(links: seq<Link>, indeg: map<bytes, nat>, done: set<bytes>) {
    && (forall a, b :: Arc(links, a, b) ==> b in indeg && indeg[b] == if a in done then 0 else 1)
    && (forall b :: Degree(indeg, b) > 0 ==> InCount(links, b) > 0)
  }

  /** A node's distance is one more than its visited predecessor's, and one without such. */
  ghost predicate DistancesHold(links: seq<Link>, nodes: set<bytes>, dist: map<bytes, nat>, done: set<bytes>)
    requires InNodes(links, nodes) && nodes <= dist.Keys
  {
    && (forall x :: x in nodes ==> dist[x] >= 1)
    && (forall a, b :: Arc(links, a, b) ==> dist[b] == if a in done then dist[a] + 1 else 1)
    && (forall b :: b in nodes && dist[b] > 1 ==> InCount(links, b) > 0)
  }

  ghost predicate LongestHolds(nodes: set<bytes>, dist: map<bytes, nat>, longest: nat)
    requires nodes <= dist.Keys
  {
    && (forall x :: x in nodes ==> dist[x] <= longest)
    && (exists x :: x in nodes && dist[x] == longest)
  }

  ghost predicate Progress(links: seq<Link>, nodes: set<bytes>, s: State, done: set<bytes>) {
    && InNodes(links, nodes) && nodes <= s.dist.Keys
    && StackHolds(nodes, s.indeg, s.stack, done)
    && DegreesHold(links, s.indeg, done)
    && DistancesHold(links, nodes, s.dist, done)
    && LongestHolds(nodes, s.dist, s.longest)
  }

  /** Visiting the link from a node at distance `d` to `m`. */
  function Relax(s: State, d: nat, m: bytes): State
    requires m in s.dist && m in s.indeg && s.indeg[m] > 0
  {
    var further := s.dist[m] < d + 1;
    var left := s.indeg[m] - 1;
    State(s.indeg[m := left],
          if further then s.dist[m := d + 1] else s.dist,
          if left == 0 then s.stack + [m] else s.stack,
          if further && s.longest < d + 1 then d + 1 else s.longest)
  }

  /** In a linear set of links a node has one successor and one predecessor at most. */
  lemma LinearNeighbours(links: seq<Link>, a: bytes, b: bytes, c: bytes, d: bytes)
    requires Linear(links) && Arc(links, a, b) && Arc(links, c, d)
    ensures a == c <==> b == d
  {
    var i :| 0 <= i < |links| && links[i] == Link(a, b);
    var j :| 0 <= j < |links| && links[j] == Link(c, d);
    if i < j {
      assert links[i].source != links[j].source && links[i].target != links[j].target;
    } else if j < i {
      assert links[j].source != links[i].source && links[j].target != links[i].target;
    }
  }

  /** The node on top has every predecessor visited, and its successor is neither visited nor stacked. */
  lemma TopReleased(links: seq<Link>, nodes: set<bytes>, s: State, done: set<bytes>, m: bytes)
    requires Progress(links, nodes, s, done) && s.stack != []
    requires Arc(links, s.stack[|s.stack| - 1], m)
    ensures m in nodes && m in s.indeg && s.indeg[m] == 1 && s.dist[m] == 1
    ensures m !in done && m !in s.stack
  {
    assert s.stack[|s.stack| - 1] in s.stack;
  }

  lemma PopSink(links: seq<Link>, nodes: set<bytes>, s: State, done: set<bytes>)
    requires Progress(links, nodes, s, done) && s.stack != []
    requires IsSink(links, s.stack[|s.stack| - 1])
    ensures Progress(links, nodes, s.(stack := s.stack[..|s.stack| - 1]), done + {s.stack[|s.stack| - 1]})
  {
    var n, rest := s.stack[|s.stack| - 1], s.stack[..|s.stack| - 1];
    assert s.stack == rest + [n];
    assert n in s.stack;
  }

  lemma PopStack(links: seq<Link>, nodes: set<bytes>, s: State, done: set<bytes>, m: bytes)
    requires Progress(links, nodes, s, done) && s.stack != []
    requires Arc(links, s.stack[|s.stack| - 1], m)
    ensures StackHolds(nodes, s.indeg[m := 0], s.stack[..|s.stack| - 1] + [m], done + {s.stack[|s.stack| - 1]})
  {
    var n, rest := s.stack[|s.stack| - 1], s.stack[..|s.stack| - 1];
    TopReleased(links, nodes, s, done, m);
    assert s.stack == rest + [n];
    assert n in s.stack;
  }

  lemma PopDistances(links: seq<Link>, nodes: set<bytes>, s: State, done: set<bytes>, m: bytes)
    requires Progress(links, nodes, s, done) && s.stack != [] && Linear(links)
    requires Arc(links, s.stack[|s.stack| - 1], m)
    ensures var n := s.stack[|s.stack| - 1];
            && DegreesHold(links, s.indeg[m := 0], done + {n})
            && DistancesHold(links, nodes, s.dist[m := s.dist[n] + 1], done + {n})
  {
    var n := s.stack[|s.stack| - 1];
    TopReleased(links, nodes, s, done, m);
    assert n in s.stack;
    forall a, b | Arc(links, a, b) ensures a == n <==> b == m {
      LinearNeighbours(links, a, b, n, m);
    }
  }

  lemma RelaxIs(s: State, d: nat, m: bytes)
    requires m in s.dist && m in s.indeg && s.indeg[m] == 1 && s.dist[m] < d + 1
    ensures Relax(s, d, m) ==
            State(s.indeg[m := 0], s.dist[m := d + 1], s.stack + [m], if s.longest < d + 1 then d + 1 else s.longest)
  {
  }

  lemma RaiseLongest(nodes: set<bytes>, dist: map<bytes, nat>, longest: nat, m: bytes, d: nat)
    requires nodes <= dist.Keys && LongestHolds(nodes, dist, longest) && m in nodes && dist[m] < d
    ensures LongestHolds(nodes, dist[m := d], if longest < d then d else longest)
  {
    if longest < d {
      assert dist[m := d][m] == d;
    } else {
      var x :| x in nodes && dist[x] == longest;
      assert dist[m := d][x] == longest;
    }
  }

  lemma PopLongest(links: seq<Link>, nodes: set<bytes>, s: State, done: set<bytes>, m: bytes)
    requires Progress(links, nodes, s, done) && s.stack != []
    requires Arc(links, s.stack[|s.stack| - 1], m)
    ensures var d := s.dist[s.stack[|s.stack| - 1]] + 1;
            LongestHolds(nodes, s.dist[m := d], if s.longest < d then d else s.longest)
  {
    TopReleased(links, nodes, s, done, m);
    assert s.stack[|s.stack| - 1] in s.stack;
    RaiseLongest(nodes, s.dist, s.longest, m, s.dist[s.stack[|s.stack| - 1]] + 1);
  }

  lemma PopRelaxes(links: seq<Link>, nodes: set<bytes>, s: State, done: set<bytes>, m: bytes)
    requires Progress(links, nodes, s, done) && s.stack != []
    requires Arc(links, s.stack[|s.stack| - 1], m)
    ensures m in s.dist && m in s.indeg && s.indeg[m] > 0
    ensures var n, rest := s.stack[|s.stack| - 1], s.stack[..|s.stack| - 1];
            var d := s.dist[n] + 1;
            Relax(s.(stack := rest), s.dist[n], m) ==
            State(s.indeg[m := 0], s.dist[m := d], rest + [m], if s.longest < d then d else s.longest)
  {
    TopReleased(links, nodes, s, done, m);
    assert s.stack[|s.stack| - 1] in s.stack;
    RelaxIs(s.(stack := s.stack[..|s.stack| - 1]), s.dist[s.stack[|s.stack| - 1]], m);
  }

  /** One round of the loop. */
  lemma PopLink(links: seq<Link>, nodes: set<bytes>, s: State, done: set<bytes>, m: bytes)
    requires Progress(links, nodes, s, done) && s.stack != [] && Linear(links)
    requires Arc(links, s.stack[|s.stack| - 1], m)
    ensures m in s.dist && m in s.indeg && s.indeg[m] > 0
    ensures var n := s.stack[|s.stack| - 1];
            Progress(links, nodes, Relax(s.(stack := s.stack[..|s.stack| - 1]), s.dist[n], m), done + {n})
  {
    PopStack(links, nodes, s, done, m);
    PopDistances(links, nodes, s, done, m);
    PopLongest(links, nodes, s, done, m);
    PopRelaxes(links, nodes, s, done, m);
  }

  // ---------- what a finished search means ----------

  lemma {:induction false} DistanceAlong(links: seq<Link>, nodes: set<bytes>, dist: map<bytes, nat>, p: seq<bytes>)
    requires InNodes(links, nodes) && nodes <= dist.Keys && DistancesHold(links, nodes, dist, nodes)
    requires Chain(links, p) && p[|p| - 1] in nodes
    ensures p[0] in nodes && dist[p[|p| - 1]] == dist[p[0]] + |p| - 1
  {
    if |p| > 1 {
      var q := p[..|p| - 1];
      assert Arc(links, p[|p| - 2], p[|p| - 1]);
      DistanceAlong(links, nodes, dist, q);
    }
  }

  lemma {:induction false} ChainTo(links: seq<Link>, nodes: set<bytes>, dist: map<bytes, nat>, x: bytes) returns (p: seq<bytes>)
    requires InNodes(links, nodes) && nodes <= dist.Keys && DistancesHold(links, nodes, dist, nodes)
    requires x in nodes
    ensures Chain(links, p) && |p| == dist[x] && p[|p| - 1] == x
    decreases dist[x]
  {
    if dist[x] == 1 {
      p := [x];
    } else {
      CountedIff(links, x);
      var k :| 0 <= k < |links| && links[k].target == x;
      var a := links[k].source;
      assert links[k] in links;
      assert Arc(links, a, x);
      var q := ChainTo(links, nodes, dist, a);
      p := q + [x];
      forall i | 0 <= i < |p| - 1 ensures Arc(links, p[i], p[i + 1]) {
        if i < |q| - 1 {
          assert p[i] == q[i] && p[i + 1] == q[i + 1];
        }
      }
    }
  }

  /** All visited: the links have no loop and the longest distance is the longest chain. */
  lemma VisitedAll(links: seq<Link>, nodes: set<bytes>, s: State)
    requires Progress(links, nodes, s, nodes)
    ensures !Looped(links) && LongestChain(links, s.longest)
  {
    forall p | Chain(links, p) ensures |p| <= s.longest && !(|p| >= 2 && p[0] == p[|p| - 1]) {
      if |p| >= 2 {
        assert Arc(links, p[|p| - 2], p[|p| - 1]);
        DistanceAlong(links, nodes, s.dist, p);
      } else {
        var x :| x in nodes && s.dist[x] == s.longest;
      }
    }
    var x :| x in nodes && s.dist[x] == s.longest;
    var p := ChainTo(links, nodes, s.dist, x);
  }

  ghost predicate HasSource(links: seq<Link>, stuck: set<bytes>, b: bytes) {
    exists a :: a in stuck && Arc(links, a, b)
  }

  /** Every node of `stuck` has a predecessor in it. */
  ghost predicate Backed(links: seq<Link>, stuck: set<bytes>) {
    forall b :: b in stuck ==> HasSource(links, stuck, b)
  }

  ghost predicate Inside(p: seq<bytes>, s: set<bytes>) {
    forall i :: 0 <= i < |p| ==> p[i] in s
  }

  lemma ChainCons(links: seq<Link>, a: bytes, q: seq<bytes>)
    requires Chain(links, q) && Arc(links, a, q[0])
    ensures Chain(links, [a] + q)
  {
    var p := [a] + q;
    forall i | 0 <= i < |p| - 1 ensures Arc(links, p[i], p[i + 1]) {
      if i > 0 {
        assert p[i] == q[i - 1] && p[i + 1] == q[i];
      }
    }
  }

  lemma {:induction false} WalkBack(links: seq<Link>, stuck: set<bytes>, x: bytes, n: nat) returns (p: seq<bytes>)
    requires Backed(links, stuck) && x in stuck
    ensures Chain(links, p) && |p| == n + 1 && Inside(p, stuck)
  {
    if n == 0 {
      p := [x];
    } else {
      var q := WalkBack(links, stuck, x, n - 1);
      assert HasSource(links, stuck, q[0]);
      var a :| a in stuck && Arc(links, a, q[0]);
      ChainCons(links, a, q);
      p := [a] + q;
    }
  }

  lemma {:induction false} NoRepeatsFits(p: seq<bytes>, s: set<bytes>)
    requires NoRepeats(p) && Inside(p, s)
    ensures |p| <= |s|
  {
    if p != [] {
      var q, x := p[..|p| - 1], p[|p| - 1];
      assert Inside(q, s - {x});
      NoRepeatsFits(q, s - {x});
    }
  }

  lemma Repeats(p: seq<bytes>, s: set<bytes>) returns (i: nat, j: nat)
    requires Inside(p, s) && |p| > |s|
    ensures i < j < |p| && p[i] == p[j]
  {
    if NoRepeats(p) {
      NoRepeatsFits(p, s);
    }
    i, j :| 0 <= i < j < |p| && p[i] == p[j];
  }

  lemma ChainPart(links: seq<Link>, p: seq<bytes>, i: nat, j: nat)
    requires Chain(links, p) && i < j <= |p|
    ensures Chain(links, p[i..j])
  {
    var q := p[i..j];
    forall k | 0 <= k < |q| - 1 ensures Arc(links, q[k], q[k + 1]) {
      assert q[k] == p[i + k] && q[k + 1] == p[i + k + 1];
    }
  }

  lemma LoopWithin(links: seq<Link>, p: seq<bytes>, i: nat, j: nat)
    requires Chain(links, p) && i < j < |p| && p[i] == p[j]
    ensures Looped(links)
  {
    ChainPart(links, p, i, j + 1);
    var q := p[i..j + 1];
    assert q[0] == p[i] && q[|q| - 1] == p[j];
  }

  /** A search that stops early has left a loop behind. */
  lemma StuckLoops(links: seq<Link>, stuck: set<bytes>)
    requires Backed(links, stuck) && stuck != {}
    ensures Looped(links)
  {
    var x :| x in stuck;
    var p := WalkBack(links, stuck, x, |stuck|);
    var i, j := Repeats(p, stuck);
    LoopWithin(links, p, i, j);
  }

  lemma LeftoverBacked(links: seq<Link>, nodes: set<bytes>, s: State, done: set<bytes>)
    requires Progress(links, nodes, s, done) && s.stack == []
    ensures Backed(links, nodes - done)
  {
    forall b | b in nodes - done ensures HasSource(links, nodes - done, b) {
      assert Degree(s.indeg, b) > 0;
      CountedIff(links, b);
      var k :| 0 <= k < |links| && links[k].target == b;
      assert links[k] in links;
      assert Arc(links, links[k].source, b);
    }
  }

  lemma SubsetSize(a: set<bytes>, b: set<bytes>)
    requires a <= b
    ensures |a| <= |b| && (|a| == |b| <==> a == b)
  {
    assert b == a + (b - a);
    assert a !! (b - a);
    assert |b| == |a| + |b - a|;
  }

  /** The nodes to start from, in whatever order the set yields them. */
  method Roots(nodes: set<bytes>, inDeg: map<bytes, nat>) returns (stack: seq<bytes>)
    ensures NoRepeats(stack)
    ensures forall x :: x in stack <==> x in nodes && Degree(inDeg, x) == 0
  {
    stack := [];
    var todo := nodes;
    while todo != {}
      invariant todo <= nodes && NoRepeats(stack)
      invariant forall x :: x in stack <==> x in nodes - todo && Degree(inDeg, x) == 0
    {
      var x :| x in todo;
      todo := todo - {x};
      if Degree(inDeg, x) == 0 {
        stack := stack + [x];
      }
    }
  }

  lemma ArcCounted(links: seq<Link>, a: bytes, b: bytes)
    requires Arc(links, a, b)
    ensures OutCount(links, a) > 0 && InCount(links, b) > 0
  {
    var i :| 0 <= i < |links| && links[i] == Link(a, b);
    CountedIff(links, a);
    CountedIff(links, b);
  }

  lemma StartHolds(links: seq<Link>, t: Tables, stack: seq<bytes>)
    requires Tallied(links, t) && links != [] && Linear(links) && NoRepeats(stack)
    requires forall x :: x in stack <==> x in t.nodes && Degree(t.inDeg, x) == 0
    ensures Progress(links, t.nodes, State(t.inDeg, map x | x in t.nodes :: 1, stack, 1), {})
  {
    LinearIff(links);
    forall a, b | Arc(links, a, b)
      ensures a in t.nodes && b in t.nodes && b in t.inDeg && t.inDeg[b] == 1
    {
      ArcCounted(links, a, b);
      assert AtMostOnce(links, b) && Degree(t.inDeg, b) == InCount(links, b);
    }
    assert links[0] in links;
    assert Arc(links, links[0].source, links[0].target);
  }

  /** The loop: run to exhaustion from the roots. */
  method Visit(links: seq<Link>, t: Tables, start: State) returns (longest: nat, seen: nat)
    requires Tallied(links, t) && Linear(links) && Progress(links, t.nodes, start, {})
    ensures seen == |t.nodes| <==> !Looped(links)
    ensures !Looped(links) ==> LongestChain(links, longest)
  {
    var s := start;
    ghost var done: set<bytes> := {};
    seen := 0;
    while s.stack != []
      invariant Progress(links, t.nodes, s, done) && seen == |done|
      decreases t.nodes - done
    {
      var n := s.stack[|s.stack| - 1];
      assert n in s.stack;
      var next := t.Next(n);
      OneSuccessor(links, t, n);
      if next == [] {
        PopSink(links, t.nodes, s, done);
      } else {
        PopLink(links, t.nodes, s, done, next[0]);
      }
      var d := s.dist[n];
      s := s.(stack := s.stack[..|s.stack| - 1]);
      ghost var popped := s;
      for k := 0 to |next|
        invariant s == if k == 0 then popped else Relax(popped, d, next[0])
      {
        s := Relax(s, d, next[k]);
      }
      done := done + {n};
      seen := seen + 1;
    }
    longest := s.longest;
    SubsetSize(done, t.nodes);
    if done == t.nodes {
      VisitedAll(links, t.nodes, s);
    } else {
      LeftoverBacked(links, t.nodes, s, done);
      assert t.nodes - done != {};
      StuckLoops(links, t.nodes - done);
    }
  }

  lemma OneSuccessor(links: seq<Link>, t: Tables, n: bytes)
    requires Tallied(links, t) && Linear(links)
    ensures |t.Next(n)| <= 1
    ensures t.Next(n) == [] ==> IsSink(links, n)
    ensures t.Next(n) != [] ==> Link(n, t.Next(n)[0]) in links
  {
    LinearIff(links);
    assert AtMostOnce(links, n);
    if t.Next(n) == [] {
      forall m ensures !Arc(links, n, m) {
        assert m !in t.Next(n);
      }
    } else {
      assert t.Next(n)[0] in t.Next(n);
    }
  }

  lemma DegreesTellLinear(links: seq<Link>, t: Tables)
    requires Tallied(links, t)
    ensures Linear(links) <==> forall n :: n in t.nodes ==> Degree(t.outDeg, n) <= 1 && Degree(t.inDeg, n) <= 1
  {
    LinearIff(links);
    forall n ensures AtMostOnce(links, n) <==> (n in t.nodes ==> Degree(t.outDeg, n) <= 1 && Degree(t.inDeg, n) <= 1) {
      assert Degree(t.outDeg, n) == OutCount(links, n);
    }
  }

  lemma NoLinksNoLoop()
    ensures !Looped([])
  {
    forall p: seq<bytes> | |p| >= 2 ensures !Chain([], p) {
      assert !Arc([], p[0], p[1]);
    }
  }

  // ---------- in terms of the edges ----------

  /** Some edge says that `a` supersedes `b`. */
  ghost predicate Superseded(edges: seq<Provenance.Edge>, a: bytes, b: bytes) {
    Provenance.Edge(a, Ascii("SUPERSEDES"), b) in edges
  }

  /** Two supersession edges share a start or an end. */
  ghost predicate Branches(edges: seq<Provenance.Edge>) {
    exists i, j :: 0 <= i < j < |edges| && Clash(edges[i], edges[j])
  }

  predicate Clash(e: Provenance.Edge, f: Provenance.Edge) {
    && e.relType == Ascii("SUPERSEDES") && f.relType == Ascii("SUPERSEDES")
    && (e.source == f.source || e.target == f.target)
  }

  /** Each node supersedes the next. */
  ghost predicate Supersession(edges: seq<Provenance.Edge>, p: seq<bytes>) {
    p != [] && forall i :: 0 <= i < |p| - 1 ==> Superseded(edges, p[i], p[i + 1])
  }

  ghost predicate Circular(edges: seq<Provenance.Edge>) {
    exists p :: Supersession(edges, p) && |p| >= 2 && p[0] == p[|p| - 1]
  }

  /** Some supersession has `n` nodes and none has more. */
  ghost predicate LongestSupersession(edges: seq<Provenance.Edge>, n: nat) {
    && (exists p :: Supersession(edges, p) && |p| == n)
    && (forall p :: Supersession(edges, p) ==> |p| <= n)
  }

  lemma {:induction false} LinksAreEdges(edges: seq<Provenance.Edge>, a: bytes, b: bytes)
    ensures Arc(Links(edges), a, b) <==> Superseded(edges, a, b)
  {
    if edges != [] {
      var front, e := edges[..|edges| - 1], edges[|edges| - 1];
      assert edges == front + [e];
      LinksAreEdges(front, a, b);
    }
  }

  lemma {:induction false} LinksCounted(edges: seq<Provenance.Edge>, x: bytes)
    ensures OutCount(Links(edges), x) > 0 <==>
            exists i :: 0 <= i < |edges| && edges[i].relType == SUPERSEDES && edges[i].source == x
    ensures InCount(Links(edges), x) > 0 <==>
            exists i :: 0 <= i < |edges| && edges[i].relType == SUPERSEDES && edges[i].target == x
  {
    if edges != [] {
      var front, e := edges[..|edges| - 1], edges[|edges| - 1];
      LinksCounted(front, x);
      if e.relType == SUPERSEDES {
        CountsStep(Links(front), Link(e.source, e.target), x);
      }
      assert forall i :: 0 <= i < |front| ==> front[i] == edges[i];
    }
  }

  lemma BranchesSnoc(front: seq<Provenance.Edge>, e: Provenance.Edge)
    ensures Branches(front + [e]) <==> Branches(front) || exists i :: 0 <= i < |front| && Clash(front[i], e)
  {
    var edges := front + [e];
    assert edges[|front|] == e && forall i :: 0 <= i < |front| ==> edges[i] == front[i];
    if Branches(front) {
      var i, j :| 0 <= i < j < |front| && Clash(front[i], front[j]);
      assert Clash(edges[i], edges[j]);
    }
    if i :| 0 <= i < |front| && Clash(front[i], e) {
      assert Clash(edges[i], edges[|front|]);
    }
  }

  lemma {:induction false} LinearEdges(edges: seq<Provenance.Edge>)
    ensures Linear(Links(edges)) <==> !Branches(edges)
  {
    if edges != [] {
      var front, e := edges[..|edges| - 1], edges[|edges| - 1];
      assert edges == front + [e];
      LinearEdges(front);
      BranchesSnoc(front, e);
      if e.relType == SUPERSEDES {
        LinearSnocIff(Links(front), Link(e.source, e.target));
        LinksCounted(front, e.source);
        LinksCounted(front, e.target);
      }
    }
  }

  lemma ChainsAreSupersessions(edges: seq<Provenance.Edge>, p: seq<bytes>)
    ensures Chain(Links(edges), p) <==> Supersession(edges, p)
  {
    forall i | 0 <= i < |p| - 1 ensures Arc(Links(edges), p[i], p[i + 1]) <==> Superseded(edges, p[i], p[i + 1]) {
      LinksAreEdges(edges, p[i], p[i + 1]);
    }
  }

  lemma LinksTell(edges: seq<Provenance.Edge>)
    ensures Links(edges) == [] <==> forall i :: 0 <= i < |edges| ==> edges[i].relType != Ascii("SUPERSEDES")
    ensures Looped(Links(edges)) <==> Circular(edges)
    ensures forall n: nat :: LongestChain(Links(edges), n) <==> LongestSupersession(edges, n)
  {
    NoLinks(edges);
    forall p ensures Chain(Links(edges), p) <==> Supersession(edges, p) {
      ChainsAreSupersessions(edges, p);
    }
  }

  lemma {:induction false} NoLinks(edges: seq<Provenance.Edge>)
    ensures Links(edges) == [] <==> forall i :: 0 <= i < |edges| ==> edges[i].relType != SUPERSEDES
  {
    if edges != [] {
      var front := edges[..|edges| - 1];
      NoLinks(front);
      assert forall i :: 0 <= i < |front| ==> front[i] == edges[i];
    }
  }

  /** `check_supersedes`: each outcome under exactly its own condition, and the length reported is that of the longest chain. */
  method CheckSupersedes(edges: seq<Provenance.Edge>, maxDepth: nat) returns (r: Result<nat>)
    ensures (forall i :: 0 <= i < |edges| ==> edges[i].relType != Ascii("SUPERSEDES")) ==> r == Ok(0)
    ensures r == Err(SchemaViolation) <==> Branches(edges)
    ensures r == Err(CycleDetected) <==> !Branches(edges) && Circular(edges)
    ensures !Branches(edges) && !Circular(edges) && (exists i :: 0 <= i < |edges| && edges[i].relType == Ascii("SUPERSEDES")) ==>
              exists n: nat :: LongestSupersession(edges, n) && r == if n > maxDepth then Err(LimitExceeded) else Ok(n)
  {
    LinearEdges(edges);
    LinksTell(edges);
    var links := Links(edges);
    if links == [] {
      NoLinksNoLoop();
      return Ok(0);
    }
    var t := Tally(links);
    DegreesTellLinear(links, t);
    if !forall n :: n in t.nodes ==> Degree(t.outDeg, n) <= 1 && Degree(t.inDeg, n) <= 1 {
      return Err(SchemaViolation);
    }
    var stack := Roots(t.nodes, t.inDeg);
    StartHolds(links, t, stack);
    var longest, seen := Visit(links, t, State(t.inDeg, map x | x in t.nodes :: 1, stack, 1));
    if seen != |t.nodes| {
      return Err(CycleDetected);
    }
    if longest > maxDepth {
      return Err(LimitExceeded);
    }
    return Ok(longest);
  }
}
