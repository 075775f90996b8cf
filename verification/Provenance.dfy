/**
 * Cycle detection in the provenance graph: a depth-first search with an
 * explicit stack of (node, finished) frames and three colours, over the edges
 * whose endpoints are members of the proof.
 */
module Provenance {
  import opened Bytes
  import opened Results
  import opened Utf8

  /** A verified relationship, as far as topology is concerned. */
  datatype Edge = Edge(source: bytes, relType: bytes, target: bytes)

  const REFERENCES: bytes := Ascii("REFERENCES")
  const EQUIVALENT: bytes := Ascii("EQUIVALENT")

  // ---------- the property ----------

  /** Some edge of a kind that counts leads from one member to another. */
  ghost predicate Linked(edges: seq<Edge>, nodes: set<bytes>, ignored: set<bytes>, a: bytes, b: bytes) {
    a in nodes && b in nodes && exists e :: e in edges && e.source == a && e.target == b && e.relType !in ignored
  }

  predicate Counts(e: Edge, nodes: set<bytes>, ignored: set<bytes>) {
    e.relType !in ignored && e.source in nodes && e.target in nodes
  }

  /** A closed walk of at least one edge. */
  ghost predicate IsCycle(edges: seq<Edge>, nodes: set<bytes>, ignored: set<bytes>, walk: seq<bytes>) {
    && |walk| >= 2 && walk[0] == walk[|walk| - 1]
    && forall i :: 0 <= i < |walk| - 1 ==> Linked(edges, nodes, ignored, walk[i], walk[i + 1])
  }

  ghost predicate Cyclic(edges: seq<Edge>, nodes: set<bytes>, ignored: set<bytes>) {
    exists walk :: IsCycle(edges, nodes, ignored, walk)
  }

  // ---------- the adjacency lists ----------

  datatype Graph = Graph(adj: map<bytes, seq<bytes>>, all: set<bytes>) {
    function Next(a: bytes): seq<bytes> {
      if a in adj then adj[a] else []
    }

    ghost predicate Arc(a: bytes, b: bytes) {
      b in Next(a)
    }

    /** Arcs stay inside `all`. */
    ghost predicate Closed() {
      forall a, b :: Arc(a, b) ==> a in all && b in all
    }
  }

  method BuildGraph(edges: seq<Edge>, nodes: set<bytes>, ignored: set<bytes>) returns (g: Graph)
    ensures g.Closed()
    ensures forall a, b :: g.Arc(a, b) <==> Linked(edges, nodes, ignored, a, b)
  {
    var adj: map<bytes, seq<bytes>>, all: set<bytes> := map[], {};
    for i := 0 to |edges|
      invariant Graph(adj, all).Closed()
      invariant forall a, b :: Graph(adj, all).Arc(a, b) <==> Linked(edges[..i], nodes, ignored, a, b)
    {
      var e := edges[i];
      LinkedStep(edges, nodes, ignored, i);
      if Counts(e, nodes, ignored) {
        ghost var before := Graph(adj, all);
        var list := (if e.source in adj then adj[e.source] else []) + [e.target];
        adj := adj[e.source := list];
        all := all + {e.source, e.target};
        forall a, b ensures Graph(adj, all).Arc(a, b) <==> before.Arc(a, b) || (a == e.source && b == e.target) {
        }
      }
    }
    assert edges[..|edges|] == edges;
    g := Graph(adj, all);
  }

  lemma LinkedStep(edges: seq<Edge>, nodes: set<bytes>, ignored: set<bytes>, i: nat)
    requires i < |edges|
    ensures forall a, b :: Linked(edges[..i + 1], nodes, ignored, a, b) <==>
              || Linked(edges[..i], nodes, ignored, a, b)
              || (Counts(edges[i], nodes, ignored) && edges[i].source == a && edges[i].target == b)
  {
    assert edges[..i + 1] == edges[..i] + [edges[i]];
    forall a, b
      ensures Linked(edges[..i + 1], nodes, ignored, a, b) <==>
              || Linked(edges[..i], nodes, ignored, a, b)
              || (Counts(edges[i], nodes, ignored) && edges[i].source == a && edges[i].target == b)
    {
      if Linked(edges[..i], nodes, ignored, a, b) {
        var e :| e in edges[..i] && e.source == a && e.target == b && e.relType !in ignored;
        assert e in edges[..i + 1];
      }
      if Counts(edges[i], nodes, ignored) && edges[i].source == a && edges[i].target == b {
        assert edges[i] in edges[..i + 1];
      }
    }
  }

  // ---------- the state of the search ----------

  datatype Color = White | Gray | Black

  datatype Frame = Frame(node: bytes, done: bool)

  type Colors = map<bytes, Color>

  /** A frame was pushed by the closest finished-marker below it, along an arc. */
  ghost predicate HasParent(g: Graph, stack: seq<Frame>, j: nat)
    requires j < |stack|
  {
    exists i :: 0 <= i < j && ParentAt(g, stack, i, j)
  }

  ghost predicate ParentAt(g: Graph, stack: seq<Frame>, i: nat, j: nat)
    requires i < j < |stack|
  {
    stack[i].done && g.Arc(stack[i].node, stack[j].node) && forall k :: i < k < j ==> !stack[k].done
  }

  ghost predicate Chained(g: Graph, stack: seq<Frame>) {
    forall j :: 1 <= j < |stack| ==> HasParent(g, stack, j)
  }

  /** The gray nodes are the markers on the stack, each once. */
  ghost predicate GraysOnStack(color: Colors, stack: seq<Frame>) {
    && (forall n :: n in color && color[n] == Gray ==> Frame(n, true) in stack)
    && (forall i :: 0 <= i < |stack| ==> stack[i].node in color)
    && (forall i :: 0 <= i < |stack| && stack[i].done ==> color[stack[i].node] == Gray)
    && (forall i, j :: 0 <= i < j < |stack| && stack[i].done && stack[j].done ==> stack[i].node != stack[j].node)
  }

  /** What an open node still leads to is black or waiting above it. */
  ghost predicate Waiting(g: Graph, color: Colors, stack: seq<Frame>) {
    forall i, m :: 0 <= i < |stack| && stack[i].done && g.Arc(stack[i].node, m) ==> Settled(color, stack, i, m)
  }

  ghost predicate Settled(color: Colors, stack: seq<Frame>, i: nat, m: bytes) {
    (m in color && color[m] == Black) || exists j :: i < j < |stack| && stack[j].node == m
  }

  /** The black nodes in the order they were finished: arcs lead only to earlier ones. */
  ghost predicate Finished(g: Graph, color: Colors, order: seq<bytes>) {
    && (forall n :: n in order <==> n in color && color[n] == Black)
    && (forall i, m :: 0 <= i < |order| && g.Arc(order[i], m) ==> m in order[..i])
  }

  ghost predicate Searching(g: Graph, color: Colors, stack: seq<Frame>, order: seq<bytes>) {
    && color.Keys == g.all
    && GraysOnStack(color, stack)
    && Chained(g, stack)
    && Waiting(g, color, stack)
    && Finished(g, color, order)
  }

  lemma KeepsParent(g: Graph, stack: seq<Frame>, s: seq<Frame>, j: nat)
    requires j < |stack| && j < |s| && HasParent(g, stack, j)
    requires s[j].node == stack[j].node && forall k :: 0 <= k < j ==> s[k] == stack[k]
    ensures HasParent(g, s, j)
  {
    var i :| 0 <= i < j && ParentAt(g, stack, i, j);
    assert ParentAt(g, s, i, j);
  }

  // ---------- the three moves ----------

  /** Popping a marker: the node is finished. */
  lemma FinishNode(g: Graph, color: Colors, stack: seq<Frame>, order: seq<bytes>)
    requires Searching(g, color, stack, order) && stack != [] && stack[|stack| - 1].done
    ensures var t := |stack| - 1;
            Searching(g, color[stack[t].node := Black], stack[..t], order + [stack[t].node])
  {
    var t := |stack| - 1;
    var n := stack[t].node;
    var c, s, o := color[n := Black], stack[..t], order + [n];
    forall i, m | 0 <= i < |o| && g.Arc(o[i], m) ensures m in o[..i] {
      if i == |order| {
        assert Settled(color, stack, t, m);
        assert o[..i] == order;
      } else {
        assert o[..i] == order[..i];
      }
    }
    FinishKeepsWaiting(g, color, stack);
    FinishKeepsGrays(color, stack);
    forall j | 1 <= j < |s| ensures HasParent(g, s, j) {
      KeepsParent(g, stack, s, j);
    }
  }

  lemma FinishKeepsWaiting(g: Graph, color: Colors, stack: seq<Frame>)
    requires Waiting(g, color, stack) && stack != [] && stack[|stack| - 1].node in color
    ensures var t := |stack| - 1;
            Waiting(g, color[stack[t].node := Black], stack[..t])
  {
    var t := |stack| - 1;
    var c, s := color[stack[t].node := Black], stack[..t];
    forall i, m | 0 <= i < |s| && s[i].done && g.Arc(s[i].node, m) ensures Settled(c, s, i, m) {
      assert Settled(color, stack, i, m);
      if !(m in color && color[m] == Black) {
        var j :| i < j < |stack| && stack[j].node == m;
        if j < t { assert s[j].node == m; }
      }
    }
  }

  lemma FinishKeepsGrays(color: Colors, stack: seq<Frame>)
    requires GraysOnStack(color, stack) && stack != [] && stack[|stack| - 1].done
    ensures var t := |stack| - 1;
            GraysOnStack(color[stack[t].node := Black], stack[..t])
  {
    var t := |stack| - 1;
    var c, s := color[stack[t].node := Black], stack[..t];
    forall n | n in c && c[n] == Gray ensures Frame(n, true) in s {
      var i :| 0 <= i < |stack| && stack[i] == Frame(n, true);
      assert s[i] == Frame(n, true);
    }
  }

  /** Popping an entry whose node is already black. */
  lemma SkipBlack(g: Graph, color: Colors, stack: seq<Frame>, order: seq<bytes>)
    requires Searching(g, color, stack, order) && stack != [] && !stack[|stack| - 1].done
    requires color[stack[|stack| - 1].node] == Black
    ensures Searching(g, color, stack[..|stack| - 1], order)
  {
    var t := |stack| - 1;
    var s := stack[..t];
    assert color[stack[t].node := Black] == color;
    FinishKeepsWaiting(g, color, stack);
    forall n | n in color && color[n] == Gray ensures Frame(n, true) in s {
      var i :| 0 <= i < |stack| && stack[i] == Frame(n, true);
      assert s[i] == Frame(n, true);
    }
    forall j | 1 <= j < |s| ensures HasParent(g, s, j) {
      KeepsParent(g, stack, s, j);
    }
  }

  /** The children of a node that get pushed: those not black. */
  function Pending(color: Colors, next: seq<bytes>): (r: seq<Frame>)
    ensures forall f :: f in r ==> !f.done && f.node in next
  {
    if next == [] then []
    else
      var m := next[|next| - 1];
      Pending(color, next[..|next| - 1]) +
      (if m in color && color[m] == Black then [] else [Frame(m, false)])
  }

  lemma {:induction false} PendingCovers(color: Colors, next: seq<bytes>, m: bytes)
    requires m in next
    ensures (m in color && color[m] == Black) || Frame(m, false) in Pending(color, next)
  {
    var last := |next| - 1;
    if next[last] != m {
      PendingCovers(color, next[..last], m);
    }
  }

  /** Popping a white node: it turns gray, its marker and its pending children go on the stack. */
  lemma OpenNode(g: Graph, color: Colors, stack: seq<Frame>, order: seq<bytes>)
    requires g.Closed() && Searching(g, color, stack, order) && stack != [] && !stack[|stack| - 1].done
    requires color[stack[|stack| - 1].node] == White
    ensures var n := stack[|stack| - 1].node;
            var c := color[n := Gray];
            Searching(g, c, stack[..|stack| - 1] + [Frame(n, true)] + Pending(c, g.Next(n)), order)
  {
    var t := |stack| - 1;
    var n := stack[t].node;
    var c := color[n := Gray];
    var s := stack[..t] + [Frame(n, true)] + Pending(c, g.Next(n));
    assert forall i :: 0 <= i < t ==> s[i] == stack[i];
    assert s[t] == Frame(n, true);
    assert forall j :: t < j < |s| ==> s[j] in Pending(c, g.Next(n));
    OpenKeepsGrays(g, color, stack, s);
    OpenKeepsChain(g, stack, s);
    OpenKeepsWaiting(g, color, stack, s);
  }

  /** `s` is `stack` with its top entry marked and children of that node above it. */
  ghost predicate Opened(g: Graph, color: Colors, stack: seq<Frame>, s: seq<Frame>) {
    && 0 < |stack| <= |s|
    && (forall i :: 0 <= i < |stack| - 1 ==> s[i] == stack[i])
    && s[|stack| - 1] == Frame(stack[|stack| - 1].node, true)
    && (forall j :: |stack| <= j < |s| ==> !s[j].done && g.Arc(stack[|stack| - 1].node, s[j].node))
  }

  lemma OpenKeepsGrays(g: Graph, color: Colors, stack: seq<Frame>, s: seq<Frame>)
    requires g.Closed() && color.Keys == g.all && GraysOnStack(color, stack) && Opened(g, color, stack, s)
    requires !stack[|stack| - 1].done && color[stack[|stack| - 1].node] == White
    ensures GraysOnStack(color[stack[|stack| - 1].node := Gray], s)
  {
    var t := |stack| - 1;
    var n := stack[t].node;
    var c := color[n := Gray];
    forall x | x in c && c[x] == Gray ensures Frame(x, true) in s {
      if x == n {
        assert s[t] == Frame(x, true);
      } else {
        var i :| 0 <= i < |stack| && stack[i] == Frame(x, true);
        assert s[i] == Frame(x, true);
      }
    }
    forall i | 0 <= i < |s| ensures s[i].node in c && (s[i].done ==> c[s[i].node] == Gray) {
      if i < t {
        assert s[i] == stack[i];
      }
    }
    forall i, j | 0 <= i < j < |s| && s[i].done && s[j].done ensures s[i].node != s[j].node {
      assert j <= t;
      assert s[i] == stack[i];
      if j == t { assert color[s[i].node] == Gray; }
    }
  }

  lemma OpenKeepsChain(g: Graph, stack: seq<Frame>, s: seq<Frame>)
    requires Chained(g, stack) && Opened(g, map[], stack, s)
    ensures Chained(g, s)
  {
    var t := |stack| - 1;
    forall j | 1 <= j < |s| ensures HasParent(g, s, j) {
      if j <= t {
        KeepsParent(g, stack, s, j);
      } else {
        assert ParentAt(g, s, t, j);
      }
    }
  }

  lemma OpenKeepsWaiting(g: Graph, color: Colors, stack: seq<Frame>, s: seq<Frame>)
    requires Waiting(g, color, stack) && Opened(g, color, stack, s)
    requires stack[|stack| - 1].node in color && color[stack[|stack| - 1].node] == White
    requires var n := stack[|stack| - 1].node;
             s == stack[..|stack| - 1] + [Frame(n, true)] + Pending(color[n := Gray], g.Next(n))
    ensures Waiting(g, color[stack[|stack| - 1].node := Gray], s)
  {
    var t := |stack| - 1;
    var n := stack[t].node;
    var c := color[n := Gray];
    forall i, m | 0 <= i < |s| && s[i].done && g.Arc(s[i].node, m) ensures Settled(c, s, i, m) {
      if i < t {
        assert Settled(color, stack, i, m);
        if !(m in color && color[m] == Black) {
          var j :| i < j < |stack| && stack[j].node == m;
          assert s[j].node == m;
        }
      } else {
        PendingCovers(c, g.Next(n), m);
        if !(m in c && c[m] == Black) {
          var k :| 0 <= k < |Pending(c, g.Next(n))| && Pending(c, g.Next(n))[k] == Frame(m, false);
          assert s[t + 1 + k] == Frame(m, false);
        }
      }
    }
  }

  // ---------- what the verdict means ----------

  ghost predicate IsWalk(g: Graph, walk: seq<bytes>) {
    walk != [] && forall i :: 0 <= i < |walk| - 1 ==> g.Arc(walk[i], walk[i + 1])
  }

  /** From one marker on the stack there is a walk to every marker above it. */
  lemma {:induction false} WalkUp(g: Graph, stack: seq<Frame>, i: nat, t: nat) returns (walk: seq<bytes>)
    requires Chained(g, stack) && i <= t < |stack| && stack[i].done && stack[t].done
    ensures IsWalk(g, walk) && walk[0] == stack[i].node && walk[|walk| - 1] == stack[t].node
    decreases t
  {
    if i == t {
      walk := [stack[i].node];
    } else {
      assert HasParent(g, stack, t);
      var p :| 0 <= p < t && ParentAt(g, stack, p, t);
      var w := WalkUp(g, stack, i, p);
      walk := w + [stack[t].node];
    }
  }

  /** An arc from a marker back to a gray node at or below it closes a cycle. */
  lemma GrayClosesCycle(g: Graph, stack: seq<Frame>, i: nat, p: nat) returns (walk: seq<bytes>)
    requires Chained(g, stack) && i <= p < |stack| && stack[i].done && stack[p].done
    requires g.Arc(stack[p].node, stack[i].node)
    ensures IsWalk(g, walk) && |walk| >= 2 && walk[0] == walk[|walk| - 1]
  {
    var w := WalkUp(g, stack, i, p);
    walk := w + [stack[i].node];
  }

  /** Along a walk inside a finishing order, positions go down. */
  lemma {:induction false} WalkDescends(g: Graph, order: seq<bytes>, walk: seq<bytes>, i: nat, k: nat) returns (j: nat)
    requires IsWalk(g, walk) && k < |walk| && i < |order| && order[i] == walk[0]
    requires forall a, m :: 0 <= a < |order| && g.Arc(order[a], m) ==> m in order[..a]
    ensures j < |order| && order[j] == walk[k] && (if k == 0 then j == i else j < i)
    decreases k
  {
    if k == 0 {
      j := i;
    } else {
      var a := WalkDescends(g, order, walk, i, k - 1);
      assert g.Arc(walk[k - 1], walk[k]);
      assert walk[k] in order[..a];
      j :| 0 <= j < a && order[..a][j] == walk[k];
    }
  }

  /** A finishing order leaves no room for a cycle. */
  lemma {:induction false} NoCycleFrom(g: Graph, order: seq<bytes>, walk: seq<bytes>, i: nat)
    requires IsWalk(g, walk) && |walk| >= 2 && walk[0] == walk[|walk| - 1]
    requires forall a, m :: 0 <= a < |order| && g.Arc(order[a], m) ==> m in order[..a]
    requires i < |order| && order[i] == walk[0]
    ensures false
    decreases i
  {
    var j := WalkDescends(g, order, walk, i, |walk| - 1);
    NoCycleFrom(g, order, walk, j);
  }

  ghost predicate HasCycle(g: Graph) {
    exists walk :: IsWalk(g, walk) && |walk| >= 2 && walk[0] == walk[|walk| - 1]
  }

  lemma AllFinishedIsAcyclic(g: Graph, color: Colors, order: seq<bytes>)
    requires g.Closed() && color.Keys == g.all && Finished(g, color, order)
    requires forall n :: n in g.all ==> color[n] == Black
    ensures !HasCycle(g)
  {
    if HasCycle(g) {
      var walk :| IsWalk(g, walk) && |walk| >= 2 && walk[0] == walk[|walk| - 1];
      assert g.Arc(walk[0], walk[1]);
      assert walk[0] in order;
      var i :| 0 <= i < |order| && order[i] == walk[0];
      NoCycleFrom(g, order, walk, i);
    }
  }

  // ---------- the search ----------

  ghost function Whites(color: Colors): set<bytes> {
    set n | n in color && color[n] == White
  }

  lemma WhitesShrink(color: Colors, n: bytes, c: Color)
    requires n in color && c != White
    ensures Whites(color[n := c]) == Whites(color) - {n}
  {
  }

  /** Nodes finished before stay finished. */
  ghost predicate KeepsBlack(colors: Colors, color: Colors) {
    forall n :: n in colors && colors[n] == Black ==> n in color && color[n] == Black
  }

  lemma NoGrayWithoutStack(color: Colors, n: bytes)
    requires GraysOnStack(color, []) && n in color
    ensures color[n] != Gray
  {
  }

  /** One outer round: everything reachable from `start` is finished, or a cycle was met. */
  method Explore(g: Graph, colors: Colors, start: bytes, ghost finished: seq<bytes>)
    returns (cycle: bool, color: Colors, ghost order: seq<bytes>)
    requires g.Closed() && start in g.all
    requires Searching(g, colors, [], finished)
    ensures cycle ==> HasCycle(g)
    ensures !cycle ==> Searching(g, color, [], order) && color[start] == Black
    ensures !cycle ==> KeepsBlack(colors, color)
  {
    color, order, cycle := colors, finished, false;
    if color[start] != White {
      NoGrayWithoutStack(color, start);
      return;
    }
    var stack := [Frame(start, false)];
    while stack != []
      invariant Searching(g, color, stack, order)
      invariant if stack == [] then color[start] == Black else stack[0].node == start
      invariant KeepsBlack(colors, color)
      decreases Whites(color), |stack|
    {
      var t := |stack| - 1;
      var n, processed := stack[t].node, stack[t].done;
      assert n in g.all;
      if processed {
        FinishNode(g, color, stack, order);
        WhitesShrink(color, n, Black);
        color, stack, order := color[n := Black], stack[..t], order + [n];
        continue;
      }
      if color[n] == Black {
        SkipBlack(g, color, stack, order);
        stack := stack[..t];
        continue;
      }
      if color[n] == Gray {
        PoppedGrayCloses(g, color, stack, order);
        cycle := true;
        return;
      }
      WhitesShrink(color, n, Gray);
      color, stack, cycle := OpenTop(g, color, stack, order);
      if cycle {
        return;
      }
    }
  }

  /** Opening the white node on top: it turns gray, and its unfinished successors go on the stack. */
  method OpenTop(g: Graph, colors: Colors, frames: seq<Frame>, ghost order: seq<bytes>)
    returns (color: Colors, stack: seq<Frame>, cycle: bool)
    requires g.Closed() && Searching(g, colors, frames, order) && frames != [] && !frames[|frames| - 1].done
    requires colors[frames[|frames| - 1].node] == White
    ensures color == colors[frames[|frames| - 1].node := Gray]
    ensures cycle ==> HasCycle(g)
    ensures !cycle ==> Searching(g, color, stack, order) && stack != [] && stack[0].node == frames[0].node
  {
    var t := |frames| - 1;
    var n := frames[t].node;
    OpenNode(g, colors, frames, order);
    color := colors[n := Gray];
    ghost var grown := frames[..t] + [Frame(n, true)] + Pending(color, g.Next(n));
    stack, cycle := PushChildren(g, color, frames[..t] + [Frame(n, true)], n);
    assert grown[t] == Frame(n, true);
    if cycle {
      GrayChildCloses(g, color, grown, order, t);
    }
  }

  /** The inner loop over a node's successors. */
  method PushChildren(g: Graph, color: Colors, base: seq<Frame>, n: bytes) returns (stack: seq<Frame>, grayChild: bool)
    ensures grayChild ==> exists m :: g.Arc(n, m) && m in color && color[m] == Gray
    ensures !grayChild ==> stack == base + Pending(color, g.Next(n))
  {
    stack := base;
    var next := g.Next(n);
    assert next[..0] == [];
    for i := 0 to |next|
      invariant stack == base + Pending(color, next[..i])
    {
      var m := next[i];
      assert next[..i + 1][..i] == next[..i] && m in next;
      if m in color && color[m] == Gray {
        return stack, true;
      }
      if !(m in color && color[m] == Black) {
        stack := stack + [Frame(m, false)];
      }
    }
    assert next[..|next|] == next;
    return stack, false;
  }

  /** A gray successor of the node just opened closes a cycle. */
  lemma GrayChildCloses(g: Graph, color: Colors, stack: seq<Frame>, order: seq<bytes>, t: nat)
    requires Searching(g, color, stack, order)
    requires t < |stack| && stack[t].done && forall k :: t < k < |stack| ==> !stack[k].done
    requires exists m :: g.Arc(stack[t].node, m) && m in color && color[m] == Gray
    ensures HasCycle(g)
  {
    var m :| g.Arc(stack[t].node, m) && m in color && color[m] == Gray;
    assert Frame(m, true) in stack;
    var i :| 0 <= i < |stack| && stack[i] == Frame(m, true);
    var walk := GrayClosesCycle(g, stack, i, t);
  }

  /** So does a gray node met again before its marker. */
  lemma PoppedGrayCloses(g: Graph, color: Colors, stack: seq<Frame>, order: seq<bytes>)
    requires Searching(g, color, stack, order) && stack != [] && !stack[|stack| - 1].done
    requires color[stack[|stack| - 1].node] == Gray
    ensures HasCycle(g)
  {
    var t := |stack| - 1;
    assert Frame(stack[t].node, true) in stack;
    var i :| 0 <= i < |stack| && stack[i] == Frame(stack[t].node, true);
    assert HasParent(g, stack, t);
    var p :| 0 <= p < t && ParentAt(g, stack, p, t);
    var walk := GrayClosesCycle(g, stack, i, p);
  }

  /** The whole search, over an arbitrary order of start nodes. */
  method Search(g: Graph) returns (cycle: bool)
    requires g.Closed()
    ensures cycle <==> HasCycle(g)
  {
    var color: Colors := map n | n in g.all :: White;
    ghost var order: seq<bytes> := [];
    var todo := g.all;
    while todo != {}
      invariant todo <= g.all
      invariant Searching(g, color, [], order)
      invariant forall n :: n in g.all - todo ==> color[n] == Black
    {
      var start :| start in todo;
      var found;
      found, color, order := Explore(g, color, start, order);
      if found {
        return true;
      }
      todo := todo - {start};
    }
    AllFinishedIsAcyclic(g, color, order);
    return false;
  }

  /** The search both checks run, over the kinds of edge they do not ignore. */
  method CheckAcyclic(edges: seq<Edge>, nodes: set<bytes>, ignored: set<bytes>) returns (r: Result<()>)
    ensures r.Ok? <==> !Cyclic(edges, nodes, ignored)
    ensures r.Err? ==> r.code == CycleDetected
  {
    var g := BuildGraph(edges, nodes, ignored);
    assert HasCycle(g) <==> Cyclic(edges, nodes, ignored) by {
      if HasCycle(g) {
        var walk :| IsWalk(g, walk) && |walk| >= 2 && walk[0] == walk[|walk| - 1];
        assert IsCycle(edges, nodes, ignored, walk);
      }
      if Cyclic(edges, nodes, ignored) {
        var walk :| IsCycle(edges, nodes, ignored, walk);
        assert IsWalk(g, walk);
      }
    }
    var cycle := Search(g);
    if cycle {
      return Err(CycleDetected);
    }
    return Ok(());
  }

  /** `check_acyclic_provenance`: the opt-in profile also forbids cycles of references. */
  method CheckAcyclicProvenance(edges: seq<Edge>, nodes: set<bytes>) returns (r: Result<()>)
    ensures r.Ok? <==> !Cyclic(edges, nodes, {Ascii("EQUIVALENT")})
    ensures r.Err? ==> r.code == CycleDetected
  {
    r := CheckAcyclic(edges, nodes, {EQUIVALENT});
  }

  /** `check_derivation_acyclic`: always on, leaves references alone. */
  method CheckDerivationAcyclic(edges: seq<Edge>, nodes: set<bytes>) returns (r: Result<()>)
    ensures r.Ok? <==> !Cyclic(edges, nodes, {Ascii("REFERENCES"), Ascii("EQUIVALENT")})
    ensures r.Err? ==> r.code == CycleDetected
  {
    r := CheckAcyclic(edges, nodes, {REFERENCES, EQUIVALENT});
  }

  /** The fewer kinds are ignored, the stricter the check; so the opt-in profile implies the default one. */
  lemma StricterWithFewerIgnored(edges: seq<Edge>, nodes: set<bytes>, few: set<bytes>, many: set<bytes>)
    requires few <= many && Cyclic(edges, nodes, many)
    ensures Cyclic(edges, nodes, few)
  {
    var walk :| IsCycle(edges, nodes, many, walk);
    forall i | 0 <= i < |walk| - 1 ensures Linked(edges, nodes, few, walk[i], walk[i + 1]) {
      assert Linked(edges, nodes, many, walk[i], walk[i + 1]);
    }
    assert IsCycle(edges, nodes, few, walk);
  }
}
