/** Finite directed graphs as the iterators see them through GraphTraits: a set of
    nodes and, for each node, its children in iteration order. */
module Graphs {
  type Node = nat

  datatype Graph = Graph(succ: map<Node, seq<Node>>) {
    ghost predicate WellFormed() {
      forall u, v :: u in succ && v in succ[u] ==> v in succ
    }
  }

  ghost predicate Edge(g: Graph, u: Node, v: Node) {
    u in g.succ && v in g.succ[u]
  }

  ghost predicate IsPath(g: Graph, p: seq<Node>, u: Node, v: Node) {
    && |p| > 0 && p[0] == u && p[|p| - 1] == v
    && u in g.succ
    && forall i :: 0 <= i < |p| - 1 ==> Edge(g, p[i], p[i + 1])
  }

  /** v can be reached from u along zero or more edges. */
  ghost predicate Reach(g: Graph, u: Node, v: Node) {
    exists p :: IsPath(g, p, u, v)
  }

  lemma ReachRefl(g: Graph, u: Node)
    requires u in g.succ
    ensures Reach(g, u, u)
  {
    assert IsPath(g, [u], u, u);
  }

  lemma ReachEdge(g: Graph, u: Node, v: Node)
    requires Edge(g, u, v)
    ensures Reach(g, u, v)
  {
    assert IsPath(g, [u, v], u, v);
  }

  lemma ReachTrans(g: Graph, u: Node, v: Node, w: Node)
    requires Reach(g, u, v) && Reach(g, v, w)
    ensures Reach(g, u, w)
  {
    var p :| IsPath(g, p, u, v);
    var q :| IsPath(g, q, v, w);
    var r := p + q[1..];
    forall i | 0 <= i < |r| - 1 ensures Edge(g, r[i], r[i + 1]) {
      if i >= |p| - 1 {
        assert r[i] == q[i - |p| + 1] && r[i + 1] == q[i - |p| + 2];
      }
    }
    assert IsPath(g, r, u, w);
  }

  /** Appending an edge to a path. */
  lemma ReachStep(g: Graph, u: Node, v: Node, w: Node)
    requires Reach(g, u, v) && Edge(g, v, w)
    ensures Reach(g, u, w)
  {
    ReachEdge(g, v, w);
    ReachTrans(g, u, v, w);
  }

  ghost predicate Closed(g: Graph, s: set<Node>) {
    forall u, v :: u in s && Edge(g, u, v) ==> v in s
  }

  lemma {:induction false} PathStaysIn(g: Graph, s: set<Node>, p: seq<Node>, u: Node, v: Node, k: nat)
    requires Closed(g, s) && u in s && IsPath(g, p, u, v) && k < |p|
    ensures p[k] in s
  {
    if k > 0 {
      PathStaysIn(g, s, p, u, v, k - 1);
      assert Edge(g, p[k - 1], p[k - 1 + 1]);
    }
  }

  /** Nothing outside a closed set is reachable from inside it. */
  lemma ClosedReach(g: Graph, s: set<Node>, u: Node, v: Node)
    requires Closed(g, s) && u in s && Reach(g, u, v)
    ensures v in s
  {
    var p :| IsPath(g, p, u, v);
    PathStaysIn(g, s, p, u, v, |p| - 1);
  }

  lemma ReachInGraph(g: Graph, u: Node, v: Node)
    requires g.WellFormed() && Reach(g, u, v)
    ensures u in g.succ && v in g.succ
  {
    assert Closed(g, g.succ.Keys);
    ClosedReach(g, g.succ.Keys, u, v);
  }

  /** Two different nodes that reach each other: the first one has an edge into the loop. */
  lemma FirstStep(g: Graph, u: Node, v: Node) returns (x: Node)
    requires Reach(g, u, v) && u != v && g.WellFormed()
    ensures Edge(g, u, x) && Reach(g, x, v)
  {
    var p :| IsPath(g, p, u, v);
    x := p[1];
    assert Edge(g, p[0], p[0 + 1]);
    var q := p[1..];
    forall i | 0 <= i < |q| - 1 ensures Edge(g, q[i], q[i + 1]) {
      assert q[i] == p[i + 1] && q[i + 1] == p[i + 1 + 1];
    }
    assert IsPath(g, q, x, v);
  }

  ghost predicate Distinct<T>(s: seq<T>) {
    forall i, j :: 0 <= i < j < |s| ==> s[i] != s[j]
  }

  function SetOf<T>(s: seq<T>): (r: set<T>) {
    set x | x in s
  }

  lemma DistinctGrows<T>(s: seq<T>, x: T)
    requires Distinct(s + [x])
    ensures x !in s && SetOf(s) < SetOf(s + [x])
  {
    assert (s + [x])[|s|] == x;
    forall i | 0 <= i < |s| ensures s[i] != x {
      assert (s + [x])[i] == s[i];
    }
    assert x in SetOf(s + [x]) && x !in SetOf(s);
  }

  function Reversed<T>(s: seq<T>): (r: seq<T>)
    ensures |r| == |s| && forall i :: 0 <= i < |s| ==> r[i] == s[|s| - 1 - i]
  {
    if s == [] then [] else Reversed(s[1..]) + [s[0]]
  }

  lemma ReversedMembers<T>(s: seq<T>)
    ensures forall x :: x in Reversed(s) <==> x in s
  {
    forall x | x in s ensures x in Reversed(s) {
      var i :| 0 <= i < |s| && s[i] == x;
      assert Reversed(s)[|s| - 1 - i] == x;
    }
  }
}
