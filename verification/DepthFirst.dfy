/** Recursive depth-first search, children from first to last: the order that the iterators
    with explicit stacks must agree with. */
module DepthFirst {
  import opened Graphs
  import opened Collections

  /** The nodes seen in the end, those found on the way in the order they were entered, and in the
      order they were left. */
  datatype Walk = Walk(seen: set<Node>, pre: seq<Node>, post: seq<Node>)

  /** The search from a node not seen yet. */
  ghost function Visit(g: Graph, n: Node, seen: set<Node>): (w: Walk)
    requires g.WellFormed() && n in g.succ && n !in seen
    ensures seen + {n} <= w.seen
    decreases g.succ.Keys - seen, 0, 0
  {
    assert n in g.succ.Keys - seen && n !in g.succ.Keys - (seen + {n});
    var w := VisitChildren(g, n, 0, seen + {n});
    Walk(w.seen, [n] + w.pre, w.post + [n])
  }

  /** The search from the children of n from number j on. */
  ghost function VisitChildren(g: Graph, n: Node, j: nat, seen: set<Node>): (w: Walk)
    requires g.WellFormed() && n in g.succ && j <= |g.succ[n]|
    ensures seen <= w.seen
    decreases g.succ.Keys - seen, 1, |g.succ[n]| - j
  {
    if j == |g.succ[n]| then Walk(seen, [], [])
    else
      var c := g.succ[n][j];
      if c in seen then VisitChildren(g, n, j + 1, seen)
      else
        var a := Visit(g, c, seen);
        assert c in g.succ.Keys - seen && c !in g.succ.Keys - a.seen;
        var b := VisitChildren(g, n, j + 1, a.seen);
        Walk(b.seen, a.pre + b.pre, a.post + b.post)
  }

  /** The nodes in the order a search from the entry leaves them, or enters them; the nodes of drop
      are never entered. */
  ghost function PostOrderOf(g: Graph, entry: Node, drop: set<Node>): (s: seq<Node>)
    requires g.WellFormed() && entry in g.succ
  {
    if entry in drop then [] else Visit(g, entry, drop).post
  }

  ghost function PreOrderOf(g: Graph, entry: Node, drop: set<Node>): (s: seq<Node>)
    requires g.WellFormed() && entry in g.succ
  {
    if entry in drop then [] else Visit(g, entry, drop).pre
  }

  // ----- Each node once -----

  /** s has the nodes of a, each once. */
  ghost predicate Lists(s: seq<Node>, a: set<Node>) {
    Distinct(s) && forall n :: n in s <==> n in a
  }

  lemma ListsBoth(s: seq<Node>, a: set<Node>, t: seq<Node>, b: set<Node>)
    requires Lists(s, a) && Lists(t, b) && a !! b
    ensures Lists(s + t, a + b)
  {
    forall i, j | 0 <= i < j < |s + t| ensures (s + t)[i] != (s + t)[j] {
      if i < |s| <= j {
        assert s[i] in a && t[j - |s|] in b;
      }
    }
  }

  lemma {:induction false} VisitLists(g: Graph, n: Node, seen: set<Node>)
    requires g.WellFormed() && n in g.succ && n !in seen
    ensures var w := Visit(g, n, seen); Lists(w.pre, w.seen - seen) && Lists(w.post, w.seen - seen)
    decreases g.succ.Keys - seen, 0, 0
  {
    assert n in g.succ.Keys - seen && n !in g.succ.Keys - (seen + {n});
    var w := VisitChildren(g, n, 0, seen + {n});
    ChildrenList(g, n, 0, seen + {n});
    var a := w.seen - (seen + {n});
    assert w.seen - seen == {n} + a == a + {n};
    ListsBoth([n], {n}, w.pre, a);
    ListsBoth(w.post, a, [n], {n});
  }

  lemma {:induction false} ChildrenList(g: Graph, n: Node, j: nat, seen: set<Node>)
    requires g.WellFormed() && n in g.succ && j <= |g.succ[n]|
    ensures var w := VisitChildren(g, n, j, seen); Lists(w.pre, w.seen - seen) && Lists(w.post, w.seen - seen)
    decreases g.succ.Keys - seen, 1, |g.succ[n]| - j
  {
    if j < |g.succ[n]| {
      var c := g.succ[n][j];
      if c in seen {
        ChildrenList(g, n, j + 1, seen);
      } else {
        var a := Visit(g, c, seen);
        assert c in g.succ.Keys - seen && c !in g.succ.Keys - a.seen;
        var b := VisitChildren(g, n, j + 1, a.seen);
        VisitLists(g, c, seen);
        ChildrenList(g, n, j + 1, a.seen);
        assert b.seen - seen == (a.seen - seen) + (b.seen - a.seen);
        ListsBoth(a.pre, a.seen - seen, b.pre, b.seen - a.seen);
        ListsBoth(a.post, a.seen - seen, b.post, b.seen - a.seen);
      }
    }
  }

  /** The order of children counts: node 0 with the children 1 and 2, which have none. */
  lemma FirstChildFirst()
    ensures var g := Graph(map[0 := [1, 2], 1 := [], 2 := []]);
      g.WellFormed() && PostOrderOf(g, 0, {}) == [1, 2, 0] && PreOrderOf(g, 0, {}) == [0, 1, 2]
  {
    var g := Graph(map[0 := [1, 2], 1 := [], 2 := []]);
    assert Visit(g, 1, {0}) == Walk({0, 1}, [1], [1]);
    assert Visit(g, 2, {0, 1}) == Walk({0, 1, 2}, [2], [2]);
    assert VisitChildren(g, 0, 2, {0, 1, 2}) == Walk({0, 1, 2}, [], []);
    assert VisitChildren(g, 0, 1, {0, 1}) == Walk({0, 1, 2}, [2], [2]);
    assert VisitChildren(g, 0, 0, {0}) == Walk({0, 1, 2}, [1, 2], [1, 2]);
    assert {} + {0} == {0};
  }

  // ----- Explicit stacks -----

  /** A stack entry: a node and the index of its next child. */
  datatype Frame = Frame(node: Node, next: nat)

  ghost predicate FramesIn(g: Graph, frames: seq<Frame>) {
    forall k :: 0 <= k < |frames| ==> frames[k].node in g.succ && frames[k].next <= |g.succ[frames[k].node]|
  }

  /** What a search with these entries on its stack still does. */
  ghost function Rest(g: Graph, frames: seq<Frame>, seen: set<Node>): (w: Walk)
    requires g.WellFormed() && FramesIn(g, frames)
    decreases |frames|
  {
    if frames == [] then Walk(seen, [], [])
    else
      var f := frames[|frames| - 1];
      var a := VisitChildren(g, f.node, f.next, seen);
      var b := Rest(g, frames[..|frames| - 1], a.seen);
      Walk(b.seen, a.pre + b.pre, a.post + [f.node] + b.post)
  }

  /** The next child of the top entry was taken. */
  function Bumped(frames: seq<Frame>): (r: seq<Frame>)
    requires frames != []
  {
    var k := |frames| - 1;
    frames[k := frames[k].(next := frames[k].next + 1)]
  }

  lemma BumpedNodes(frames: seq<Frame>)
    requires frames != []
    ensures |Bumped(frames)| == |frames| && forall k :: 0 <= k < |frames| ==> Bumped(frames)[k].node == frames[k].node
  {
  }

  /** c is the next child of the top entry. */
  ghost predicate NextIs(g: Graph, frames: seq<Frame>, c: Node) {
    && frames != []
    && var f := frames[|frames| - 1];
    f.node in g.succ && f.next < |g.succ[f.node]| && c == g.succ[f.node][f.next]
  }

  lemma RestSeen(g: Graph, frames: seq<Frame>, seen: set<Node>, c: Node)
    requires g.WellFormed() && FramesIn(g, frames) && NextIs(g, frames, c) && c in seen
    ensures FramesIn(g, Bumped(frames)) && Rest(g, Bumped(frames), seen) == Rest(g, frames, seen)
  {
    var t := |frames| - 1;
    assert Bumped(frames)[..t] == frames[..t];
  }

  lemma RestNew(g: Graph, frames: seq<Frame>, seen: set<Node>, c: Node)
    requires g.WellFormed() && FramesIn(g, frames) && NextIs(g, frames, c) && c !in seen
    ensures c in g.succ && var fs := Bumped(frames) + [Frame(c, 0)];
      && FramesIn(g, fs)
      && Rest(g, frames, seen).pre == [c] + Rest(g, fs, seen + {c}).pre
      && Rest(g, frames, seen).post == Rest(g, fs, seen + {c}).post
  {
    var t, f := |frames| - 1, frames[|frames| - 1];
    var fs := Bumped(frames) + [Frame(c, 0)];
    assert Bumped(frames)[..t] == frames[..t] && fs[..t + 1] == Bumped(frames);
    var a := VisitChildren(g, c, 0, seen + {c});
    var b := VisitChildren(g, f.node, f.next + 1, a.seen);
    var d := Rest(g, frames[..t], b.seen);
    hide Rest, VisitChildren;
    RestTop(g, fs, seen + {c});
    RestTop(g, Bumped(frames), a.seen);
    RestTop(g, frames, seen);
    ChildrenNew(g, f.node, f.next, seen);
    Regroup([c], a.pre, b.pre, d.pre);
    Regroup(a.post + [c], b.post, [f.node], d.post);
    Assoc(a.post + [c], b.post + [f.node], d.post);
  }

  lemma Regroup(a: seq<Node>, b: seq<Node>, c: seq<Node>, d: seq<Node>)
    ensures a + (b + (c + d)) == ((a + b) + c) + d
    ensures a + ((b + c) + d) == ((a + b) + c) + d
  {
  }

  lemma RestTop(g: Graph, frames: seq<Frame>, seen: set<Node>)
    requires g.WellFormed() && FramesIn(g, frames) && frames != []
    ensures var f := frames[|frames| - 1];
      var a := VisitChildren(g, f.node, f.next, seen);
      var b := Rest(g, frames[..|frames| - 1], a.seen);
      Rest(g, frames, seen) == Walk(b.seen, a.pre + b.pre, a.post + [f.node] + b.post)
  {
  }

  lemma ChildrenNew(g: Graph, n: Node, j: nat, seen: set<Node>)
    requires g.WellFormed() && n in g.succ && j < |g.succ[n]| && g.succ[n][j] !in seen
    ensures var c := g.succ[n][j];
      c in g.succ && var a := VisitChildren(g, c, 0, seen + {c}); var b := VisitChildren(g, n, j + 1, a.seen);
      VisitChildren(g, n, j, seen) == Walk(b.seen, ([c] + a.pre) + b.pre, (a.post + [c]) + b.post)
  {
  }

  lemma RestDone(g: Graph, frames: seq<Frame>, seen: set<Node>)
    requires g.WellFormed() && FramesIn(g, frames) && frames != [] && frames[|frames| - 1].node in g.succ
    requires frames[|frames| - 1].next == |g.succ[frames[|frames| - 1].node]|
    ensures var t, n := |frames| - 1, frames[|frames| - 1].node;
      && FramesIn(g, frames[..t])
      && Rest(g, frames, seen).pre == Rest(g, frames[..t], seen).pre
      && Rest(g, frames, seen).post == [n] + Rest(g, frames[..t], seen).post
  {
  }

  lemma RestStart(g: Graph, entry: Node, seen: set<Node>)
    requires g.WellFormed() && entry in g.succ && entry !in seen
    ensures FramesIn(g, [Frame(entry, 0)])
    ensures var w := Rest(g, [Frame(entry, 0)], seen + {entry});
      PostOrderOf(g, entry, seen) == w.post && PreOrderOf(g, entry, seen) == [entry] + w.pre
  {
    assert [Frame(entry, 0)][..0] == [];
  }
}
