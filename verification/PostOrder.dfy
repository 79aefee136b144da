/** po_iterator: a depth-first traversal suspended at each node whose children are done,
    and ReversePostOrderTraversal on top of it. */
module PostOrder {
  import opened Graphs
  import opened DepthFirst
  import opened Collections

  /** The traversal's state and the nodes it has already moved past. */
  datatype State = State(visited: set<Node>, frames: seq<Frame>, out: seq<Node>)

  function Filtered(s: seq<Node>, drop: set<Node>): (r: seq<Node>)
    ensures forall x :: x in r <==> x in s && x !in drop
  {
    if s == [] then []
    else if s[0] in drop then Filtered(s[1..], drop)
    else [s[0]] + Filtered(s[1..], drop)
  }

  /** The graph without the nodes that an external storage already held. */
  function Without(g: Graph, drop: set<Node>): (h: Graph)
    ensures g.WellFormed() ==> h.WellFormed()
    ensures forall u, v :: Edge(h, u, v) <==> Edge(g, u, v) && u !in drop && v !in drop
  {
    Graph(map u | u in g.succ && u !in drop :: Filtered(g.succ[u], drop))
  }

  lemma {:induction false} FilteredNone(s: seq<Node>)
    ensures Filtered(s, {}) == s
  {
    if s != [] {
      FilteredNone(s[1..]);
    }
  }

  lemma WithoutNone(g: Graph)
    ensures Without(g, {}) == g
  {
    var h := Without(g, {});
    forall u | u in g.succ ensures h.succ[u] == g.succ[u] {
      FilteredNone(g.succ[u]);
    }
    assert h.succ == g.succ;
  }

  // ----- The invariant: g is the graph, drop the nodes visited beforehand -----

  ghost predicate FrameOk(g: Graph, s: State, f: Frame) {
    && f.node in s.visited && f.node in g.succ
    && f.next <= |g.succ[f.node]|
    && forall j :: 0 <= j < f.next ==> g.succ[f.node][j] in s.visited
  }

  ghost predicate FramesOk(g: Graph, s: State) {
    && (forall k :: 0 <= k < |s.frames| ==> FrameOk(g, s, s.frames[k]) && s.frames[k].node !in s.out)
    && (forall i, j :: 0 <= i < j < |s.frames| ==> s.frames[i].node != s.frames[j].node)
  }

  ghost predicate OnStack(s: State, n: Node) {
    exists k :: 0 <= k < |s.frames| && s.frames[k].node == n
  }

  /** The visited nodes are those visited beforehand, those passed and those on the stack. */
  ghost predicate Partition(drop: set<Node>, s: State) {
    && Distinct(s.out)
    && (forall n :: n in s.visited <==> n in drop || n in s.out || OnStack(s, n))
    && (forall n :: n in drop ==> n !in s.out && !OnStack(s, n))
  }

  /** Each stack node reaches the ones above it. */
  ghost predicate Chain(h: Graph, s: State) {
    forall i, j :: 0 <= i <= j < |s.frames| ==> Reach(h, s.frames[i].node, s.frames[j].node)
  }

  ghost predicate EdgeBack(h: Graph, out: seq<Node>, i: int, v: Node)
    requires 0 <= i < |out|
  {
    v in out[..i] || Reach(h, v, out[i])
  }

  /** A child of a passed node was passed before it, or reaches it. */
  ghost predicate PostOrdered(h: Graph, out: seq<Node>) {
    forall i, v :: 0 <= i < |out| && Edge(h, out[i], v) ==> EdgeBack(h, out, i, v)
  }

  ghost predicate ChildrenVisited(g: Graph, s: State) {
    forall u, v :: u in s.out && Edge(g, u, v) ==> v in s.visited
  }

  ghost predicate FromEntry(h: Graph, drop: set<Node>, entry: Node, s: State) {
    entry in s.visited && forall n :: n in s.visited && n !in drop ==> Reach(h, entry, n)
  }

  ghost predicate Inv(g: Graph, drop: set<Node>, entry: Node, s: State) {
    && g.WellFormed() && s.visited <= g.succ.Keys + drop
    && FramesOk(g, s) && Partition(drop, s) && ChildrenVisited(g, s)
    && Chain(Without(g, drop), s) && PostOrdered(Without(g, drop), s.out) && FromEntry(Without(g, drop), drop, entry, s)
  }

  function Top(s: State): Frame
    requires s.frames != []
  {
    s.frames[|s.frames| - 1]
  }

  /** One round of the loop in traverseChild. */
  function ChildStep(s: State, c: Node): State
    requires s.frames != []
  {
    var fs := Bumped(s.frames);
    if c in s.visited then s.(frames := fs)
    else State(s.visited + {c}, fs + [Frame(c, 0)], s.out)
  }

  ghost predicate NextChild(g: Graph, s: State, c: Node) {
    NextIs(g, s.frames, c)
  }

  lemma ChildStepKeeps(g: Graph, drop: set<Node>, entry: Node, s: State, c: Node)
    requires Inv(g, drop, entry, s) && NextChild(g, s, c)
    ensures Inv(g, drop, entry, ChildStep(s, c))
  {
    hide Reach, Chain, PostOrdered, FromEntry, Without, Partition, FramesOk, ChildrenVisited;
    var s' := ChildStep(s, c);
    ChildStepSets(g, drop, s, c);
    ChildStepReach(g, drop, entry, s, c);
    assert s'.visited <= g.succ.Keys + drop by {
      assert Edge(g, Top(s).node, c);
    }
  }

  lemma ChildStepSets(g: Graph, drop: set<Node>, s: State, c: Node)
    requires g.WellFormed() && FramesOk(g, s) && Partition(drop, s) && ChildrenVisited(g, s) && NextChild(g, s, c)
    ensures var s' := ChildStep(s, c); FramesOk(g, s') && Partition(drop, s') && ChildrenVisited(g, s')
  {
    var s' := ChildStep(s, c);
    var t := |s.frames| - 1;
    assert Edge(g, Top(s).node, c);
    assert forall k :: 0 <= k <= t ==> s'.frames[k].node == s.frames[k].node && FrameOk(g, s, s.frames[k]);
    assert FramesOk(g, s') by {
      forall k | 0 <= k < |s'.frames| ensures FrameOk(g, s', s'.frames[k]) && s'.frames[k].node !in s'.out {
        assert k <= t ==> FrameOk(g, s, s.frames[k]);
      }
      forall i, j | 0 <= i < j < |s'.frames| ensures s'.frames[i].node != s'.frames[j].node {
        assert FrameOk(g, s, s.frames[i]);
      }
    }
    forall n ensures OnStack(s', n) <==> OnStack(s, n) || (c !in s.visited && n == c) {
      if OnStack(s, n) {
        var k :| 0 <= k < |s.frames| && s.frames[k].node == n;
        assert s'.frames[k].node == n;
      }
      if c !in s.visited && n == c {
        assert s'.frames[t + 1].node == c;
      }
    }
  }

  lemma ChildStepReach(g: Graph, drop: set<Node>, entry: Node, s: State, c: Node)
    requires g.WellFormed() && FramesOk(g, s) && Partition(drop, s) && NextChild(g, s, c)
    requires Chain(Without(g, drop), s) && FromEntry(Without(g, drop), drop, entry, s)
    ensures Chain(Without(g, drop), ChildStep(s, c)) && FromEntry(Without(g, drop), drop, entry, ChildStep(s, c))
  {
    hide Bumped, Partition, FramesOk, Without, Reach, Chain;
    BumpedNodes(s.frames);
    var h, s' := Without(g, drop), ChildStep(s, c);
    if c !in s.visited {
      NewEdge(g, drop, entry, s, c);
      ReachStep(h, entry, Top(s).node, c);
      ChainAppend(h, s, s', c);
    } else {
      ChainSame(h, s, s');
    }
  }

  lemma NewEdge(g: Graph, drop: set<Node>, entry: Node, s: State, c: Node)
    requires g.WellFormed() && FramesOk(g, s) && Partition(drop, s) && NextChild(g, s, c) && c !in s.visited
    requires FromEntry(Without(g, drop), drop, entry, s)
    ensures Edge(Without(g, drop), Top(s).node, c) && Reach(Without(g, drop), entry, Top(s).node)
  {
    hide Reach;
    var t := |s.frames| - 1;
    assert FrameOk(g, s, s.frames[t]);
    assert OnStack(s, s.frames[t].node);
    assert Edge(g, s.frames[t].node, c);
  }

  lemma ChainSame(h: Graph, s: State, s': State)
    requires Chain(h, s) && |s'.frames| == |s.frames| && forall k :: 0 <= k < |s.frames| ==> s'.frames[k].node == s.frames[k].node
    ensures Chain(h, s')
  {
    hide Reach;
  }

  lemma ChainAppend(h: Graph, s: State, s': State, c: Node)
    requires h.WellFormed() && Chain(h, s) && s.frames != [] && Edge(h, Top(s).node, c)
    requires |s'.frames| == |s.frames| + 1 && s'.frames[|s.frames|].node == c
    requires forall k :: 0 <= k < |s.frames| ==> s'.frames[k].node == s.frames[k].node
    ensures Chain(h, s')
  {
    hide Reach;
    var t := |s.frames| - 1;
    ReachRefl(h, c);
    forall i, j | 0 <= i <= j < |s'.frames| ensures Reach(h, s'.frames[i].node, s'.frames[j].node) {
      if i <= t < j {
        assert Reach(h, s.frames[i].node, s.frames[t].node);
        ReachStep(h, s.frames[i].node, s.frames[t].node, c);
      }
    }
  }

  /** Moving past the top node. */
  function PopStep(s: State): State
    requires s.frames != []
  {
    State(s.visited, s.frames[..|s.frames| - 1], s.out + [Top(s).node])
  }

  lemma PopStepKeeps(g: Graph, drop: set<Node>, entry: Node, s: State)
    requires Inv(g, drop, entry, s) && s.frames != [] && Top(s).node in g.succ && Top(s).next == |g.succ[Top(s).node]|
    ensures Inv(g, drop, entry, PopStep(s))
  {
    hide Reach, FromEntry, Without, Partition, PostOrdered, Distinct;
    var s', t := PopStep(s), |s.frames| - 1;
    var u := s.frames[t].node;
    assert FrameOk(g, s, s.frames[t]);
    PopPartition(drop, g, s);
    PopOrdered(g, drop, entry, s);
    forall a, b | a in s'.out && Edge(g, a, b) ensures b in s'.visited {
      if a == u {
        var j :| 0 <= j < |g.succ[u]| && g.succ[u][j] == b;
      }
    }
    assert FramesOk(g, s') by {
      assert forall k :: 0 <= k < t ==> FrameOk(g, s, s.frames[k]) && s.frames[k].node != u;
    }
    assert FromEntry(Without(g, drop), drop, entry, s') by {
      SameVisited(g, drop, entry, s, s');
    }
  }

  lemma SameVisited(g: Graph, drop: set<Node>, entry: Node, s: State, s': State)
    requires FromEntry(Without(g, drop), drop, entry, s) && s'.visited == s.visited
    ensures FromEntry(Without(g, drop), drop, entry, s')
  {
  }

  lemma PopPartition(drop: set<Node>, g: Graph, s: State)
    requires FramesOk(g, s) && Partition(drop, s) && s.frames != []
    ensures Partition(drop, PopStep(s))
  {
    var s', t := PopStep(s), |s.frames| - 1;
    forall n ensures OnStack(s, n) <==> OnStack(s', n) || n == s.frames[t].node {
      if OnStack(s, n) && n != s.frames[t].node {
        var k :| 0 <= k < |s.frames| && s.frames[k].node == n;
        assert s'.frames[k].node == n;
      }
      if OnStack(s', n) {
        var k :| 0 <= k < |s'.frames| && s'.frames[k].node == n;
        assert s.frames[k].node == n;
      }
      if n == s.frames[t].node {
        assert OnStack(s, n);
      }
    }
    assert s.frames[t].node !in s.out;
  }

  lemma PopOrdered(g: Graph, drop: set<Node>, entry: Node, s: State)
    requires FramesOk(g, s) && Partition(drop, s) && Chain(Without(g, drop), s) && PostOrdered(Without(g, drop), s.out)
    requires s.frames != [] && Top(s).node in g.succ && Top(s).next == |g.succ[Top(s).node]|
    ensures PostOrdered(Without(g, drop), PopStep(s).out)
  {
    var h, s', t := Without(g, drop), PopStep(s), |s.frames| - 1;
    var u := s.frames[t].node;
    assert FrameOk(g, s, s.frames[t]);
    forall i, v | 0 <= i < |s'.out| && Edge(h, s'.out[i], v) ensures EdgeBack(h, s'.out, i, v) {
      if i < |s.out| {
        assert EdgeBack(h, s.out, i, v);
        assert s'.out[..i] == s.out[..i];
      } else {
        assert s'.out[..i] == s.out;
        assert Edge(g, u, v);
        TopChild(g, drop, s, v);
      }
    }
  }

  /** A child of the finished top node has been output, or is on the stack below it. */
  lemma TopChild(g: Graph, drop: set<Node>, s: State, v: Node)
    requires FramesOk(g, s) && Partition(drop, s) && Chain(Without(g, drop), s)
    requires s.frames != [] && Top(s).node in g.succ && Top(s).next == |g.succ[Top(s).node]|
    requires Edge(g, Top(s).node, v)
    ensures v in s.visited && (v in s.out || v in drop || (OnStack(s, v) && Reach(Without(g, drop), v, Top(s).node)))
  {
    var t := |s.frames| - 1;
    var u := s.frames[t].node;
    assert FrameOk(g, s, s.frames[t]);
    var j :| 0 <= j < |g.succ[u]| && g.succ[u][j] == v;
    if v !in s.out && v !in drop {
      assert OnStack(s, v);
      var k :| 0 <= k < |s.frames| && s.frames[k].node == v;
      assert Reach(Without(g, drop), s.frames[k].node, s.frames[t].node);
    }
  }

  /** The node the iterator stands on: reachable, not output before, and each of its children has
      been output or reaches it. */
  lemma TopMeans(g: Graph, drop: set<Node>, entry: Node, s: State)
    requires Inv(g, drop, entry, s) && s.frames != [] && Top(s).node in g.succ && Top(s).next == |g.succ[Top(s).node]|
    ensures var h, n := Without(g, drop), Top(s).node;
      && n !in s.out && n !in drop && Reach(h, entry, n)
      && forall v :: Edge(h, n, v) ==> v in s.out || Reach(h, v, n)
  {
    hide Reach, Distinct;
    var h, t := Without(g, drop), |s.frames| - 1;
    assert s.frames[t].node !in s.out && FrameOk(g, s, s.frames[t]) && OnStack(s, s.frames[t].node);
    forall v | Edge(h, Top(s).node, v) ensures v in s.out || Reach(h, v, Top(s).node) {
      TopChild(g, drop, s, v);
    }
  }

  /** When the stack is empty, exactly the reachable nodes have been passed. */
  lemma EndCoversReachable(g: Graph, drop: set<Node>, entry: Node, s: State)
    requires Inv(g, drop, entry, s) && s.frames == []
    ensures forall n :: n in s.out <==> Reach(Without(g, drop), entry, n)
  {
    var h := Without(g, drop);
    assert forall n :: !OnStack(s, n);
    forall n | Reach(h, entry, n) ensures n in s.out {
      ReachInGraph(h, entry, n);
      ClosedReach(h, SetOf(s.out), entry, n);
    }
  }

  // ----- The order of the output -----

  /** The output goes on as the recursive search does. */
  ghost predicate OnTrack(g: Graph, drop: set<Node>, entry: Node, s: State) {
    && g.WellFormed() && entry in g.succ && FramesIn(g, s.frames)
    && s.out + Rest(g, s.frames, s.visited).post == PostOrderOf(g, entry, drop)
  }

  lemma ChildStepTracks(g: Graph, drop: set<Node>, entry: Node, s: State, c: Node)
    requires OnTrack(g, drop, entry, s) && NextChild(g, s, c)
    ensures OnTrack(g, drop, entry, ChildStep(s, c))
  {
    hide Rest, PostOrderOf;
    if c in s.visited {
      RestSeen(g, s.frames, s.visited, c);
    } else {
      RestNew(g, s.frames, s.visited, c);
    }
  }

  lemma PopStepTracks(g: Graph, drop: set<Node>, entry: Node, s: State)
    requires OnTrack(g, drop, entry, s) && s.frames != [] && Top(s).node in g.succ && Top(s).next == |g.succ[Top(s).node]|
    ensures OnTrack(g, drop, entry, PopStep(s))
  {
    hide Rest, PostOrderOf;
    RestDone(g, s.frames, s.visited);
    var w := Rest(g, PopStep(s).frames, s.visited);
    Assoc(s.out, [Top(s).node], w.post);
  }

  lemma StartTracks(g: Graph, drop: set<Node>, entry: Node, s: State)
    requires g.WellFormed() && entry in g.succ && s.visited == drop + {entry} && s.out == []
    requires s.frames == if entry in drop then [] else [Frame(entry, 0)]
    ensures OnTrack(g, drop, entry, s)
  {
    if entry !in drop {
      RestStart(g, entry, drop);
    }
  }

  lemma EndTracks(g: Graph, drop: set<Node>, entry: Node, s: State)
    requires OnTrack(g, drop, entry, s)
    ensures s.out <= PostOrderOf(g, entry, drop) && (s.frames == [] ==> s.out == PostOrderOf(g, entry, drop))
  {
  }

  class PoIter {
    const g: Graph
    const entry: Node
    ghost const drop: set<Node>
    var visited: set<Node>
    var visitStack: seq<Frame>
    ghost var out: seq<Node>

    ghost function St(): State
      reads this
    {
      State(visited, visitStack, out)
    }

    /** What holds whenever the iterator is suspended: the top node has no child left. */
    ghost predicate Valid()
      reads this
    {
      && Inv(g, drop, entry, St()) && OnTrack(g, drop, entry, St())
      && (visitStack != [] ==> Top(St()).node in g.succ && Top(St()).next == |g.succ[Top(St()).node]|)
    }

    /** The constructors with internal (visitedBefore == {}) or external storage. */
    constructor Begin(g: Graph, entry: Node, visitedBefore: set<Node>)
      requires g.WellFormed() && entry in g.succ
      ensures Valid() && this.g == g && this.entry == entry && drop == visitedBefore && out == []
      ensures visitStack == [] <==> entry in visitedBefore
    {
      this.g, this.entry, drop := g, entry, visitedBefore;
      visited, visitStack, out := visitedBefore + {entry}, [], [];
      new;
      if entry !in visitedBefore {
        visitStack := [Frame(entry, 0)];
        StartInv(g, visitedBefore, entry, St());
        StartTracks(g, visitedBefore, entry, St());
        TraverseChild();
      } else {
        StartInv(g, visitedBefore, entry, St());
        StartTracks(g, visitedBefore, entry, St());
      }
    }

    method TraverseChild()
      requires Inv(g, drop, entry, St()) && OnTrack(g, drop, entry, St()) && visitStack != []
      modifies this`visited, this`visitStack
      ensures Valid() && visitStack != []
    {
      hide Inv, OnTrack;
      TopInGraph(g, drop, entry, St());
      while visitStack[|visitStack| - 1].next != |g.succ[visitStack[|visitStack| - 1].node]|
        invariant Inv(g, drop, entry, St()) && OnTrack(g, drop, entry, St()) && visitStack != [] && Top(St()).node in g.succ
        invariant Top(St()).next <= |g.succ[Top(St()).node]| && visited <= g.succ.Keys + drop
        decreases g.succ.Keys + drop - visited, |g.succ[visitStack[|visitStack| - 1].node]| - visitStack[|visitStack| - 1].next
      {
        ghost var s := St();
        var t := |visitStack| - 1;
        var c := g.succ[visitStack[t].node][visitStack[t].next];
        visitStack := visitStack[t := visitStack[t].(next := visitStack[t].next + 1)];
        if c !in visited {
          visited := visited + {c};
          visitStack := visitStack + [Frame(c, 0)];
        }
        assert St() == ChildStep(s, c);
        ChildStepKeeps(g, drop, entry, s, c);
        ChildStepTracks(g, drop, entry, s, c);
        TopInGraph(g, drop, entry, St());
      }
    }

    /** operator*. */
    method Current() returns (n: Node)
      requires Valid() && visitStack != []
      ensures n == Top(St()).node && n !in out && n !in drop && Reach(Without(g, drop), entry, n)
      ensures forall v :: Edge(Without(g, drop), n, v) ==> v in out || Reach(Without(g, drop), v, n)
    {
      hide Inv;
      TopMeans(g, drop, entry, St());
      n := visitStack[|visitStack| - 1].node;
    }

    /** operator++. */
    method Next()
      requires Valid() && visitStack != []
      modifies this
      ensures Valid()
      ensures out == old(out) + [old(Top(St()).node)] && out <= PostOrderOf(g, entry, drop)
      ensures visitStack == [] ==> out == PostOrderOf(g, entry, drop) && forall n :: n in out <==> Reach(Without(g, drop), entry, n)
    {
      hide Inv, OnTrack;
      ghost var s := St();
      out := out + [visitStack[|visitStack| - 1].node];
      visitStack := visitStack[..|visitStack| - 1];
      assert St() == PopStep(s);
      PopStepKeeps(g, drop, entry, s);
      PopStepTracks(g, drop, entry, s);
      if visitStack != [] {
        TraverseChild();
      } else {
        EndCoversReachable(g, drop, entry, St());
      }
      EndTracks(g, drop, entry, St());
    }
  }

  lemma TopInGraph(g: Graph, drop: set<Node>, entry: Node, s: State)
    requires Inv(g, drop, entry, s) && s.frames != []
    ensures Top(s).node in g.succ && Top(s).next <= |g.succ[Top(s).node]| && s.visited <= g.succ.Keys + drop
  {
    assert FrameOk(g, s, s.frames[|s.frames| - 1]);
  }

  lemma StartInv(g: Graph, drop: set<Node>, entry: Node, s: State)
    requires g.WellFormed() && entry in g.succ && s.visited == drop + {entry} && s.out == []
    requires s.frames == if entry in drop then [] else [Frame(entry, 0)]
    ensures Inv(g, drop, entry, s)
  {
    if entry !in drop {
      ReachRefl(Without(g, drop), entry);
      assert s.frames[0].node == entry && OnStack(s, entry);
    }
  }

  lemma OutDistinct(g: Graph, drop: set<Node>, entry: Node, s: State)
    requires Inv(g, drop, entry, s)
    ensures Distinct(s.out) && PostOrdered(Without(g, drop), s.out) && SetOf(s.out) <= g.succ.Keys
  {
    forall n | n in s.out ensures n in g.succ {
      assert Reach(Without(g, drop), entry, n);
      ReachInGraph(Without(g, drop), entry, n);
    }
  }

  /** ReversePostOrderTraversal::Initialize: copying po_begin..po_end yields every reachable
      node exactly once, and a child that comes after its parent reaches the parent. */
  method Initialize(g: Graph, entry: Node) returns (blocks: seq<Node>)
    requires g.WellFormed() && entry in g.succ
    ensures Distinct(blocks)
    ensures forall n :: n in blocks <==> Reach(g, entry, n)
    ensures PostOrdered(g, blocks)
    ensures blocks == PostOrderOf(g, entry, {})
  {
    hide Inv, OnTrack, PostOrdered, Reach, Distinct, Without, SetOf;
    var it := new PoIter.Begin(g, entry, {});
    blocks := [];
    OutDistinct(g, {}, entry, it.St());
    while it.visitStack != []
      invariant it.Valid() && it.g == g && it.entry == entry && it.drop == {} && fresh(it)
      invariant blocks == it.out && Distinct(blocks) && SetOf(blocks) <= g.succ.Keys
      invariant PostOrdered(Without(g, {}), blocks)
      invariant it.visitStack == [] ==> forall n :: n in blocks <==> Reach(Without(g, {}), entry, n)
      decreases g.succ.Keys - SetOf(blocks)
    {
      ghost var before := blocks;
      var n := it.Current();
      blocks := blocks + [n];
      it.Next();
      OutDistinct(g, {}, entry, it.St());
      DistinctGrows(before, n);
    }
    WithoutNone(g);
    EndTracks(g, {}, entry, it.St());
  }

  // ----- Reverse post order -----

  ghost predicate Topological(g: Graph, order: seq<Node>) {
    forall i, j :: 0 <= i < |order| && 0 <= j < |order| && Edge(g, order[i], order[j]) ==> i < j
  }

  ghost predicate OnCycle(g: Graph, u: Node, v: Node) {
    Edge(g, u, v) && Reach(g, v, u)
  }

  ghost predicate AcyclicFrom(g: Graph, entry: Node) {
    forall u, v :: Reach(g, entry, u) ==> !OnCycle(g, u, v)
  }

  /** Along a path, positions in a topological order never decrease. */
  lemma {:induction false} PathAscends(g: Graph, order: seq<Node>, p: seq<Node>, a: Node, b: Node, k: nat, i: nat, j: nat)
    requires Topological(g, order) && Distinct(order) && Closed(g, SetOf(order))
    requires IsPath(g, p, a, b) && k < |p|
    requires i < |order| && j < |order| && order[i] == p[0] && order[j] == p[k]
    ensures i <= j
  {
    if k > 0 {
      PathStaysIn(g, SetOf(order), p, a, b, k - 1);
      assert Edge(g, p[k - 1], p[k - 1 + 1]);
      var m :| 0 <= m < |order| && order[m] == p[k - 1];
      PathAscends(g, order, p, a, b, k - 1, i, m);
    } else {
      assert i == j;
    }
  }

  /** Reverse post order is a topological order exactly when no cycle is reachable. */
  lemma ReversePostOrderTopological(g: Graph, entry: Node, blocks: seq<Node>)
    requires g.WellFormed() && entry in g.succ
    requires Distinct(blocks) && PostOrdered(g, blocks) && forall n :: n in blocks <==> Reach(g, entry, n)
    ensures Topological(g, Reversed(blocks)) <==> AcyclicFrom(g, entry)
  {
    var r, n := Reversed(blocks), |blocks|;
    if AcyclicFrom(g, entry) {
      forall i, j | 0 <= i < n && 0 <= j < n && Edge(g, r[i], r[j]) ensures i < j {
        var a, b := n - 1 - i, n - 1 - j;
        assert r[i] == blocks[a] && r[j] == blocks[b];
        assert EdgeBack(g, blocks, a, blocks[b]);
        assert !OnCycle(g, blocks[a], blocks[b]);
        var m :| 0 <= m < a && blocks[m] == blocks[b];
      }
    }
    if Topological(g, r) {
      forall u, v | Reach(g, entry, u) ensures !OnCycle(g, u, v) {
        if OnCycle(g, u, v) {
          ReachStep(g, entry, u, v);
          CycleBreaksOrder(g, entry, blocks, u, v);
        }
      }
    }
  }

  lemma CycleBreaksOrder(g: Graph, entry: Node, blocks: seq<Node>, u: Node, v: Node)
    requires Distinct(blocks) && forall n :: n in blocks <==> Reach(g, entry, n)
    requires u in blocks && v in blocks && OnCycle(g, u, v)
    ensures !Topological(g, Reversed(blocks))
  {
    var r, n := Reversed(blocks), |blocks|;
    if Topological(g, r) {
      var a :| 0 <= a < n && blocks[a] == u;
      var b :| 0 <= b < n && blocks[b] == v;
      assert r[n - 1 - a] == u && r[n - 1 - b] == v;
      forall x, y | x in SetOf(r) && Edge(g, x, y) ensures y in SetOf(r) {
        var i :| 0 <= i < n && r[i] == x;
        assert blocks[n - 1 - i] == x;
        ReachStep(g, entry, x, y);
        var j :| 0 <= j < n && blocks[j] == y;
        assert r[n - 1 - j] == y;
      }
      var p :| IsPath(g, p, v, u);
      PathAscends(g, r, p, v, u, |p| - 1, n - 1 - b, n - 1 - a);
    }
  }
}
