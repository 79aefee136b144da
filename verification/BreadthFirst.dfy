/** bf_iterator: breadth-first traversal with level markers in its queue. */
module BreadthFirst {
  import opened Graphs
  import opened Collections

  /** A queue entry: a node, or the marker that ends a level. */
  datatype Entry = Item(node: Node) | Marker

  /** What the queue stands for: the nodes passed, the rest of the current level, the part
      of the next level found so far, and the distance at which each node was found. */
  datatype State = State(out: seq<Node>, cur: seq<Node>, nxt: seq<Node>, dist: map<Node, nat>, level: nat)

  function Items(ns: seq<Node>): (r: seq<Entry>)
    ensures |r| == |ns| && forall i :: 0 <= i < |ns| ==> r[i] == Item(ns[i])
  {
    seq(|ns|, i requires 0 <= i < |ns| => Item(ns[i]))
  }

  /** The queue of a state: one marker, between the two levels, as long as a node remains. */
  function Queue(s: State): (q: seq<Entry>)
    ensures q == [] <==> s.cur == []
    ensures s.cur != [] ==> |q| == |s.cur| + 1 + |s.nxt| && q[0] == Item(s.cur[0])
    ensures s.cur != [] ==> forall i :: 0 <= i < |q| ==> (q[i] == Marker <==> i == |s.cur|)
  {
    if s.cur == [] then [] else Items(s.cur) + [Marker] + Items(s.nxt)
  }

  /** v can be reached from u along exactly d edges. */
  ghost predicate ReachIn(g: Graph, u: Node, v: Node, d: nat) {
    exists p :: IsPath(g, p, u, v) && |p| == d + 1
  }

  /** d is the least number of edges from u to v. */
  ghost predicate Shortest(g: Graph, u: Node, v: Node, d: nat) {
    ReachIn(g, u, v, d) && forall k :: 0 <= k < d ==> !ReachIn(g, u, v, k)
  }

  lemma ReachInStep(g: Graph, u: Node, v: Node, w: Node, d: nat)
    requires ReachIn(g, u, v, d) && Edge(g, v, w)
    ensures ReachIn(g, u, w, d + 1)
  {
    var p :| IsPath(g, p, u, v) && |p| == d + 1;
    assert IsPath(g, p + [w], u, w);
  }

  // ----- The invariant -----

  ghost predicate SetsOk(s: State) {
    && Distinct(s.out + s.cur + s.nxt)
    && (forall n :: n in s.dist <==> n in s.out + s.cur + s.nxt)
    && (s.cur == [] ==> s.nxt == [])
  }

  ghost predicate LevelsOk(s: State) {
    && (forall n :: n in s.out && n in s.dist ==> s.dist[n] <= s.level)
    && (forall n :: n in s.cur && n in s.dist ==> s.dist[n] == s.level)
    && (forall n :: n in s.nxt && n in s.dist ==> s.dist[n] == s.level + 1)
  }

  ghost predicate EdgesOk(g: Graph, s: State) {
    forall u, v :: u in s.out && u in s.dist && Edge(g, u, v) ==> v in s.dist && s.dist[v] <= s.dist[u] + 1
  }

  ghost predicate PathsOk(g: Graph, entry: Node, s: State) {
    && entry in s.dist && s.dist[entry] == 0
    && forall n :: n in s.dist ==> ReachIn(g, entry, n, s.dist[n])
  }

  ghost predicate Inv(g: Graph, entry: Node, s: State) {
    && g.WellFormed() && s.dist.Keys <= g.succ.Keys
    && SetsOk(s) && LevelsOk(s) && EdgesOk(g, s) && PathsOk(g, entry, s)
  }

  // ----- Steps -----

  function AddChild(s: State, c: Node): State {
    if c in s.dist then s else s.(nxt := s.nxt + [c], dist := s.dist[c := s.level + 1])
  }

  lemma AddChildKeeps(g: Graph, entry: Node, s: State, c: Node)
    requires Inv(g, entry, s) && s.cur != [] && Edge(g, s.cur[0], c)
    ensures Inv(g, entry, AddChild(s, c))
  {
    if c !in s.dist {
      var s' := AddChild(s, c);
      assert s'.out + s'.cur + s'.nxt == s.out + s.cur + s.nxt + [c];
      assert s.cur[0] in s.out + s.cur + s.nxt;
      ReachInStep(g, entry, s.cur[0], c, s.level);
      assert s'.dist.Keys == s.dist.Keys + {c};
    }
  }

  /** The head is done; a finished level makes the next one current. */
  function PassHead(s: State): State
    requires s.cur != []
  {
    if |s.cur| == 1 then State(s.out + [s.cur[0]], s.nxt, [], s.dist, s.level + 1)
    else State(s.out + [s.cur[0]], s.cur[1..], s.nxt, s.dist, s.level)
  }

  lemma PassHeadKeeps(g: Graph, entry: Node, s: State)
    requires Inv(g, entry, s) && s.cur != [] && forall c :: Edge(g, s.cur[0], c) ==> c in s.dist
    ensures Inv(g, entry, PassHead(s))
  {
    hide LevelsOk, EdgesOk, SetsOk, ReachIn;
    PassHeadSets(s);
    PassHeadLevels(s);
    PassHeadEdges(g, s);
  }

  lemma PassHeadSets(s: State)
    requires SetsOk(s) && s.cur != []
    ensures SetsOk(PassHead(s))
  {
    var s' := PassHead(s);
    assert s'.out + s'.cur + s'.nxt == s.out + s.cur + s.nxt;
  }

  lemma PassHeadLevels(s: State)
    requires SetsOk(s) && LevelsOk(s) && s.cur != []
    ensures LevelsOk(PassHead(s))
  {
    assert s.cur[0] in s.cur;
  }

  lemma PassHeadEdges(g: Graph, s: State)
    requires SetsOk(s) && LevelsOk(s) && EdgesOk(g, s) && s.cur != [] && forall c :: Edge(g, s.cur[0], c) ==> c in s.dist
    ensures EdgesOk(g, PassHead(s))
  {
    assert s.cur[0] in s.out + s.cur + s.nxt && s.cur[0] in s.cur;
    forall n | n in s.dist ensures s.dist[n] <= s.level + 1 {
      assert n in s.out + s.cur + s.nxt;
    }
  }

  /** How pushing a child and popping the head show in the queue. */
  lemma QueueAdd(s: State, c: Node)
    requires s.cur != []
    ensures Queue(AddChild(s, c)) == if c in s.dist then Queue(s) else Queue(s) + [Item(c)]
  {
    assert Items(s.nxt + [c]) == Items(s.nxt) + [Item(c)];
  }

  lemma ItemsTail(ns: seq<Node>)
    requires ns != []
    ensures Items(ns)[1..] == Items(ns[1..])
  {
  }

  lemma DropFirst(x: seq<Entry>, y: seq<Entry>)
    requires x != []
    ensures (x + y)[1..] == x[1..] + y
  {
  }

  lemma QueuePass(s: State)
    requires s.cur != []
    ensures |Queue(s)| >= 2 && (Queue(s)[1] == Marker <==> |s.cur| == 1)
    ensures |s.cur| > 1 ==> Queue(PassHead(s)) == Queue(s)[1..]
    ensures |s.cur| == 1 ==> Queue(PassHead(s)) == if Queue(s)[2..] == [] then [] else Queue(s)[2..] + [Marker]
  {
    if |s.cur| > 1 {
      ItemsTail(s.cur);
      DropFirst(Items(s.cur), [Marker] + Items(s.nxt));
      assert Items(s.cur) + [Marker] + Items(s.nxt) == Items(s.cur) + ([Marker] + Items(s.nxt));
      assert Items(s.cur[1..]) + [Marker] + Items(s.nxt) == Items(s.cur[1..]) + ([Marker] + Items(s.nxt));
    } else {
      assert Queue(s)[2..] == Items(s.nxt);
      assert Items(s.nxt) + [Marker] + [] == Items(s.nxt) + [Marker];
    }
  }

  // ----- Distances -----

  /** Every path no longer than the current level ends in a node found at most that far. */
  lemma {:induction false} ShortPathsFound(g: Graph, entry: Node, s: State, p: seq<Node>, v: Node, k: nat)
    requires Inv(g, entry, s) && IsPath(g, p, entry, v) && k < |p| && k <= s.level
    ensures p[k] in s.dist && s.dist[p[k]] <= k
  {
    if k > 0 {
      ShortPathsFound(g, entry, s, p, v, k - 1);
      var u := p[k - 1];
      assert Edge(g, p[k - 1], p[k - 1 + 1]);
      assert u in s.out + s.cur + s.nxt;
      assert u in s.out;
    }
  }

  lemma FoundAtShortest(g: Graph, entry: Node, s: State, v: Node)
    requires Inv(g, entry, s) && (v in s.out || v in s.cur)
    ensures v in s.dist && Shortest(g, entry, v, s.dist[v])
  {
    assert v in s.out + s.cur + s.nxt;
    forall k | 0 <= k < s.dist[v] ensures !ReachIn(g, entry, v, k) {
      if ReachIn(g, entry, v, k) {
        var p :| IsPath(g, p, entry, v) && |p| == k + 1;
        ShortPathsFound(g, entry, s, p, v, k);
      }
    }
  }

  lemma EndCoversReachable(g: Graph, entry: Node, s: State)
    requires Inv(g, entry, s) && s.cur == []
    ensures forall n :: n in s.out <==> Reach(g, entry, n)
  {
    assert s.out + s.cur + s.nxt == s.out;
    forall n | n in s.out ensures Reach(g, entry, n) {
      var p :| IsPath(g, p, entry, n) && |p| == s.dist[n] + 1;
    }
    forall n | Reach(g, entry, n) ensures n in s.out {
      ClosedReach(g, SetOf(s.out), entry, n);
    }
  }

  // ----- The order within the levels -----

  /** The nodes of s that are not in seen, each at its first place. */
  ghost function NewOnes(s: seq<Node>, seen: set<Node>): (r: seq<Node>)
    ensures forall x :: x in r ==> x in s && x !in seen
  {
    if s == [] then []
    else if s[0] in seen then NewOnes(s[1..], seen)
    else [s[0]] + NewOnes(s[1..], seen + {s[0]})
  }

  /** The children of the nodes, in the order of the nodes and then of the edges. */
  ghost function Children(g: Graph, ns: seq<Node>): (r: seq<Node>)
    requires g.WellFormed() && forall n :: n in ns ==> n in g.succ
    ensures forall x :: x in r ==> x in g.succ
  {
    if ns == [] then [] else g.succ[ns[0]] + Children(g, ns[1..])
  }

  /** A level and all that follow: the next level has the children not seen before. */
  ghost function ByLevel(g: Graph, ns: seq<Node>, seen: set<Node>): (r: seq<Node>)
    requires g.WellFormed() && forall n :: n in ns ==> n in g.succ
    decreases g.succ.Keys - seen, |ns|
  {
    if ns == [] then []
    else
      var next := NewOnes(Children(g, ns), seen);
      assert next != [] ==> next[0] in next && next[0] in g.succ.Keys - seen;
      ns + ByLevel(g, next, seen + SetOf(next))
  }

  /** All reachable nodes, level by level. */
  ghost function LevelOrder(g: Graph, entry: Node): (r: seq<Node>)
    requires g.WellFormed() && entry in g.succ
  {
    ByLevel(g, [entry], {entry})
  }

  /** The order of children counts: node 0 with the children 1 and 2, which have one each. */
  lemma FirstParentFirst()
    ensures var g := Graph(map[0 := [1, 2], 1 := [4], 2 := [3], 3 := [], 4 := []]);
      g.WellFormed() && LevelOrder(g, 0) == [0, 1, 2, 4, 3]
  {
    var g := Graph(map[0 := [1, 2], 1 := [4], 2 := [3], 3 := [], 4 := []]);
    SomeChildren(g);
    SomeNew({0}, 1, 2);
    SomeNew({0, 1, 2}, 4, 3);
    NoneNew({0, 1, 2, 3, 4});
    hide ByLevel, Children, NewOnes;
    TwoNodes(1, 2);
    TwoNodes(4, 3);
    assert {0} + {1, 2} == {0, 1, 2} && {0, 1, 2} + {4, 3} == {0, 1, 2, 3, 4};
    LevelUnfolds(g, [0], {0});
    LevelUnfolds(g, [1, 2], {0, 1, 2});
    LevelUnfolds(g, [4, 3], {0, 1, 2, 3, 4});
    NoLevel(g, {0, 1, 2, 3, 4} + SetOf([]));
    assert [0] + ([1, 2] + ([4, 3] + [])) == [0, 1, 2, 4, 3];
  }

  lemma SomeChildren(g: Graph)
    requires g == Graph(map[0 := [1, 2], 1 := [4], 2 := [3], 3 := [], 4 := []])
    ensures g.WellFormed() && Children(g, [0]) == [1, 2] && Children(g, [1, 2]) == [4, 3] && Children(g, [4, 3]) == []
  {
  }

  lemma SomeNew(seen: set<Node>, a: Node, b: Node)
    requires a != b && a !in seen && b !in seen
    ensures NewOnes([a, b], seen) == [a, b]
  {
    assert NewOnes([b], seen + {a}) == [b];
    assert [a, b][1..] == [b];
  }

  lemma NoLevel(g: Graph, seen: set<Node>)
    requires g.WellFormed()
    ensures ByLevel(g, [], seen) == []
  {
  }

  lemma TwoNodes(a: Node, b: Node)
    ensures SetOf([a, b]) == {a, b}
  {
    assert [a, b][0] == a && [a, b][1] == b;
  }

  /** What a state still leads to, when the children todo of the current level are to be looked at. */
  ghost function Total(g: Graph, s: State, todo: seq<Node>): (r: seq<Node>)
    requires g.WellFormed() && s.dist.Keys <= g.succ.Keys
    requires (forall n :: n in s.nxt ==> n in g.succ) && (forall n :: n in todo ==> n in g.succ)
  {
    var more := NewOnes(todo, s.dist.Keys);
    s.out + s.cur + ByLevel(g, s.nxt + more, s.dist.Keys + SetOf(more))
  }

  ghost predicate InGraph(g: Graph, s: State) {
    && g.WellFormed() && s.dist.Keys <= g.succ.Keys
    && (forall n :: n in s.cur ==> n in g.succ) && (forall n :: n in s.nxt ==> n in g.succ)
  }

  /** The traversal goes on as the level order does. */
  ghost predicate OnTrack(g: Graph, entry: Node, s: State, todo: seq<Node>) {
    && InGraph(g, s) && (forall n :: n in todo ==> n in g.succ) && entry in g.succ
    && Total(g, s, todo) == LevelOrder(g, entry)
  }

  /** The same whenever the iterator is suspended. */
  ghost predicate Suspended(g: Graph, entry: Node, s: State) {
    InGraph(g, s) && OnTrack(g, entry, s, Children(g, s.cur)) && (s.cur == [] ==> s.nxt == [])
  }

  lemma AddChildTracks(g: Graph, entry: Node, s: State, c: Node, todo: seq<Node>)
    requires OnTrack(g, entry, s, [c] + todo)
    ensures OnTrack(g, entry, AddChild(s, c), todo)
  {
    hide ByLevel, LevelOrder;
    var s' := AddChild(s, c);
    assert ([c] + todo)[0] == c && ([c] + todo)[1..] == todo;
    if c !in s.dist {
      var more := NewOnes(todo, s.dist.Keys + {c});
      assert s'.dist.Keys == s.dist.Keys + {c};
      Assoc(s.nxt, [c], more);
      assert s.dist.Keys + SetOf([c] + more) == s'.dist.Keys + SetOf(more);
    }
  }

  lemma StartTracks(g: Graph, entry: Node)
    requires g.WellFormed() && entry in g.succ
    ensures Suspended(g, entry, State([], [entry], [], map[entry := 0], 0))
  {
    var s := State([], [entry], [], map[entry := 0], 0);
    var more := NewOnes(Children(g, [entry]), {entry});
    assert s.dist.Keys == {entry} && [] + more == more;
  }

  lemma HeadChildren(g: Graph, s: State)
    requires InGraph(g, s) && s.cur != []
    ensures s.cur[0] in g.succ && (forall n :: n in s.cur[1..] ==> n in g.succ)
    ensures Children(g, s.cur) == g.succ[s.cur[0]] + Children(g, s.cur[1..])
  {
  }

  /** Child i of the head comes next. */
  lemma NextTodo(c: seq<Node>, i: nat, rest: seq<Node>)
    requires i < |c|
    ensures c[i..] + rest == [c[i]] + (c[i + 1..] + rest)
  {
  }

  lemma PassHeadTracks(g: Graph, entry: Node, s: State)
    requires InGraph(g, s) && s.cur != [] && OnTrack(g, entry, s, Children(g, s.cur[1..]))
    ensures Suspended(g, entry, PassHead(s))
  {
    hide ByLevel, LevelOrder, Children, NewOnes, Total;
    if |s.cur| == 1 {
      LastPassed(g, s);
    } else {
      HeadPassed(g, s);
    }
  }

  lemma HeadPassed(g: Graph, s: State)
    requires InGraph(g, s) && |s.cur| > 1
    ensures InGraph(g, PassHead(s)) && PassHead(s).cur == s.cur[1..]
    ensures Total(g, PassHead(s), Children(g, s.cur[1..])) == Total(g, s, Children(g, s.cur[1..]))
  {
    hide ByLevel, Children, NewOnes;
    assert [s.cur[0]] + s.cur[1..] == s.cur;
    Assoc(s.out, [s.cur[0]], s.cur[1..]);
  }

  lemma LastPassed(g: Graph, s: State)
    requires InGraph(g, s) && |s.cur| == 1
    ensures InGraph(g, PassHead(s)) && PassHead(s).cur == s.nxt && PassHead(s).nxt == []
    ensures Total(g, PassHead(s), Children(g, s.nxt)) == Total(g, s, Children(g, s.cur[1..]))
  {
    hide ByLevel, Children, NewOnes;
    var out, seen := s.out + s.cur, s.dist.Keys;
    assert s.cur == [s.cur[0]] && s.cur[1..] == [];
    NoChildren(g);
    TotalNone(g, s);
    LevelUnfolds(g, s.nxt, seen);
    var more := NewOnes(Children(g, s.nxt), seen);
    assert [] + more == more;
    Assoc(out, s.nxt, ByLevel(g, more, seen + SetOf(more)));
  }

  lemma TotalNone(g: Graph, s: State)
    requires InGraph(g, s)
    ensures Total(g, s, []) == s.out + s.cur + ByLevel(g, s.nxt, s.dist.Keys)
  {
    NoneNew(s.dist.Keys);
    hide ByLevel, NewOnes;
    assert s.nxt + [] == s.nxt && s.dist.Keys + {} == s.dist.Keys;
  }

  lemma NoChildren(g: Graph)
    requires g.WellFormed()
    ensures Children(g, []) == []
  {
  }

  lemma NoneNew(seen: set<Node>)
    ensures NewOnes([], seen) == [] && SetOf<Node>([]) == {}
  {
  }

  lemma LevelUnfolds(g: Graph, ns: seq<Node>, seen: set<Node>)
    requires g.WellFormed() && forall n :: n in ns ==> n in g.succ
    ensures var more := NewOnes(Children(g, ns), seen); ByLevel(g, ns, seen) == ns + ByLevel(g, more, seen + SetOf(more))
  {
  }

  lemma TrackedIn(g: Graph, entry: Node, s: State, todo: seq<Node>)
    requires OnTrack(g, entry, s, todo)
    ensures InGraph(g, s)
  {
  }

  lemma SuspendedMeans(g: Graph, entry: Node, s: State)
    requires Suspended(g, entry, s)
    ensures s.out <= LevelOrder(g, entry) && (s.cur == [] ==> s.out == LevelOrder(g, entry))
  {
  }

  class BfIter {
    const g: Graph
    const entry: Node
    var visitQueue: seq<Entry>
    var visited: set<Node>
    var level: nat
    ghost var st: State

    ghost predicate Running()
      reads this
    {
      Inv(g, entry, st) && visitQueue == Queue(st) && visited == st.dist.Keys && level == st.level
    }

    ghost predicate Valid()
      reads this
    {
      Running() && Suspended(g, entry, st)
    }

    constructor Begin(g: Graph, entry: Node)
      requires g.WellFormed() && entry in g.succ
      ensures Valid() && this.g == g && this.entry == entry
      ensures st.out == [] && st.cur == [entry] && level == 0
    {
      this.g, this.entry := g, entry;
      visited, level := {entry}, 0;
      visitQueue := [Item(entry), Marker];
      st := State([], [entry], [], map[entry := 0], 0);
      new;
      assert IsPath(g, [entry], entry, entry);
      assert ReachIn(g, entry, entry, 0);
      StartTracks(g, entry);
    }

    /** operator*, and getLevel at the same moment. */
    method Current() returns (n: Node, l: nat)
      requires Valid() && visitQueue != []
      ensures st.cur != [] && n == st.cur[0] && l == level
      ensures Shortest(g, entry, n, l)
    {
      n, l := visitQueue[0].node, level;
      assert n in st.cur && n in st.out + st.cur + st.nxt;
      FoundAtShortest(g, entry, st, n);
    }

    /** toNext, which is operator++. */
    method ToNext()
      requires Valid() && visitQueue != []
      modifies this
      ensures Valid()
      ensures st.out == old(st.out) + [old(st.cur)[0]]
      ensures level == old(level) || level == old(level) + 1
      ensures st.out <= LevelOrder(g, entry)
      ensures visitQueue == [] ==> st.out == LevelOrder(g, entry) && forall n :: n in st.out <==> Reach(g, entry, n)
    {
      hide Inv, Queue, Reach, OnTrack, Children;
      QueuePass(st);
      var node := visitQueue[0].node;
      HeadInGraph(g, entry, st);
      HeadChildren(g, st);
      ghost var kids, rest := g.succ[node], Children(g, st.cur[1..]);
      assert kids[0..] == kids;
      for i := 0 to |g.succ[node]|
        invariant Running() && OnTrack(g, entry, st, kids[i..] + rest)
        invariant visitQueue != [] && st.out == old(st.out) && st.cur == old(st.cur) && level == old(level)
        invariant forall j :: 0 <= j < i ==> g.succ[node][j] in st.dist
      {
        var next := g.succ[node][i];
        AddChildKeeps(g, entry, st, next);
        NextTodo(kids, i, rest);
        AddChildTracks(g, entry, st, next, kids[i + 1..] + rest);
        QueueAdd(st, next);
        if next !in visited {
          visited := visited + {next};
          visitQueue := visitQueue + [Item(next)];
        }
        st := AddChild(st, next);
      }
      assert kids[|kids|..] + rest == rest;
      TrackedIn(g, entry, st, rest);
      PassHeadTracks(g, entry, st);
      PassHeadKeeps(g, entry, st);
      QueuePass(st);
      ghost var queue := visitQueue;
      assert queue[1..][1..] == queue[2..];
      visitQueue := visitQueue[1..];
      if visitQueue[0] == Marker {
        level := level + 1;
        visitQueue := visitQueue[1..];
        if visitQueue != [] {
          visitQueue := visitQueue + [Marker];
        }
      }
      st := PassHead(st);
      SuspendedMeans(g, entry, st);
      if visitQueue == [] {
        EndCoversReachable(g, entry, st);
      }
    }
  }

  lemma HeadInGraph(g: Graph, entry: Node, s: State)
    requires Inv(g, entry, s) && s.cur != []
    ensures s.cur[0] in g.succ
  {
    assert s.cur[0] in s.out + s.cur + s.nxt;
  }

  lemma OutFacts(g: Graph, entry: Node, s: State)
    requires Inv(g, entry, s)
    ensures Distinct(s.out) && SetOf(s.out) <= g.succ.Keys
  {
    assert forall n :: n in s.out ==> n in s.out + s.cur + s.nxt;
    assert forall i :: 0 <= i < |s.out| ==> (s.out + s.cur + s.nxt)[i] == s.out[i];
  }

  /** for (I = bf_begin(G); I != bf_end(G); ++I): every reachable node once, level by level,
      each at the level that is its distance from the entry. */
  method Traverse(g: Graph, entry: Node) returns (nodes: seq<Node>, levels: seq<nat>)
    requires g.WellFormed() && entry in g.succ
    ensures Distinct(nodes) && |levels| == |nodes|
    ensures forall n :: n in nodes <==> Reach(g, entry, n)
    ensures forall i :: 0 <= i < |nodes| ==> ReachIn(g, entry, nodes[i], levels[i])
    ensures forall i, k: nat :: 0 <= i < |nodes| && k < levels[i] ==> !ReachIn(g, entry, nodes[i], k)
    ensures forall i, j :: 0 <= i <= j < |nodes| ==> levels[i] <= levels[j]
    ensures nodes == LevelOrder(g, entry)
  {
    hide Inv, Suspended, Reach, ReachIn, Shortest, Distinct, SetOf, Distances;
    var it := new BfIter.Begin(g, entry);
    nodes, levels := [], [];
    OutFacts(g, entry, it.st);
    DistancesNone(g, entry, it.level);
    while it.visitQueue != []
      invariant it.Valid() && it.g == g && it.entry == entry && fresh(it)
      invariant nodes == it.st.out && Distinct(nodes) && SetOf(nodes) <= g.succ.Keys && Distances(g, entry, nodes, levels, it.level)
      invariant it.visitQueue == [] ==> forall n :: n in nodes <==> Reach(g, entry, n)
      decreases g.succ.Keys - SetOf(nodes)
    {
      ghost var before := nodes;
      var n, l := it.Current();
      ghost var was := levels;
      nodes, levels := nodes + [n], levels + [l];
      it.ToNext();
      OutFacts(g, entry, it.st);
      DistinctGrows(before, n);
      DistancesNext(g, entry, before, was, n, l, it.level);
    }
    DistancesFacts(g, entry, nodes, levels, it.level);
    ShortestMeans(g, entry);
    SuspendedMeans(g, entry, it.st);
  }

  lemma ShortestMeans(g: Graph, u: Node)
    ensures forall v, d: nat :: Shortest(g, u, v, d) ==> ReachIn(g, u, v, d) && forall k: nat :: k < d ==> !ReachIn(g, u, v, k)
  {
    hide ReachIn;
  }

  /** levels are the nodes' distances, ascending up to the current level. */
  ghost predicate Distances(g: Graph, entry: Node, nodes: seq<Node>, levels: seq<nat>, level: nat) {
    && |levels| == |nodes|
    && (forall i :: 0 <= i < |nodes| ==> Shortest(g, entry, nodes[i], levels[i]))
    && (forall i :: 0 <= i < |nodes| ==> levels[i] <= level)
    && (forall i, j :: 0 <= i <= j < |nodes| ==> levels[i] <= levels[j])
  }

  lemma DistancesNone(g: Graph, entry: Node, level: nat)
    ensures Distances(g, entry, [], [], level)
  {
  }

  lemma DistancesNext(g: Graph, entry: Node, nodes: seq<Node>, levels: seq<nat>, n: Node, l: nat, level: nat)
    requires Distances(g, entry, nodes, levels, l) && Shortest(g, entry, n, l) && l <= level
    ensures Distances(g, entry, nodes + [n], levels + [l], level)
  {
    hide Shortest;
  }

  lemma DistancesFacts(g: Graph, entry: Node, nodes: seq<Node>, levels: seq<nat>, level: nat)
    requires Distances(g, entry, nodes, levels, level)
    ensures |levels| == |nodes|
    ensures forall i :: 0 <= i < |nodes| ==> Shortest(g, entry, nodes[i], levels[i])
    ensures forall i, j :: 0 <= i <= j < |nodes| ==> levels[i] <= levels[j]
  {
  }
}
