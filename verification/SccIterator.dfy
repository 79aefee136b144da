/** scc_iterator: Tarjan's algorithm with explicit stacks, suspended after each component. */
module SccIterator {
  import opened Graphs
  import opened Collections
  import D = DepthFirst

  /** The visit number of a node whose component has been yielded (~0U). */
  const YIELDED: nat := 0xFFFF_FFFF

  /** StackElement: the node, the index of its next child, its minimum uplink value. */
  datatype Frame = Frame(node: Node, next: nat, low: nat)

  datatype State = State(visitNum: nat, num: map<Node, nat>, stack: seq<Node>, frames: seq<Frame>)

  // ----- The steps, on values -----

  function VisitOne(s: State, n: Node): State {
    State(s.visitNum + 1, s.num[n := s.visitNum + 1], s.stack + [n], s.frames + [Frame(n, 0, s.visitNum + 1)])
  }

  /** NextChild++ on the top frame. */
  function Bump(s: State): State
    requires s.frames != []
  {
    var k := |s.frames| - 1;
    s.(frames := s.frames[k := s.frames[k].(next := s.frames[k].next + 1)])
  }

  function LowerTop(s: State, low: nat): State
    requires s.frames != []
  {
    var k := |s.frames| - 1;
    if s.frames[k].low > low then s.(frames := s.frames[k := s.frames[k].(low := low)]) else s
  }

  function PopFrame(s: State): State
    requires s.frames != []
  {
    var low := s.frames[|s.frames| - 1].low;
    var s' := s.(frames := s.frames[..|s.frames| - 1]);
    if s'.frames == [] then s' else LowerTop(s', low)
  }

  function MarkYielded(num: map<Node, nat>, ns: seq<Node>): (r: map<Node, nat>)
  {
    map n | n in num :: if n in ns then YIELDED else num[n]
  }

  // ----- The invariant -----

  /** Visited, and its component is not yielded yet. */
  ghost predicate Open(s: State, n: Node) {
    n in s.num && s.num[n] < YIELDED
  }

  ghost predicate Numbers(g: Graph, s: State) {
    && g.WellFormed() && |g.succ| < YIELDED
    && s.num.Keys <= g.succ.Keys
    && s.visitNum == |s.num| < YIELDED
    && (forall n :: n in s.num ==> s.num[n] == YIELDED || 1 <= s.num[n] <= s.visitNum)
  }

  /** The node stack holds exactly the open nodes, by increasing visit number. */
  ghost predicate StackOk(s: State) {
    && (forall i :: 0 <= i < |s.stack| ==> Open(s, s.stack[i]))
    && (forall i, j :: 0 <= i < j < |s.stack| ==> s.num[s.stack[i]] < s.num[s.stack[j]])
    && (forall n :: Open(s, n) ==> n in s.stack)
  }

  ghost predicate FrameOk(g: Graph, s: State, f: Frame) {
    && Open(s, f.node) && f.node in g.succ
    && f.next <= |g.succ[f.node]|
    && f.low <= s.num[f.node]
  }

  ghost predicate FramesOk(g: Graph, s: State) {
    && (forall k :: 0 <= k < |s.frames| ==> FrameOk(g, s, s.frames[k]))
    && (forall i, j :: 0 <= i < j < |s.frames| ==> s.num[s.frames[i].node] < s.num[s.frames[j].node])
  }

  /** No open node is older than the bottom frame. */
  ghost predicate BottomOk(s: State) {
    forall n :: Open(s, n) ==> s.frames != [] && Open(s, s.frames[0].node) && s.num[s.frames[0].node] <= s.num[n]
  }

  ghost predicate YieldedClosed(g: Graph, s: State) {
    forall u, v :: u in s.num && s.num[u] == YIELDED && Edge(g, u, v) ==> v in s.num && s.num[v] == YIELDED
  }

  /** w was found after frame k's node. */
  ghost predicate Above(s: State, k: int, w: Node) {
    && 0 <= k < |s.frames| && Open(s, w) && Open(s, s.frames[k].node)
    && s.num[s.frames[k].node] <= s.num[w]
  }

  /** w belongs to frame k: it was found after frame k's node and before frame k+1's. */
  ghost predicate InSegment(s: State, k: int, w: Node) {
    && Above(s, k, w)
    && (k + 1 < |s.frames| ==> Open(s, s.frames[k + 1].node) && s.num[w] < s.num[s.frames[k + 1].node])
  }

  /** Everything found after a frame's node is reachable from it. */
  ghost predicate Down(g: Graph, s: State) {
    forall k, w :: Above(s, k, w) ==> Reach(g, s.frames[k].node, w)
  }

  /** Every node of a segment reaches the segment's frame. */
  ghost predicate Up(g: Graph, s: State) {
    forall k, w :: InSegment(s, k, w) ==> Reach(g, w, s.frames[k].node)
  }

  ghost predicate LowWitness(g: Graph, s: State, f: Frame, x: Node) {
    Open(s, x) && s.num[x] == f.low && Reach(g, f.node, x)
  }

  ghost predicate HasWitness(g: Graph, s: State, f: Frame) {
    exists x :: LowWitness(g, s, f, x)
  }

  ghost predicate LowSound(g: Graph, s: State) {
    forall k :: 0 <= k < |s.frames| ==> HasWitness(g, s, s.frames[k])
  }

  ghost predicate LowBounds(s: State, f: Frame, x: Node) {
    x in s.num && f.low <= s.num[x]
  }

  /** Every child a frame has looked at is visited, and low is a lower bound of their numbers. */
  ghost predicate FrameEdges(g: Graph, s: State) {
    forall k, j :: 0 <= k < |s.frames| && s.frames[k].node in g.succ && 0 <= j < s.frames[k].next <= |g.succ[s.frames[k].node]|
      ==> LowBounds(s, s.frames[k], g.succ[s.frames[k].node][j])
  }

  /** The same for the finished nodes of a segment. */
  ghost predicate RestEdges(g: Graph, s: State) {
    forall k, w, x :: InSegment(s, k, w) && w != s.frames[k].node && Edge(g, w, x) ==> LowBounds(s, s.frames[k], x)
  }

  ghost predicate Inv(g: Graph, s: State) {
    && Numbers(g, s) && StackOk(s) && FramesOk(g, s) && BottomOk(s) && YieldedClosed(g, s)
    && Down(g, s) && Up(g, s) && LowSound(g, s) && FrameEdges(g, s) && RestEdges(g, s)
  }

  lemma {:induction false} FindSegment(g: Graph, s: State, x: Node, n: nat) returns (k: nat)
    requires FramesOk(g, s) && BottomOk(s) && Open(s, x) && 1 <= n <= |s.frames|
    requires n < |s.frames| ==> s.num[x] < s.num[s.frames[n].node]
    ensures k < n && InSegment(s, k, x)
  {
    if s.num[s.frames[n - 1].node] <= s.num[x] {
      k := n - 1;
    } else {
      k := FindSegment(g, s, x, n - 1);
    }
  }

  /** The node the iterator stands on, and the child it looks at next. */
  ghost predicate NextChild(g: Graph, s: State, c: Node) {
    && s.frames != []
    && var f := s.frames[|s.frames| - 1];
    f.node in g.succ && f.next < |g.succ[f.node]| && c == g.succ[f.node][f.next]
  }

  // ----- Step 1: the next child was visited before -----

  lemma SeenChildKeeps(g: Graph, s: State, c: Node)
    requires Inv(g, s) && NextChild(g, s, c) && c in s.num
    ensures Inv(g, LowerTop(Bump(s), s.num[c]))
  {
    hide Numbers, StackOk, FramesOk, BottomOk, YieldedClosed, Down, Up, LowSound, FrameEdges, RestEdges;
    var s' := LowerTop(Bump(s), s.num[c]);
    SeenChildBasics(g, s, c, s');
    SeenChildReach(g, s, c, s');
    SeenChildEdges(g, s, c, s');
    SeenChildLow(g, s, c, s');
  }

  lemma SeenChildBasics(g: Graph, s: State, c: Node, s': State)
    requires Numbers(g, s) && StackOk(s) && FramesOk(g, s) && BottomOk(s) && YieldedClosed(g, s)
    requires NextChild(g, s, c) && c in s.num && s' == LowerTop(Bump(s), s.num[c])
    ensures Numbers(g, s') && StackOk(s') && FramesOk(g, s') && BottomOk(s') && YieldedClosed(g, s')
  {
    SeenChildSegments(s, c, s');
    assert forall n :: Open(s', n) == Open(s, n);
    forall k | 0 <= k < |s'.frames| ensures FrameOk(g, s', s'.frames[k]) {
      assert FrameOk(g, s, s.frames[k]);
    }
  }

  lemma SeenChildReach(g: Graph, s: State, c: Node, s': State)
    requires Down(g, s) && Up(g, s)
    requires NextChild(g, s, c) && c in s.num && s' == LowerTop(Bump(s), s.num[c])
    ensures Down(g, s') && Up(g, s')
  {
    SeenChildSegments(s, c, s');
  }

  lemma SeenChildSegments(s: State, c: Node, s': State)
    requires s.frames != [] && c in s.num && s' == LowerTop(Bump(s), s.num[c])
    ensures s'.num == s.num && |s'.frames| == |s.frames|
    ensures forall k :: 0 <= k < |s.frames| - 1 ==> s'.frames[k] == s.frames[k]
    ensures forall k :: 0 <= k < |s.frames| ==> s'.frames[k].node == s.frames[k].node && s'.frames[k].low <= s.frames[k].low
    ensures forall k, w :: Above(s', k, w) == Above(s, k, w)
    ensures forall k, w :: InSegment(s', k, w) == InSegment(s, k, w)
  {
  }

  lemma SeenChildEdges(g: Graph, s: State, c: Node, s': State)
    requires FrameEdges(g, s) && RestEdges(g, s) && NextChild(g, s, c) && c in s.num && s' == LowerTop(Bump(s), s.num[c])
    ensures FrameEdges(g, s') && RestEdges(g, s')
  {
    SeenChildSegments(s, c, s');
    forall k, j | 0 <= k < |s'.frames| && s'.frames[k].node in g.succ && 0 <= j < s'.frames[k].next <= |g.succ[s'.frames[k].node]|
      ensures LowBounds(s', s'.frames[k], g.succ[s'.frames[k].node][j])
    {
      if j < s.frames[k].next {
        assert LowBounds(s, s.frames[k], g.succ[s.frames[k].node][j]);
      }
    }
    forall k, w, x | InSegment(s', k, w) && w != s'.frames[k].node && Edge(g, w, x) ensures LowBounds(s', s'.frames[k], x) {
      assert LowBounds(s, s.frames[k], x);
    }
  }

  lemma SeenChildLow(g: Graph, s: State, c: Node, s': State)
    requires FramesOk(g, s) && LowSound(g, s) && NextChild(g, s, c) && c in s.num && s' == LowerTop(Bump(s), s.num[c])
    ensures LowSound(g, s')
  {
    var t := |s.frames| - 1;
    forall k | 0 <= k < |s'.frames| ensures HasWitness(g, s', s'.frames[k]) {
      assert HasWitness(g, s, s.frames[k]);
      var x :| LowWitness(g, s, s.frames[k], x);
      if k == t && s.num[c] < s.frames[t].low {
        assert Edge(g, s.frames[t].node, c);
        ReachEdge(g, s.frames[t].node, c);
        assert LowWitness(g, s', s'.frames[k], c);
      } else {
        assert LowWitness(g, s', s'.frames[k], x);
      }
    }
  }

  // ----- Step 2: the next child is new -----

  lemma NewChildKeeps(g: Graph, s: State, c: Node)
    requires Inv(g, s) && NextChild(g, s, c) && c !in s.num
    ensures Inv(g, VisitOne(Bump(s), c))
  {
    hide Numbers, StackOk, FramesOk, BottomOk, YieldedClosed, Down, Up, LowSound, FrameEdges, RestEdges;
    var s' := VisitOne(Bump(s), c);
    NewChildBasics(g, s, c, s');
    NewChildSegments(g, s, c, s');
    NewChildReach(g, s, c, s');
    NewChildEdges(g, s, c, s');
  }

  lemma NewChildBasics(g: Graph, s: State, c: Node, s': State)
    requires Numbers(g, s) && StackOk(s) && FramesOk(g, s) && BottomOk(s) && YieldedClosed(g, s)
    requires NextChild(g, s, c) && c !in s.num && s' == VisitOne(Bump(s), c)
    ensures Numbers(g, s') && StackOk(s') && FramesOk(g, s') && BottomOk(s') && YieldedClosed(g, s')
  {
    NewChildNumbers(g, s, c, s');
    NewChildStack(g, s, c, s');
    NewChildFrames(g, s, c, s');
  }

  lemma NewChildNumbers(g: Graph, s: State, c: Node, s': State)
    requires Numbers(g, s) && NextChild(g, s, c) && c !in s.num && s' == VisitOne(Bump(s), c)
    ensures Numbers(g, s')
    ensures c in g.succ && (forall n :: Open(s', n) <==> n == c || Open(s, n))
    ensures forall n :: Open(s, n) ==> s'.num[n] == s.num[n] <= s.visitNum
  {
    assert Edge(g, s.frames[|s.frames| - 1].node, c);
    assert s'.num.Keys == s.num.Keys + {c};
    SubsetSize(s'.num.Keys, g.succ.Keys);
  }

  lemma NewChildStack(g: Graph, s: State, c: Node, s': State)
    requires Numbers(g, s) && StackOk(s) && NextChild(g, s, c) && c !in s.num && s' == VisitOne(Bump(s), c)
    ensures StackOk(s')
  {
    NewChildNumbers(g, s, c, s');
    assert s'.stack[|s.stack|] == c;
    forall n | Open(s', n) ensures n in s'.stack {
      if n != c {
        assert n in s.stack;
      }
    }
  }

  lemma NewChildFrames(g: Graph, s: State, c: Node, s': State)
    requires Numbers(g, s) && FramesOk(g, s) && BottomOk(s) && NextChild(g, s, c) && c !in s.num && s' == VisitOne(Bump(s), c)
    ensures FramesOk(g, s') && BottomOk(s')
  {
    NewChildBottom(g, s, c, s');
    NewChildNumbers(g, s, c, s');
    hide Numbers, BottomOk;
    var t := |s.frames|;
    assert forall k :: 0 <= k < t ==> s'.frames[k].node == s.frames[k].node && Open(s, s.frames[k].node);
    forall k | 0 <= k < |s'.frames| ensures FrameOk(g, s', s'.frames[k]) {
      if k < t {
        assert FrameOk(g, s, s.frames[k]);
      }
    }
  }

  lemma NewChildBottom(g: Graph, s: State, c: Node, s': State)
    requires Numbers(g, s) && FramesOk(g, s) && BottomOk(s) && NextChild(g, s, c) && c !in s.num && s' == VisitOne(Bump(s), c)
    ensures BottomOk(s')
  {
    NewChildNumbers(g, s, c, s');
    assert s'.frames[0].node == s.frames[0].node;
    assert FrameOk(g, s, s.frames[0]);
    forall n | Open(s', n) ensures s'.num[s'.frames[0].node] <= s'.num[n] {
      if n != c {
        assert Open(s, n);
      }
    }
  }

  lemma NewChildSegments(g: Graph, s: State, c: Node, s': State)
    requires Numbers(g, s) && FramesOk(g, s) && NextChild(g, s, c) && c !in s.num && s' == VisitOne(Bump(s), c)
    requires Numbers(g, s')
    ensures forall k :: 0 <= k < |s.frames| ==> s'.frames[k].node == s.frames[k].node && s'.frames[k].low == s.frames[k].low
    ensures forall k, w :: Above(s', k, w) ==> w == c || Above(s, k, w)
    ensures forall k, w :: InSegment(s', k, w) ==> if w == c then k == |s.frames| else InSegment(s, k, w)
  {
  }

  lemma NewChildReach(g: Graph, s: State, c: Node, s': State)
    requires Numbers(g, s) && FramesOk(g, s) && Down(g, s) && Up(g, s) && LowSound(g, s)
    requires NextChild(g, s, c) && c !in s.num && s' == VisitOne(Bump(s), c)
    requires Numbers(g, s')
    ensures Down(g, s') && Up(g, s') && LowSound(g, s')
  {
    var t := |s.frames| - 1;
    NewChildSegments(g, s, c, s');
    ReachRefl(g, c);
    assert Edge(g, s.frames[t].node, c);
    forall k, w | Above(s', k, w) ensures Reach(g, s'.frames[k].node, w) {
      if w == c && k <= t {
        assert Above(s, k, s.frames[t].node);
        ReachStep(g, s.frames[k].node, s.frames[t].node, c);
      }
    }
    forall k | 0 <= k < |s'.frames| ensures HasWitness(g, s', s'.frames[k]) {
      if k <= t {
        assert HasWitness(g, s, s.frames[k]);
      var x :| LowWitness(g, s, s.frames[k], x);
        assert LowWitness(g, s', s'.frames[k], x);
      } else {
        assert LowWitness(g, s', s'.frames[k], c);
      }
    }
  }

  lemma NewChildEdges(g: Graph, s: State, c: Node, s': State)
    requires Numbers(g, s) && FramesOk(g, s) && FrameEdges(g, s) && RestEdges(g, s)
    requires NextChild(g, s, c) && c !in s.num && s' == VisitOne(Bump(s), c)
    requires Numbers(g, s')
    ensures FrameEdges(g, s') && RestEdges(g, s')
  {
    NewChildSegments(g, s, c, s');
    forall k, j | 0 <= k < |s'.frames| && s'.frames[k].node in g.succ && 0 <= j < s'.frames[k].next <= |g.succ[s'.frames[k].node]|
      ensures LowBounds(s', s'.frames[k], g.succ[s'.frames[k].node][j])
    {
      assert FrameOk(g, s, s.frames[k]);
      if j < s.frames[k].next {
        assert LowBounds(s, s.frames[k], g.succ[s.frames[k].node][j]);
      }
    }
    forall k, w, x | InSegment(s', k, w) && w != s'.frames[k].node && Edge(g, w, x) ensures LowBounds(s', s'.frames[k], x) {
      assert LowBounds(s, s.frames[k], x);
    }
  }

  // ----- Step 3: a finished node that does not start a component is popped -----

  /** The top frame has looked at all its children. */
  ghost predicate Finished(g: Graph, s: State) {
    && s.frames != []
    && var f := s.frames[|s.frames| - 1];
    f.node in g.succ && f.node in s.num && f.next == |g.succ[f.node]|
  }

  function Top(s: State): Frame
    requires s.frames != []
  {
    s.frames[|s.frames| - 1]
  }

  lemma PopKeeps(g: Graph, s: State)
    requires Inv(g, s) && Finished(g, s) && Top(s).low != s.num[Top(s).node]
    ensures Inv(g, PopFrame(s)) && PopFrame(s).frames != []
  {
    hide Numbers, StackOk, FramesOk, BottomOk, YieldedClosed, Down, Up, LowSound, FrameEdges, RestEdges;
    TopOpen(g, s);
    TopHasParent(g, s);
    PopBasics(g, s);
    PopReach(g, s);
    PopLow(g, s);
    PopEdges(g, s);
  }

  lemma TopOpen(g: Graph, s: State)
    requires FramesOk(g, s) && s.frames != []
    ensures Open(s, Top(s).node)
  {
    assert FrameOk(g, s, s.frames[|s.frames| - 1]);
  }

  lemma PopBasics(g: Graph, s: State)
    requires Numbers(g, s) && StackOk(s) && FramesOk(g, s) && BottomOk(s) && YieldedClosed(g, s) && |s.frames| >= 2
    ensures var s' := PopFrame(s);
      Numbers(g, s') && StackOk(s') && FramesOk(g, s') && BottomOk(s') && YieldedClosed(g, s')
  {
    var s' := PopFrame(s);
    PopSegments(g, s);
    assert forall n :: Open(s', n) == Open(s, n);
    assert forall k :: 0 <= k < |s'.frames| ==> FrameOk(g, s, s.frames[k]);
    hide Numbers;
    assert FramesOk(g, s') && BottomOk(s');
  }

  lemma TopHasParent(g: Graph, s: State)
    requires BottomOk(s) && LowSound(g, s) && FramesOk(g, s) && s.frames != [] && Open(s, Top(s).node) && Top(s).low != s.num[Top(s).node]
    ensures |s.frames| >= 2
  {
    assert HasWitness(g, s, s.frames[|s.frames| - 1]);
      var x :| LowWitness(g, s, s.frames[|s.frames| - 1], x);
  }

  lemma PopSegments(g: Graph, s: State)
    requires |s.frames| >= 2 && FramesOk(g, s)
    ensures var s' := PopFrame(s); var t := |s.frames| - 1;
            && |s'.frames| == t && s'.num == s.num && s'.frames[t - 1].low <= s.frames[t].low
            && (forall k :: 0 <= k < t ==> s'.frames[k].node == s.frames[k].node && s'.frames[k].low <= s.frames[k].low)
            && (forall k, w :: Above(s', k, w) ==> Above(s, k, w))
            && (forall k, w :: InSegment(s', k, w) ==> InSegment(s, k, w) || (k == t - 1 && InSegment(s, t, w)))
  {
  }

  /** The popped node reaches its parent, through the node that its low number names. */
  lemma ReachesParent(g: Graph, s: State)
    requires FramesOk(g, s) && BottomOk(s) && Down(g, s) && Up(g, s) && LowSound(g, s)
    requires |s.frames| >= 2 && Open(s, Top(s).node) && Top(s).low != s.num[Top(s).node]
    ensures Reach(g, Top(s).node, s.frames[|s.frames| - 2].node)
  {
    var t := |s.frames| - 1;
    var v, p := s.frames[t].node, s.frames[t - 1].node;
    assert FrameOk(g, s, s.frames[t]);
    assert HasWitness(g, s, s.frames[t]);
      var x :| LowWitness(g, s, s.frames[t], x);
    var j := FindSegment(g, s, x, t);
    assert FrameOk(g, s, s.frames[t - 1]);
    assert Above(s, j, p);
    ReachTrans(g, v, x, s.frames[j].node);
    ReachTrans(g, v, s.frames[j].node, p);
  }

  lemma PopReach(g: Graph, s: State)
    requires FramesOk(g, s) && BottomOk(s) && Down(g, s) && Up(g, s) && LowSound(g, s)
    requires |s.frames| >= 2 && Open(s, Top(s).node) && Top(s).low != s.num[Top(s).node]
    ensures Down(g, PopFrame(s)) && Up(g, PopFrame(s))
  {
    var t, s' := |s.frames| - 1, PopFrame(s);
    PopSegments(g, s);
    ReachesParent(g, s);
    forall k, w | InSegment(s', k, w) ensures Reach(g, w, s'.frames[k].node) {
      if !InSegment(s, k, w) {
        ReachTrans(g, w, s.frames[t].node, s.frames[t - 1].node);
      }
    }
  }

  lemma PopLow(g: Graph, s: State)
    requires FramesOk(g, s) && Down(g, s) && LowSound(g, s) && |s.frames| >= 2
    ensures LowSound(g, PopFrame(s)) && FramesOk(g, PopFrame(s))
  {
    var t, s' := |s.frames| - 1, PopFrame(s);
    PopSegments(g, s);
    forall k | 0 <= k < |s'.frames| ensures HasWitness(g, s', s'.frames[k]) {
      assert HasWitness(g, s, s.frames[k]);
      var y :| LowWitness(g, s, s.frames[k], y);
      if k == t - 1 && s.frames[t].low < s.frames[k].low {
        assert HasWitness(g, s, s.frames[t]);
      var x :| LowWitness(g, s, s.frames[t], x);
        assert FrameOk(g, s, s.frames[k]) && FrameOk(g, s, s.frames[t]);
        assert Above(s, k, s.frames[t].node);
        ReachTrans(g, s.frames[k].node, s.frames[t].node, x);
        assert LowWitness(g, s', s'.frames[k], x);
      } else {
        assert LowWitness(g, s', s'.frames[k], y);
      }
    }
    assert forall k :: 0 <= k < t ==> FrameOk(g, s, s.frames[k]);
  }

  /** All edges of the top frame's segment. */
  lemma TopEdges(g: Graph, s: State, w: Node, x: Node)
    requires FrameEdges(g, s) && RestEdges(g, s) && Finished(g, s) && InSegment(s, |s.frames| - 1, w) && Edge(g, w, x)
    ensures LowBounds(s, Top(s), x)
  {
    var t := |s.frames| - 1;
    if w == s.frames[t].node {
      var j :| 0 <= j < |g.succ[w]| && g.succ[w][j] == x;
      assert LowBounds(s, s.frames[t], g.succ[s.frames[t].node][j]);
    }
  }

  lemma PopEdges(g: Graph, s: State)
    requires FramesOk(g, s) && FrameEdges(g, s) && RestEdges(g, s) && Finished(g, s) && |s.frames| >= 2
    ensures FrameEdges(g, PopFrame(s)) && RestEdges(g, PopFrame(s))
  {
    var t, s' := |s.frames| - 1, PopFrame(s);
    PopSegments(g, s);
    forall k, j | 0 <= k < t && s'.frames[k].node in g.succ && 0 <= j < s'.frames[k].next <= |g.succ[s'.frames[k].node]|
      ensures LowBounds(s', s'.frames[k], g.succ[s'.frames[k].node][j])
    {
      assert LowBounds(s, s.frames[k], g.succ[s.frames[k].node][j]);
    }
    forall k, w, x | InSegment(s', k, w) && w != s'.frames[k].node && Edge(g, w, x) ensures LowBounds(s', s'.frames[k], x) {
      if InSegment(s, k, w) {
        assert LowBounds(s, s.frames[k], x);
      } else {
        TopEdges(g, s, w, x);
      }
    }
  }

  // ----- Step 4: a component is complete -----

  ghost predicate IsSCC(g: Graph, c: seq<Node>) {
    && c != [] && Distinct(c)
    && (forall u, v :: u in c && v in c ==> Reach(g, u, v))
    && (forall u, v :: u in c && Reach(g, u, v) && Reach(g, v, u) ==> v in c)
  }

  /** The top frame is finished, starts a component, and its node is at index i of the node stack. */
  ghost predicate Complete(g: Graph, s: State, i: nat) {
    Finished(g, s) && Top(s).low == s.num[Top(s).node] && i < |s.stack| && s.stack[i] == Top(s).node
  }

  /** The stack above an index holds the open nodes with at least the number found there. */
  lemma StackSplit(s: State, i: nat)
    requires StackOk(s) && i < |s.stack|
    ensures forall w :: w in s.stack[i..] <==> Open(s, w) && s.num[w] >= s.num[s.stack[i]]
    ensures forall w :: w in s.stack[..i] <==> Open(s, w) && s.num[w] < s.num[s.stack[i]]
    ensures Distinct(s.stack)
  {
    forall w | Open(s, w) ensures w in if s.num[w] < s.num[s.stack[i]] then s.stack[..i] else s.stack[i..] {
      var j :| 0 <= j < |s.stack| && s.stack[j] == w;
      assert if j < i then s.stack[..i][j] == w else s.stack[i..][j - i] == w;
    }
  }

  lemma SegmentMembers(g: Graph, s: State, i: nat)
    requires Numbers(g, s) && StackOk(s) && FramesOk(g, s) && Complete(g, s, i)
    ensures forall w :: w in s.stack[i..] <==> InSegment(s, |s.frames| - 1, w)
    ensures Distinct(s.stack)
    ensures forall w :: w in s.stack[..i] <==> Open(s, w) && s.num[w] < s.num[Top(s).node]
  {
    hide StackOk;
    StackSplit(s, i);
    assert FrameOk(g, s, Top(s));
  }

  /** Every edge that leaves the segment of a complete frame ends in a yielded node. */
  lemma SegmentEdges(g: Graph, s: State, i: nat, w: Node, x: Node)
    requires Inv(g, s) && Complete(g, s, i) && w in s.stack[i..] && Edge(g, w, x)
    ensures x in s.num && (s.num[x] == YIELDED || x in s.stack[i..])
  {
    SegmentMembers(g, s, i);
    TopEdges(g, s, w, x);
    if s.num[x] != YIELDED {
      assert InSegment(s, |s.frames| - 1, x);
    }
  }

  lemma SegmentIsSCC(g: Graph, s: State, i: nat)
    requires Inv(g, s) && Complete(g, s, i)
    ensures IsSCC(g, s.stack[i..])
  {
    var c := s.stack[i..];
    SegmentMembers(g, s, i);
    SegmentConnected(g, s, c);
    forall u, w | u in c && Reach(g, u, w) && Reach(g, w, u) ensures w in c {
      SegmentMaximal(g, s, i, u, w);
    }
  }

  lemma SegmentConnected(g: Graph, s: State, c: seq<Node>)
    requires Down(g, s) && Up(g, s) && s.frames != [] && forall w :: w in c ==> InSegment(s, |s.frames| - 1, w)
    ensures forall u, v :: u in c && v in c ==> Reach(g, u, v)
  {
    forall u, w | u in c && w in c ensures Reach(g, u, w) {
      assert InSegment(s, |s.frames| - 1, u) && InSegment(s, |s.frames| - 1, w);
      ReachTrans(g, u, s.frames[|s.frames| - 1].node, w);
    }
  }

  function YieldedNodes(s: State): (r: set<Node>) {
    set n | n in s.num && s.num[n] == YIELDED
  }

  lemma SegmentMaximal(g: Graph, s: State, i: nat, u: Node, w: Node)
    requires Inv(g, s) && Complete(g, s, i)
    requires u in s.stack[i..] && Reach(g, u, w) && Reach(g, w, u)
    ensures w in s.stack[i..]
  {
    var c := s.stack[i..];
    var done := YieldedNodes(s);
    var all := done + SetOf(c);
    forall a, b | a in all && Edge(g, a, b) ensures b in all {
      if a in c { SegmentEdges(g, s, i, a, b); }
    }
    ClosedReach(g, all, u, w);
    if w in done {
      ClosedReach(g, done, w, u);
      SegmentMembers(g, s, i);
    }
  }

  function Yield(s: State, i: nat): State
    requires i <= |s.stack| && s.frames != []
  {
    PopFrame(s).(stack := s.stack[..i], num := MarkYielded(s.num, s.stack[i..]))
  }

  lemma YieldKeeps(g: Graph, s: State, i: nat)
    requires Inv(g, s) && Complete(g, s, i)
    ensures Inv(g, Yield(s, i))
  {
    hide Numbers, StackOk, FramesOk, BottomOk, YieldedClosed, Down, Up, LowSound, FrameEdges, RestEdges;
    var s' := Yield(s, i);
    YieldShrinks(g, s, i);
    YieldNumbers(g, s, s');
    YieldStack(g, s, i);
    YieldFrames(g, s, s');
    YieldSegments(g, s, s');
    YieldClosed(g, s, i, s');
    YieldReach(g, s, s');
    YieldLow(g, s, s');
    YieldEdges(g, s, s');
  }

  lemma YieldAddsComponent(g: Graph, s: State, i: nat)
    requires Numbers(g, s) && StackOk(s) && FramesOk(g, s) && Complete(g, s, i)
    ensures YieldedNodes(Yield(s, i)) == YieldedNodes(s) + SetOf(s.stack[i..])
    ensures s.stack[i] in s.stack[i..] && s.stack[i] !in YieldedNodes(s)
  {
    SegmentMembers(g, s, i);
  }

  /** A state with the same frames but the top one, whose open nodes kept their numbers. */
  ghost predicate Shrunk(s: State, s': State) {
    && s.frames != [] && s'.frames == s.frames[..|s.frames| - 1] && s'.num.Keys == s.num.Keys && Open(s, Top(s).node)
    && s'.visitNum == s.visitNum
    && (forall w :: Open(s', w) <==> Open(s, w) && s.num[w] < s.num[Top(s).node])
    && (forall w :: w in s.num ==> s'.num[w] == s.num[w] || s'.num[w] == YIELDED)
  }

  lemma YieldShrinks(g: Graph, s: State, i: nat)
    requires Numbers(g, s) && StackOk(s) && FramesOk(g, s) && Complete(g, s, i)
    ensures Shrunk(s, Yield(s, i))
  {
    StackSplit(s, i);
    YieldPops(g, s, i);
    MarkedMeans(s.num, s.stack[i..]);
    hide Numbers, StackOk, FramesOk, PopFrame, MarkYielded, Distinct;
    var s' := Yield(s, i);
    forall w ensures Open(s', w) <==> Open(s, w) && s.num[w] < s.num[Top(s).node] {
      assert Open(s, w) ==> (w in s.stack[i..] <==> s.num[w] >= s.num[Top(s).node]);
    }
  }

  lemma MarkedMeans(num: map<Node, nat>, ns: seq<Node>)
    ensures MarkYielded(num, ns).Keys == num.Keys
    ensures forall w :: w in num ==> MarkYielded(num, ns)[w] == if w in ns then YIELDED else num[w]
  {
  }

  /** The completed frame's low number is not passed on. */
  lemma YieldPops(g: Graph, s: State, i: nat)
    requires FramesOk(g, s) && Complete(g, s, i)
    ensures Open(s, Top(s).node) && PopFrame(s) == s.(frames := s.frames[..|s.frames| - 1])
  {
    var t := |s.frames| - 1;
    assert FrameOk(g, s, s.frames[t]);
    if t > 0 {
      assert FrameOk(g, s, s.frames[t - 1]) && s.num[s.frames[t - 1].node] < s.num[s.frames[t].node];
    }
  }

  lemma YieldNumbers(g: Graph, s: State, s': State)
    requires Numbers(g, s) && Shrunk(s, s')
    ensures Numbers(g, s')
  {
    assert |s'.num| == |s'.num.Keys| == |s.num.Keys| == |s.num|;
  }

  lemma YieldSegments(g: Graph, s: State, s': State)
    requires Shrunk(s, s')
    ensures forall k, w :: Above(s', k, w) ==> Above(s, k, w)
    ensures forall k, w :: InSegment(s', k, w) ==> InSegment(s, k, w)
  {
    forall k, w | InSegment(s', k, w) ensures InSegment(s, k, w) {
      assert Above(s', k, w) && Open(s', w);
    }
  }

  lemma YieldStack(g: Graph, s: State, i: nat)
    requires Numbers(g, s) && StackOk(s) && FramesOk(g, s) && Complete(g, s, i)
    ensures StackOk(Yield(s, i))
  {
    var s' := Yield(s, i);
    SegmentMembers(g, s, i);
    YieldShrinks(g, s, i);
    forall j | 0 <= j < |s'.stack| ensures Open(s', s'.stack[j]) && s'.num[s'.stack[j]] == s.num[s.stack[j]] {
      assert s'.stack[j] in s.stack[..i];
    }
  }

  lemma YieldFrames(g: Graph, s: State, s': State)
    requires FramesOk(g, s) && BottomOk(s) && Shrunk(s, s')
    ensures FramesOk(g, s') && BottomOk(s')
  {
    forall k | 0 <= k < |s'.frames| ensures FrameOk(g, s', s'.frames[k]) {
      assert FrameOk(g, s, s.frames[k]);
    }
  }

  lemma YieldReach(g: Graph, s: State, s': State)
    requires Down(g, s) && Up(g, s) && Shrunk(s, s')
    ensures Down(g, s') && Up(g, s')
  {
    YieldSegments(g, s, s');
  }

  lemma YieldClosed(g: Graph, s: State, i: nat, s': State)
    requires Inv(g, s) && Complete(g, s, i) && s' == Yield(s, i)
    ensures YieldedClosed(g, s')
  {
    forall u, x | u in s'.num && s'.num[u] == YIELDED && Edge(g, u, x) ensures x in s'.num && s'.num[x] == YIELDED {
      if u in s.stack[i..] { SegmentEdges(g, s, i, u, x); }
    }
  }

  lemma YieldLow(g: Graph, s: State, s': State)
    requires FramesOk(g, s) && LowSound(g, s) && Shrunk(s, s')
    ensures LowSound(g, s')
  {
    forall k | 0 <= k < |s'.frames| ensures HasWitness(g, s', s'.frames[k]) {
      assert HasWitness(g, s, s.frames[k]);
      var y :| LowWitness(g, s, s.frames[k], y);
      assert FrameOk(g, s, s.frames[k]);
      assert s.num[s.frames[k].node] < s.num[s.frames[|s.frames| - 1].node];
      assert LowWitness(g, s', s'.frames[k], y);
    }
  }

  lemma YieldEdges(g: Graph, s: State, s': State)
    requires Numbers(g, s) && FramesOk(g, s) && FrameEdges(g, s) && RestEdges(g, s) && Shrunk(s, s')
    requires forall k, w :: InSegment(s', k, w) ==> InSegment(s, k, w)
    ensures FrameEdges(g, s') && RestEdges(g, s')
  {
    forall k, j | 0 <= k < |s'.frames| && s'.frames[k].node in g.succ && 0 <= j < s'.frames[k].next <= |g.succ[s'.frames[k].node]|
      ensures LowBounds(s', s'.frames[k], g.succ[s'.frames[k].node][j])
    {
      assert LowBounds(s, s.frames[k], g.succ[s.frames[k].node][j]);
    }
    forall k, w, x | InSegment(s', k, w) && w != s'.frames[k].node && Edge(g, w, x) ensures LowBounds(s', s'.frames[k], x) {
      assert LowBounds(s, s.frames[k], x);
    }
  }

  // ----- Whole runs -----

  /** ys are components in an order in which every edge leads to the same or an earlier one. */
  ghost predicate ReverseTopological(g: Graph, ys: seq<seq<Node>>) {
    && (forall i :: 0 <= i < |ys| ==> IsSCC(g, ys[i]))
    && (forall i, j, n :: 0 <= i < j < |ys| && n in ys[i] ==> n !in ys[j])
    && (forall i, j, u, v :: 0 <= i < |ys| && 0 <= j < |ys| && u in ys[i] && v in ys[j] && Edge(g, u, v) ==> j <= i)
  }

  ghost predicate SomeYield(ys: seq<seq<Node>>, n: Node) {
    exists i :: 0 <= i < |ys| && n in ys[i]
  }

  ghost predicate Covers(ys: seq<seq<Node>>, nodes: set<Node>) {
    forall n :: n in nodes <==> SomeYield(ys, n)
  }

  ghost predicate ReachedFrom(g: Graph, entry: Node, s: State) {
    entry in s.num && forall n :: n in s.num ==> Reach(g, entry, n)
  }

  lemma YieldExtendsHistory(g: Graph, s: State, i: nat, ys: seq<seq<Node>>, c: seq<Node>)
    requires Inv(g, s) && Complete(g, s, i) && ReverseTopological(g, ys) && Covers(ys, YieldedNodes(s))
    requires c == Reversed(s.stack[i..])
    ensures ReverseTopological(g, ys + [c]) && Covers(ys + [c], YieldedNodes(Yield(s, i)))
  {
    hide Down, Up, LowSound, FrameEdges, RestEdges, BottomOk, Reach, PopFrame;
    ReversedMembers(s.stack[i..]);
    YieldAddsComponent(g, s, i);
    assert c != [] && Distinct(c) && forall n :: n in c ==> n !in YieldedNodes(s) by {
      SegmentMembers(g, s, i);
    }
    assert IsSCC(g, c) by {
      SegmentIsSCC(g, s, i);
    }
    assert SetOf(c) == SetOf(s.stack[i..]);
    assert Closed(g, YieldedNodes(s));
    hide Numbers, StackOk, FramesOk, YieldedClosed, IsSCC, Closed, Distinct, Covers, YieldedNodes, Reversed, ReverseTopological;
    ExtendCovers(ys, c, YieldedNodes(s));
    ExtendOrder(g, ys, c, YieldedNodes(s));
  }

  lemma ExtendCovers(ys: seq<seq<Node>>, c: seq<Node>, done: set<Node>)
    requires Covers(ys, done)
    ensures Covers(ys + [c], done + SetOf(c))
  {
    var zs := ys + [c];
    forall n ensures n in done + SetOf(c) <==> SomeYield(zs, n) {
      if n in c {
        assert zs[|ys|] == c;
      }
      if SomeYield(ys, n) {
        var j :| 0 <= j < |ys| && n in ys[j];
        assert zs[j] == ys[j];
      }
    }
  }

  lemma ExtendOrder(g: Graph, ys: seq<seq<Node>>, c: seq<Node>, done: set<Node>)
    requires ReverseTopological(g, ys) && Covers(ys, done) && IsSCC(g, c)
    requires forall n :: n in c ==> n !in done
    requires Closed(g, done)
    ensures ReverseTopological(g, ys + [c])
  {
    hide IsSCC, Reach;
    var zs := ys + [c];
    assert forall i :: 0 <= i < |ys| ==> zs[i] == ys[i];
    forall a, n | 0 <= a < |ys| && n in ys[a] ensures n in done {
      assert SomeYield(ys, n);
    }
  }

  /** At the end, exactly the nodes reachable from the entry have been yielded. */
  lemma EndCoversReachable(g: Graph, entry: Node, s: State)
    requires Inv(g, s) && s.frames == [] && ReachedFrom(g, entry, s)
    ensures forall n :: n in YieldedNodes(s) <==> Reach(g, entry, n)
  {
    assert forall n :: n in s.num ==> !Open(s, n);
    forall n | Reach(g, entry, n) ensures n in YieldedNodes(s) {
      ClosedReach(g, YieldedNodes(s), entry, n);
    }
  }

  /** The invariant together with what it says about the components yielded so far. */
  ghost predicate Good(g: Graph, entry: Node, s: State, ys: seq<seq<Node>>) {
    Inv(g, s) && ReachedFrom(g, entry, s) && ReverseTopological(g, ys) && Covers(ys, YieldedNodes(s))
  }

  /** One round of the loop over the top frame's children. */
  function ChildStep(s: State, c: Node): State
    requires s.frames != []
  {
    if c in s.num then LowerTop(Bump(s), s.num[c]) else VisitOne(Bump(s), c)
  }

  lemma ChildStepKeeps(g: Graph, entry: Node, s: State, ys: seq<seq<Node>>, c: Node)
    requires Good(g, entry, s, ys) && NextChild(g, s, c)
    ensures Good(g, entry, ChildStep(s, c), ys)
    ensures YieldedNodes(ChildStep(s, c)) == YieldedNodes(s)
  {
    hide Reach, Down, Up, LowSound, FrameEdges, RestEdges, ReverseTopological, Covers;
    if c in s.num {
      SeenChildKeeps(g, s, c);
    } else {
      NewChildKeeps(g, s, c);
      VisitKeepsHistory(g, entry, s, c, VisitOne(Bump(s), c));
    }
  }

  lemma FrameFacts(g: Graph, entry: Node, s: State, ys: seq<seq<Node>>, t: Trace)
    requires Works(g, entry, s, ys, t) && s.frames != []
    ensures FrameOk(g, s, Top(s)) && s.num.Keys <= g.succ.Keys && Top(s).node in s.num
    ensures Distinct(s.stack) && Top(s).node in s.stack
    ensures forall n :: n in s.stack ==> n in s.num
  {
    assert FrameOk(g, s, s.frames[|s.frames| - 1]);
  }

  lemma PopStepKeeps(g: Graph, entry: Node, s: State, ys: seq<seq<Node>>)
    requires Good(g, entry, s, ys) && Finished(g, s) && Top(s).low != s.num[Top(s).node]
    ensures Good(g, entry, PopFrame(s), ys) && YieldedNodes(PopFrame(s)) == YieldedNodes(s)
  {
    hide Reach, Numbers, StackOk, FramesOk, BottomOk, Down, Up, LowSound, FrameEdges, RestEdges, ReverseTopological, Covers;
    PopKeeps(g, s);
  }

  lemma YieldStepKeeps(g: Graph, entry: Node, s: State, i: nat, ys: seq<seq<Node>>, c: seq<Node>)
    requires Good(g, entry, s, ys) && Complete(g, s, i) && c == Reversed(s.stack[i..])
    ensures Good(g, entry, Yield(s, i), ys + [c]) && YieldedNodes(s) < YieldedNodes(Yield(s, i))
  {
    hide Reach, Down, Up, LowSound, FrameEdges, RestEdges, ReverseTopological, Covers;
    YieldKeeps(g, s, i);
    YieldExtendsHistory(g, s, i, ys, c);
    YieldAddsComponent(g, s, i);
    assert s.stack[i] in YieldedNodes(Yield(s, i));
  }

  lemma YieldedInGraph(g: Graph, entry: Node, s: State, ys: seq<seq<Node>>)
    requires Good(g, entry, s, ys)
    ensures YieldedNodes(s) <= g.succ.Keys
  {
  }

  lemma FinalYields(g: Graph, entry: Node, s: State, ys: seq<seq<Node>>, t: Trace)
    requires Works(g, entry, s, ys, t) && s.frames == []
    ensures forall n :: SomeYield(ys, n) <==> Reach(g, entry, n)
  {
    EndCoversReachable(g, entry, s);
  }

  // ----- The order of the components -----

  /** The nodes in the order they were entered, and in the order they were popped. */
  datatype Trace = Trace(found: seq<Node>, left: seq<Node>)

  ghost function Places(frames: seq<Frame>): (ps: seq<D.Frame>)
    ensures |ps| == |frames| && forall k :: 0 <= k < |ps| ==> ps[k] == D.Frame(frames[k].node, frames[k].next)
  {
    seq(|frames|, k requires 0 <= k < |frames| => D.Frame(frames[k].node, frames[k].next))
  }

  /** The search goes on as the recursive one does. */
  ghost predicate OnTrack(g: Graph, entry: Node, s: State, t: Trace) {
    && g.WellFormed() && entry in g.succ && D.FramesIn(g, Places(s.frames))
    && var w := D.Rest(g, Places(s.frames), s.num.Keys);
    t.found + w.pre == D.PreOrderOf(g, entry, {}) && t.left + w.post == D.PostOrderOf(g, entry, {})
  }

  /** Visit numbers are positions in the order of entering. */
  ghost predicate NumbersTell(s: State, found: seq<Node>) {
    && |found| == s.visitNum && (forall n :: n in s.num ==> n in found)
    && forall p :: 0 <= p < |found| ==> found[p] in s.num && (s.num[found[p]] == YIELDED || s.num[found[p]] == p + 1)
  }

  ghost predicate Before(s: seq<Node>, x: Node, y: Node) {
    exists p, q :: 0 <= p < q < |s| && s[p] == x && s[q] == y
  }

  ghost predicate Descending(pre: seq<Node>, c: seq<Node>) {
    forall a, b :: 0 <= a < b < |c| ==> Before(pre, c[b], c[a])
  }

  /** The node through which the search came into a component. */
  function Root(c: seq<Node>): (n: Node)
    requires c != []
  {
    c[|c| - 1]
  }

  /** Every component lists its nodes from the last entered to the first, and the components come in
      the order in which the search leaves their roots. */
  ghost predicate InOrder(ys: seq<seq<Node>>, pre: seq<Node>, post: seq<Node>) {
    && (forall i :: 0 <= i < |ys| ==> ys[i] != [] && Descending(pre, ys[i]) && Root(ys[i]) in post)
    && (forall i, j :: 0 <= i < j < |ys| && ys[i] != [] && ys[j] != [] ==> Before(post, Root(ys[i]), Root(ys[j])))
  }

  ghost predicate Ordered(g: Graph, entry: Node, s: State, ys: seq<seq<Node>>, t: Trace) {
    OnTrack(g, entry, s, t) && NumbersTell(s, t.found) && InOrder(ys, t.found, t.left)
  }

  lemma BeforeGrows(s: seq<Node>, t: seq<Node>, x: Node, y: Node)
    requires Before(s, x, y) && s <= t
    ensures Before(t, x, y)
  {
    var p, q :| 0 <= p < q < |s| && s[p] == x && s[q] == y;
    assert t[p] == x && t[q] == y;
  }

  lemma InOrderGrows(ys: seq<seq<Node>>, pre: seq<Node>, post: seq<Node>, pre': seq<Node>, post': seq<Node>)
    requires InOrder(ys, pre, post) && pre <= pre' && post <= post'
    ensures InOrder(ys, pre', post')
  {
    hide Before;
    forall i | 0 <= i < |ys| ensures ys[i] != [] && Descending(pre', ys[i]) && Root(ys[i]) in post' {
      assert Descending(pre, ys[i]);
      forall a, b | 0 <= a < b < |ys[i]| ensures Before(pre', ys[i][b], ys[i][a]) {
        BeforeGrows(pre, pre', ys[i][b], ys[i][a]);
      }
    }
    forall i, j | 0 <= i < j < |ys| ensures Before(post', Root(ys[i]), Root(ys[j])) {
      BeforeGrows(post, post', Root(ys[i]), Root(ys[j]));
    }
  }

  lemma BumpPlaces(s: State, low: nat)
    requires s.frames != []
    ensures Places(Bump(s).frames) == D.Bumped(Places(s.frames))
    ensures Places(LowerTop(Bump(s), low).frames) == D.Bumped(Places(s.frames))
  {
  }

  lemma PopPlaces(s: State)
    requires s.frames != []
    ensures Places(PopFrame(s).frames) == Places(s.frames)[..|s.frames| - 1]
  {
  }

  lemma ChildStepTracks(g: Graph, entry: Node, s: State, ys: seq<seq<Node>>, t: Trace, c: Node)
    requires Ordered(g, entry, s, ys, t) && NextChild(g, s, c)
    ensures Ordered(g, entry, ChildStep(s, c), ys, if c in s.num then t else t.(found := t.found + [c]))
  {
    hide D.Rest, D.PreOrderOf, D.PostOrderOf, InOrder, D.Bumped, Places;
    BumpPlaces(s, if c in s.num then s.num[c] else 0);
    var ps := Places(s.frames);
    if c in s.num {
      D.RestSeen(g, ps, s.num.Keys, c);
    } else {
      D.RestNew(g, ps, s.num.Keys, c);
      var s' := ChildStep(s, c);
      VisitPlaces(Bump(s), c);
      assert s'.num.Keys == s.num.Keys + {c};
      var w := D.Rest(g, Places(s'.frames), s'.num.Keys);
      Assoc(t.found, [c], w.pre);
      InOrderGrows(ys, t.found, t.left, t.found + [c], t.left);
      VisitTells(Bump(s), t.found, c);
    }
  }

  lemma VisitPlaces(s: State, c: Node)
    ensures Places(VisitOne(s, c).frames) == Places(s.frames) + [D.Frame(c, 0)]
  {
  }

  lemma VisitTells(s: State, found: seq<Node>, c: Node)
    requires NumbersTell(s, found) && c !in s.num
    ensures NumbersTell(VisitOne(s, c), found + [c])
  {
    var r := VisitOne(s, c);
    assert (found + [c])[|found|] == c;
    forall n | n in r.num ensures n in found + [c] {
    }
  }

  lemma PopTracks(g: Graph, entry: Node, s: State, t: Trace, s': State)
    requires OnTrack(g, entry, s, t) && Finished(g, s)
    requires s'.frames == PopFrame(s).frames && s'.num.Keys == s.num.Keys
    ensures OnTrack(g, entry, s', t.(left := t.left + [Top(s).node]))
  {
    hide D.Rest, D.PreOrderOf, D.PostOrderOf, Places;
    PopPlaces(s);
    D.RestDone(g, Places(s.frames), s.num.Keys);
    var w := D.Rest(g, Places(s'.frames), s'.num.Keys);
    Assoc(t.left, [Top(s).node], w.post);
  }

  lemma PopStepTracks(g: Graph, entry: Node, s: State, ys: seq<seq<Node>>, t: Trace)
    requires Ordered(g, entry, s, ys, t) && Finished(g, s)
    ensures Ordered(g, entry, PopFrame(s), ys, t.(left := t.left + [Top(s).node]))
  {
    PopTracks(g, entry, s, t, PopFrame(s));
    hide OnTrack, InOrder;
    InOrderGrows(ys, t.found, t.left, t.found, t.left + [Top(s).node]);
  }

  lemma FoundAt(s: State, found: seq<Node>, n: Node)
    requires NumbersTell(s, found) && Open(s, n)
    ensures 0 < s.num[n] <= |found| && found[s.num[n] - 1] == n
  {
    var p :| 0 <= p < |found| && found[p] == n;
  }

  lemma StackAscends(s: State, found: seq<Node>, i: nat, j: nat)
    requires NumbersTell(s, found) && StackOk(s) && i < j < |s.stack|
    ensures Before(found, s.stack[i], s.stack[j])
  {
    FoundAt(s, found, s.stack[i]);
    FoundAt(s, found, s.stack[j]);
    hide NumbersTell;
    assert s.num[s.stack[i]] < s.num[s.stack[j]];
  }

  lemma ReversedAt(stack: seq<Node>, i: nat, a: nat)
    requires i <= |stack| && a < |stack| - i
    ensures |Reversed(stack[i..])| == |stack| - i && Reversed(stack[i..])[a] == stack[|stack| - 1 - a]
  {
  }

  /** The nodes above an index of the stack were entered one after the other. */
  lemma StackDescends(s: State, found: seq<Node>, i: nat, c: seq<Node>)
    requires NumbersTell(s, found) && StackOk(s) && i <= |s.stack| && c == Reversed(s.stack[i..])
    ensures Descending(found, c)
  {
    hide NumbersTell, StackOk, Before, Reversed;
    var n := |s.stack|;
    forall a, b | 0 <= a < b < |c| ensures Before(found, c[b], c[a]) {
      ReversedAt(s.stack, i, 0);
      ReversedAt(s.stack, i, a);
      ReversedAt(s.stack, i, b);
      StackAscends(s, found, n - 1 - b, n - 1 - a);
    }
  }

  lemma YieldStepTracks(g: Graph, entry: Node, s: State, i: nat, ys: seq<seq<Node>>, t: Trace, c: seq<Node>)
    requires Ordered(g, entry, s, ys, t) && Complete(g, s, i) && StackOk(s) && c == Reversed(s.stack[i..])
    ensures Ordered(g, entry, Yield(s, i), ys + [c], t.(left := t.left + [Top(s).node]))
  {
    hide OnTrack, InOrder, StackOk, Descending, MarkYielded;
    var s', n := Yield(s, i), Top(s).node;
    MarkedMeans(s.num, s.stack[i..]);
    PopTracks(g, entry, s, t, s');
    InOrderGrows(ys, t.found, t.left, t.found, t.left + [n]);
    StackDescends(s, t.found, i, c);
    assert c != [] && Root(c) == n;
    InOrderNext(ys, t.found, t.left, c);
  }

  lemma InOrderNext(ys: seq<seq<Node>>, pre: seq<Node>, post: seq<Node>, c: seq<Node>)
    requires InOrder(ys, pre, post) && c != [] && Descending(pre, c)
    ensures InOrder(ys + [c], pre, post + [Root(c)])
  {
    hide Descending;
    InOrderGrows(ys, pre, post, pre, post + [Root(c)]);
    var zs, post' := ys + [c], post + [Root(c)];
    assert post'[|post|] == Root(c);
    forall i | 0 <= i < |ys| ensures Before(post', Root(ys[i]), Root(c)) {
      var p :| 0 <= p < |post| && post[p] == Root(ys[i]);
      assert post'[p] == Root(ys[i]);
    }
    assert forall i :: 0 <= i < |ys| ==> zs[i] == ys[i];
    hide Before;
  }

  lemma StartGood(g: Graph, entry: Node, s: State)
    requires g.WellFormed() && entry in g.succ && |g.succ| < YIELDED && s == VisitOne(State(0, map[], [], []), entry)
    ensures Good(g, entry, s, [])
  {
    hide Inv;
    SingleNodeInv(g, entry, s);
  }

  lemma SomethingYielded(g: Graph, entry: Node, ys: seq<seq<Node>>)
    requires entry in g.succ && forall n :: SomeYield(ys, n) <==> Reach(g, entry, n)
    ensures ys != []
  {
    ReachRefl(g, entry);
    assert SomeYield(ys, entry);
  }

  lemma StartTracks(g: Graph, entry: Node, s: State)
    requires g.WellFormed() && entry in g.succ && s == VisitOne(State(0, map[], [], []), entry)
    ensures Ordered(g, entry, s, [], Trace([entry], []))
  {
    D.RestStart(g, entry, {});
    assert {} + {entry} == {entry} == s.num.Keys;
    assert Places(s.frames) == [D.Frame(entry, 0)];
  }

  /** The whole invariant. */
  ghost predicate Works(g: Graph, entry: Node, s: State, ys: seq<seq<Node>>, t: Trace) {
    Good(g, entry, s, ys) && Ordered(g, entry, s, ys, t)
  }

  lemma ChildStepWorks(g: Graph, entry: Node, s: State, ys: seq<seq<Node>>, t: Trace, c: Node)
    requires Works(g, entry, s, ys, t) && NextChild(g, s, c)
    ensures Works(g, entry, ChildStep(s, c), ys, if c in s.num then t else t.(found := t.found + [c]))
    ensures YieldedNodes(ChildStep(s, c)) == YieldedNodes(s)
  {
    hide Good, Ordered, ChildStep;
    ChildStepKeeps(g, entry, s, ys, c);
    ChildStepTracks(g, entry, s, ys, t, c);
  }

  lemma PopStepWorks(g: Graph, entry: Node, s: State, ys: seq<seq<Node>>, t: Trace)
    requires Works(g, entry, s, ys, t) && Finished(g, s) && Top(s).low != s.num[Top(s).node]
    ensures Works(g, entry, PopFrame(s), ys, t.(left := t.left + [Top(s).node])) && YieldedNodes(PopFrame(s)) == YieldedNodes(s)
  {
    hide Good, Ordered, PopFrame;
    PopStepKeeps(g, entry, s, ys);
    PopStepTracks(g, entry, s, ys, t);
  }

  lemma YieldStepWorks(g: Graph, entry: Node, s: State, i: nat, ys: seq<seq<Node>>, t: Trace, c: seq<Node>)
    requires Works(g, entry, s, ys, t) && Complete(g, s, i) && c == Reversed(s.stack[i..])
    ensures Works(g, entry, Yield(s, i), ys + [c], t.(left := t.left + [Top(s).node])) && YieldedNodes(s) < YieldedNodes(Yield(s, i))
  {
    assert StackOk(s);
    hide Good, Ordered, Yield, StackOk;
    YieldStepKeeps(g, entry, s, i, ys, c);
    YieldStepTracks(g, entry, s, i, ys, t, c);
  }

  lemma StartWorks(g: Graph, entry: Node, s: State)
    requires g.WellFormed() && entry in g.succ && |g.succ| < YIELDED && s == VisitOne(State(0, map[], [], []), entry)
    ensures Works(g, entry, s, [], Trace([entry], []))
  {
    hide Good, Ordered;
    StartGood(g, entry, s);
    StartTracks(g, entry, s);
  }

  lemma TraceEnds(g: Graph, entry: Node, s: State, ys: seq<seq<Node>>, t: Trace)
    requires Works(g, entry, s, ys, t)
    ensures InOrder(ys, D.PreOrderOf(g, entry, {}), D.PostOrderOf(g, entry, {}))
  {
    hide InOrder;
    InOrderGrows(ys, t.found, t.left, D.PreOrderOf(g, entry, {}), D.PostOrderOf(g, entry, {}));
  }

  lemma TakeNone(num: map<Node, nat>, stack: seq<Node>)
    ensures Reversed(stack[|stack|..]) == [] && MarkYielded(num, stack[|stack|..]) == num
  {
  }

  /** One more node moved from the stack to the component. */
  lemma TakeNext(num: map<Node, nat>, stack: seq<Node>, j: nat)
    requires j < |stack| && stack[j] in num
    ensures Reversed(stack[j..]) == Reversed(stack[j + 1..]) + [stack[j]]
    ensures MarkYielded(num, stack[j..]) == MarkYielded(num, stack[j + 1..])[stack[j] := YIELDED]
  {
    var s := stack[j..];
    assert s[0] == stack[j] && s[1..] == stack[j + 1..];
    assert forall x :: x in s <==> x == s[0] || x in s[1..];
  }

  class SccIter {
    const g: Graph
    const entry: Node
    var visitNum: nat
    var nodeVisitNumbers: map<Node, nat>
    var sccNodeStack: seq<Node>
    var currentSCC: seq<Node>
    var visitStack: seq<Frame>
    ghost var yielded: seq<seq<Node>>
    ghost var trace: Trace

    ghost function St(): State
      reads this
    {
      State(visitNum, nodeVisitNumbers, sccNodeStack, visitStack)
    }

    ghost predicate Working()
      reads this
    {
      Works(g, entry, St(), yielded, trace)
    }

    /** What holds whenever the iterator is suspended. */
    ghost predicate Valid()
      reads this
    {
      && Working()
      && if currentSCC == [] then visitStack == [] else yielded != [] && currentSCC == yielded[|yielded| - 1]
    }

    constructor Begin(g: Graph, entry: Node)
      requires g.WellFormed() && entry in g.succ && |g.succ| < YIELDED
      ensures Valid() && this.g == g && this.entry == entry
      ensures currentSCC != [] && yielded == [currentSCC]
    {
      this.g, this.entry := g, entry;
      visitNum, nodeVisitNumbers, sccNodeStack, visitStack, currentSCC := 0, map[], [], [], [];
      yielded, trace := [], Trace([], []);
      new;
      Start();
    }

    method Start()
      requires g.WellFormed() && entry in g.succ && |g.succ| < YIELDED
      requires St() == State(0, map[], [], []) && yielded == []
      modifies this
      ensures Valid() && currentSCC != [] && yielded == [currentSCC]
    {
      hide Works, SomeYield, YieldedNodes, Reach;
      DFSVisitOne(entry);
      trace := Trace([entry], []);
      StartWorks(g, entry, St());
      hide VisitOne;
      GetNextSCC();
      if currentSCC == [] {
        SomethingYielded(g, entry, yielded);
      }
    }

    method DFSVisitOne(n: Node)
      modifies this`visitNum, this`nodeVisitNumbers, this`sccNodeStack, this`visitStack
      ensures St() == VisitOne(old(St()), n)
    {
      visitNum := visitNum + 1;
      nodeVisitNumbers := nodeVisitNumbers[n := visitNum];
      sccNodeStack := sccNodeStack + [n];
      visitStack := visitStack + [Frame(n, 0, visitNum)];
    }

    method DFSVisitChildren()
      requires Working() && visitStack != []
      modifies this`visitNum, this`nodeVisitNumbers, this`sccNodeStack, this`visitStack, this`trace
      ensures Working() && Finished(g, St())
      ensures old(nodeVisitNumbers.Keys) <= nodeVisitNumbers.Keys
      ensures nodeVisitNumbers.Keys == old(nodeVisitNumbers.Keys) ==> |visitStack| == old(|visitStack|)
      ensures YieldedNodes(St()) == old(YieldedNodes(St()))
    {
      hide Works;
      FrameFacts(g, entry, St(), yielded, trace);
      while visitStack[|visitStack| - 1].next != |g.succ[visitStack[|visitStack| - 1].node]|
        invariant Working() && visitStack != [] && FrameOk(g, St(), Top(St()))
        invariant old(nodeVisitNumbers.Keys) <= nodeVisitNumbers.Keys <= g.succ.Keys
        invariant nodeVisitNumbers.Keys == old(nodeVisitNumbers.Keys) ==> |visitStack| == old(|visitStack|)
        invariant YieldedNodes(St()) == old(YieldedNodes(St()))
        decreases g.succ.Keys - nodeVisitNumbers.Keys, |g.succ[visitStack[|visitStack| - 1].node]| - visitStack[|visitStack| - 1].next
      {
        ghost var s := St();
        var t := |visitStack| - 1;
        var child := g.succ[visitStack[t].node][visitStack[t].next];
        visitStack := visitStack[t := visitStack[t].(next := visitStack[t].next + 1)];
        ghost var before := trace;
        if child !in nodeVisitNumbers {
          DFSVisitOne(child);
          trace := trace.(found := trace.found + [child]);
        } else {
          var childNum := nodeVisitNumbers[child];
          if visitStack[t].low > childNum {
            visitStack := visitStack[t := visitStack[t].(low := childNum)];
          }
        }
        assert St() == ChildStep(s, child);
        ChildStepWorks(g, entry, s, yielded, before, child);
        FrameFacts(g, entry, St(), yielded, trace);
      }
    }

    method GetNextSCC()
      requires Working()
      modifies this
      ensures Valid()
      ensures currentSCC == [] ==> yielded == old(yielded) && forall n :: SomeYield(yielded, n) <==> Reach(g, entry, n)
      ensures currentSCC != [] ==> yielded == old(yielded) + [currentSCC]
      ensures currentSCC != [] ==> old(YieldedNodes(St())) < YieldedNodes(St())
    {
      hide Works, Reach, SomeYield, YieldedNodes, MarkYielded, Reversed, FrameOk, Open, Distinct;
      currentSCC := [];
      while visitStack != []
        invariant Working() && currentSCC == [] && yielded == old(yielded)
        invariant YieldedNodes(St()) == old(YieldedNodes(St()))
        decreases g.succ.Keys - nodeVisitNumbers.Keys, |visitStack|
      {
        DFSVisitChildren();
        ghost var s := St();
        FrameFacts(g, entry, s, yielded, trace);
        var visiting, low := PopTop();
        ghost var before := trace;
        trace := trace.(left := trace.left + [visiting]);
        if low != nodeVisitNumbers[visiting] {
          PopStepWorks(g, entry, s, yielded, before);
          continue;
        }
        ghost var i :| 0 <= i < |s.stack| && s.stack[i] == visiting;
        TakeComponent(visiting, i);
        assert St() == Yield(s, i);
        YieldStepWorks(g, entry, s, i, yielded, before, currentSCC);
        yielded := yielded + [currentSCC];
        return;
      }
      FinalYields(g, entry, St(), yielded, trace);
    }

    /** Pops the top frame and propagates its low number to its parent. */
    method PopTop() returns (visiting: Node, low: nat)
      requires visitStack != []
      modifies this`visitStack
      ensures St() == PopFrame(old(St()))
      ensures visiting == old(Top(St()).node) && low == old(Top(St()).low)
    {
      var t := |visitStack| - 1;
      visiting, low := visitStack[t].node, visitStack[t].low;
      visitStack := visitStack[..t];
      if visitStack != [] && visitStack[t - 1].low > low {
        visitStack := visitStack[t - 1 := visitStack[t - 1].(low := low)];
      }
    }

    /** Moves the top of the node stack, down to the visited node, into currentSCC. */
    method TakeComponent(visiting: Node, ghost i: nat)
      requires currentSCC == [] && i < |sccNodeStack| && sccNodeStack[i] == visiting && Distinct(sccNodeStack)
      requires forall n :: n in sccNodeStack ==> n in nodeVisitNumbers
      modifies this`sccNodeStack, this`currentSCC, this`nodeVisitNumbers
      ensures sccNodeStack == old(sccNodeStack)[..i]
      ensures currentSCC == Reversed(old(sccNodeStack)[i..]) && currentSCC != []
      ensures nodeVisitNumbers == MarkYielded(old(nodeVisitNumbers), old(sccNodeStack)[i..])
    {
      hide MarkYielded, Reversed;
      ghost var stack, num := sccNodeStack, nodeVisitNumbers;
      ghost var j := |stack|;
      TakeNone(num, stack);
      while true
        invariant i < j <= |stack| && sccNodeStack == stack[..j]
        invariant currentSCC == Reversed(stack[j..])
        invariant nodeVisitNumbers == MarkYielded(num, stack[j..])
        decreases j
      {
        var n := sccNodeStack[|sccNodeStack| - 1];
        currentSCC := currentSCC + [n];
        sccNodeStack := sccNodeStack[..|sccNodeStack| - 1];
        nodeVisitNumbers := nodeVisitNumbers[n := YIELDED];
        j := j - 1;
        TakeNext(num, stack, j);
        if n == visiting { break; }
      }
    }

    /** isAtEnd. */
    method IsAtEnd() returns (r: bool)
      requires Valid()
      ensures r <==> visitStack == [] && currentSCC == []
    {
      r := currentSCC == [];
    }

    /** operator++. */
    method Next()
      requires Valid()
      modifies this
      ensures Valid()
      ensures currentSCC == [] ==> yielded == old(yielded) && forall n :: SomeYield(yielded, n) <==> Reach(g, entry, n)
      ensures currentSCC != [] ==> yielded == old(yielded) + [currentSCC]
      ensures currentSCC != [] ==> old(YieldedNodes(St())) < YieldedNodes(St())
    {
      GetNextSCC();
    }
  }

  lemma SingleNodeInv(g: Graph, entry: Node, s: State)
    requires g.WellFormed() && entry in g.succ && |g.succ| < YIELDED
    requires s == VisitOne(State(0, map[], [], []), entry)
    ensures Inv(g, s) && ReachedFrom(g, entry, s) && Covers([], YieldedNodes(s))
  {
    ReachRefl(g, entry);
    assert s.num == map[entry := 1] && s.stack == [entry] && s.frames == [Frame(entry, 0, 1)];
    SingleNodeBasics(g, entry, s);
    hide Numbers, StackOk, FramesOk, BottomOk, YieldedClosed, Down, Up, LowSound, FrameEdges, RestEdges, Reach;
    SingleNodeReach(g, entry, s);
  }

  lemma SingleNodeBasics(g: Graph, entry: Node, s: State)
    requires g.WellFormed() && entry in g.succ && |g.succ| < YIELDED
    requires s.visitNum == 1 && s.num == map[entry := 1] && s.stack == [entry] && s.frames == [Frame(entry, 0, 1)]
    ensures Numbers(g, s) && StackOk(s) && FramesOk(g, s) && BottomOk(s) && YieldedClosed(g, s)
  {
    SubsetSize({entry}, g.succ.Keys);
    assert forall n :: Open(s, n) <==> n == entry;
  }

  lemma SingleNodeReach(g: Graph, entry: Node, s: State)
    requires g.WellFormed() && entry in g.succ && s.num == map[entry := 1] && s.frames == [Frame(entry, 0, 1)]
    ensures Down(g, s) && Up(g, s) && LowSound(g, s) && FrameEdges(g, s) && RestEdges(g, s)
  {
    ReachRefl(g, entry);
    hide Reach;
    assert forall k, w :: Above(s, k, w) ==> k == 0 && w == entry;
    assert LowWitness(g, s, s.frames[0], entry);
  }

  lemma VisitKeepsHistory(g: Graph, entry: Node, s: State, c: Node, s': State)
    requires ReachedFrom(g, entry, s) && NextChild(g, s, c) && c !in s.num && s' == VisitOne(Bump(s), c)
    requires Top(s).node in s.num && s.visitNum + 1 < YIELDED
    ensures ReachedFrom(g, entry, s') && YieldedNodes(s') == YieldedNodes(s)
  {
    assert Edge(g, Top(s).node, c);
    ReachStep(g, entry, Top(s).node, c);
  }

  /** hasLoop: the current component has an edge inside it. */
  method HasLoop(g: Graph, scc: seq<Node>) returns (r: bool)
    requires g.WellFormed() && IsSCC(g, scc) && forall n :: n in scc ==> n in g.succ
    ensures r <==> exists u, v :: u in scc && v in scc && Edge(g, u, v)
  {
    if |scc| > 1 {
      var u, v := scc[0], scc[1];
      var x := FirstStep(g, u, v);
      ReachEdge(g, u, x);
      ReachTrans(g, x, v, u);
      return true;
    }
    var n := scc[0];
    for i := 0 to |g.succ[n]|
      invariant n !in g.succ[n][..i]
    {
      if g.succ[n][i] == n {
        assert Edge(g, n, n);
        return true;
      }
    }
    assert n !in g.succ[n];
    return false;
  }

  /** for (I = scc_begin(G); !I.isAtEnd(); ++I): every node reachable from the entry is in
      exactly one yielded component, and edges between components lead to earlier ones. */
  method AllComponents(g: Graph, entry: Node) returns (ys: seq<seq<Node>>)
    requires g.WellFormed() && entry in g.succ && |g.succ| < YIELDED
    ensures ReverseTopological(g, ys)
    ensures forall n :: SomeYield(ys, n) <==> Reach(g, entry, n)
    ensures InOrder(ys, D.PreOrderOf(g, entry, {}), D.PostOrderOf(g, entry, {}))
  {
    hide Inv, ReachedFrom, Covers, Ordered, InOrder;
    var it := new SccIter.Begin(g, entry);
    ys := [];
    var atEnd := it.IsAtEnd();
    while !atEnd
      invariant it.Valid() && it.g == g && it.entry == entry
      invariant atEnd <==> it.currentSCC == []
      invariant fresh(it)
      invariant if atEnd then ys == it.yielded else it.yielded == ys + [it.currentSCC]
      invariant atEnd ==> forall n :: SomeYield(it.yielded, n) <==> Reach(g, entry, n)
      decreases !atEnd, g.succ.Keys - YieldedNodes(it.St())
    {
      ghost var before := YieldedNodes(it.St());
      ys := ys + [it.currentSCC];
      it.Next();
      atEnd := it.IsAtEnd();
      YieldedInGraph(g, entry, it.St(), it.yielded);
      assert !atEnd ==> g.succ.Keys - YieldedNodes(it.St()) < g.succ.Keys - before;
    }
    TraceEnds(g, entry, it.St(), it.yielded, it.trace);
  }
}
