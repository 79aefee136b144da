/** The memory of an ImutAVLFactory: reference-counted nodes, the table of canonical trees
    with its doubly linked bucket chains, and the list of nodes free for reuse. */
module AvlHeap {
  import opened AvlTree
  import opened AvlStore

  /** live nodes are in use; dying ones are being destroyed: their own references are
      already debts, still to be released. trees, chains, client and debts describe the memory:
      the tree below each node, the bucket chains as sequences, and the references held by
      clients and by pending releases. */
  datatype State = State(
    cells: Store, cache: map<nat, Ptr>, freeNodes: seq<Ptr>, bump: Ptr,
    live: set<Ptr>, dying: set<Ptr>, trees: map<Ptr, Tree>, chains: map<nat, seq<Ptr>>,
    client: multiset<Ptr>, debts: multiset<Ptr>)

  // ----- The invariant -----

  ghost predicate NoRepeats(s: seq<Ptr>) {
    forall i, j :: 0 <= i < j < |s| ==> s[i] != s[j]
  }

  /** Every allocated node is live, dying or free. */
  ghost predicate Cover(s: State) {
    && NULL !in s.cells && s.bump > NULL && (forall p :: p in s.cells ==> p < s.bump)
    && (forall p :: p in s.cells <==> p in s.live || p in s.dying || p in s.freeNodes)
    && (forall p :: p in s.live ==> p !in s.dying && p !in s.freeNodes)
    && (forall p :: p in s.dying ==> p !in s.freeNodes)
    && NoRepeats(s.freeNodes)
    && s.trees.Keys == s.live + s.dying
  }

  ghost predicate LinkLive(s: State, p: Ptr) {
    p == NULL || p in s.live
  }

  ghost predicate NodeOk(s: State, p: Ptr) {
    && p in s.cells && p in s.trees
    && var c := s.cells[p];
    && LinkLive(s, c.left) && LinkLive(s, c.right)
    && s.trees[p] == Node(TreeAt(s.trees, c.left), c.value, TreeAt(s.trees, c.right), c.height)
    && Avl(s.trees[p])
  }

  ghost predicate NodesOk(s: State) {
    forall p {:trigger NodeOk(s, p)} :: p in s.live ==> NodeOk(s, p)
  }

  ghost function Lefts(s: State, p: Ptr): (qs: set<Ptr>) {
    set q | q in s.live && q in s.cells && s.cells[q].left == p
  }

  ghost function Rights(s: State, p: Ptr): (qs: set<Ptr>) {
    set q | q in s.live && q in s.cells && s.cells[q].right == p
  }

  /** The references to p. */
  ghost function Count(s: State, p: Ptr): (n: nat) {
    |Lefts(s, p)| + |Rights(s, p)| + s.client[p] + s.debts[p]
  }

  ghost predicate CountOk(s: State, p: Ptr) {
    p in s.cells && s.cells[p].refCount == Count(s, p)
  }

  ghost predicate CountsOk(s: State) {
    forall p {:trigger CountOk(s, p)} :: p in s.live ==> CountOk(s, p)
  }

  ghost predicate Owned(s: State) {
    && (forall p :: p in s.client ==> p in s.live)
    && (forall p :: p in s.debts ==> p in s.live)
  }

  // ----- Reference counts -----

  /** destroy begins: x's references to its children become debts. */
  ghost function Die(s: State, x: Ptr): (r: State)
    requires x in s.cells
  {
    s.(live := s.live - {x}, dying := s.dying + {x}, debts := s.debts + Kids(s.cells[x]))
  }

  ghost function Kids(c: Cell): (m: multiset<Ptr>) {
    Ref(c.left) + Ref(c.right)
  }

  ghost function Ref(p: Ptr): (m: multiset<Ptr>) {
    if p != NULL then multiset{p} else multiset{}
  }

  function WithCount(m: Store, p: Ptr, n: nat): (r: Store)
    requires p in m
  {
    m[p := m[p].(refCount := n)]
  }

  /** The decrement of release. */
  ghost function Dec(s: State, p: Ptr): (r: State)
    requires p in s.cells && s.cells[p].refCount > 0
  {
    s.(cells := WithCount(s.cells, p, s.cells[p].refCount - 1), debts := s.debts - multiset{p})
  }

  /** A client gives a reference back. */
  ghost function Owe(s: State, p: Ptr): (r: State) {
    s.(client := s.client - multiset{p}, debts := s.debts + multiset{p})
  }

  /** A client's retain. */
  ghost function Hold(s: State, p: Ptr): (r: State)
    requires p in s.cells
  {
    s.(cells := WithCount(s.cells, p, s.cells[p].refCount + 1), client := s.client + multiset{p})
  }

  lemma CardRemove(a: set<Ptr>, b: set<Ptr>, x: Ptr)
    requires b == a - {x}
    ensures |b| == if x in a then |a| - 1 else |a|
  {
    if x !in a {
      assert a == b;
    }
  }

  /** A node without references has no parents. */
  lemma NoParents(s: State, x: Ptr)
    requires CountsOk(s) && x in s.live && x in s.cells && s.cells[x].refCount == 0
    ensures Lefts(s, x) == {} && Rights(s, x) == {} && s.client[x] == 0 && s.debts[x] == 0
    ensures forall q :: q in s.live && q in s.cells ==> s.cells[q].left != x && s.cells[q].right != x
  {
    assert CountOk(s, x);
    forall q | q in s.live && q in s.cells ensures s.cells[q].left != x && s.cells[q].right != x {
      assert q !in Lefts(s, x) && q !in Rights(s, x);
    }
  }

  lemma DieCounts(s: State, x: Ptr)
    requires Cover(s) && NodesOk(s) && CountsOk(s) && Owned(s) && x in s.live && s.cells[x].refCount == 0
    ensures CountsOk(Die(s, x)) && Owned(Die(s, x))
  {
    var r := Die(s, x);
    NoParents(s, x);
    assert NodeOk(s, x);
    forall p | p in r.live ensures CountOk(r, p) {
      DieCount(s, x, p);
    }
  }

  lemma DieCount(s: State, x: Ptr, p: Ptr)
    requires CountsOk(s) && x in s.live && x in s.cells && p in s.live && p != x && NULL !in s.live
    ensures CountOk(Die(s, x), p)
  {
    var r := Die(s, x);
    assert CountOk(s, p);
    CardRemove(Lefts(s, p), Lefts(r, p), x);
    CardRemove(Rights(s, p), Rights(r, p), x);
  }

  lemma DieNodes(s: State, x: Ptr)
    requires Cover(s) && NodesOk(s) && CountsOk(s) && x in s.live && s.cells[x].refCount == 0
    ensures Cover(Die(s, x)) && NodesOk(Die(s, x))
  {
    NoParents(s, x);
    var r := Die(s, x);
    forall p | p in r.live ensures NodeOk(r, p) {
      assert NodeOk(s, p);
    }
  }

  /** Only reference counts, clients' references and debts differ. */
  ghost predicate SameShape(s: State, r: State) {
    && r.live == s.live && r.dying == s.dying && r.trees == s.trees && r.chains == s.chains && r.cache == s.cache
    && r.freeNodes == s.freeNodes && r.bump == s.bump && r.cells.Keys == s.cells.Keys
    && forall p {:trigger r.cells[p]} {:trigger s.cells[p]} :: p in s.cells ==> r.cells[p] == s.cells[p].(refCount := r.cells[p].refCount)
  }

  lemma SameShapeNodes(s: State, r: State)
    requires SameShape(s, r) && Cover(s) && NodesOk(s)
    ensures Cover(r) && NodesOk(r)
  {
    forall p | p in r.live ensures NodeOk(r, p) {
      assert NodeOk(s, p);
    }
  }

  lemma SameShapeParents(s: State, r: State, p: Ptr)
    requires SameShape(s, r)
    ensures Lefts(r, p) == Lefts(s, p) && Rights(r, p) == Rights(s, p)
  {
  }

  lemma DecCounts(s: State, p: Ptr)
    requires CountsOk(s) && Owned(s) && p in s.debts && p in s.cells
    ensures s.cells[p].refCount > 0
    ensures CountsOk(Dec(s, p)) && Owned(Dec(s, p)) && SameShape(s, Dec(s, p))
  {
    assert CountOk(s, p);
    var r := Dec(s, p);
    forall q | q in r.live ensures CountOk(r, q) {
      assert CountOk(s, q);
      SameShapeParents(s, r, q);
    }
  }

  lemma OweCounts(s: State, p: Ptr)
    requires CountsOk(s) && Owned(s) && p in s.client
    ensures CountsOk(Owe(s, p)) && Owned(Owe(s, p)) && SameShape(s, Owe(s, p))
  {
    var r := Owe(s, p);
    forall q | q in r.live ensures CountOk(r, q) {
      assert CountOk(s, q);
      SameShapeParents(s, r, q);
    }
  }

  lemma HoldCounts(s: State, p: Ptr)
    requires CountsOk(s) && Owned(s) && p in s.live && p in s.cells
    ensures CountsOk(Hold(s, p)) && Owned(Hold(s, p)) && SameShape(s, Hold(s, p))
  {
    var r := Hold(s, p);
    forall q | q in r.live ensures CountOk(r, q) {
      assert CountOk(s, q);
      SameShapeParents(s, r, q);
    }
  }

  // ----- Creating nodes -----

  /** retain on a child, if there is one. */
  function Retained(m: Store, p: Ptr): (r: Store) {
    if p in m then WithCount(m, p, m[p].refCount + 1) else m
  }

  function NewCell(l: Ptr, v: Elem, r: Ptr, height: nat): (c: Cell) {
    Cell(l, r, v, height, NULL, NULL, true, false, false, 0, 0)
  }

  /** The node is built at p. */
  ghost function Built(s: State, p: Ptr, l: Ptr, v: Elem, r: Ptr): (t: State) {
    var tree := CreateNode(TreeAt(s.trees, l), v, TreeAt(s.trees, r));
    s.(cells := Retained(Retained(s.cells, l), r)[p := NewCell(l, v, r, tree.height)],
       live := s.live + {p}, trees := s.trees[p := tree])
  }

  /** The address comes from the free list or from the allocator. */
  ghost predicate Taken(s: State, t: State, p: Ptr) {
    && t == s.(freeNodes := t.freeNodes, bump := t.bump)
    && if s.freeNodes != [] then
         t.bump == s.bump && p == s.freeNodes[|s.freeNodes| - 1] && t.freeNodes == s.freeNodes[..|s.freeNodes| - 1]
       else p == s.bump && t.bump == p + 1 && t.freeNodes == []
  }

  ghost predicate NewAt(s: State, p: Ptr) {
    && p != NULL && p !in s.live && p !in s.dying
  }

  lemma TakenNew(s: State, t: State, p: Ptr)
    requires Cover(s) && Taken(s, t, p)
    ensures NewAt(s, p)
    ensures NodesOk(s) ==> NodesOk(t)
    ensures CountsOk(s) ==> CountsOk(t)
  {
    if NodesOk(s) {
      forall q | q in t.live ensures NodeOk(t, q) {
        assert NodeOk(s, q);
      }
    }
    if CountsOk(s) {
      forall q | q in t.live ensures CountOk(t, q) {
        assert CountOk(s, q);
        assert Lefts(s, q) == Lefts(t, q) && Rights(s, q) == Rights(t, q);
      }
    }
  }

  lemma BuiltCover(s: State, t: State, p: Ptr, l: Ptr, v: Elem, r: Ptr)
    requires Cover(s) && Taken(s, t, p) && LinkLive(s, l) && LinkLive(s, r)
    ensures Cover(Built(t, p, l, v, r))
  {
    var u := Built(t, p, l, v, r);
    assert u.cells.Keys == s.cells.Keys + {p};
    forall q ensures q in s.freeNodes <==> q in t.freeNodes || (q == p && s.freeNodes != []) {
    }
  }

  lemma BuiltNodes(s: State, p: Ptr, l: Ptr, v: Elem, r: Ptr)
    requires Fits(TreeAt(s.trees, l), v, TreeAt(s.trees, r), 2)
    requires NodesOk(s) && NewAt(s, p) && LinkLive(s, l) && LinkLive(s, r) && NULL !in s.trees && s.trees.Keys == s.live + s.dying
    ensures NodesOk(Built(s, p, l, v, r))
  {
    var t := Built(s, p, l, v, r);
    var a, b := TreeAt(s.trees, l), TreeAt(s.trees, r);
    assert Avl(a) && Avl(b) by {
      assert l != NULL ==> NodeOk(s, l);
      assert r != NULL ==> NodeOk(s, r);
    }
    CreatedAvl(a, v, b);
    hide Avl, CreateNode, Retained;
    assert t.trees == s.trees[p := CreateNode(a, v, b)];
    forall q | q in t.live ensures NodeOk(t, q) {
      if q != p {
        assert NodeOk(s, q);
        RetainedShape(s.cells, l, r, q);
      } else {
        NewCellShape(a, v, b);
      }
    }
  }

  lemma RetainedShape(m: Store, l: Ptr, r: Ptr, q: Ptr)
    requires q in m
    ensures var n := Retained(Retained(m, l), r);
      q in n && n[q].left == m[q].left && n[q].right == m[q].right && n[q].value == m[q].value && n[q].height == m[q].height
  {
  }

  lemma NewCellShape(l: Tree, v: Elem, r: Tree)
    ensures CreateNode(l, v, r) == Node(l, v, r, CreateNode(l, v, r).height)
  {
  }

  lemma BuiltCounts(s: State, p: Ptr, l: Ptr, v: Elem, r: Ptr)
    requires NodesOk(s) && CountsOk(s) && Owned(s) && NewAt(s, p) && LinkLive(s, l) && LinkLive(s, r) && NULL !in s.cells
    ensures CountsOk(Built(s, p, l, v, r)) && Owned(Built(s, p, l, v, r))
  {
    var t := Built(s, p, l, v, r);
    forall q | q in t.live ensures CountOk(t, q) {
      BuiltCount(s, p, l, v, r, q);
    }
  }

  lemma BuiltParents(s: State, p: Ptr, l: Ptr, v: Elem, r: Ptr, q: Ptr)
    requires NodesOk(s) && NewAt(s, p)
    ensures Lefts(Built(s, p, l, v, r), q) == Lefts(s, q) + if l == q then {p} else {}
    ensures Rights(Built(s, p, l, v, r), q) == Rights(s, q) + if r == q then {p} else {}
  {
    var t := Built(s, p, l, v, r);
    forall x | x in s.live ensures x != p && x in s.cells && x in t.cells && t.cells[x].left == s.cells[x].left && t.cells[x].right == s.cells[x].right {
      assert NodeOk(s, x);
    }
  }

  lemma NewHasNoParents(s: State, p: Ptr)
    requires NodesOk(s) && NewAt(s, p)
    ensures Lefts(s, p) == {} && Rights(s, p) == {}
  {
    forall x | x in s.live ensures x in s.cells && s.cells[x].left != p && s.cells[x].right != p {
      assert NodeOk(s, x);
    }
  }

  lemma BuiltCount(s: State, p: Ptr, l: Ptr, v: Elem, r: Ptr, q: Ptr)
    requires NodesOk(s) && CountsOk(s) && Owned(s) && NewAt(s, p) && LinkLive(s, l) && LinkLive(s, r) && NULL !in s.cells
    requires q in s.live || q == p
    ensures CountOk(Built(s, p, l, v, r), q)
  {
    hide NodesOk, NodeOk;
    BuiltParents(s, p, l, v, r, q);
    var t := Built(s, p, l, v, r);
    if q == p {
      NewHasNoParents(s, p);
    } else {
      assert CountOk(s, q);
      assert p !in Lefts(s, q) && p !in Rights(s, q);
      hide Lefts, Rights;
      assert t.cells[q].refCount == s.cells[q].refCount + (if l == q then 1 else 0) + (if r == q then 1 else 0) by {
        BuiltRefCount(s, p, l, v, r, q);
      }
    }
  }

  lemma BuiltRefCount(s: State, p: Ptr, l: Ptr, v: Elem, r: Ptr, q: Ptr)
    requires q in s.cells && q != p
    ensures Built(s, p, l, v, r).cells[q].refCount == s.cells[q].refCount + (if l == q then 1 else 0) + (if r == q then 1 else 0)
  {
  }
}
