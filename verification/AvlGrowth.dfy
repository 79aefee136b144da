/** What building trees does to a factory's memory: it only adds nodes, which hang together
    with each other and with subtrees of the nodes that were there. */
module AvlGrowth {
  import opened AvlTree
  import opened AvlStore
  import opened AvlHeap
  import opened AvlChains
  import opened AvlInvariant

  ghost predicate OnlyCount(n: Cell, m: Cell) {
    m == n.(refCount := m.refCount)
  }

  /** The nodes of s are in t, unchanged but for the reference counts. */
  ghost predicate Grown(s: State, t: State) {
    && s.live <= t.live && t.dying == s.dying && t.client == s.client && t.debts == s.debts
    && (forall p :: p in s.trees ==> p in t.trees && t.trees[p] == s.trees[p])
    && (forall p :: p in s.live ==> p in s.cells && p in t.cells && OnlyCount(s.cells[p], t.cells[p]))
  }

  lemma GrownTrans(s: State, t: State, u: State)
    requires Grown(s, t) && Grown(t, u)
    ensures Grown(s, u)
  {
  }

  lemma GrownRefl(hash: Hash, s: State)
    requires Inv(hash, s)
    ensures Grown(s, s)
  {
  }

  ghost predicate HasParent(s: State, c: Ptr) {
    exists q :: q in s.live && Parent(s, q, c)
  }

  /** What may become a child since s0: nothing, a new node, or a child of an old node. */
  ghost predicate Usable(s0: State, s: State, p: Ptr) {
    p == NULL || (p in s.live && (p in s0.live ==> HasParent(s0, p)))
  }

  ghost predicate NewNode(s0: State, s: State, created: seq<Ptr>, q: Ptr) {
    && q in s.cells && s.cells[q].isMutable && q in created && !s.cells[q].isDigestCached
    && Usable(s0, s, s.cells[q].left) && Usable(s0, s, s.cells[q].right)
  }

  ghost predicate Growing(s0: State, s: State, created: seq<Ptr>) {
    && Grown(s0, s) && (forall q :: q in created ==> q in s.cells)
    && forall q {:trigger NewNode(s0, s, created, q)} :: q in s.live && q !in s0.live ==> NewNode(s0, s, created, q)
  }

  // ----- Facts about nodes -----

  lemma NodeFacts(hash: Hash, s: State, p: Ptr)
    requires Inv(hash, s) && p in s.live
    ensures p in s.cells && p != NULL && Avl(TreeAt(s.trees, p))
    ensures var c := s.cells[p];
      && TreeAt(s.trees, p) == Node(TreeAt(s.trees, c.left), c.value, TreeAt(s.trees, c.right), c.height)
      && LinkLive(s, c.left) && LinkLive(s, c.right)
  {
    assert NodeOk(s, p);
  }

  lemma NullTree(hash: Hash, s: State)
    requires Inv(hash, s)
    ensures TreeAt(s.trees, NULL) == Nil && NULL !in s.cells
  {
  }

  function HeightAt(m: Store, p: Ptr): (h: nat) {
    if p in m then m[p].height else 0
  }

  lemma LinkFacts(hash: Hash, s: State, p: Ptr)
    requires Inv(hash, s) && LinkLive(s, p)
    ensures Avl(TreeAt(s.trees, p)) && HeightAt(s.cells, p) == Height(TreeAt(s.trees, p))
    ensures p != NULL ==> p in s.cells && TreeAt(s.trees, p).Node?
    ensures p == NULL <==> TreeAt(s.trees, p).Nil?
  {
    NullTree(hash, s);
    if p != NULL {
      assert NodeOk(s, p);
    }
  }

  /** Subtrees of usable trees are usable. */
  lemma KidsUsable(hash: Hash, s0: State, s: State, created: seq<Ptr>, p: Ptr)
    requires Inv(hash, s) && Growing(s0, s, created) && p in s.live
    ensures p in s.cells && Usable(s0, s, s.cells[p].left) && Usable(s0, s, s.cells[p].right)
  {
    assert NodeOk(s, p);
    if p in s0.live {
      assert OnlyCount(s0.cells[p], s.cells[p]);
      assert Parent(s0, p, s.cells[p].left) && Parent(s0, p, s.cells[p].right);
    } else {
      assert NewNode(s0, s, created, p);
    }
  }

  // ----- Building one node -----

  lemma BuiltInv(hash: Hash, s: State, t: State, p: Ptr, l: Ptr, v: Elem, r: Ptr)
    requires Fits(TreeAt(s.trees, l), v, TreeAt(s.trees, r), 2) && Inv(hash, s) && Taken(s, t, p) && LinkLive(s, l) && LinkLive(s, r)
    ensures Inv(hash, Built(t, p, l, v, r))
  {
    TakenNew(s, t, p);
    BuiltHeap(s, t, p, l, v, r);
    BuiltTable(hash, s, t, p, l, v, r);
  }

  lemma BuiltHeap(s: State, t: State, p: Ptr, l: Ptr, v: Elem, r: Ptr)
    requires Fits(TreeAt(s.trees, l), v, TreeAt(s.trees, r), 2) && HeapOk(s) && Taken(s, t, p) && LinkLive(s, l) && LinkLive(s, r) && NewAt(s, p) && NodesOk(t) && CountsOk(t)
    ensures HeapOk(Built(t, p, l, v, r))
  {
    BuiltCover(s, t, p, l, v, r);
    BuiltFree(s, t, p, l, v, r);
    hide NodesOk, CountsOk, FreeOk;
    BuiltNodes(t, p, l, v, r);
    BuiltCounts(t, p, l, v, r);
  }

  lemma BuiltFree(s: State, t: State, p: Ptr, l: Ptr, v: Elem, r: Ptr)
    requires Cover(s) && FreeOk(s) && Taken(s, t, p) && LinkLive(s, l) && LinkLive(s, r)
    ensures FreeOk(Built(t, p, l, v, r))
  {
  }

  lemma BuiltTable(hash: Hash, s: State, t: State, p: Ptr, l: Ptr, v: Elem, r: Ptr)
    requires Cover(s) && TableOk(hash, s) && Taken(s, t, p) && LinkLive(s, l) && LinkLive(s, r) && NewAt(s, p)
    ensures TableOk(hash, Built(t, p, l, v, r))
  {
    var u := Built(t, p, l, v, r);
    forall q | q in u.trees ensures q in u.cells && NodeKept(s, u, q) {
      if q != p {
        BuiltCell(t, p, l, v, r, q);
      }
    }
    hide TableOk;
    TableKeptOk(hash, s, u);
  }

  lemma BuiltParts(s: State, t: State, p: Ptr, l: Ptr, v: Elem, r: Ptr)
    requires Taken(s, t, p)
    ensures var u := Built(t, p, l, v, r);
      && u.live == s.live + {p} && u.dying == s.dying && u.client == s.client && u.debts == s.debts
      && forall q :: q in s.trees && q != p ==> q in u.trees && u.trees[q] == s.trees[q]
  {
  }

  lemma BuiltGrows(hash: Hash, s: State, t: State, p: Ptr, l: Ptr, v: Elem, r: Ptr)
    requires Inv(hash, s) && Taken(s, t, p) && LinkLive(s, l) && LinkLive(s, r)
    ensures NewAt(s, p) && Grown(s, Built(t, p, l, v, r))
  {
    hide NodesOk, CountsOk, FreeOk, TableOk, Owned, Built;
    TakenNew(s, t, p);
    BuiltParts(s, t, p, l, v, r);
    var u := Built(t, p, l, v, r);
    forall q | q in s.live ensures q in s.cells && q in u.cells && OnlyCount(s.cells[q], u.cells[q]) {
      BuiltCell(t, p, l, v, r, q);
    }
  }

  lemma BuiltCell(s: State, p: Ptr, l: Ptr, v: Elem, r: Ptr, q: Ptr)
    requires q in s.cells && q != p
    ensures q in Built(s, p, l, v, r).cells && OnlyCount(s.cells[q], Built(s, p, l, v, r).cells[q])
  {
  }

  lemma BuiltKids(s: State, t: State, p: Ptr, l: Ptr, v: Elem, r: Ptr)
    requires Taken(s, t, p)
    ensures var u := Built(t, p, l, v, r);
      && u.live == s.live + {p} && u.cells.Keys == s.cells.Keys + {p}
      && u.cells[p] == NewCell(l, v, r, u.cells[p].height)
  {
  }

  lemma BuiltGrowing(hash: Hash, s0: State, s: State, created: seq<Ptr>, t: State, p: Ptr, l: Ptr, v: Elem, r: Ptr)
    requires Inv(hash, s) && Growing(s0, s, created) && Taken(s, t, p) && Usable(s0, s, l) && Usable(s0, s, r)
    ensures LinkLive(s, l) && LinkLive(s, r) && Growing(s0, Built(t, p, l, v, r), created + [p]) && p !in s0.live
  {
    hide Inv, Built;
    var u := Built(t, p, l, v, r);
    BuiltGrows(hash, s, t, p, l, v, r);
    BuiltKids(s, t, p, l, v, r);
    GrownTrans(s0, s, u);
    forall q | q in u.live && q !in s0.live ensures NewNode(s0, u, created + [p], q) {
      if q != p {
        assert NewNode(s0, s, created, q);
        assert OnlyCount(s.cells[q], u.cells[q]);
      }
    }
  }

  /** A node nothing refers to yet. */
  ghost predicate FreshNode(s0: State, s: State, p: Ptr) {
    p in s.live && p !in s0.live && p in s.cells && s.cells[p].refCount == 0
  }

  lemma BuiltFresh(hash: Hash, s0: State, s: State, t: State, p: Ptr, l: Ptr, v: Elem, r: Ptr)
    requires Inv(hash, s) && Grown(s0, s) && Taken(s, t, p)
    ensures var u := Built(t, p, l, v, r);
      FreshNode(s0, u, p) && TreeAt(u.trees, p) == CreateNode(TreeAt(s.trees, l), v, TreeAt(s.trees, r))
  {
    TakenNew(s, t, p);
  }

  lemma UsableLinks(s0: State, s: State, p: Ptr)
    requires Usable(s0, s, p)
    ensures LinkLive(s, p)
  {
  }

  /** A fresh node is usable. */
  lemma FreshUsable(s0: State, s: State, p: Ptr)
    requires FreshNode(s0, s, p)
    ensures Usable(s0, s, p)
  {
  }

  /** Usable trees stay so, and stay the same trees. */
  lemma Carry(hash: Hash, s0: State, s: State, t: State, p: Ptr)
    requires Inv(hash, s) && Inv(hash, t) && Usable(s0, s, p) && Grown(s, t)
    ensures Usable(s0, t, p) && TreeAt(t.trees, p) == TreeAt(s.trees, p)
    ensures p != NULL ==> p in s.cells && p in t.cells && OnlyCount(s.cells[p], t.cells[p])
  {
    NullTree(hash, s);
    NullTree(hash, t);
    if p != NULL {
      assert NodeOk(s, p);
    }
  }

  ghost predicate IsCreated(l: Tree, v: Elem, r: Tree, t: Tree) {
    t == CreateNode(l, v, r)
  }

  ghost predicate IsBalanced(l: Tree, v: Elem, r: Tree, t: Tree) {
    HeightsOk(l) && HeightsOk(r) && t == BalanceTree(l, v, r)
  }

  ghost predicate IsAdded(v: Elem, t: Tree, r: Tree) {
    HeightsOk(t) && r == Add(v, t)
  }

  ghost predicate IsMinRemoved(t: Tree, r: Tree, v: Elem) {
    HeightsOk(t) && t.Node? && RemoveMin(t) == (r, v)
  }

  ghost predicate IsCombined(l: Tree, r: Tree, t: Tree) {
    HeightsOk(l) && HeightsOk(r) && t == CombineTrees(l, r)
  }

  ghost predicate IsRemoved(k: int, t: Tree, r: Tree) {
    HeightsOk(t) && r == Remove(k, t)
  }

  /** Everything about one node being built. */
  lemma CreateFacts(hash: Hash, s0: State, s: State, created: seq<Ptr>, t: State, p: Ptr, l: Ptr, v: Elem, r: Ptr)
    requires Inv(hash, s) && Growing(s0, s, created) && Taken(s, t, p) && Usable(s0, s, l) && Usable(s0, s, r) && Fits(TreeAt(s.trees, l), v, TreeAt(s.trees, r), 2)
    ensures var u := Built(t, p, l, v, r);
      && Inv(hash, u) && Growing(s0, u, created + [p]) && Grown(s, u) && FreshNode(s0, u, p)
      && IsCreated(TreeAt(s.trees, l), v, TreeAt(s.trees, r), TreeAt(u.trees, p))
      && CreateNode(TreeAt(s.trees, l), v, TreeAt(s.trees, r)).height == Max(HeightAt(s.cells, l), HeightAt(s.cells, r)) + 1
  {
    BuiltGrowing(hash, s0, s, created, t, p, l, v, r);
    LinkFacts(hash, s, l);
    LinkFacts(hash, s, r);
    hide Inv, Usable, Built, LinkLive, FreshNode;
    BuiltInv(hash, s, t, p, l, v, r);
    BuiltGrows(hash, s, t, p, l, v, r);
    BuiltFresh(hash, s0, s, t, p, l, v, r);
  }

  /** Looking into a tree while building. */
  lemma Openable(hash: Hash, s0: State, s: State, created: seq<Ptr>, p: Ptr)
    requires Inv(hash, s) && Growing(s0, s, created) && Usable(s0, s, p)
    ensures Avl(TreeAt(s.trees, p)) && HeightAt(s.cells, p) == Height(TreeAt(s.trees, p))
    ensures p == NULL <==> TreeAt(s.trees, p).Nil?
    ensures p != NULL ==> p in s.cells && var c := s.cells[p];
      && TreeAt(s.trees, p) == Node(TreeAt(s.trees, c.left), c.value, TreeAt(s.trees, c.right), c.height)
      && Usable(s0, s, c.left) && Usable(s0, s, c.right)
      && Avl(TreeAt(s.trees, c.left)) && HeightAt(s.cells, c.left) == Height(TreeAt(s.trees, c.left))
      && Avl(TreeAt(s.trees, c.right)) && HeightAt(s.cells, c.right) == Height(TreeAt(s.trees, c.right))
  {
    UsableLinks(s0, s, p);
    LinkFacts(hash, s, p);
    if p != NULL {
      NodeFacts(hash, s, p);
      KidsUsable(hash, s0, s, created, p);
      LinkFacts(hash, s, s.cells[p].left);
      LinkFacts(hash, s, s.cells[p].right);
    }
  }

  lemma NullUsable(hash: Hash, s0: State, s: State)
    requires Inv(hash, s)
    ensures Usable(s0, s, NULL) && TreeAt(s.trees, NULL) == Nil && Avl(Nil)
  {
    NullTree(hash, s);
  }

  /** Looking into a tree that was there before. Its subtrees were, too. */
  lemma OldOpenable(hash: Hash, s0: State, s: State, created: seq<Ptr>, p: Ptr)
    requires Inv(hash, s0) && Inv(hash, s) && Growing(s0, s, created) && p in s0.live
    ensures Avl(TreeAt(s.trees, p)) && p != NULL && p in s.cells
    ensures p in s0.cells && OnlyCount(s0.cells[p], s.cells[p])
    ensures var c := s.cells[p];
      && TreeAt(s.trees, p) == Node(TreeAt(s.trees, c.left), c.value, TreeAt(s.trees, c.right), c.height)
      && Usable(s0, s, c.left) && Usable(s0, s, c.right)
      && (c.left == NULL || c.left in s0.live) && (c.right == NULL || c.right in s0.live)
      && (c.left == NULL <==> TreeAt(s.trees, c.left).Nil?) && (c.right == NULL <==> TreeAt(s.trees, c.right).Nil?)
      && Avl(TreeAt(s.trees, c.left)) && Avl(TreeAt(s.trees, c.right)) && Fits(TreeAt(s.trees, c.left), c.value, TreeAt(s.trees, c.right), 2)
  {
    assert p in s.live && OnlyCount(s0.cells[p], s.cells[p]);
    NodeFacts(hash, s, p);
    NodeFacts(hash, s0, p);
    KidsUsable(hash, s0, s, created, p);
    LinkFacts(hash, s, s.cells[p].left);
    LinkFacts(hash, s, s.cells[p].right);
  }

  lemma OldCell(hash: Hash, s0: State, s: State, created: seq<Ptr>, p: Ptr)
    requires Inv(hash, s0) && Growing(s0, s, created) && p in s0.live
    ensures p in s0.cells && p in s.cells && s.cells[p].value == s0.cells[p].value
  {
    assert OnlyCount(s0.cells[p], s.cells[p]);
  }

  // ----- When remove builds nothing -----

  /** There is no tree, or its root has the key and an empty side. */
  ghost predicate NothingBuilt(s: State, t: Ptr, k: int) {
    t == NULL || (t in s.cells && s.cells[t].value.key == k && (s.cells[t].left == NULL || s.cells[t].right == NULL))
  }

  /** The child on the other side of an empty one. */
  ghost function OtherChild(s: State, t: Ptr): (c: Ptr) {
    if t == NULL || t !in s.cells then NULL else if s.cells[t].left == NULL then s.cells[t].right else s.cells[t].left
  }

  lemma RemovedNode(hash: Hash, s0: State, s: State, t: Ptr, k: int, p: Ptr)
    requires Inv(hash, s0) && Inv(hash, s) && LinkLive(s0, t)
    requires if NothingBuilt(s0, t, k) then p == OtherChild(s0, t) else FreshNode(s0, s, p)
    ensures p == NULL || p in s0.live || FreshNode(s0, s, p)
    ensures !NothingBuilt(s0, t, k) ==> p != NULL && p !in s0.live
    ensures p == t <==> t == NULL
    ensures t != NULL && (forall e :: e in Elems(TreeAt(s0.trees, t)) ==> e.key != k) ==> !NothingBuilt(s0, t, k)
  {
    if t != NULL {
      NodeFacts(hash, s0, t);
      var c := s0.cells[t];
      assert TreeAt(s0.trees, c.left) < TreeAt(s0.trees, t) && TreeAt(s0.trees, c.right) < TreeAt(s0.trees, t);
      assert c.value in Elems(TreeAt(s0.trees, t));
    }
  }

  // ----- What is built on the way -----

  lemma NodeFits(t: Tree)
    requires t.Node? && Avl(t)
    ensures Avl(t.left) && Avl(t.right) && Fits(t.left, t.value, t.right, 2)
  {
    SortedParts(Elems(t.left), t.value, Elems(t.right));
  }

  /** The nodes a rotation creates fit. */
  lemma RotateRightFits(l: Tree, v: Elem, r: Tree)
    requires Avl(l) && Avl(r) && Height(l) == Height(r) + 3 && Fits(l, v, r, 3)
    ensures l.Node?
    ensures if Height(l.left) >= Height(l.right) then
        Fits(l.right, v, r, 2) && Fits(l.left, l.value, CreateNode(l.right, v, r), 2)
      else
        && l.right.Node? && Fits(l.left, l.value, l.right.left, 2) && Fits(l.right.right, v, r, 2)
        && Fits(CreateNode(l.left, l.value, l.right.left), l.right.value, CreateNode(l.right.right, v, r), 2)
  {
    RotateRightOk(l, v, r);
    RotateRightElems(l, v, r);
    var t := RotateRight(l, v, r);
    hide Sorted, Balanced, HeightsOk, Elems, Fits;
    NodeFits(t);
    if Height(l.left) >= Height(l.right) {
      NodeFits(t.right);
    } else {
      NodeFits(t.left);
      NodeFits(t.right);
    }
  }

  lemma RotateLeftFits(l: Tree, v: Elem, r: Tree)
    requires Avl(l) && Avl(r) && Height(r) == Height(l) + 3 && Fits(l, v, r, 3)
    ensures r.Node?
    ensures if Height(r.right) >= Height(r.left) then
        Fits(l, v, r.left, 2) && Fits(CreateNode(l, v, r.left), r.value, r.right, 2)
      else
        && r.left.Node? && Fits(l, v, r.left.left, 2) && Fits(r.left.right, r.value, r.right, 2)
        && Fits(CreateNode(l, v, r.left.left), r.left.value, CreateNode(r.left.right, r.value, r.right), 2)
  {
    RotateLeftOk(l, v, r);
    RotateLeftElems(l, v, r);
    var t := RotateLeft(l, v, r);
    hide Sorted, Balanced, HeightsOk, Elems, Fits;
    NodeFits(t);
    if Height(r.right) >= Height(r.left) {
      NodeFits(t.left);
    } else {
      NodeFits(t.left);
      NodeFits(t.right);
    }
  }

  /** What add_internal makes of a node when x is the subtree with v added. */
  lemma AddedFits(v: Elem, t: Tree, x: Tree)
    requires Avl(t) && t.Node?
    ensures v.key == t.value.key ==> Fits(t.left, v, t.right, 2)
    ensures v.key < t.value.key && IsAdded(v, t.left, x) ==> Fits(x, t.value, t.right, 3)
    ensures v.key > t.value.key && IsAdded(v, t.right, x) ==> Fits(t.left, t.value, x, 3)
  {
    NodeFits(t);
    InsertedMeans(Elems(t), v);
    InsertedAround(Elems(t.left), t.value, Elems(t.right), v);
    hide Sorted, Balanced, HeightsOk, Inserted;
    if v.key < t.value.key {
      AddOk(v, t.left);
    } else if v.key > t.value.key {
      AddOk(v, t.right);
    }
  }

  /** What removeMinBinding makes of a node when x is the left subtree without its first element. */
  lemma MinRemovedFits(t: Tree, x: Tree, v: Elem)
    requires Avl(t) && t.Node? && IsMinRemoved(t.left, x, v)
    ensures Fits(x, t.value, t.right, 3)
  {
    RemoveMinElems(t.left);
    RemoveMinShape(t.left);
    var a, b := Elems(x), Elems(t.right);
    assert Join([v] + a, t.value, b) == [v] + Join(a, t.value, b);
    SortedTail([v] + Join(a, t.value, b));
  }

  /** Two trees that combineTrees may be given. */
  ghost predicate Mergeable(l: Tree, r: Tree) {
    Near(Height(l), Height(r), 2) && Sorted(Elems(l) + Elems(r))
  }

  lemma KidsMergeable(t: Tree)
    requires Avl(t) && t.Node?
    ensures Mergeable(t.left, t.right)
  {
    DeletedAround(Elems(t.left), t.value, Elems(t.right), t.value.key);
    DeletedMeans(Elems(t), t.value.key);
  }

  lemma CombinedFits(l: Tree, r: Tree, x: Tree, v: Elem)
    requires Avl(r) && Mergeable(l, r) && IsMinRemoved(r, x, v)
    ensures Fits(l, v, x, 3)
  {
    RemoveMinElems(r);
    RemoveMinShape(r);
    JoinCut(Elems(l), v, Elems(x));
  }

  /** What remove_internal makes of a node when x is the subtree without the key. */
  lemma RemovedFits(k: int, t: Tree, x: Tree)
    requires Avl(t) && t.Node?
    ensures k < t.value.key && IsRemoved(k, t.left, x) ==> Fits(x, t.value, t.right, 3)
    ensures k > t.value.key && IsRemoved(k, t.right, x) ==> Fits(t.left, t.value, x, 3)
  {
    NodeFits(t);
    DeletedMeans(Elems(t), k);
    DeletedAround(Elems(t.left), t.value, Elems(t.right), k);
    hide Sorted, Balanced, HeightsOk, Deleted;
    if k < t.value.key {
      RemoveOk(k, t.left);
    } else if k > t.value.key {
      RemoveOk(k, t.right);
    }
  }
}
