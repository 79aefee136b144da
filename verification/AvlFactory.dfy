/** ImutAVLFactory: immutable AVL trees in reference-counted memory. Canonical trees with
    equal contents are one node, whatever built them. */
module AvlFactory {
  import opened AvlTree
  import opened AvlStore
  import opened AvlHeap
  import opened AvlChains
  import opened AvlInvariant
  import opened AvlGrowth
  import opened AvlRecover
  import opened AvlCanonical
  import opened AvlIterator

  class AvlFactory {
    const hash: Hash
    var cells: Store
    var cache: map<nat, Ptr>
    var freeNodes: seq<Ptr>
    var bump: Ptr
    var createdNodes: seq<Ptr>
    ghost var st: State

    ghost predicate Mirrors()
      reads this
    {
      cells == st.cells && cache == st.cache && freeNodes == st.freeNodes && bump == st.bump
    }

    ghost predicate Ok()
      reads this
    {
      Mirrors() && Inv(hash, st)
    }

    constructor (hash: Hash)
      ensures Ok() && Settled(st) && createdNodes == [] && st.live == {} && this.hash == hash
    {
      this.hash := hash;
      cells, cache, freeNodes, bump, createdNodes := map[], map[], [], 1, [];
      st := State(map[], map[], [], 1, {}, {}, map[], map[], multiset{}, multiset{});
    }

    /** ImutAVLTree::release, paying off a debt. */
    method Release(p: Ptr, ghost keep: set<Ptr>)
      requires Ok() && p in st.debts && KeepOk(st, keep)
      modifies `cells, `cache, `freeNodes, `st
      ensures Ok() && KeepOk(st, keep)
      ensures Shrunk(old(st), st) && st.debts == old(st).debts - multiset{p}
      decreases |st.live|, 1
    {
      hide Inv, KeepOk, Shrunk, Dec;
      ghost var s := st;
      DecFacts(hash, s, p, keep);
      cells := WithCount(cells, p, cells[p].refCount - 1);
      st := Dec(s, p);
      ShrunkRefl(hash, st);
      if cells[p].refCount == 0 {
        Destroy(p, keep);
      }
      ShrunkAfterDec(hash, s, p, st);
    }

    /** The releases of the children in destroy. */
    method ReleaseKids(left: Ptr, right: Ptr, ghost keep: set<Ptr>)
      requires Ok() && Ref(left) + Ref(right) <= st.debts && KeepOk(st, keep)
      modifies `cells, `cache, `freeNodes, `st
      ensures Ok() && KeepOk(st, keep)
      ensures Shrunk(old(st), st) && st.debts == old(st).debts - Ref(left) - Ref(right)
      decreases |st.live|, 2
    {
      hide Inv, KeepOk, Shrunk;
      ghost var s := st;
      ShrunkRefl(hash, s);
      if left != NULL {
        Release(left, keep);
      }
      ghost var t := st;
      ShrunkLive(s, t);
      if right != NULL {
        Release(right, keep);
        ShrunkTrans(s, t, st);
      }
    }

    /** The unlinking in destroy. */
    method Unlink(x: Ptr, ghost k: nat)
      requires Mirrors() && x in cells && NULL !in cells
      modifies `cells, `cache
      ensures cells == CutOut(st, x, k).cells && cache == CutOut(st, x, k).cache && cells.Keys == st.cells.Keys
    {
      var prev, next := cells[x].prev, cells[x].next;
      if next != NULL {
        cells := WithPrev(cells, next, prev);
      }
      if prev != NULL {
        cells := WithNext(cells, prev, next);
      } else {
        cache := cache[Mask(cells[x].digest) := next];
      }
    }

    /** The part of destroy after the releases. */
    method UnlinkAndFree(x: Ptr, ghost k: nat)
      requires Mirrors() && x in cells && NULL !in cells
      modifies `cells, `cache, `freeNodes, `st
      ensures Mirrors() && st == Bury(old(st), x, k)
    {
      if cells[x].isCanonicalized {
        Unlink(x, k);
      }
      cells := cells[x := cells[x].(isMutable := false)];
      freeNodes := freeNodes + [x];
      st := Bury(st, x, k);
    }

    /** destroy's work on x itself, s0 being the state it started from. */
    method Finish(x: Ptr, ghost s0: State, ghost keep: set<Ptr>)
      requires Ok() && KeepOk(st, keep) && Inv(hash, s0) && x in s0.live && x in s0.cells && Shrunk(Die(s0, x), st)
      modifies `cells, `cache, `freeNodes, `st
      ensures Ok() && KeepOk(st, keep) && Shrunk(s0, st)
      ensures x !in st.live && st.debts == old(st).debts
    {
      hide Inv, KeepOk, Shrunk, Bury, Die, Placed;
      DyingFacts(hash, s0, x, st);
      ghost var k := PositionOf(hash, st, x);
      BuryFacts(hash, s0, st, x, k, keep);
      UnlinkAndFree(x, k);
    }

    /** ImutAVLTree::destroy. */
    method Destroy(x: Ptr, ghost keep: set<Ptr>)
      requires Ok() && x in st.live && cells[x].refCount == 0 && x !in keep && KeepOk(st, keep)
      modifies `cells, `cache, `freeNodes, `st
      ensures Ok() && KeepOk(st, keep) && x !in st.live
      ensures Shrunk(old(st), st) && st.debts == old(st).debts
      decreases |st.live|, 0
    {
      hide Inv, KeepOk, Shrunk, Die, Ref;
      ghost var s0 := st;
      LiveFacts(hash, s0, x);
      DieFacts(hash, s0, x, keep);
      var left, right := cells[x].left, cells[x].right;
      st := Die(s0, x);
      ReleaseKids(left, right, keep);
      Finish(x, s0, keep);
    }

    // ----- Building -----

    /** An operation that started in s0 is building. */
    ghost predicate Working(s0: State)
      reads this
    {
      Ok() && Inv(hash, s0) && Growing(s0, st, createdNodes)
    }

    /** createNode. */
    method CreateNode(l: Ptr, v: Elem, r: Ptr, ghost s0: State) returns (p: Ptr)
      requires Working(s0) && Usable(s0, st, l) && Usable(s0, st, r) && Fits(TreeAt(st.trees, l), v, TreeAt(st.trees, r), 2)
      modifies this
      ensures Working(s0) && Grown(old(st), st) && FreshNode(s0, st, p)
      ensures IsCreated(TreeAt(old(st).trees, l), v, TreeAt(old(st).trees, r), TreeAt(st.trees, p))
    {
      hide Inv, Growing, Grown, Usable, FreshNode, LinkLive, TreeAt, HeightsOk, Avl, Fits;
      ghost var s := st;
      if freeNodes != [] {
        p := freeNodes[|freeNodes| - 1];
        freeNodes := freeNodes[..|freeNodes| - 1];
      } else {
        p := bump;
        bump := bump + 1;
      }
      ghost var t := s.(freeNodes := freeNodes, bump := bump);
      CreateFacts(hash, s0, s, createdNodes, t, p, l, v, r);
      var hl, hr := HeightAt(cells, l), HeightAt(cells, r);
      cells := Retained(Retained(cells, l), r)[p := NewCell(l, v, r, Max(hl, hr) + 1)];
      createdNodes := createdNodes + [p];
      st := Built(t, p, l, v, r);
    }

    /** balanceTree when the left side is too high. */
    method RotateRight(l: Ptr, v: Elem, r: Ptr, ghost s0: State) returns (p: Ptr)
      requires Working(s0) && Usable(s0, st, l) && Usable(s0, st, r)
      requires Height(TreeAt(st.trees, l)) == Height(TreeAt(st.trees, r)) + 3 && Fits(TreeAt(st.trees, l), v, TreeAt(st.trees, r), 3)
      modifies this
      ensures Working(s0) && Grown(old(st), st) && FreshNode(s0, st, p)
      ensures IsBalanced(TreeAt(old(st).trees, l), v, TreeAt(old(st).trees, r), TreeAt(st.trees, p))
    {
      hide Inv, Growing, Grown, Usable, FreshNode, LinkLive, TreeAt, HeightsOk, Avl, Fits;
      ghost var s := st;
      Openable(hash, s0, s, createdNodes, l);
      Openable(hash, s0, s, createdNodes, r);
      RotateRightFits(TreeAt(s.trees, l), v, TreeAt(s.trees, r));
      var ll, lr, lv := cells[l].left, cells[l].right, cells[l].value;
      if HeightAt(cells, ll) >= HeightAt(cells, lr) {
        var x := CreateNode(lr, v, r, s0);
        ghost var s1 := st;
        FreshUsable(s0, s1, x);
        Carry(hash, s0, s, s1, ll);
        p := CreateNode(ll, lv, x, s0);
        GrownTrans(s, s1, st);
      } else {
        Openable(hash, s0, s, createdNodes, lr);
        var lrl, lrr, lrv := cells[lr].left, cells[lr].right, cells[lr].value;
        p := CreateThree(ll, lv, lrl, lrv, lrr, v, r, s0);
      }
    }

    /** createNode(createNode(a, v, b), w, createNode(c, x, d)). */
    method CreateThree(a: Ptr, v: Elem, b: Ptr, w: Elem, c: Ptr, x: Elem, d: Ptr, ghost s0: State) returns (p: Ptr)
      requires Working(s0) && Usable(s0, st, a) && Usable(s0, st, b) && Usable(s0, st, c) && Usable(s0, st, d)
      requires var ts := st.trees;
        && Fits(TreeAt(ts, a), v, TreeAt(ts, b), 2) && Fits(TreeAt(ts, c), x, TreeAt(ts, d), 2)
        && Fits(AvlTree.CreateNode(TreeAt(ts, a), v, TreeAt(ts, b)), w, AvlTree.CreateNode(TreeAt(ts, c), x, TreeAt(ts, d)), 2)
      modifies this
      ensures Working(s0) && Grown(old(st), st) && FreshNode(s0, st, p)
      ensures var ts := old(st).trees;
        TreeAt(st.trees, p) == AvlTree.CreateNode(
          AvlTree.CreateNode(TreeAt(ts, a), v, TreeAt(ts, b)), w, AvlTree.CreateNode(TreeAt(ts, c), x, TreeAt(ts, d)))
    {
      hide Inv, Growing, Grown, Usable, FreshNode, LinkLive, TreeAt, HeightsOk, Avl, Fits;
      ghost var s := st;
      var left := CreateNode(a, v, b, s0);
      ghost var s1 := st;
      FreshUsable(s0, s1, left);
      Carry(hash, s0, s, s1, c);
      Carry(hash, s0, s, s1, d);
      var right := CreateNode(c, x, d, s0);
      ghost var s2 := st;
      FreshUsable(s0, s2, right);
      Carry(hash, s0, s1, s2, left);
      GrownTrans(s, s1, s2);
      p := CreateNode(left, w, right, s0);
      GrownTrans(s, s2, st);
    }

    /** balanceTree when the right side is too high. */
    method RotateLeft(l: Ptr, v: Elem, r: Ptr, ghost s0: State) returns (p: Ptr)
      requires Working(s0) && Usable(s0, st, l) && Usable(s0, st, r)
      requires Height(TreeAt(st.trees, r)) == Height(TreeAt(st.trees, l)) + 3 && Fits(TreeAt(st.trees, l), v, TreeAt(st.trees, r), 3)
      modifies this
      ensures Working(s0) && Grown(old(st), st) && FreshNode(s0, st, p)
      ensures IsBalanced(TreeAt(old(st).trees, l), v, TreeAt(old(st).trees, r), TreeAt(st.trees, p))
    {
      hide Inv, Growing, Grown, Usable, FreshNode, LinkLive, TreeAt, HeightsOk, Avl, Fits;
      ghost var s := st;
      Openable(hash, s0, s, createdNodes, l);
      Openable(hash, s0, s, createdNodes, r);
      RotateLeftFits(TreeAt(s.trees, l), v, TreeAt(s.trees, r));
      var rl, rr, rv := cells[r].left, cells[r].right, cells[r].value;
      if HeightAt(cells, rr) >= HeightAt(cells, rl) {
        var x := CreateNode(l, v, rl, s0);
        ghost var s1 := st;
        FreshUsable(s0, s1, x);
        Carry(hash, s0, s, s1, rr);
        p := CreateNode(x, rv, rr, s0);
        GrownTrans(s, s1, st);
      } else {
        Openable(hash, s0, s, createdNodes, rl);
        var rll, rlr, rlv := cells[rl].left, cells[rl].right, cells[rl].value;
        p := CreateThree(l, v, rll, rlv, rlr, rv, rr, s0);
      }
    }

    /** balanceTree. */
    method BalanceTree(l: Ptr, v: Elem, r: Ptr, ghost s0: State) returns (p: Ptr)
      requires Working(s0) && Usable(s0, st, l) && Usable(s0, st, r) && Fits(TreeAt(st.trees, l), v, TreeAt(st.trees, r), 3)
      modifies this
      ensures Working(s0) && Grown(old(st), st) && FreshNode(s0, st, p)
      ensures IsBalanced(TreeAt(old(st).trees, l), v, TreeAt(old(st).trees, r), TreeAt(st.trees, p))
    {
      hide Inv, Growing, Grown, Usable, FreshNode, LinkLive, TreeAt, HeightsOk, Avl, Fits;
      Openable(hash, s0, st, createdNodes, l);
      Openable(hash, s0, st, createdNodes, r);
      FitsNear(TreeAt(st.trees, l), v, TreeAt(st.trees, r));
      var hl, hr := HeightAt(cells, l), HeightAt(cells, r);
      if hl > hr + 2 {
        p := RotateRight(l, v, r, s0);
      } else if hr > hl + 2 {
        p := RotateLeft(l, v, r, s0);
      } else {
        p := CreateNode(l, v, r, s0);
      }
    }

    /** add_internal. */
    method AddInternal(v: Elem, t: Ptr, ghost s0: State) returns (p: Ptr)
      requires Working(s0) && (t == NULL || t in s0.live)
      modifies this
      ensures Working(s0) && Grown(old(st), st) && FreshNode(s0, st, p)
      ensures IsAdded(v, TreeAt(old(st).trees, t), TreeAt(st.trees, p))
      decreases TreeAt(st.trees, t)
    {
      hide Inv, Growing, Grown, Usable, FreshNode, LinkLive, TreeAt, HeightsOk, Avl, Fits;
      ghost var s := st;
      NullUsable(hash, s0, s);
      if t == NULL {
        LeafFits(v);
        p := CreateNode(NULL, v, NULL, s0);
        return;
      }
      OldOpenable(hash, s0, s, createdNodes, t);
      var left, right, w := cells[t].left, cells[t].right, cells[t].value;
      if v.key == w.key {
        AddedFits(v, TreeAt(s.trees, t), Nil);
        p := CreateNode(left, v, right, s0);
      } else if v.key < w.key {
        var x := AddInternal(v, left, s0);
        ghost var s1 := st;
        AddedFits(v, TreeAt(s.trees, t), TreeAt(s1.trees, x));
        FreshUsable(s0, s1, x);
        Carry(hash, s0, s, s1, right);
        p := BalanceTree(x, w, right, s0);
        GrownTrans(s, s1, st);
      } else {
        var x := AddInternal(v, right, s0);
        ghost var s1 := st;
        AddedFits(v, TreeAt(s.trees, t), TreeAt(s1.trees, x));
        FreshUsable(s0, s1, x);
        Carry(hash, s0, s, s1, left);
        p := BalanceTree(left, w, x, s0);
        GrownTrans(s, s1, st);
      }
    }

    /** removeMinBinding; node is the removed one. */
    method RemoveMinBinding(t: Ptr, ghost s0: State) returns (p: Ptr, node: Ptr)
      requires Working(s0) && t in s0.live
      modifies this
      ensures Working(s0) && Grown(old(st), st) && Usable(s0, st, p)
      ensures node in s0.live && node in s0.cells && node in cells && cells[node].value == s0.cells[node].value
      ensures IsMinRemoved(TreeAt(old(st).trees, t), TreeAt(st.trees, p), s0.cells[node].value)
      decreases TreeAt(st.trees, t)
    {
      hide Inv, Growing, Grown, Usable, FreshNode, LinkLive, TreeAt, HeightsOk, Avl, Fits;
      ghost var s := st;
      OldOpenable(hash, s0, s, createdNodes, t);
      var left, right, w := cells[t].left, cells[t].right, cells[t].value;
      if left == NULL {
        GrownRefl(hash, s);
        OldCell(hash, s0, s, createdNodes, t);
        return right, t;
      }
      var x;
      x, node := RemoveMinBinding(left, s0);
      ghost var s1 := st;
      MinRemovedFits(TreeAt(s.trees, t), TreeAt(s1.trees, x), s0.cells[node].value);
      Carry(hash, s0, s, s1, right);
      p := BalanceTree(x, w, right, s0);
      GrownTrans(s, s1, st);
      FreshUsable(s0, st, p);
      OldCell(hash, s0, st, createdNodes, node);
    }

    /** combineTrees of the two subtrees of an old node. */
    method CombineTrees(l: Ptr, r: Ptr, ghost s0: State) returns (p: Ptr)
      requires Working(s0) && Usable(s0, st, l) && Usable(s0, st, r) && (l == NULL || l in s0.live) && (r == NULL || r in s0.live)
      requires Mergeable(TreeAt(st.trees, l), TreeAt(st.trees, r))
      modifies this
      ensures Working(s0) && Grown(old(st), st) && Usable(s0, st, p)
      ensures if l == NULL then p == r else if r == NULL then p == l else FreshNode(s0, st, p)
      ensures IsCombined(TreeAt(old(st).trees, l), TreeAt(old(st).trees, r), TreeAt(st.trees, p))
    {
      hide Inv, Growing, Grown, Usable, FreshNode, LinkLive, TreeAt, HeightsOk, Avl, Fits;
      ghost var s := st;
      Openable(hash, s0, s, createdNodes, l);
      Openable(hash, s0, s, createdNodes, r);
      if l == NULL {
        GrownRefl(hash, s);
        return r;
      }
      if r == NULL {
        GrownRefl(hash, s);
        return l;
      }
      var newRight, oldNode := RemoveMinBinding(r, s0);
      ghost var s1 := st;
      CombinedFits(TreeAt(s.trees, l), TreeAt(s.trees, r), TreeAt(s1.trees, newRight), s0.cells[oldNode].value);
      Carry(hash, s0, s, s1, l);
      p := BalanceTree(l, cells[oldNode].value, newRight, s0);
      GrownTrans(s, s1, st);
      FreshUsable(s0, st, p);
    }

    /** remove_internal. */
    method RemoveInternal(k: int, t: Ptr, ghost s0: State) returns (p: Ptr)
      requires Working(s0) && (t == NULL || t in s0.live)
      modifies this
      ensures Working(s0) && Grown(old(st), st) && Usable(s0, st, p)
      ensures if NothingBuilt(s0, t, k) then p == OtherChild(s0, t) else FreshNode(s0, st, p)
      ensures IsRemoved(k, TreeAt(old(st).trees, t), TreeAt(st.trees, p))
      decreases TreeAt(st.trees, t)
    {
      hide Inv, Growing, Grown, Usable, FreshNode, LinkLive, TreeAt, HeightsOk, Avl, Fits;
      ghost var s := st;
      NullUsable(hash, s0, s);
      if t == NULL {
        GrownRefl(hash, s);
        return t;
      }
      OldOpenable(hash, s0, s, createdNodes, t);
      var left, right, w := cells[t].left, cells[t].right, cells[t].value;
      if k == w.key {
        KidsMergeable(TreeAt(s.trees, t));
        p := CombineTrees(left, right, s0);
      } else if k < w.key {
        var x := RemoveInternal(k, left, s0);
        ghost var s1 := st;
        RemovedFits(k, TreeAt(s.trees, t), TreeAt(s1.trees, x));
        Carry(hash, s0, s, s1, right);
        p := BalanceTree(x, w, right, s0);
        GrownTrans(s, s1, st);
        FreshUsable(s0, st, p);
      } else {
        var x := RemoveInternal(k, right, s0);
        ghost var s1 := st;
        RemovedFits(k, TreeAt(s.trees, t), TreeAt(s1.trees, x));
        Carry(hash, s0, s, s1, left);
        p := BalanceTree(left, w, x, s0);
        GrownTrans(s, s1, st);
        FreshUsable(s0, st, p);
      }
    }

    // ----- Finishing an operation -----

    /** markImmutable; the nodes of open are being marked by the callers. */
    method MarkImmutable(t: Ptr, ghost open: set<Ptr>)
      requires Ok() && LinkLive(st, t) && Flags(st, open)
      modifies `cells, `st
      ensures Ok() && OnlyFlags(old(st), st) && Flags(st, open) && !Mutable(st, t)
      ensures MarkedBelow(old(st), st, t)
      decreases TreeAt(st.trees, t)
    {
      hide Inv, OnlyFlags, Flags, MarkedBelow, TreeAt, HeightsOk;
      ghost var s := st;
      MarkStart(hash, s, t, open);
      if t == NULL || !cells[t].isMutable {
        return;
      }
      cells := Marked(cells, t);
      st := Mark(s, t);
      ghost var m := st;
      var left, right := cells[t].left, cells[t].right;
      MarkImmutable(left, open + {t});
      ghost var s1 := st;
      OnlyFlagsFacts(m, s1);
      MarkImmutable(right, open + {t});
      MarkEnd(s, t, s1, st, open);
    }

    /** recoverNodes. */
    method RecoverNodes()
      requires Ok() && Sweepable(st, createdNodes) && KeepOk(st, Immutables(st))
      modifies this
      ensures Ok() && Settled(st) && createdNodes == []
      ensures Shrunk(old(st), st) && Immutables(old(st)) <= st.live
    {
      hide Inv, Sweepable, KeepOk, Shrunk, Swept, Settled, Immutables;
      ghost var s, keep := st, Immutables(st);
      ghost var created := createdNodes;
      ShrunkRefl(hash, s);
      SweptNone(s, created);
      SweepableFacts(s, created);
      for i := 0 to |createdNodes|
        invariant Ok() && KeepOk(st, keep) && Shrunk(s, st) && Swept(st, created, i) && createdNodes == created
        invariant st.debts == multiset{}
      {
        var n := createdNodes[i];
        ghost var t := st;
        SweepStart(hash, s, created, t, n);
        ShrunkRefl(hash, t);
        if cells[n].isMutable && cells[n].refCount == 0 {
          Destroy(n, keep);
        }
        SweepNext(hash, t, st, created, i);
        ShrunkTrans(s, t, st);
      }
      SweepEnd(hash, s, created, st);
      KeptLive(st, keep);
      createdNodes := [];
    }

    /** Between operations. */
    ghost predicate Ready()
      reads this
    {
      Ok() && Settled(st) && createdNodes == []
    }

    /** The end of add and remove. */
    method Complete(p: Ptr, ghost s0: State)
      requires Working(s0) && Settled(s0) && LinkLive(st, p) && (p == NULL || p in s0.live || FreshNode(s0, st, p))
      modifies this
      ensures Ready() && Survives(s0, st) && LinkLive(st, p)
      ensures TreeAt(st.trees, p) == TreeAt(old(st).trees, p)
    {
      hide Inv, Settled, Growing, FreshNode, OnlyFlags, MarkedBelow, Flags, Sweepable, KeepOk, Immutables, Shrunk, Survives, TreeAt;
      ghost var s := st;
      CompleteStart(hash, s0, s, createdNodes);
      MarkImmutable(p, {});
      ghost var u := st;
      ImmutablesKeep(hash, s0, s, createdNodes, u, p);
      SweepableNow(hash, s0, s, createdNodes, u);
      ghost var created := createdNodes;
      RecoverNodes();
      SettledFacts(st);
      SurvivesAll(hash, s0, s, created, u, st, p);
    }

    /** add: a tree with v in it; no node is lost. */
    method Add(t: Ptr, v: Elem) returns (p: Ptr)
      requires Ready() && (t == NULL || t in st.live)
      modifies this
      ensures Ready() && Survives(old(st), st) && p in st.live && p !in old(st).live
      ensures IsAdded(v, TreeAt(old(st).trees, t), TreeAt(st.trees, p))
    {
      hide Inv, Settled, Growing, FreshNode, Survives, TreeAt;
      ghost var s0 := st;
      GrowingStart(hash, s0);
      p := AddInternal(v, t, s0);
      FreshLive(hash, s0, st, p);
      Complete(p, s0);
    }

    /** remove: a new root, unless the old one has the key and an empty side. It is the given
        root for the empty tree only, even when the key is absent. */
    method Remove(t: Ptr, k: int) returns (p: Ptr)
      requires Ready() && (t == NULL || t in st.live)
      modifies this
      ensures Ready() && Survives(old(st), st)
      ensures p != NULL ==> p in st.live && p in cells && (p in old(st).live ==> cells[p].refCount > 0)
      ensures if NothingBuilt(old(st), t, k) then p == OtherChild(old(st), t) else p in st.live && p !in old(st).live
      ensures p == t <==> t == NULL
      ensures t != NULL && (forall e :: e in Elems(TreeAt(old(st).trees, t)) ==> e.key != k) ==> p in st.live && p !in old(st).live
      ensures IsRemoved(k, TreeAt(old(st).trees, t), TreeAt(st.trees, p))
    {
      hide Inv, Settled, Growing, FreshNode, Survives, TreeAt, Elems, Usable, NothingBuilt, OtherChild;
      ghost var s0 := st;
      GrowingStart(hash, s0);
      p := RemoveInternal(k, t, s0);
      ghost var s := st;
      UsableLinks(s0, s, p);
      RemovedNode(hash, s0, s, t, k, p);
      Complete(p, s0);
      if p != NULL {
        UsableStays(hash, s0, s, st, p);
      }
    }

    // ----- Canonical trees -----

    /** computeDigest. */
    method ComputeDigest(p: Ptr) returns (d: nat)
      requires Ok() && Settled(st) && p in st.live
      modifies `cells, `st
      ensures Ok() && Settled(st) && OnlyDigests(old(st), st) && LargerSame(old(st), st, Size(TreeAt(old(st).trees, p)) + 1)
      ensures d == DigestOf(hash, Elems(TreeAt(st.trees, p)))
      ensures p in cells && cells[p].isDigestCached && cells[p].digest == d
      decreases TreeAt(st.trees, p), 1
    {
      hide Inv, Settled, OnlyDigests, LinkLive, DigestOf, Elems, LargerSame, Size;
      ghost var s := st;
      OnlyDigestsRefl(s);
      LargerRefl(hash, s, Size(TreeAt(s.trees, p)) + 1);
      DigestStart(hash, s, p);
      if cells[p].isDigestCached {
        return cells[p].digest;
      }
      d := DigestKids(p);
      ghost var t := st;
      SetFacts(hash, s, t, p, d);
      cells := WithDigest(cells, p, d);
      st := Digested(t, p, d);
    }

    /** The sum in computeDigest. */
    method DigestKids(p: Ptr) returns (d: nat)
      requires Ok() && Settled(st) && p in st.live && p in cells
      modifies `cells, `st
      ensures Ok() && Settled(st) && OnlyDigests(old(st), st) && LargerSame(old(st), st, Size(TreeAt(old(st).trees, p)))
      ensures d == DigestOf(hash, Elems(TreeAt(st.trees, p)))
      decreases TreeAt(st.trees, p), 0
    {
      hide Inv, Settled, OnlyDigests, DigestOf, Plus, Elems, LargerSame, Size, TreeAt, LinkLive;
      ghost var s := st;
      KidsLive(hash, s, p);
      DigestStart(hash, s, p);
      var left, right, value := cells[p].left, cells[p].right, cells[p].value;
      d := AddDigest(0, left);
      d := Plus(d, hash(value));
      ghost var t := st;
      OnlyDigestsSettled(s, t);
      d := AddDigest(d, right);
      OnlyDigestsTrans(s, t, st);
      OnlyDigestsSettled(s, st);
      LargerThrough(hash, s, t, st, p);
    }

    /** One of the sum's two conditional additions of a subtree's digest. */
    method AddDigest(sum: nat, p: Ptr) returns (d: nat)
      requires Ok() && Settled(st) && (p == NULL || p in st.live) && sum < MODULUS
      modifies `cells, `st
      ensures Ok() && Settled(st) && OnlyDigests(old(st), st) && st.trees == old(st).trees
      ensures LargerSame(old(st), st, Size(TreeAt(old(st).trees, p)) + 1)
      ensures d == Plus(sum, DigestOf(hash, Elems(TreeAt(st.trees, p))))
      decreases TreeAt(st.trees, p), 2
    {
      hide Inv, Settled, OnlyDigests, DigestOf, Plus, Elems, LargerSame, Size, TreeAt;
      ghost var s := st;
      OnlyDigestsRefl(s);
      if p == NULL {
        NullDigest(hash, s, sum);
        LargerRefl(hash, s, Size(TreeAt(s.trees, p)) + 1);
        return sum;
      }
      var x := ComputeDigest(p);
      OnlyDigestsSettled(s, st);
      d := Plus(sum, x);
    }

    /** Whether the trees of two nodes have the same elements: compareTreeWithSection up to the end. */
    method SameContents(t: Ptr, other: Ptr) returns (same: bool)
      requires Ok() && Settled(st) && t in st.live && other in st.live
      ensures same <==> Elems(TreeAt(st.trees, t)) == Elems(TreeAt(st.trees, other))
    {
      hide Inv, Settled, StoreOk, StackOk, Positioned, Rest, Elems, TreeAt;
      LiveStore(hash, st);
      var ti := new InOrderIterator(cells, st.trees, other);
      ghost var a, b := Elems(TreeAt(st.trees, t)), Elems(TreeAt(st.trees, other));
      same := CompareTreeWithSection(cells, st.trees, t, ti);
      if same {
        same := ti.AtEnd();
        assert b == a + ti.Remaining();
        if same {
          assert b == a;
        }
      } else {
        assert a <= a;
      }
    }

    /** The loop of getCanonicalTree: the tree of the chain with p's contents, if there is one. */
    method FindEqual(p: Ptr, idx: nat) returns (q: Ptr)
      requires Ok() && Settled(st) && p in st.live
      ensures q == NULL ==> Searching(st, idx, |ChainAt(st, idx)|, NULL, p)
      ensures q != NULL ==> q in st.live && q in cells && cells[q].isCanonicalized && Elems(TreeAt(st.trees, q)) == Elems(TreeAt(st.trees, p))
    {
      hide Inv, Settled, Elems, Searching;
      q := Head(cache, idx);
      ghost var i := 0;
      SearchStart(hash, st, idx, p);
      while q != NULL
        invariant Searching(st, idx, i, q, p)
        decreases |ChainAt(st, idx)| - i
      {
        SearchFacts(hash, st, idx, i, q, p);
        var same := SameContents(p, q);
        if same {
          return;
        }
        q := cells[q].next;
        i := i + 1;
      }
      SearchFacts(hash, st, idx, i, NULL, p);
    }

    /** getCanonicalTree: the canonical node with p's contents; p itself may be destroyed. */
    method GetCanonicalTree(p: Ptr) returns (r: Ptr)
      requires Ready() && LinkLive(st, p)
      modifies `cells, `cache, `freeNodes, `st
      ensures Ready() && st.client == old(st).client && UsedKept(old(st), st, p)
      ensures old(p in cells && cells[p].refCount > 0) ==> UsedKept(old(st), st, NULL)
      ensures p == NULL <==> r == NULL
      ensures r != NULL ==> r in st.live && r in cells && cells[r].isCanonicalized
      ensures Elems(TreeAt(st.trees, r)) == Elems(TreeAt(old(st).trees, p))
    {
      hide Inv, Settled, OnlyDigests, LargerSame, DigestOf, Elems, Shrunk, KeepOk, Searching, UsedKept, Linked, InUse, Kept, Worth;
      ghost var s := st;
      UsedRefl(hash, s, p);
      UsedRefl(hash, s, NULL);
      if p == NULL {
        return NULL;
      }
      LiveFacts(hash, s, p);
      if cells[p].isCanonicalized {
        return p;
      }
      var digest := ComputeDigest(p);
      ghost var t := st;
      OnlyDigestsKept(hash, s, t, p);
      OnlyDigestsKept(hash, s, t, NULL);
      LiveFacts(hash, t, p);
      var idx := Mask(digest);
      r := FindEqual(p, idx);
      if r != NULL {
        if cells[p].refCount == 0 {
          DestroyDuplicate(p, r);
          UsedTrans(s, t, st, p);
        }
        return;
      }
      LinkedFacts(hash, t, p);
      HeadFacts(hash, t, p);
      LinkAtHead(p, Head(cache, idx), idx);
      UsedAll(t, st, p);
      UsedTrans(s, t, st, p);
      UsedTrans(s, t, st, NULL);
      return p;
    }

    /** Destroying an unreferenced tree p cannot take the equal tree r with it. */
    method DestroyDuplicate(p: Ptr, r: Ptr)
      requires Ok() && Settled(st) && p in st.live && p in cells && cells[p].refCount == 0
      requires r in st.live && r in cells && cells[r].isCanonicalized && r != p && Elems(TreeAt(st.trees, r)) == Elems(TreeAt(st.trees, p))
      modifies `cells, `cache, `freeNodes, `st
      ensures Ok() && Settled(st) && st.client == old(st).client && UsedKept(old(st), st, p)
      ensures r in st.live && r in cells && cells[r].isCanonicalized && TreeAt(st.trees, r) == TreeAt(old(st).trees, r)
    {
      hide Inv, Settled, Elems, Shrunk, KeepOk, UsedKept, InUse, Kept, Worth;
      ghost var t := st;
      SettledFacts(t);
      WorthKeep(hash, t, p);
      NotWorth(t, p);
      Destroy(p, Worth(t, p));
      DestroyedFacts(hash, t, st, p, r);
      KeptFacts(t, st, r);
    }

    /** The insertion at the end of getCanonicalTree. */
    method LinkAtHead(p: Ptr, entry: Ptr, idx: nat)
      requires Mirrors() && p in cells && NULL !in cells && idx == Mask(cells[p].digest) && entry == Head(cache, idx)
      requires cells[p].next == NULL && (entry == NULL || (entry in cells && entry != p))
      modifies `cells, `cache, `st
      ensures Mirrors() && st == Linked(old(st), p)
    {
      if entry != NULL {
        cells := WithPrev(cells, entry, p);
        cells := WithNext(cells, p, entry);
      }
      cache := cache[idx := p];
      cells := cells[p := cells[p].(isCanonicalized := true)];
      st := Linked(st, p);
    }

    // ----- Clients -----

    /** A client's retain. */
    method RetainRoot(p: Ptr)
      requires Ready() && p in st.live && p in cells
      modifies `cells, `st
      ensures Ready() && st.live == old(st).live && st.trees == old(st).trees && st.client == old(st).client + multiset{p}
      ensures forall c :: c in old(st).live ==> Kept(old(st), st, c)
      ensures p in cells && cells[p] == old(cells[p]).(refCount := old(cells[p].refCount) + 1)
    {
      hide Inv, Settled, InUse, Kept;
      HoldFacts(hash, st, p);
      cells := WithCount(cells, p, cells[p].refCount + 1);
      st := Hold(st, p);
    }

    /** A client's release of a reference it holds: what other references keep in use stays. */
    method ReleaseRoot(p: Ptr)
      requires Ready() && p in st.client
      modifies `cells, `cache, `freeNodes, `st
      ensures Ready() && st.client == old(st).client - multiset{p}
      ensures forall c :: InUse(Owe(old(st), p), c) ==> Kept(old(st), st, c)
    {
      hide Inv, Settled, KeepOk, Shrunk, InUse, Kept, StillUsed;
      ghost var s := st;
      OweFacts(hash, s, p);
      st := Owe(s, p);
      Release(p, StillUsed(st));
      ReleasedFacts(hash, s, p, st);
    }

    /** ImmutableSet::Factory::add on a factory that canonicalizes: the canonical root of the new
        set, retained. Whatever was in use stays. */
    method SetAdd(root: Ptr, v: Elem) returns (r: Ptr)
      requires Ready() && LinkLive(st, root)
      modifies this
      ensures Ready() && r in st.live && r in cells && cells[r].isCanonicalized
      ensures st.client == old(st).client + multiset{r}
      ensures Avl(TreeAt(st.trees, r)) && Elems(TreeAt(st.trees, r)) == Inserted(Elems(TreeAt(old(st).trees, root)), v)
      ensures SetRoot(old(st), root) && v in Elems(TreeAt(old(st).trees, root)) ==> r == root
      ensures forall c :: InUse(old(st), c) ==> Kept(old(st), st, c)
    {
      hide Inv, Settled, Elems, TreeAt, UsedKept, Survives, InUse, Kept, Sorted, Avl, Inserted, Deleted, HeightsOk;
      ghost var s := st;
      var t := Add(root, v);
      ghost var s1 := st;
      LiveFacts(hash, s1, t);
      SurvivesUsed(s, s1);
      r := GetCanonicalTree(t);
      ghost var s2 := st;
      UsedThrough(hash, s, s1, s2, t);
      RetainRoot(r);
      UsedFinally(hash, s, s2, st);
      AddedSet(hash, v, s, root, TreeAt(s1.trees, t), st, r);
      if SetRoot(s, root) && v in Elems(TreeAt(s.trees, root)) {
        LinkFacts(hash, s, root);
        InsertedPresent(Elems(TreeAt(s.trees, root)), v);
        SameRoot(hash, s, st, root, r);
      }
    }

    /** ImmutableSet::Factory::remove on a factory that canonicalizes. */
    method SetRemove(root: Ptr, k: int) returns (r: Ptr)
      requires Ready() && LinkLive(st, root)
      modifies this
      ensures Ready() && (r != NULL ==> r in st.live && r in cells && cells[r].isCanonicalized)
      ensures st.client == old(st).client + Ref(r)
      ensures Avl(TreeAt(st.trees, r)) && Elems(TreeAt(st.trees, r)) == Deleted(Elems(TreeAt(old(st).trees, root)), k)
      ensures SetRoot(old(st), root) && (forall e :: e in Elems(TreeAt(old(st).trees, root)) ==> e.key != k) ==> r == root
      ensures forall c :: InUse(old(st), c) ==> Kept(old(st), st, c)
    {
      hide Inv, Settled, Elems, TreeAt, UsedKept, Survives, InUse, Kept, Sorted, Avl, Inserted, Deleted, HeightsOk;
      ghost var s := st;
      var t := Remove(root, k);
      ghost var s1 := st;
      SurvivesUsed(s, s1);
      r := GetCanonicalTree(t);
      ghost var s2 := st;
      NullNotLive(hash, s);
      if t == NULL || t !in s.live {
        UsedThrough(hash, s, s1, s2, t);
      } else {
        UsedThrough(hash, s, s1, s2, NULL);
      }
      LiveKept(hash, s2);
      if r != NULL {
        RetainRoot(r);
      }
      UsedFinally(hash, s, s2, st);
      NullLink(st, r);
      RemovedSet(hash, k, s, root, TreeAt(s1.trees, t), st, r);
      if SetRoot(s, root) && (forall e :: e in Elems(TreeAt(s.trees, root)) ==> e.key != k) {
        DeletedAbsent(Elems(TreeAt(s.trees, root)), k);
        SameRoot(hash, s, st, root, r);
      }
    }

    /** operator== of ImmutableSet. On canonical roots it is equality of the roots. */
    method SetEquals(p: Ptr, q: Ptr) returns (equal: bool)
      requires Ready() && LinkLive(st, p) && LinkLive(st, q)
      ensures equal <==> Elems(TreeAt(st.trees, p)) == Elems(TreeAt(st.trees, q))
      ensures CanonicalRoot(cells, p) && CanonicalRoot(cells, q) ==> (equal <==> p == q)
    {
      hide Inv, Settled, Elems, StoreOk;
      LiveStore(hash, st);
      LinkFacts(hash, st, p);
      LinkFacts(hash, st, q);
      if p != NULL && q != NULL {
        equal := IsEqual(cells, st.trees, p, q);
        if cells[p].isCanonicalized && cells[q].isCanonicalized {
          CanonicalIff(hash, st, p, q);
        }
      } else {
        equal := p == q;
        EmptyContents(TreeAt(st.trees, p));
        EmptyContents(TreeAt(st.trees, q));
      }
    }
  }
}
