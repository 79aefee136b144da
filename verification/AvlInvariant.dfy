/** The invariant of an ImutAVLFactory's memory, and what destroying a node does to it. */
module AvlInvariant {
  import opened Collections
  import opened AvlStore
  import opened AvlHeap
  import opened AvlChains

  // ----- The invariant -----

  ghost predicate FreeOk(s: State) {
    forall p :: p in s.freeNodes && p in s.cells ==> !s.cells[p].isMutable
  }

  ghost predicate HeapOk(s: State) {
    Cover(s) && FreeOk(s) && NodesOk(s) && CountsOk(s) && Owned(s)
  }

  ghost predicate Inv(hash: Hash, s: State) {
    HeapOk(s) && TableOk(hash, s)
  }

  // ----- What destroying leaves alone -----

  ghost predicate SameNode(n: Cell, m: Cell) {
    && m == n.(refCount := m.refCount, prev := m.prev, next := m.next)
    && (m.refCount == 0 ==> n.refCount == 0)
  }

  ghost predicate Shrunk(s: State, r: State) {
    && r.live <= s.live && r.dying == s.dying && r.client == s.client && r.bump == s.bump
    && r.cells.Keys == s.cells.Keys
    && (forall p :: p in r.trees ==> p in s.trees && r.trees[p] == s.trees[p])
    && (forall p :: p in r.live || p in r.dying ==> p in s.cells && SameNode(s.cells[p], r.cells[p]))
  }

  lemma ShrunkTrans(s: State, r: State, t: State)
    requires Shrunk(s, r) && Shrunk(r, t)
    ensures Shrunk(s, t)
  {
  }

  ghost predicate Parent(s: State, q: Ptr, c: Ptr) {
    q in s.cells && (s.cells[q].left == c || s.cells[q].right == c)
  }

  ghost predicate KeptBy(s: State, keep: set<Ptr>, c: Ptr) {
    exists q :: q in keep && Parent(s, q, c)
  }

  /** No release outside keep can take c's last reference. */
  ghost predicate Safe(s: State, keep: set<Ptr>, c: Ptr) {
    || c in s.client
    || KeptBy(s, keep, c)
    || (c !in s.debts && forall q :: q in s.live && Parent(s, q, c) ==> q in keep)
  }

  ghost predicate KeepOk(s: State, keep: set<Ptr>) {
    keep <= s.live && forall c {:trigger Safe(s, keep, c)} :: c in keep ==> Safe(s, keep, c)
  }

  lemma DieKeeps(s: State, keep: set<Ptr>, x: Ptr)
    requires KeepOk(s, keep) && x in s.live && x !in keep && x in s.cells
    ensures KeepOk(Die(s, x), keep)
  {
    var r := Die(s, x);
    forall c | c in keep ensures Safe(r, keep, c) {
      assert Safe(s, keep, c);
      if KeptBy(s, keep, c) {
        var q :| q in keep && Parent(s, q, c);
        assert Parent(r, q, c);
      } else if c !in s.client {
        assert !Parent(s, x, c);
        assert forall q :: Parent(r, q, c) ==> Parent(s, q, c);
      }
    }
  }

  lemma DecKeeps(s: State, keep: set<Ptr>, p: Ptr)
    requires HeapOk(s) && KeepOk(s, keep) && p in s.debts && p in s.cells
    ensures s.cells[p].refCount > 0 && KeepOk(Dec(s, p), keep)
    ensures s.cells[p].refCount == 1 ==> p !in keep
  {
    DecCounts(s, p);
    var r := Dec(s, p);
    forall c | c in keep ensures Safe(r, keep, c) {
      assert Safe(s, keep, c);
      if KeptBy(s, keep, c) {
        var q :| q in keep && Parent(s, q, c);
        assert Parent(r, q, c);
      } else {
        assert forall q :: Parent(r, q, c) ==> Parent(s, q, c);
      }
    }
    if s.cells[p].refCount == 1 && p in keep {
      LastDebt(s, keep, p);
    }
  }

  /** A safe node with a debt has another reference besides. */
  lemma LastDebt(s: State, keep: set<Ptr>, p: Ptr)
    requires HeapOk(s) && KeepOk(s, keep) && p in s.debts && p in s.cells && p in keep
    ensures s.cells[p].refCount > 1
  {
    assert Safe(s, keep, p) && CountOk(s, p);
    if p !in s.client {
      var q :| q in keep && Parent(s, q, p);
      assert q in Lefts(s, p) || q in Rights(s, p);
    }
  }

  // ----- Step lemmas for the whole invariant -----

  lemma DieInv(hash: Hash, s: State, x: Ptr)
    requires Inv(hash, s) && x in s.live && s.cells[x].refCount == 0
    ensures Inv(hash, Die(s, x))
  {
    DieNodes(s, x);
    DieCounts(s, x);
    hide NodesOk, CountsOk, Owned;
    forall p | p in s.trees ensures PlaceOk(hash, s, p) {
    }
    TableKeptOk(hash, s, Die(s, x));
  }

  lemma SameShapeInv(hash: Hash, s: State, r: State)
    requires Inv(hash, s) && SameShape(s, r) && CountsOk(r) && Owned(r)
    ensures Inv(hash, r)
  {
    SameShapeNodes(s, r);
    hide NodesOk, CountsOk, Owned;
    TableKeptOk(hash, s, r);
  }

  /** The end of destroy: x, at position k of its chain if it is canonical, is cut out and freed. */
  ghost function Bury(s: State, x: Ptr, k: nat): (r: State)
    requires x in s.cells
  {
    Freed(if s.cells[x].isCanonicalized then CutOut(s, x, k) else s, x)
  }

  ghost predicate CellBuried(n: Cell, m: Cell, freed: bool) {
    m == n.(prev := m.prev, next := m.next, isMutable := n.isMutable && !freed)
  }

  ghost predicate Buried(s: State, r: State, x: Ptr) {
    && r.live == s.live && r.dying == s.dying - {x} && r.client == s.client && r.debts == s.debts && r.bump == s.bump
    && r.freeNodes == s.freeNodes + [x] && r.trees == s.trees - {x} && r.cells.Keys == s.cells.Keys
    && forall p {:trigger r.cells[p]} :: p in s.cells ==> CellBuried(s.cells[p], r.cells[p], p == x)
  }

  lemma BuryIs(s: State, x: Ptr, k: nat)
    requires x in s.cells
    ensures Buried(s, Bury(s, x, k), x)
  {
    var r := Bury(s, x, k);
    if s.cells[x].isCanonicalized {
      var n := s.cells[x];
      var m := WithPrev(s.cells, n.next, n.prev);
      forall p | p in s.cells ensures p in r.cells && CellBuried(s.cells[p], r.cells[p], p == x) {
        assert CellBuried(s.cells[p], m[p], false);
      }
    }
  }

  lemma BuriedCover(s: State, r: State, x: Ptr)
    requires Cover(s) && FreeOk(s) && Buried(s, r, x) && x in s.dying
    ensures Cover(r) && FreeOk(r)
  {
    assert forall p :: p in r.freeNodes <==> p in s.freeNodes || p == x;
    forall p | p in r.freeNodes && p in r.cells ensures !r.cells[p].isMutable {
      assert CellBuried(s.cells[p], r.cells[p], p == x);
    }
  }

  lemma BuriedNodes(s: State, r: State, x: Ptr)
    requires Cover(s) && NodesOk(s) && Buried(s, r, x) && x in s.dying
    ensures NodesOk(r)
  {
    forall p | p in r.live ensures NodeOk(r, p) {
      assert NodeOk(s, p) && CellBuried(s.cells[p], r.cells[p], p == x);
    }
  }

  lemma BuriedCounts(s: State, r: State, x: Ptr)
    requires CountsOk(s) && Buried(s, r, x)
    ensures CountsOk(r)
  {
    forall p | p in r.live ensures CountOk(r, p) {
      assert CountOk(s, p);
      BuriedParents(s, r, x, p);
    }
  }

  lemma BuriedParents(s: State, r: State, x: Ptr, p: Ptr)
    requires Buried(s, r, x)
    ensures Lefts(r, p) == Lefts(s, p) && Rights(r, p) == Rights(s, p)
  {
    forall q | q in s.cells ensures r.cells[q].left == s.cells[q].left && r.cells[q].right == s.cells[q].right {
      assert CellBuried(s.cells[q], r.cells[q], q == x);
    }
  }

  lemma BuriedHeap(s: State, r: State, x: Ptr)
    requires HeapOk(s) && Buried(s, r, x) && x in s.dying
    ensures HeapOk(r)
  {
    hide Cover, FreeOk, NodesOk, CountsOk;
    BuriedCover(s, r, x);
    BuriedNodes(s, r, x);
    BuriedCounts(s, r, x);
  }

  lemma BuriedKeeps(s: State, r: State, x: Ptr, keep: set<Ptr>)
    requires Buried(s, r, x) && KeepOk(s, keep)
    ensures KeepOk(r, keep)
  {
    forall q, c ensures Parent(r, q, c) <==> Parent(s, q, c) {
      if q in s.cells {
        assert CellBuried(s.cells[q], r.cells[q], q == x);
      }
    }
    forall c | c in keep ensures Safe(r, keep, c) {
      assert Safe(s, keep, c);
      if KeptBy(s, keep, c) {
        var q :| q in keep && Parent(s, q, c);
        assert Parent(r, q, c);
      }
    }
  }

  lemma BuryInv(hash: Hash, s: State, x: Ptr, k: nat)
    requires Inv(hash, s) && x in s.dying && (s.cells[x].isCanonicalized ==> InChain(s, x, k))
    ensures Inv(hash, Bury(s, x, k))
  {
    BuryIs(s, x, k);
    BuriedHeap(s, Bury(s, x, k), x);
    hide NodesOk, CountsOk, Owned, TableOk;
    if s.cells[x].isCanonicalized {
      CutOk(hash, s, x, k);
    } else {
      FreedOk(hash, s, x);
    }
  }

  /** k is x's position in its chain, if it is canonical. */
  ghost predicate Placed(s: State, x: Ptr, k: nat) {
    x in s.dying && x in s.cells && (s.cells[x].isCanonicalized ==> InChain(s, x, k))
  }

  lemma PositionOf(hash: Hash, s: State, x: Ptr) returns (k: nat)
    requires Inv(hash, s) && x in s.dying
    ensures Placed(s, x, k)
  {
    k := 0;
    assert PlaceOk(hash, s, x);
    if s.cells[x].isCanonicalized {
      var idx := Mask(s.cells[x].digest);
      var c := ChainAt(s, idx);
      k :| 0 <= k < |c| && c[k] == x;
      assert ChainOk(s, idx);
    }
  }

  lemma ShrunkRefl(hash: Hash, s: State)
    requires Inv(hash, s)
    ensures Shrunk(s, s)
  {
  }

  lemma ShrunkLive(s: State, r: State)
    requires Shrunk(s, r)
    ensures |r.live| <= |s.live| && r.live <= s.live && r.dying == s.dying && r.client == s.client
  {
    SubsetSize(r.live, s.live);
  }

  lemma ShrunkAfterDec(hash: Hash, s: State, p: Ptr, t: State)
    requires Inv(hash, s) && p in s.live && p in s.cells && s.cells[p].refCount > 0
    requires Shrunk(Dec(s, p), t) && (s.cells[p].refCount == 1 ==> p !in t.live)
    ensures Shrunk(s, t)
  {
  }

  lemma ShrunkBuried(hash: Hash, s: State, x: Ptr, t: State, r: State)
    requires Inv(hash, s) && x in s.live && x in s.cells && Shrunk(Die(s, x), t) && Buried(t, r, x)
    ensures Shrunk(s, r)
  {
    forall p | p in r.live || p in r.dying ensures p in s.cells && SameNode(s.cells[p], r.cells[p]) {
      assert SameNode(s.cells[p], t.cells[p]);
      assert CellBuried(t.cells[p], r.cells[p], p == x);
    }
  }

  /** Everything release needs to know when it starts. */
  lemma DecFacts(hash: Hash, s: State, p: Ptr, keep: set<Ptr>)
    requires Inv(hash, s) && p in s.debts && KeepOk(s, keep)
    ensures p in s.live && p in s.cells && s.cells[p].refCount > 0
    ensures Inv(hash, Dec(s, p)) && KeepOk(Dec(s, p), keep)
    ensures s.cells[p].refCount == 1 ==> p !in keep
    ensures var r := Dec(s, p);
      && r.cells == WithCount(s.cells, p, s.cells[p].refCount - 1) && r.cache == s.cache && r.freeNodes == s.freeNodes && r.bump == s.bump
      && r.live == s.live && r.debts == s.debts - multiset{p}
  {
    DecKeeps(s, keep, p);
    DecCounts(s, p);
    SameShapeInv(hash, s, Dec(s, p));
  }

  lemma LiveFacts(hash: Hash, s: State, x: Ptr)
    requires Inv(hash, s) && x in s.live
    ensures x in s.cells && NULL !in s.cells && x !in s.dying
  {
  }

  /** Everything destroy needs to know when it starts. */
  lemma DieFacts(hash: Hash, s: State, x: Ptr, keep: set<Ptr>)
    requires Inv(hash, s) && x in s.live && x in s.cells && s.cells[x].refCount == 0 && x !in keep && KeepOk(s, keep)
    ensures Inv(hash, Die(s, x)) && KeepOk(Die(s, x), keep)
    ensures var r := Die(s, x);
      && |r.live| < |s.live| && r.cells == s.cells && r.cache == s.cache && r.freeNodes == s.freeNodes && r.bump == s.bump
      && Ref(s.cells[x].left) + Ref(s.cells[x].right) <= r.debts
      && r.debts - Ref(s.cells[x].left) - Ref(s.cells[x].right) == s.debts
  {
    DieKeeps(s, keep, x);
    DieInv(hash, s, x);
  }

  lemma DyingFacts(hash: Hash, s: State, x: Ptr, t: State)
    requires x in s.cells && x in s.live && Inv(hash, t) && Shrunk(Die(s, x), t)
    ensures x in t.dying && x in t.cells && NULL !in t.cells && x !in t.live
  {
  }

  lemma BuryFacts(hash: Hash, s0: State, s: State, x: Ptr, k: nat, keep: set<Ptr>)
    requires Inv(hash, s) && Placed(s, x, k) && KeepOk(s, keep)
    requires Inv(hash, s0) && x in s0.live && x in s0.cells && Shrunk(Die(s0, x), s)
    ensures var r := Bury(s, x, k);
      Inv(hash, r) && KeepOk(r, keep) && Shrunk(s0, r) && r.live == s.live && r.debts == s.debts
  {
    hide Inv, KeepOk, Shrunk, Bury;
    BuryInv(hash, s, x, k);
    BuryIs(s, x, k);
    BuriedKeeps(s, Bury(s, x, k), x, keep);
    ShrunkBuried(hash, s0, x, s, Bury(s, x, k));
  }
}
