/** Digests, canonical trees and the references of clients. */
module AvlCanonical {
  import opened AvlTree
  import opened AvlStore
  import opened AvlHeap
  import opened AvlChains
  import opened AvlInvariant
  import opened AvlGrowth
  import opened AvlRecover

  // ----- Digests -----

  function WithDigest(m: Store, p: Ptr, d: nat): (r: Store)
    requires p in m
  {
    m[p := m[p].(digest := d, isDigestCached := true)]
  }

  ghost function Digested(s: State, p: Ptr, d: nat): (t: State)
    requires p in s.cells
  {
    s.(cells := WithDigest(s.cells, p, d))
  }

  ghost predicate DigestSet(n: Cell, m: Cell) {
    m == n.(digest := m.digest, isDigestCached := m.isDigestCached) && (n.isDigestCached ==> m == n)
  }

  ghost predicate OnlyDigests(s: State, t: State) {
    && t == s.(cells := t.cells) && t.cells.Keys == s.cells.Keys
    && forall p :: p in s.cells ==> DigestSet(s.cells[p], t.cells[p])
  }

  lemma OnlyDigestsTrans(s: State, t: State, u: State)
    requires OnlyDigests(s, t) && OnlyDigests(t, u)
    ensures OnlyDigests(s, u)
  {
    forall p | p in s.cells ensures DigestSet(s.cells[p], u.cells[p]) {
      assert DigestSet(s.cells[p], t.cells[p]) && DigestSet(t.cells[p], u.cells[p]);
    }
  }

  lemma OnlyDigestsRefl(s: State)
    ensures OnlyDigests(s, s)
  {
  }

  lemma DigestedHeap(s: State, p: Ptr, d: nat)
    requires HeapOk(s) && p in s.cells && !s.cells[p].isDigestCached
    ensures HeapOk(Digested(s, p, d)) && OnlyDigests(s, Digested(s, p, d))
  {
    hide NodesOk, CountsOk;
    assert Digested(s, p, d).cells.Keys == s.cells.Keys;
    DigestedNodes(s, p, d);
    DigestedCounts(s, p, d);
  }

  lemma DigestedNodes(s: State, p: Ptr, d: nat)
    requires NodesOk(s) && p in s.cells
    ensures NodesOk(Digested(s, p, d))
  {
    var t := Digested(s, p, d);
    forall q | q in t.live ensures NodeOk(t, q) {
      assert NodeOk(s, q);
    }
  }

  lemma DigestedCounts(s: State, p: Ptr, d: nat)
    requires CountsOk(s) && p in s.cells
    ensures CountsOk(Digested(s, p, d))
  {
    var t := Digested(s, p, d);
    forall q | q in t.live ensures CountOk(t, q) {
      assert CountOk(s, q);
      DigestedParents(s, p, d, q);
    }
  }

  lemma DigestedParents(s: State, p: Ptr, d: nat, q: Ptr)
    requires p in s.cells
    ensures Lefts(Digested(s, p, d), q) == Lefts(s, q) && Rights(Digested(s, p, d), q) == Rights(s, q)
  {
    var t := Digested(s, p, d);
    forall x | x in s.cells ensures t.cells[x].left == s.cells[x].left && t.cells[x].right == s.cells[x].right {
    }
  }

  lemma DigestedTable(hash: Hash, s: State, p: Ptr, d: nat)
    requires TableOk(hash, s) && p in s.cells && p in s.trees && !s.cells[p].isDigestCached
    requires d == DigestOf(hash, Elems(s.trees[p]))
    ensures TableOk(hash, Digested(s, p, d))
  {
    var t := Digested(s, p, d);
    assert PlaceOk(hash, s, p);
    forall idx: nat ensures ChainOk(t, idx) {
      assert ChainOk(s, idx);
      var c := ChainAt(s, idx);
      forall i | 0 <= i < |c| ensures LinkOk(t, idx, c, i) {
        assert LinkOk(s, idx, c, i);
      }
    }
    forall q | q in t.trees ensures PlaceOk(hash, t, q) {
      assert PlaceOk(hash, s, q);
    }
  }

  lemma DigestedInv(hash: Hash, s: State, p: Ptr, d: nat)
    requires Inv(hash, s) && p in s.live && p in s.cells && !s.cells[p].isDigestCached
    requires d == DigestOf(hash, Elems(TreeAt(s.trees, p)))
    ensures Inv(hash, Digested(s, p, d)) && OnlyDigests(s, Digested(s, p, d))
  {
    DigestedHeap(s, p, d);
    DigestedTable(hash, s, p, d);
  }

  lemma OnlyDigestsSettled(s: State, t: State)
    requires Settled(s) && OnlyDigests(s, t)
    ensures Settled(t) && t.live == s.live && t.trees == s.trees && t.client == s.client && t.chains == s.chains && t.cache == s.cache
  {
    forall p | p in t.live ensures !Mutable(t, p) {
      assert !Mutable(s, p);
      if p in s.cells {
        assert DigestSet(s.cells[p], t.cells[p]);
      }
    }
  }

  /** The nodes of trees with at least n elements are as they were. */
  ghost predicate LargerSame(s: State, t: State, n: nat) {
    forall q :: q in s.live && Size(TreeAt(s.trees, q)) >= n ==> q in s.cells && q in t.cells && t.cells[q] == s.cells[q]
  }

  lemma LargerRefl(hash: Hash, s: State, n: nat)
    requires Inv(hash, s)
    ensures LargerSame(s, s, n)
  {
  }

  lemma LargerThrough(hash: Hash, s: State, t: State, u: State, p: Ptr)
    requires Inv(hash, s) && p in s.live && p in s.cells && t.live == s.live && t.trees == s.trees
    requires LargerSame(s, t, Size(TreeAt(s.trees, s.cells[p].left)) + 1)
    requires LargerSame(t, u, Size(TreeAt(t.trees, s.cells[p].right)) + 1)
    ensures LargerSame(s, u, Size(TreeAt(s.trees, p)))
  {
    NodeFacts(hash, s, p);
    var n := Size(TreeAt(s.trees, p));
    hide Inv, LargerSame, Avl, Elems;
    LargerWeaken(s, t, Size(TreeAt(s.trees, s.cells[p].left)) + 1, n);
    LargerWeaken(t, u, Size(TreeAt(t.trees, s.cells[p].right)) + 1, n);
    LargerTrans(s, t, u, n);
  }

  lemma LargerWeaken(s: State, t: State, m: nat, n: nat)
    requires LargerSame(s, t, m) && m <= n
    ensures LargerSame(s, t, n)
  {
  }

  lemma LargerTrans(s: State, t: State, u: State, n: nat)
    requires LargerSame(s, t, n) && LargerSame(t, u, n) && t.live == s.live && t.trees == s.trees
    ensures LargerSame(s, u, n)
  {
  }

  /** The end of computeDigest. */
  lemma SetFacts(hash: Hash, s: State, t: State, p: Ptr, d: nat)
    requires Inv(hash, s) && Settled(s) && Inv(hash, t) && OnlyDigests(s, t) && LargerSame(s, t, Size(TreeAt(s.trees, p)))
    requires p in s.live && p in s.cells && !s.cells[p].isDigestCached && d == DigestOf(hash, Elems(TreeAt(t.trees, p)))
    ensures p in t.cells && var u := Digested(t, p, d);
      && Inv(hash, u) && Settled(u) && OnlyDigests(s, u) && u.trees == s.trees && LargerSame(s, u, Size(TreeAt(s.trees, p)) + 1)
  {
    hide Inv;
    OnlyDigestsSettled(s, t);
    DigestedInv(hash, t, p, d);
    OnlyDigestsSettled(t, Digested(t, p, d));
    OnlyDigestsTrans(s, t, Digested(t, p, d));
  }

  /** What computeDigest starts from: the cached digest is right, and so is one put together
      from the subtrees' digests. */
  lemma DigestStart(hash: Hash, s: State, p: Ptr)
    requires Inv(hash, s) && p in s.live
    ensures p in s.cells && p != NULL && (s.cells[p].isDigestCached ==> s.cells[p].digest == DigestOf(hash, Elems(TreeAt(s.trees, p))))
    ensures var c := s.cells[p];
      && LinkLive(s, c.left) && LinkLive(s, c.right)
      && TreeAt(s.trees, c.left) < TreeAt(s.trees, p) && TreeAt(s.trees, c.right) < TreeAt(s.trees, p)
      && DigestOf(hash, Elems(TreeAt(s.trees, p))) ==
         Plus(Plus(Plus(0, DigestOf(hash, Elems(TreeAt(s.trees, c.left)))), hash(c.value)), DigestOf(hash, Elems(TreeAt(s.trees, c.right))))
  {
    NodeFacts(hash, s, p);
    assert PlaceOk(hash, s, p);
    var c := s.cells[p];
    DigestJoin(hash, Elems(TreeAt(s.trees, c.left)), c.value, Elems(TreeAt(s.trees, c.right)));
  }

  lemma NullDigest(hash: Hash, s: State, sum: nat)
    requires Inv(hash, s) && sum < MODULUS
    ensures Plus(sum, DigestOf(hash, Elems(TreeAt(s.trees, NULL)))) == sum
  {
    NullTree(hash, s);
  }

  lemma KidsLive(hash: Hash, s: State, p: Ptr)
    requires Inv(hash, s) && p in s.live
    ensures p in s.cells && var c := s.cells[p];
      (c.left != NULL ==> c.left in s.live) && (c.right != NULL ==> c.right in s.live)
  {
    NodeFacts(hash, s, p);
  }

  // ----- Looking for an equal tree -----

  /** T is the i-th tree of the chain, and no tree before it has p's contents. */
  ghost predicate Searching(s: State, idx: nat, i: nat, q: Ptr, p: Ptr) {
    var c := ChainAt(s, idx);
    && i <= |c| && q == At(c, i)
    && forall j :: 0 <= j < i ==> Elems(TreeAt(s.trees, c[j])) != Elems(TreeAt(s.trees, p))
  }

  lemma SearchStart(hash: Hash, s: State, idx: nat, p: Ptr)
    requires Inv(hash, s)
    ensures Searching(s, idx, 0, Head(s.cache, idx), p)
  {
    assert ChainOk(s, idx);
  }

  lemma SearchFacts(hash: Hash, s: State, idx: nat, i: nat, q: Ptr, p: Ptr)
    requires Inv(hash, s) && Settled(s) && Searching(s, idx, i, q, p)
    ensures if q == NULL then i == |ChainAt(s, idx)| else i < |ChainAt(s, idx)| && q in s.live && q in s.cells && q in s.trees && s.cells[q].isCanonicalized
    ensures q != NULL && Elems(TreeAt(s.trees, q)) != Elems(TreeAt(s.trees, p)) ==> Searching(s, idx, i + 1, s.cells[q].next, p)
  {
    assert ChainOk(s, idx);
    var c := ChainAt(s, idx);
    if i < |c| {
      assert LinkOk(s, idx, c, i);
    }
  }

  lemma LiveStore(hash: Hash, s: State)
    requires Inv(hash, s) && Settled(s)
    ensures StoreOk(s.cells, s.trees) && s.trees.Keys == s.live
  {
    forall p | p in s.trees ensures CellOk(s.cells, s.trees, p) {
      assert NodeOk(s, p);
    }
  }

  // ----- What survives -----

  /** c is still there, with the same tree, and still canonical if it was. */
  ghost predicate Kept(s: State, t: State, c: Ptr) {
    && c in t.live && TreeAt(t.trees, c) == TreeAt(s.trees, c)
    && c in s.cells && c in t.cells && (s.cells[c].isCanonicalized ==> t.cells[c].isCanonicalized)
  }

  /** A node some client may be using: one it holds, or a root it has not retained yet. */
  ghost predicate InUse(s: State, c: Ptr) {
    c in s.live && c in s.cells && (c in s.client || s.cells[c].refCount == 0)
  }

  ghost predicate UsedKept(s: State, t: State, but: Ptr) {
    forall c {:trigger InUse(s, c)} :: InUse(s, c) && c != but ==> Kept(s, t, c)
  }

  /** What must survive the destruction of p: what is in use, and whatever is not smaller. */
  ghost function Worth(s: State, p: Ptr): (keep: set<Ptr>) {
    set c | c in s.live && c != p && (InUse(s, c) || Size(TreeAt(s.trees, c)) >= Size(TreeAt(s.trees, p)))
  }

  lemma WorthKeep(hash: Hash, s: State, p: Ptr)
    requires Inv(hash, s) && Settled(s) && p in s.live && p in s.cells && s.cells[p].refCount == 0
    ensures KeepOk(s, Worth(s, p))
  {
    var keep := Worth(s, p);
    forall c | c in keep ensures Safe(s, keep, c) {
      forall q | q in s.live && Parent(s, q, c) && c !in s.client ensures q in keep {
        assert NodeOk(s, q) && NodeOk(s, c) && CountOk(s, c);
        assert q in Lefts(s, c) || q in Rights(s, c);
        assert Size(TreeAt(s.trees, q)) > Size(TreeAt(s.trees, c));
      }
    }
  }

  lemma ShrunkSettled(hash: Hash, s: State, t: State)
    requires Inv(hash, t) && Settled(s) && Shrunk(s, t) && t.debts == multiset{}
    ensures Settled(t) && t.client == s.client
  {
    forall p | p in t.live ensures !Mutable(t, p) {
      assert !Mutable(s, p) && SameNode(s.cells[p], t.cells[p]);
    }
  }

  lemma ShrunkKept(hash: Hash, s: State, t: State, c: Ptr)
    requires Inv(hash, t) && Shrunk(s, t) && c in t.live
    ensures Kept(s, t, c)
  {
    assert SameNode(s.cells[c], t.cells[c]);
  }

  lemma DestroyedKept(hash: Hash, s: State, t: State, p: Ptr)
    requires Inv(hash, s) && Inv(hash, t) && Shrunk(s, t) && KeepOk(t, Worth(s, p))
    ensures UsedKept(s, t, p)
  {
    forall c | InUse(s, c) && c != p ensures Kept(s, t, c) {
      assert c in Worth(s, p);
      ShrunkKept(hash, s, t, c);
    }
  }

  // ----- The operations of clients -----

  /** The destruction of p from s, as getCanonicalTree sees it. */
  lemma DestroyedFacts(hash: Hash, s: State, t: State, p: Ptr, c: Ptr)
    requires Inv(hash, s) && Settled(s) && Inv(hash, t) && Shrunk(s, t) && t.debts == multiset{} && KeepOk(t, Worth(s, p))
    requires c in s.live && p in s.live && c != p && Elems(TreeAt(s.trees, c)) == Elems(TreeAt(s.trees, p))
    ensures Settled(t) && t.client == s.client && UsedKept(s, t, p) && Kept(s, t, c)
  {
    ShrunkSettled(hash, s, t);
    DestroyedKept(hash, s, t, p);
    assert c in Worth(s, p);
    ShrunkKept(hash, s, t, c);
  }

  lemma OnlyDigestsKept(hash: Hash, s: State, t: State, p: Ptr)
    requires Inv(hash, s) && OnlyDigests(s, t)
    ensures UsedKept(s, t, p) && t.live == s.live && t.trees == s.trees && t.chains == s.chains && t.cache == s.cache && t.client == s.client
    ensures forall c :: InUse(t, c) <==> InUse(s, c)
    ensures forall c :: c in s.live ==> c in s.cells && c in t.cells && t.cells[c].isCanonicalized == s.cells[c].isCanonicalized && t.cells[c].refCount == s.cells[c].refCount
  {
    forall c | c in s.live ensures Kept(s, t, c) && (InUse(t, c) <==> InUse(s, c)) {
      assert DigestSet(s.cells[c], t.cells[c]);
    }
  }

  lemma UsedTrans(s: State, t: State, u: State, but: Ptr)
    requires UsedKept(s, t, but) && UsedKept(t, u, but)
    requires forall c :: InUse(s, c) ==> InUse(t, c)
    ensures UsedKept(s, u, but)
  {
    forall c | InUse(s, c) && c != but ensures Kept(s, u, c) {
      assert Kept(s, t, c) && Kept(t, u, c);
    }
  }

  /** Linking p into its chain. */
  lemma LinkedFacts(hash: Hash, s: State, p: Ptr)
    requires Inv(hash, s) && Settled(s) && p in s.live && p in s.cells && !s.cells[p].isCanonicalized && s.cells[p].isDigestCached
    requires var idx := Mask(s.cells[p].digest); Searching(s, idx, |ChainAt(s, idx)|, NULL, p)
    ensures var t := Linked(s, p);
      && Inv(hash, t) && Settled(t) && t.client == s.client && t.live == s.live && t.trees == s.trees
      && p in t.cells && t.cells[p].isCanonicalized && UsedKept(s, t, NULL) && Kept(s, t, p)
  {
    var idx := Mask(s.cells[p].digest);
    var c := ChainAt(s, idx);
    assert ChainOk(s, idx);
    forall q | q in c ensures q in s.trees && Elems(s.trees[q]) != Elems(s.trees[p]) {
      var i :| 0 <= i < |c| && c[i] == q;
      assert LinkOk(s, idx, c, i);
    }
    LinkedOk(hash, s, p);
    LinkedHeap(s, p);
    var t := Linked(s, p);
    forall q | q in s.cells ensures LinksOnly(s.cells[q], t.cells[q]) {
      LinkedCell(s, p, q);
    }
    forall q | q in s.live ensures Kept(s, t, q) && !Mutable(t, q) {
      assert !Mutable(s, q) && LinksOnly(s.cells[q], t.cells[q]);
    }
  }

  ghost predicate LinksOnly(n: Cell, m: Cell) {
    m == n.(prev := m.prev, next := m.next, isCanonicalized := m.isCanonicalized) && (n.isCanonicalized ==> m.isCanonicalized)
  }

  lemma LinkedCell(s: State, p: Ptr, q: Ptr)
    requires p in s.cells && q in s.cells
    ensures q in Linked(s, p).cells && LinksOnly(s.cells[q], Linked(s, p).cells[q])
  {
  }

  lemma LinkedHeap(s: State, p: Ptr)
    requires HeapOk(s) && p in s.cells && p in s.live
    ensures HeapOk(Linked(s, p))
  {
    LinkedFree(s, p);
    LinkedNodes(s, p);
    LinkedCounts(s, p);
  }

  lemma LinkedFree(s: State, p: Ptr)
    requires Cover(s) && FreeOk(s) && p in s.cells
    ensures Cover(Linked(s, p)) && FreeOk(Linked(s, p))
  {
    var t := Linked(s, p);
    assert t.cells.Keys == s.cells.Keys;
    forall q | q in t.freeNodes && q in t.cells ensures !t.cells[q].isMutable {
      LinkedCell(s, p, q);
    }
  }

  lemma LinkedNodes(s: State, p: Ptr)
    requires NodesOk(s) && p in s.cells
    ensures NodesOk(Linked(s, p))
  {
    var t := Linked(s, p);
    forall q | q in t.live ensures NodeOk(t, q) {
      assert NodeOk(s, q);
      LinkedCell(s, p, q);
    }
  }

  lemma LinkedCounts(s: State, p: Ptr)
    requires CountsOk(s) && p in s.cells
    ensures CountsOk(Linked(s, p))
  {
    var t := Linked(s, p);
    forall q | q in t.live ensures CountOk(t, q) {
      assert CountOk(s, q);
      LinkedCell(s, p, q);
      LinkedParents(s, p, q);
    }
  }

  lemma LinkedParents(s: State, p: Ptr, q: Ptr)
    requires p in s.cells
    ensures Lefts(Linked(s, p), q) == Lefts(s, q) && Rights(Linked(s, p), q) == Rights(s, q)
  {
    var t := Linked(s, p);
    forall x | x in s.cells ensures x in t.cells && t.cells[x].left == s.cells[x].left && t.cells[x].right == s.cells[x].right {
      LinkedCell(s, p, x);
    }
  }

  lemma UsedRefl(hash: Hash, s: State, p: Ptr)
    requires Inv(hash, s)
    ensures UsedKept(s, s, p)
  {
    forall c | InUse(s, c) ensures Kept(s, s, c) {
    }
  }

  lemma SurvivesUsed(s: State, t: State)
    requires Survives(s, t)
    ensures UsedKept(s, t, NULL) && t.client == s.client && forall c :: InUse(s, c) ==> InUse(t, c)
  {
    forall c | InUse(s, c) ensures Kept(s, t, c) && InUse(t, c) {
      assert Untouched(s.cells[c], t.cells[c]);
    }
  }

  lemma UsedFinally(hash: Hash, s: State, t: State, u: State)
    requires Inv(hash, s) && UsedKept(s, t, NULL) && forall c :: c in t.live ==> Kept(t, u, c)
    ensures forall c :: InUse(s, c) ==> Kept(s, u, c)
  {
    forall c | InUse(s, c) ensures Kept(s, u, c) {
      assert Kept(s, t, c);
    }
  }

  /** Used nodes of s survive a step of t that only spares p, if p is none of them. */
  lemma UsedThrough(hash: Hash, s: State, t: State, u: State, p: Ptr)
    requires Inv(hash, s) && UsedKept(s, t, NULL) && UsedKept(t, u, p) && p !in s.live
    requires forall c :: InUse(s, c) ==> InUse(t, c)
    ensures UsedKept(s, u, NULL)
  {
    forall c | InUse(s, c) ensures Kept(s, u, c) {
      assert Kept(s, t, c) && Kept(t, u, c);
    }
  }

  lemma UsedAll(s: State, t: State, p: Ptr)
    requires UsedKept(s, t, NULL) && Kept(s, t, p) && NULL !in s.cells
    ensures UsedKept(s, t, p)
  {
    forall c | InUse(s, c) && c != p ensures Kept(s, t, c) {
    }
  }

  lemma NotWorth(s: State, p: Ptr)
    ensures p !in Worth(s, p)
  {
  }

  lemma KeptFacts(s: State, t: State, c: Ptr)
    requires Kept(s, t, c)
    ensures c in t.live && c in s.cells && c in t.cells && (s.cells[c].isCanonicalized ==> t.cells[c].isCanonicalized)
    ensures TreeAt(t.trees, c) == TreeAt(s.trees, c)
  {
  }

  lemma HeadFacts(hash: Hash, s: State, p: Ptr)
    requires Inv(hash, s) && p in s.live && p in s.cells && !s.cells[p].isCanonicalized
    ensures NULL !in s.cells && s.cells[p].next == NULL
    ensures var h := Head(s.cache, Mask(s.cells[p].digest)); h == NULL || (h in s.cells && h != p)
  {
    var idx := Mask(s.cells[p].digest);
    assert ChainOk(s, idx) && PlaceOk(hash, s, p);
    var c := ChainAt(s, idx);
    if c != [] {
      assert LinkOk(s, idx, c, 0);
    }
  }

  /** What a client's release must not take: what some client still holds, and unretained roots. */
  ghost function StillUsed(s: State): (keep: set<Ptr>) {
    set c | c in s.live && InUse(s, c)
  }

  lemma OweFacts(hash: Hash, s: State, p: Ptr)
    requires Inv(hash, s) && Settled(s) && p in s.client
    ensures Inv(hash, Owe(s, p)) && p in Owe(s, p).debts && KeepOk(Owe(s, p), StillUsed(Owe(s, p)))
  {
    var t := Owe(s, p);
    OweCounts(s, p);
    SameShapeInv(hash, s, t);
    forall c | c in StillUsed(t) ensures Safe(t, StillUsed(t), c) {
      if c !in t.client {
        NoParents(t, c);
      }
    }
  }

  lemma ReleasedFacts(hash: Hash, s: State, p: Ptr, t: State)
    requires Inv(hash, s) && Settled(s) && p in s.client && Inv(hash, t)
    requires Shrunk(Owe(s, p), t) && t.debts == Owe(s, p).debts - multiset{p} && KeepOk(t, StillUsed(Owe(s, p)))
    ensures Settled(t) && t.client == s.client - multiset{p}
    ensures forall c :: InUse(Owe(s, p), c) ==> Kept(s, t, c)
  {
    var r := Owe(s, p);
    forall q | q in t.live ensures !Mutable(t, q) {
      assert !Mutable(s, q) && SameNode(r.cells[q], t.cells[q]);
    }
    forall c | InUse(r, c) ensures Kept(s, t, c) {
      assert c in StillUsed(r);
      ShrunkKept(hash, r, t, c);
    }
  }

  lemma HoldFacts(hash: Hash, s: State, p: Ptr)
    requires Inv(hash, s) && Settled(s) && p in s.live
    ensures p in s.cells && p != NULL && var t := Hold(s, p);
      && Inv(hash, t) && Settled(t) && t.live == s.live && t.trees == s.trees
      && forall c :: c in s.live ==> Kept(s, t, c)
  {
    HoldCounts(s, p);
    var t := Hold(s, p);
    SameShapeInv(hash, s, t);
    forall q | q in t.live ensures !Mutable(t, q) {
      assert !Mutable(s, q);
    }
  }

  /** Between operations, canonical nodes are equal exactly when their contents are. */
  lemma CanonicalIff(hash: Hash, s: State, p: Ptr, q: Ptr)
    requires Inv(hash, s) && p in s.live && q in s.live && p in s.cells && q in s.cells
    requires s.cells[p].isCanonicalized && s.cells[q].isCanonicalized
    ensures p == q <==> Elems(TreeAt(s.trees, p)) == Elems(TreeAt(s.trees, q))
  {
    if Elems(TreeAt(s.trees, p)) == Elems(TreeAt(s.trees, q)) {
      CanonicalUnique(hash, s, p, q);
    }
  }

  /** The root of a set of a canonicalizing factory; the empty set's is null. */
  predicate CanonicalRoot(m: Store, p: Ptr) {
    p == NULL || (p in m && m[p].isCanonicalized)
  }

  lemma EmptyContents(t: Tree)
    ensures Elems(t) == [] <==> t.Nil?
  {
  }

  lemma NullNotLive(hash: Hash, s: State)
    requires Inv(hash, s)
    ensures NULL !in s.live
  {
  }

  lemma LiveKept(hash: Hash, s: State)
    requires Inv(hash, s)
    ensures forall c :: c in s.live ==> Kept(s, s, c)
  {
  }

  lemma NullLink(s: State, p: Ptr)
    requires p == NULL || p in s.live
    ensures LinkLive(s, p)
  {
  }

  /** r's tree is an AVL tree of the set with v added. */
  lemma AddedSet(hash: Hash, v: Elem, s0: State, root: Ptr, added: Tree, s: State, r: Ptr)
    requires Inv(hash, s0) && LinkLive(s0, root) && IsAdded(v, TreeAt(s0.trees, root), added)
    requires Inv(hash, s) && LinkLive(s, r) && Elems(TreeAt(s.trees, r)) == Elems(added)
    ensures var t := TreeAt(s.trees, r); Avl(t) && Elems(t) == Inserted(Elems(TreeAt(s0.trees, root)), v)
  {
    LinkFacts(hash, s0, root);
    LinkFacts(hash, s, r);
    AddElems(v, TreeAt(s0.trees, root));
  }

  lemma RemovedSet(hash: Hash, k: int, s0: State, root: Ptr, removed: Tree, s: State, r: Ptr)
    requires Inv(hash, s0) && LinkLive(s0, root) && IsRemoved(k, TreeAt(s0.trees, root), removed)
    requires Inv(hash, s) && LinkLive(s, r) && Elems(TreeAt(s.trees, r)) == Elems(removed)
    ensures var t := TreeAt(s.trees, r); Avl(t) && Elems(t) == Deleted(Elems(TreeAt(s0.trees, root)), k)
  {
    LinkFacts(hash, s0, root);
    LinkFacts(hash, s, r);
    RemoveElems(k, TreeAt(s0.trees, root));
  }

  /** root is the canonical root of a set that somebody uses. */
  ghost predicate SetRoot(s: State, root: Ptr) {
    CanonicalRoot(s.cells, root) && (root == NULL || InUse(s, root))
  }

  /** A canonical root with the old contents is the old root. */
  lemma SameRoot(hash: Hash, s: State, t: State, root: Ptr, r: Ptr)
    requires Inv(hash, s) && Inv(hash, t) && SetRoot(s, root) && (forall c :: InUse(s, c) ==> Kept(s, t, c))
    requires CanonicalRoot(t.cells, r) && (r == NULL || r in t.live) && Elems(TreeAt(t.trees, r)) == Elems(TreeAt(s.trees, root))
    ensures r == root
  {
    NullTree(hash, s);
    NullTree(hash, t);
    EmptyContents(TreeAt(s.trees, root));
    EmptyContents(TreeAt(t.trees, r));
    if root != NULL {
      NodeFacts(hash, s, root);
    }
    if r != NULL {
      NodeFacts(hash, t, r);
    }
    if root != NULL && r != NULL {
      assert Kept(s, t, root);
      CanonicalIff(hash, t, root, r);
    }
  }

  /** Inserting an element that is there changes nothing. */
  lemma InsertedPresent(s: seq<Elem>, v: Elem)
    requires Sorted(s) && v in s
    ensures Inserted(s, v) == s
  {
    InsertedMeans(s, v);
    forall e ensures e in Inserted(s, v) <==> e in s {
      SortedKeys(s, e, v);
    }
    SortedUnique(Inserted(s, v), s);
  }

  lemma SortedKeys(s: seq<Elem>, e: Elem, v: Elem)
    requires Sorted(s) && v in s
    ensures e in s && e.key == v.key ==> e == v
  {
  }
}
