/** The mutable flags: a finished tree is marked immutable, and recoverNodes sweeps the
    nodes that stayed mutable. */
module AvlRecover {
  import opened AvlTree
  import opened AvlStore
  import opened AvlHeap
  import opened AvlChains
  import opened AvlInvariant
  import opened AvlGrowth

  ghost predicate Mutable(s: State, p: Ptr) {
    p in s.cells && s.cells[p].isMutable
  }

  /** An immutable node has immutable children; only immutable nodes cache their digest. */
  ghost predicate FlagOk(s: State, p: Ptr) {
    && p in s.cells && (s.cells[p].isDigestCached ==> !s.cells[p].isMutable)
    && (!s.cells[p].isMutable ==> !Mutable(s, s.cells[p].left) && !Mutable(s, s.cells[p].right))
  }

  /** The nodes of open are being marked. */
  ghost predicate Flags(s: State, open: set<Ptr>) {
    forall p {:trigger FlagOk(s, p)} :: p in s.live && p !in open ==> FlagOk(s, p)
  }

  /** Between operations every node is immutable and no release is pending. */
  ghost predicate Settled(s: State) {
    s.dying == {} && s.debts == multiset{} && forall p :: p in s.live ==> !Mutable(s, p)
  }

  ghost predicate FlagDropped(n: Cell, m: Cell) {
    m == n.(isMutable := m.isMutable) && (m.isMutable ==> n.isMutable)
  }

  ghost predicate OnlyFlags(s: State, t: State) {
    && t == s.(cells := t.cells) && t.cells.Keys == s.cells.Keys
    && forall p :: p in s.cells ==> FlagDropped(s.cells[p], t.cells[p])
  }

  lemma OnlyFlagsTrans(s: State, t: State, u: State)
    requires OnlyFlags(s, t) && OnlyFlags(t, u)
    ensures OnlyFlags(s, u)
  {
    forall p | p in s.cells ensures FlagDropped(s.cells[p], u.cells[p]) {
      assert FlagDropped(s.cells[p], t.cells[p]) && FlagDropped(t.cells[p], u.cells[p]);
    }
  }

  lemma OnlyFlagsInv(hash: Hash, s: State, t: State)
    requires Inv(hash, s) && OnlyFlags(s, t)
    ensures Inv(hash, t)
  {
    OnlyFlagsHeap(s, t);
    OnlyFlagsTable(hash, s, t);
  }

  lemma OnlyFlagsHeap(s: State, t: State)
    requires HeapOk(s) && OnlyFlags(s, t)
    ensures HeapOk(t)
  {
    hide NodesOk, CountsOk;
    forall p | p in t.freeNodes && p in t.cells ensures !t.cells[p].isMutable {
      assert FlagDropped(s.cells[p], t.cells[p]);
    }
    OnlyFlagsNodes(s, t);
    OnlyFlagsCounts(s, t);
  }

  lemma OnlyFlagsNodes(s: State, t: State)
    requires NodesOk(s) && OnlyFlags(s, t)
    ensures NodesOk(t)
  {
    forall p | p in t.live ensures NodeOk(t, p) {
      assert NodeOk(s, p) && FlagDropped(s.cells[p], t.cells[p]);
    }
  }

  lemma OnlyFlagsCounts(s: State, t: State)
    requires CountsOk(s) && OnlyFlags(s, t)
    ensures CountsOk(t)
  {
    forall p | p in t.live ensures CountOk(t, p) {
      assert CountOk(s, p) && FlagDropped(s.cells[p], t.cells[p]);
      OnlyFlagsParents(s, t, p);
    }
  }

  lemma OnlyFlagsParents(s: State, t: State, p: Ptr)
    requires OnlyFlags(s, t)
    ensures Lefts(s, p) == Lefts(t, p) && Rights(s, p) == Rights(t, p)
  {
    forall q | q in s.cells ensures s.cells[q].left == t.cells[q].left && s.cells[q].right == t.cells[q].right {
      assert FlagDropped(s.cells[q], t.cells[q]);
    }
  }

  lemma OnlyFlagsTable(hash: Hash, s: State, t: State)
    requires Cover(s) && TableOk(hash, s) && OnlyFlags(s, t)
    ensures TableOk(hash, t)
  {
    forall p | p in t.trees ensures p in t.cells && NodeKept(s, t, p) {
      assert FlagDropped(s.cells[p], t.cells[p]);
    }
    TableKeptOk(hash, s, t);
  }

  function Marked(m: Store, p: Ptr): (r: Store)
    requires p in m
  {
    m[p := m[p].(isMutable := false)]
  }

  ghost function Mark(s: State, p: Ptr): (t: State)
    requires p in s.cells
  {
    s.(cells := Marked(s.cells, p))
  }

  lemma MarkFacts(s: State, p: Ptr, open: set<Ptr>)
    requires p in s.cells && Flags(s, open)
    ensures OnlyFlags(s, Mark(s, p)) && Flags(Mark(s, p), open + {p})
  {
    var t := Mark(s, p);
    forall q | q in t.live && q !in open + {p} ensures FlagOk(t, q) {
      assert FlagOk(s, q);
    }
  }

  ghost predicate HasImmutableParent(s: State, c: Ptr) {
    exists q :: q in s.live && !Mutable(s, q) && Parent(s, q, c)
  }

  /** What was marked below t: t itself, or a child of an immutable node. */
  ghost predicate MarkedBelow(s: State, u: State, t: Ptr) {
    forall c {:trigger Mutable(u, c)} :: c in u.live && Mutable(s, c) && !Mutable(u, c) ==> c == t || HasImmutableParent(u, c)
  }

  /** Marking p and then its subtrees. */
  lemma MarkedThrough(s: State, p: Ptr, t: State, u: State)
    requires p in s.live && p in s.cells && OnlyFlags(Mark(s, p), t) && OnlyFlags(t, u)
    requires MarkedBelow(Mark(s, p), t, s.cells[p].left) && MarkedBelow(t, u, s.cells[p].right)
    ensures MarkedBelow(s, u, p)
  {
    var m := Mark(s, p);
    assert FlagDropped(m.cells[p], t.cells[p]) && FlagDropped(t.cells[p], u.cells[p]);
    forall c | c in u.live && Mutable(s, c) && !Mutable(u, c) && c != p ensures HasImmutableParent(u, c) {
      if !Mutable(t, c) {
        assert Mutable(m, c);
        if c == s.cells[p].left {
          assert Parent(u, p, c);
        } else {
          var q :| q in t.live && !Mutable(t, q) && Parent(t, q, c);
          assert FlagDropped(t.cells[q], u.cells[q]);
          assert Parent(u, q, c);
        }
      } else if c == s.cells[p].right {
        assert Parent(u, p, c);
      }
    }
  }

  /** Once both subtrees are immutable, p is no longer open. */
  lemma MarkClosed(s: State, p: Ptr, open: set<Ptr>)
    requires Flags(s, open + {p}) && p in s.cells && !Mutable(s, p)
    requires !Mutable(s, s.cells[p].left) && !Mutable(s, s.cells[p].right)
    ensures Flags(s, open)
  {
    forall q | q in s.live && q !in open ensures FlagOk(s, q) {
    }
  }

  lemma MarkedKids(s: State, p: Ptr, t: State, u: State)
    requires p in s.cells && OnlyFlags(s, t) && OnlyFlags(t, u) && !Mutable(s, p)
    requires !Mutable(t, s.cells[p].left) && !Mutable(u, s.cells[p].right)
    ensures p in u.cells && u.cells[p].left == s.cells[p].left && u.cells[p].right == s.cells[p].right && !Mutable(u, p)
    ensures !Mutable(u, s.cells[p].left)
  {
    assert FlagDropped(s.cells[p], t.cells[p]) && FlagDropped(t.cells[p], u.cells[p]);
    var l := s.cells[p].left;
    if l in u.cells {
      assert FlagDropped(t.cells[l], u.cells[l]);
    }
  }

  // ----- Before the sweep -----

  lemma GrowingFlags(s0: State, s: State, created: seq<Ptr>)
    requires Settled(s0) && Growing(s0, s, created) && NodesOk(s0) && NULL !in s.cells
    ensures Flags(s, {})
  {
    forall p | p in s.live ensures FlagOk(s, p) {
      if p in s0.live {
        assert NodeOk(s0, p) && OnlyCount(s0.cells[p], s.cells[p]);
        assert !Mutable(s0, p);
        OldKidImmutable(s0, s, created, s.cells[p].left);
        OldKidImmutable(s0, s, created, s.cells[p].right);
      } else {
        assert NewNode(s0, s, created, p);
      }
    }
  }

  lemma OldKidImmutable(s0: State, s: State, created: seq<Ptr>, c: Ptr)
    requires Settled(s0) && Growing(s0, s, created) && LinkLive(s0, c) && NULL !in s.cells
    ensures !Mutable(s, c)
  {
    if c != NULL {
      assert !Mutable(s0, c) && OnlyCount(s0.cells[c], s.cells[c]);
    }
  }

  ghost function Immutables(s: State): (ps: set<Ptr>) {
    set p | p in s.live && !Mutable(s, p)
  }

  /** No release of a leftover node can take an immutable node's last reference: t is the new
      root, s the memory it was built in, u the memory after it was marked. */
  lemma ImmutablesKeep(hash: Hash, s0: State, s: State, created: seq<Ptr>, u: State, t: Ptr)
    requires Inv(hash, s) && Settled(s0) && Growing(s0, s, created) && OnlyFlags(s, u) && MarkedBelow(s, u, t)
    requires t == NULL || t in s0.live || FreshNode(s0, s, t)
    ensures KeepOk(u, Immutables(u))
  {
    var keep := Immutables(u);
    forall c | c in keep ensures Safe(u, keep, c) {
      if c in s0.live {
        OldSafe(s0, s, created, u, c);
      } else {
        assert NewNode(s0, s, created, c);
        if c == t {
          FreshUnreferenced(hash, s0, s, u, t);
        }
      }
    }
  }

  lemma FreshUnreferenced(hash: Hash, s0: State, s: State, u: State, t: Ptr)
    requires Inv(hash, s) && OnlyFlags(s, u) && FreshNode(s0, s, t)
    ensures forall q :: q in u.live ==> !Parent(u, q, t)
  {
    NoParents(s, t);
    forall q | q in u.live ensures !Parent(u, q, t) {
      assert q in s.cells && FlagDropped(s.cells[q], u.cells[q]);
    }
  }

  lemma OldSafe(s0: State, s: State, created: seq<Ptr>, u: State, c: Ptr)
    requires Settled(s0) && Growing(s0, s, created) && OnlyFlags(s, u) && c in s0.live && c != NULL
    ensures Safe(u, Immutables(u), c)
  {
    var keep := Immutables(u);
    forall q | q in s0.live ensures !Mutable(u, q) {
      assert OnlyCount(s0.cells[q], s.cells[q]) && !Mutable(s0, q) && FlagDropped(s.cells[q], u.cells[q]);
    }
    if q :| q in u.live && Parent(u, q, c) && q !in keep {
      assert FlagDropped(s.cells[q], u.cells[q]);
      assert NewNode(s0, s, created, q);
      var q0 :| q0 in s0.live && Parent(s0, q0, c);
      assert OnlyCount(s0.cells[q0], s.cells[q0]) && FlagDropped(s.cells[q0], u.cells[q0]);
      assert !Mutable(s0, q0);
      assert q0 in keep && Parent(u, q0, c);
    }
  }

  // ----- The sweep -----

  /** The created nodes before number n are gone, immutable or referenced. */
  ghost predicate Swept(s: State, created: seq<Ptr>, n: nat) {
    forall j :: 0 <= j < n && j < |created| && created[j] in s.live && created[j] in s.cells && s.cells[created[j]].refCount == 0
      ==> !s.cells[created[j]].isMutable
  }

  lemma SweptKept(s: State, t: State, created: seq<Ptr>, n: nat)
    requires Swept(s, created, n) && Shrunk(s, t) && Cover(t) && n < |created|
    requires created[n] in t.live && created[n] in t.cells ==> t.cells[created[n]].refCount > 0 || !t.cells[created[n]].isMutable
    ensures Swept(t, created, n + 1)
  {
    forall j | 0 <= j < n + 1 && j < |created| && created[j] in t.live && created[j] in t.cells && t.cells[created[j]].refCount == 0
      ensures !t.cells[created[j]].isMutable
    {
      var p := created[j];
      assert SameNode(s.cells[p], t.cells[p]);
    }
  }

  lemma ShrunkFlags(s: State, t: State)
    requires Flags(s, {}) && Shrunk(s, t) && NodesOk(t) && NULL !in t.cells
    ensures Flags(t, {})
  {
    forall p | p in t.live ensures FlagOk(t, p) {
      assert NodeOk(t, p) && FlagOk(s, p) && SameNode(s.cells[p], t.cells[p]);
      ShrunkFlag(s, t, t.cells[p].left);
      ShrunkFlag(s, t, t.cells[p].right);
    }
  }

  lemma ShrunkFlag(s: State, t: State, c: Ptr)
    requires Shrunk(s, t) && LinkLive(t, c) && NULL !in t.cells
    ensures Mutable(t, c) <==> Mutable(s, c)
  {
    if c != NULL {
      assert SameNode(s.cells[c], t.cells[c]);
    }
  }

  /** The node of ps with the largest tree. */
  lemma {:induction false} Largest(trees: map<Ptr, Tree>, ps: set<Ptr>) returns (p: Ptr)
    requires ps != {}
    ensures p in ps && forall q :: q in ps ==> Size(TreeAt(trees, q)) <= Size(TreeAt(trees, p))
  {
    p :| p in ps;
    if ps != {p} {
      var q := Largest(trees, ps - {p});
      if Size(TreeAt(trees, p)) < Size(TreeAt(trees, q)) {
        p := q;
      }
    }
  }

  /** A mutable node with a reference has a mutable parent, whose tree is larger. */
  lemma LargerParent(hash: Hash, t: State, p: Ptr) returns (q: Ptr)
    requires Inv(hash, t) && Flags(t, {}) && t.debts == multiset{} && p !in t.client
    requires p in t.live && Mutable(t, p) && t.cells[p].refCount > 0
    ensures q in t.live && Mutable(t, q) && Size(TreeAt(t.trees, q)) > Size(TreeAt(t.trees, p))
  {
    assert CountOk(t, p);
    assert Lefts(t, p) != {} || Rights(t, p) != {};
    q :| q in Lefts(t, p) || q in Rights(t, p);
    assert FlagOk(t, q) && NodeOk(t, q) && NodeOk(t, p);
  }

  /** After the sweep no mutable node is left. */
  lemma NoneMutable(hash: Hash, t: State, created: seq<Ptr>)
    requires Inv(hash, t) && Flags(t, {}) && t.dying == {} && t.debts == multiset{}
    requires Swept(t, created, |created|)
    requires forall p :: p in t.client ==> !Mutable(t, p)
    requires forall p :: p in t.live && Mutable(t, p) ==> p in created
    ensures Settled(t)
  {
    var ps := set p | p in t.live && Mutable(t, p);
    if ps != {} {
      var p := Largest(t.trees, ps);
      var j :| 0 <= j < |created| && created[j] == p;
      var q := LargerParent(hash, t, p);
      assert false;
    }
    forall p | p in t.live ensures !Mutable(t, p) {
      assert p !in ps;
    }
  }

  /** What recoverNodes starts from. */
  ghost predicate Sweepable(s: State, created: seq<Ptr>) {
    && Flags(s, {}) && s.dying == {} && s.debts == multiset{}
    && (forall p :: p in created ==> p in s.cells)
    && (forall p :: p in s.client ==> !Mutable(s, p))
    && (forall p :: p in s.live && Mutable(s, p) ==> p in created)
  }

  /** One round of the sweep: whatever it destroys is a leftover. */
  lemma SweepStart(hash: Hash, s: State, created: seq<Ptr>, t: State, p: Ptr)
    requires Inv(hash, s) && Sweepable(s, created) && Inv(hash, t) && Shrunk(s, t) && p in created
    ensures p in t.cells && NULL !in t.cells
    ensures t.cells[p].isMutable ==> p in t.live && p !in Immutables(s)
  {
    if p in t.live {
      ShrunkFlag(s, t, p);
    }
  }

  lemma SweepNext(hash: Hash, t: State, u: State, created: seq<Ptr>, n: nat)
    requires Inv(hash, t) && Inv(hash, u) && Shrunk(t, u) && Swept(t, created, n) && n < |created| && created[n] in t.cells
    requires if t.cells[created[n]].isMutable && t.cells[created[n]].refCount == 0 then created[n] !in u.live else u == t
    ensures Swept(u, created, n + 1)
  {
    SweptKept(t, u, created, n);
  }

  lemma SweepEnd(hash: Hash, s: State, created: seq<Ptr>, t: State)
    requires Inv(hash, s) && Sweepable(s, created) && Inv(hash, t) && Shrunk(s, t) && Swept(t, created, |created|)
    requires t.debts == multiset{}
    ensures Settled(t)
  {
    ShrunkFlags(s, t);
    forall p | p in t.live ensures Mutable(t, p) <==> Mutable(s, p) {
      ShrunkFlag(s, t, p);
    }
    NoneMutable(hash, t, created);
  }

  lemma SweptNone(s: State, created: seq<Ptr>)
    ensures Swept(s, created, 0)
  {
  }

  lemma SweepableFacts(s: State, created: seq<Ptr>)
    requires Sweepable(s, created)
    ensures s.debts == multiset{}
  {
  }

  lemma KeptLive(s: State, keep: set<Ptr>)
    requires KeepOk(s, keep)
    ensures keep <= s.live
  {
  }

  lemma MarkStart(hash: Hash, s: State, t: Ptr, open: set<Ptr>)
    requires Inv(hash, s) && LinkLive(s, t) && Flags(s, open)
    ensures t != NULL ==> t in s.cells
    ensures t == NULL || !Mutable(s, t) ==> OnlyFlags(s, s) && MarkedBelow(s, s, t) && !Mutable(s, t)
    ensures t != NULL && Mutable(s, t) ==> var m := Mark(s, t);
      && Inv(hash, m) && OnlyFlags(s, m) && Flags(m, open + {t})
      && m.cells[t].left == s.cells[t].left && m.cells[t].right == s.cells[t].right
      && LinkLive(m, s.cells[t].left) && LinkLive(m, s.cells[t].right)
      && TreeAt(m.trees, s.cells[t].left) < TreeAt(s.trees, t)
      && TreeAt(m.trees, s.cells[t].right) < TreeAt(s.trees, t)
  {
    if t != NULL {
      NodeFacts(hash, s, t);
      if Mutable(s, t) {
        MarkFacts(s, t, open);
        OnlyFlagsInv(hash, s, Mark(s, t));
      }
    }
  }

  lemma OnlyFlagsFacts(s: State, t: State)
    requires OnlyFlags(s, t)
    ensures t.live == s.live && t.trees == s.trees && t.dying == s.dying && t.debts == s.debts && t.client == s.client
  {
  }

  lemma MarkEnd(s: State, p: Ptr, t: State, u: State, open: set<Ptr>)
    requires p in s.live && p in s.cells && OnlyFlags(Mark(s, p), t) && OnlyFlags(t, u) && Flags(u, open + {p})
    requires MarkedBelow(Mark(s, p), t, s.cells[p].left) && MarkedBelow(t, u, s.cells[p].right)
    requires !Mutable(t, s.cells[p].left) && !Mutable(u, s.cells[p].right)
    ensures OnlyFlags(s, u) && Flags(u, open) && !Mutable(u, p) && MarkedBelow(s, u, p)
  {
    hide OnlyFlags, Flags, MarkedBelow, Mark;
    var m := Mark(s, p);
    MarkIsFlag(s, p);
    OnlyFlagsTrans(s, m, t);
    OnlyFlagsTrans(s, t, u);
    MarkedThrough(s, p, t, u);
    MarkedKids(m, p, t, u);
    MarkClosed(u, p, open);
  }

  lemma MarkIsFlag(s: State, p: Ptr)
    requires p in s.cells
    ensures var m := Mark(s, p);
      && OnlyFlags(s, m) && p in m.cells && !Mutable(m, p)
      && m.cells[p].left == s.cells[p].left && m.cells[p].right == s.cells[p].right
  {
  }

  // ----- The whole operation -----

  /** A node's contents and whether it is canonical. */
  ghost predicate Untouched(n: Cell, m: Cell) {
    m == n.(refCount := m.refCount, prev := m.prev, next := m.next)
  }

  /** The nodes of s are still there with the same trees, and clients hold what they held. */
  ghost predicate Survives(s: State, t: State) {
    && s.live <= t.live && t.client == s.client
    && forall p :: p in s.live ==>
      && p in s.cells && p in t.cells && Untouched(s.cells[p], t.cells[p]) && TreeAt(t.trees, p) == TreeAt(s.trees, p)
      && (s.cells[p].refCount == 0 ==> t.cells[p].refCount == 0)
  }

  /** A node nothing referred to is still not referred to: new nodes only adopt children. */
  lemma ZeroStays(hash: Hash, s0: State, s: State, created: seq<Ptr>, u: State, t: State, c: Ptr)
    requires Inv(hash, s0) && Settled(s0) && Growing(s0, s, created) && OnlyFlags(s, u)
    requires Inv(hash, t) && Shrunk(u, t) && t.debts == multiset{} && c in s0.live && c in t.live && c in s0.cells && s0.cells[c].refCount == 0
    ensures c in t.cells && t.cells[c].refCount == 0
  {
    NoParents(s0, c);
    assert CountOk(t, c);
    LiveFacts(hash, s0, c);
    forall q | q in t.live ensures !Parent(t, q, c) {
      ParentBefore(s0, s, created, u, t, q, c);
    }
    assert Lefts(t, c) == {} && Rights(t, c) == {};
  }

  lemma ParentBefore(s0: State, s: State, created: seq<Ptr>, u: State, t: State, q: Ptr, c: Ptr)
    requires Growing(s0, s, created) && OnlyFlags(s, u) && Shrunk(u, t) && q in t.live && c in s0.live && c != NULL
    ensures Parent(t, q, c) ==> HasParent(s0, c)
  {
    assert SameNode(u.cells[q], t.cells[q]) && FlagDropped(s.cells[q], u.cells[q]);
    if q in s0.live {
      assert OnlyCount(s0.cells[q], s.cells[q]);
      assert Parent(t, q, c) ==> Parent(s0, q, c);
    } else {
      assert NewNode(s0, s, created, q);
    }
  }

  /** A tree that was a subtree before is still referred to. */
  lemma ParentStays(hash: Hash, s0: State, t: State, p: Ptr)
    requires Inv(hash, t) && Survives(s0, t) && HasParent(s0, p) && p in t.live
    ensures p in t.cells && t.cells[p].refCount > 0
  {
    var q :| q in s0.live && Parent(s0, q, p);
    assert Untouched(s0.cells[q], t.cells[q]);
    assert CountOk(t, p);
    assert q in Lefts(t, p) || q in Rights(t, p);
  }

  lemma SweepableNow(hash: Hash, s0: State, s: State, created: seq<Ptr>, u: State)
    requires Inv(hash, s0) && Inv(hash, s) && Settled(s0) && Growing(s0, s, created) && OnlyFlags(s, u) && Flags(u, {})
    ensures Sweepable(u, created)
  {
    forall p | p in s0.live ensures !Mutable(u, p) {
      assert OnlyCount(s0.cells[p], s.cells[p]) && !Mutable(s0, p) && FlagDropped(s.cells[p], u.cells[p]);
    }
    forall p | p in u.live && Mutable(u, p) ensures p in created {
      assert NewNode(s0, s, created, p);
    }
  }

  lemma SurvivesAll(hash: Hash, s0: State, s: State, created: seq<Ptr>, u: State, t: State, p: Ptr)
    requires Inv(hash, s0) && Inv(hash, s) && Settled(s0) && Growing(s0, s, created) && OnlyFlags(s, u)
    requires Inv(hash, t) && Shrunk(u, t) && Immutables(u) <= t.live && LinkLive(s, p) && !Mutable(u, p) && t.debts == multiset{}
    ensures Survives(s0, t) && LinkLive(t, p) && TreeAt(t.trees, p) == TreeAt(s.trees, p)
  {
    forall q | q in s0.live
      ensures q in t.live && q in t.cells && Untouched(s0.cells[q], t.cells[q]) && TreeAt(t.trees, q) == TreeAt(s0.trees, q)
      ensures s0.cells[q].refCount == 0 ==> t.cells[q].refCount == 0
    {
      assert OnlyCount(s0.cells[q], s.cells[q]) && !Mutable(s0, q) && FlagDropped(s.cells[q], u.cells[q]);
      assert q in Immutables(u);
      assert SameNode(u.cells[q], t.cells[q]);
      if s0.cells[q].refCount == 0 {
        ZeroStays(hash, s0, s, created, u, t, q);
      }
    }
    if p != NULL {
      assert p in Immutables(u);
    }
  }

  lemma CompleteStart(hash: Hash, s0: State, s: State, created: seq<Ptr>)
    requires Inv(hash, s0) && Inv(hash, s) && Settled(s0) && Growing(s0, s, created)
    ensures Flags(s, {})
  {
    GrowingFlags(s0, s, created);
  }

  lemma GrowingStart(hash: Hash, s: State)
    requires Inv(hash, s)
    ensures Growing(s, s, [])
  {
    GrownRefl(hash, s);
  }

  lemma FreshLive(hash: Hash, s0: State, s: State, p: Ptr)
    requires Inv(hash, s) && FreshNode(s0, s, p)
    ensures LinkLive(s, p) && p in s.live && p != NULL && p !in s0.live
  {
  }

  lemma SettledFacts(s: State)
    requires Settled(s)
    ensures s.debts == multiset{} && s.dying == {}
  {
  }

  lemma UsableStays(hash: Hash, s0: State, s: State, t: State, p: Ptr)
    requires Inv(hash, t) && Usable(s0, s, p) && Survives(s0, t) && LinkLive(t, p) && p != NULL
    ensures p in t.live && p in t.cells && (p in s0.live ==> t.cells[p].refCount > 0)
  {
    LiveFacts(hash, t, p);
    if p in s0.live {
      ParentStays(hash, s0, t, p);
    }
  }
}
