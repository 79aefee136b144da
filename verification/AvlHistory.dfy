/** Sets built by whole runs of additions and removals on a canonicalizing factory. */
module AvlHistory {
  import opened AvlTree
  import opened AvlStore
  import opened AvlHeap
  import opened AvlChains
  import opened AvlInvariant
  import opened AvlGrowth
  import opened AvlRecover
  import opened AvlCanonical
  import F = AvlFactory

  /** What a client does to its set. */
  datatype Change = Add(v: Elem) | Remove(k: int)

  function Applied(s: seq<Elem>, change: Change): (r: seq<Elem>) {
    match change
    case Add(v) => Inserted(s, v)
    case Remove(k) => Deleted(s, k)
  }

  /** The contents after a run of changes to the empty set. */
  function Contents(changes: seq<Change>): (s: seq<Elem>) {
    if changes == [] then [] else Applied(Contents(changes[..|changes| - 1]), changes[|changes| - 1])
  }

  /** e is in the set after the changes: the last one about its key added it. */
  ghost predicate Has(changes: seq<Change>, e: Elem) {
    changes != [] &&
    var before := changes[..|changes| - 1];
    match changes[|changes| - 1]
    case Add(v) => if v.key == e.key then v == e else Has(before, e)
    case Remove(k) => k != e.key && Has(before, e)
  }

  lemma {:induction false} ContentsMeans(changes: seq<Change>)
    ensures Sorted(Contents(changes)) && forall e :: e in Contents(changes) <==> Has(changes, e)
  {
    hide Sorted, Inserted, Deleted;
    if changes == [] {
      EmptySorted();
    } else {
      var before := changes[..|changes| - 1];
      ContentsMeans(before);
      match changes[|changes| - 1]
      case Add(v) => InsertedMeans(Contents(before), v);
      case Remove(k) => DeletedMeans(Contents(before), k);
    }
  }

  lemma EmptySorted()
    ensures Sorted([])
  {
  }

  ghost predicate SameElements(xs: seq<Change>, ys: seq<Change>) {
    forall e :: Has(xs, e) <==> Has(ys, e)
  }

  /** Runs have the same contents exactly when they leave the same elements. */
  lemma SameContentsIff(xs: seq<Change>, ys: seq<Change>)
    ensures Contents(xs) == Contents(ys) <==> SameElements(xs, ys)
  {
    hide Sorted, Contents, Has;
    ContentsMeans(xs);
    ContentsMeans(ys);
    if SameElements(xs, ys) {
      SortedUnique(Contents(xs), Contents(ys));
    }
  }

  // ----- What a client holds -----

  /** root is the canonical root of a set with the given contents, held by a client. */
  ghost predicate Holds(s: State, root: Ptr, contents: seq<Elem>) {
    && CanonicalRoot(s.cells, root) && Elems(TreeAt(s.trees, root)) == contents
    && (root == NULL || root in s.client)
  }

  /** What clients held in s they hold in t, with its tree. */
  ghost predicate AllHeld(s: State, t: State) {
    s.client <= t.client && forall c :: c in s.client ==> Kept(s, t, c)
  }

  lemma HeldInUse(hash: Hash, s: State, c: Ptr)
    requires Inv(hash, s) && c in s.client
    ensures InUse(s, c) && c in s.live && c != NULL
  {
  }

  lemma HeldTrans(s: State, t: State, u: State)
    requires AllHeld(s, t) && AllHeld(t, u)
    ensures AllHeld(s, u)
  {
    forall c | c in s.client ensures Kept(s, u, c) {
      assert Kept(s, t, c) && c in t.client && Kept(t, u, c);
    }
  }

  lemma HeldRoot(hash: Hash, s: State, t: State, root: Ptr, contents: seq<Elem>)
    requires Inv(hash, s) && Inv(hash, t) && Holds(s, root, contents) && AllHeld(s, t)
    ensures Holds(t, root, contents) && LinkLive(s, root) && LinkLive(t, root)
  {
    NullTree(hash, s);
    NullTree(hash, t);
    if root != NULL {
      HeldInUse(hash, s, root);
      assert Kept(s, t, root);
    }
  }

  /** After SetAdd or SetRemove, which keep whatever was in use. */
  lemma StepHeld(hash: Hash, s: State, t: State)
    requires Inv(hash, s) && s.client <= t.client && forall c :: InUse(s, c) ==> Kept(s, t, c)
    ensures AllHeld(s, t)
  {
    forall c | c in s.client ensures Kept(s, t, c) {
      HeldInUse(hash, s, c);
    }
  }

  /** After a client gave p back, the other references are still held. */
  lemma GivenBack(hash: Hash, s: State, p: Ptr, t: State)
    requires Inv(hash, s) && p in s.client && t.client == s.client - multiset{p}
    requires forall c :: InUse(Owe(s, p), c) ==> Kept(s, t, c)
    ensures forall c :: c in t.client ==> Kept(s, t, c)
  {
    forall c | c in t.client ensures Kept(s, t, c) {
      HeldInUse(hash, s, c);
      assert InUse(Owe(s, p), c);
    }
  }

  /** The state t of a client that started in s and holds p besides. */
  ghost predicate Holding(hash: Hash, s: State, t: State, p: Ptr, contents: seq<Elem>) {
    Inv(hash, t) && t.client == s.client + Ref(p) && AllHeld(s, t) && Holds(t, p, contents)
  }

  lemma Exchanged(held: multiset<Ptr>, p: Ptr, r: Ptr)
    ensures held + Ref(p) + Ref(r) == held + Ref(r) + Ref(p)
    ensures p != NULL ==> held + Ref(p) + Ref(r) - multiset{p} == held + Ref(r)
  {
  }

  /** The client has taken r besides p, and then given p back. */
  lemma Replaced(hash: Hash, s: State, t: State, p: Ptr, u: State, r: Ptr, v: State, old0: seq<Elem>, new0: seq<Elem>)
    requires Holding(hash, s, t, p, old0)
    requires Inv(hash, u) && u.client == t.client + Ref(r) && Holds(u, r, new0) && forall c :: InUse(t, c) ==> Kept(t, u, c)
    requires Inv(hash, v)
    requires if p == NULL then v == u else v.client == u.client - multiset{p} && forall c :: InUse(Owe(u, p), c) ==> Kept(u, v, c)
    ensures Holding(hash, s, v, r, new0)
  {
    hide Inv, Kept, InUse;
    StepHeld(hash, t, u);
    HeldTrans(s, t, u);
    Exchanged(s.client, p, r);
    assert v.client == s.client + Ref(r);
    if p != NULL {
      assert p in u.client;
      GivenBack(hash, u, p, v);
      StillHolding(hash, s, u, r, v, new0);
    }
  }

  lemma StillHolding(hash: Hash, s: State, t: State, p: Ptr, u: State, contents: seq<Elem>)
    requires Inv(hash, t) && Inv(hash, u) && AllHeld(s, t) && Holds(t, p, contents)
    requires u.client == s.client + Ref(p) && forall c :: c in u.client ==> Kept(t, u, c)
    ensures Holding(hash, s, u, p, contents)
  {
    NullTree(hash, t);
    NullTree(hash, u);
    forall c | c in s.client ensures Kept(s, u, c) {
      assert Kept(s, t, c) && c in u.client && Kept(t, u, c);
    }
    if p != NULL {
      assert p in u.client && Kept(t, u, p);
    }
  }

  lemma RootLinks(hash: Hash, s: State, t: State, p: Ptr, contents: seq<Elem>)
    requires Holding(hash, s, t, p, contents)
    ensures LinkLive(t, p) && (p != NULL ==> p in t.client) && Elems(TreeAt(t.trees, p)) == contents
  {
    if p != NULL {
      HeldInUse(hash, t, p);
    }
  }

  lemma NowHolds(hash: Hash, t: State, u: State, r: Ptr, contents: seq<Elem>)
    requires CanonicalRoot(u.cells, r) && Elems(TreeAt(u.trees, r)) == contents && u.client == t.client + Ref(r)
    ensures Holds(u, r, contents)
  {
  }

  /** The new root after a change. */
  method Take(f: F.AvlFactory, root: Ptr, change: Change) returns (r: Ptr)
    requires f.Ready() && LinkLive(f.st, root)
    modifies f
    ensures f.Ready() && f.st.client == old(f.st).client + Ref(r) && CanonicalRoot(f.st.cells, r)
    ensures Elems(TreeAt(f.st.trees, r)) == Applied(Elems(TreeAt(old(f.st).trees, root)), change)
    ensures forall c :: InUse(old(f.st), c) ==> Kept(old(f.st), f.st, c)
  {
    hide Inv, Settled, Kept, InUse, Elems, TreeAt, Inserted, Deleted, Avl;
    match change {
      case Add(v) =>
        r := f.SetAdd(root, v);
        LiveFacts(f.hash, f.st, r);
      case Remove(k) => r := f.SetRemove(root, k);
    }
  }

  /** One change: the client takes the new root and gives the old one back. */
  method Apply(f: F.AvlFactory, root: Ptr, change: Change, ghost s: State, ghost contents: seq<Elem>) returns (r: Ptr)
    requires f.Ready() && Holding(f.hash, s, f.st, root, contents)
    modifies f
    ensures f.Ready() && Holding(f.hash, s, f.st, r, Applied(contents, change))
  {
    hide Inv, Settled, Kept, InUse, Elems, TreeAt, Applied, Holding, Holds, CanonicalRoot;
    ghost var t := f.st;
    RootLinks(f.hash, s, t, root, contents);
    r := Take(f, root, change);
    ghost var u := f.st;
    NowHolds(f.hash, t, u, r, Applied(contents, change));
    if root != NULL {
      f.ReleaseRoot(root);
    }
    Replaced(f.hash, s, t, root, u, r, f.st, contents, Applied(contents, change));
  }

  /** A set built from the empty one by a run of changes. */
  method Build(f: F.AvlFactory, changes: seq<Change>) returns (r: Ptr)
    requires f.Ready()
    modifies f
    ensures f.Ready() && Holding(f.hash, old(f.st), f.st, r, Contents(changes))
  {
    hide Inv, Settled, Holding, Contents, Applied;
    ghost var s := f.st;
    EmptyHolding(f.hash, s);
    r := NULL;
    for i := 0 to |changes|
      invariant f.Ready() && Holding(f.hash, s, f.st, r, Contents(changes[..i]))
    {
      ghost var before := Contents(changes[..i]);
      r := Apply(f, r, changes[i], s, before);
      ContentsNext(changes, i);
    }
    assert changes[..|changes|] == changes;
  }

  lemma EmptyHolding(hash: Hash, s: State)
    requires Inv(hash, s)
    ensures Holding(hash, s, s, NULL, Contents([]))
  {
    NullTree(hash, s);
  }

  lemma ContentsNext(changes: seq<Change>, i: nat)
    requires i < |changes|
    ensures Contents(changes[..i + 1]) == Applied(Contents(changes[..i]), changes[i])
  {
    assert changes[..i + 1][..i] == changes[..i];
  }

  /** Two runs of changes, one after the other in the same memory, end in the same node if and
      only if they leave the same elements. */
  method TwoHistories(f: F.AvlFactory, xs: seq<Change>, ys: seq<Change>) returns (p: Ptr, q: Ptr)
    requires f.Ready()
    modifies f
    ensures f.Ready() && (p == q <==> SameElements(xs, ys))
  {
    hide Inv, Settled, Holding, Contents, SameElements;
    p := Build(f, xs);
    ghost var s := f.st;
    q := Build(f, ys);
    BothHold(f.hash, old(f.st), s, p, Contents(xs), f.st, q, Contents(ys));
    SameContentsIff(xs, ys);
  }

  lemma BothHold(hash: Hash, s0: State, s: State, p: Ptr, a: seq<Elem>, t: State, q: Ptr, b: seq<Elem>)
    requires Holding(hash, s0, s, p, a) && Holding(hash, s, t, q, b)
    ensures p == q <==> a == b
  {
    HeldRoot(hash, s, t, p, a);
    RootLinks(hash, s, t, q, b);
    LinkFacts(hash, t, p);
    LinkFacts(hash, t, q);
    EmptyContents(TreeAt(t.trees, p));
    EmptyContents(TreeAt(t.trees, q));
    hide Inv, Elems;
    if p != NULL && q != NULL {
      CanonicalIff(hash, t, p, q);
    }
  }
}
