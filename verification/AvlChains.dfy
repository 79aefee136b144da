/** The table of canonical trees: bucket chains through the nodes' prev and next fields,
    keyed by a digest of the contents. */
module AvlChains {
  import opened AvlTree
  import opened AvlStore
  import opened AvlHeap

  /** The hash that the FoldingSet profile of an element gives. */
  type Hash = Elem -> nat

  const MODULUS := 0x1_0000_0000

  /** Addition of 32-bit words. */
  function Plus(a: nat, b: nat): (r: nat)
    ensures r < MODULUS
  {
    (a + b) % MODULUS
  }

  ghost function Sum(hash: Hash, s: seq<Elem>): (n: nat) {
    if s == [] then 0 else Sum(hash, s[..|s| - 1]) + hash(s[|s| - 1])
  }

  /** The digest of a tree with these elements: their hashes added up as 32-bit words. */
  ghost function DigestOf(hash: Hash, s: seq<Elem>): (d: nat) {
    Sum(hash, s) % MODULUS
  }

  lemma {:induction false} SumAppend(hash: Hash, a: seq<Elem>, b: seq<Elem>)
    ensures Sum(hash, a + b) == Sum(hash, a) + Sum(hash, b)
  {
    if b == [] {
      assert a + b == a;
    } else {
      var n := |b| - 1;
      SumAppend(hash, a, b[..n]);
      assert (a + b)[..|a + b| - 1] == a + b[..n];
    }
  }

  /** The digest of no element, of one, and of two sequences, in plain arithmetic. */
  lemma DigestMeans(hash: Hash, v: Elem, a: seq<Elem>, b: seq<Elem>)
    ensures DigestOf(hash, []) == 0 && DigestOf(hash, [v]) == hash(v) % 0x1_0000_0000
    ensures DigestOf(hash, a + b) == (DigestOf(hash, a) + DigestOf(hash, b)) % 0x1_0000_0000
  {
    assert [v][..0] == [];
    assert Sum(hash, [v]) == hash(v);
    SumAppend(hash, a, b);
    AddModulo(Sum(hash, a), 0, Sum(hash, b));
  }

  /** computeDigest from the children's digests. */
  lemma DigestJoin(hash: Hash, a: seq<Elem>, v: Elem, b: seq<Elem>)
    ensures DigestOf(hash, Join(a, v, b)) == Plus(Plus(Plus(0, DigestOf(hash, a)), hash(v)), DigestOf(hash, b))
  {
    SumAppend(hash, a, [v]);
    SumAppend(hash, a + [v], b);
    assert [v][..0] == [];
    assert Sum(hash, [v]) == hash(v);
    AddModulo(Sum(hash, a), hash(v), Sum(hash, b));
  }

  lemma RemainderFirst(x: nat, y: nat)
    ensures (x % MODULUS + y) % MODULUS == (x + y) % MODULUS
  {
    assert x == MODULUS * (x / MODULUS) + x % MODULUS;
  }

  lemma AddModulo(x: nat, y: nat, z: nat)
    ensures (x + y + z) % MODULUS == ((x % MODULUS + y) % MODULUS + z % MODULUS) % MODULUS
  {
    RemainderFirst(x, y);
    RemainderFirst(x + y, z % MODULUS);
    RemainderFirst(z, x + y);
  }

  /** maskCacheIndex: bit 1 is cleared. */
  function Mask(d: nat): (idx: nat) {
    if d / 2 % 2 == 1 then d - 2 else d
  }

  /** Only bit 1 is cleared. */
  lemma MaskMeans(d: nat)
    ensures Mask(d) % 2 == d % 2 && Mask(d) / 4 == d / 4 && Mask(d) / 2 % 2 == 0
  {
  }

  /** So no index is one of DenseMap's two special keys, the greatest unsigned words. */
  lemma MaskAvoidsSpecialKeys(d: nat)
    requires d < MODULUS
    ensures Mask(d) < MODULUS - 2
  {
  }

  // ----- The invariant -----

  ghost function ChainAt(s: State, idx: nat): (c: seq<Ptr>) {
    if idx in s.chains then s.chains[idx] else []
  }

  /** Cache[idx]; a missing entry counts as null. */
  function Head(cache: map<nat, Ptr>, idx: nat): (p: Ptr) {
    if idx in cache then cache[idx] else NULL
  }

  ghost function At(c: seq<Ptr>, i: int): (p: Ptr) {
    if 0 <= i < |c| then c[i] else NULL
  }

  ghost predicate LinkOk(s: State, idx: nat, c: seq<Ptr>, i: int)
    requires 0 <= i < |c|
  {
    && c[i] in s.cells && c[i] in s.trees
    && var n := s.cells[c[i]];
    && n.isCanonicalized && Mask(n.digest) == idx && n.prev == At(c, i - 1) && n.next == At(c, i + 1)
  }

  /** No two trees of the chain have the same contents. */
  ghost predicate Different(trees: map<Ptr, Tree>, c: seq<Ptr>) {
    forall i, j :: 0 <= i < j < |c| && c[i] in trees && c[j] in trees ==> Elems(trees[c[i]]) != Elems(trees[c[j]])
  }

  ghost predicate ChainOk(s: State, idx: nat) {
    var c := ChainAt(s, idx);
    && Head(s.cache, idx) == At(c, 0)
    && (forall i {:trigger LinkOk(s, idx, c, i)} :: 0 <= i < |c| ==> LinkOk(s, idx, c, i))
    && Different(s.trees, c)
  }

  ghost predicate ChainsOk(s: State) {
    forall idx: nat {:trigger ChainOk(s, idx)} :: ChainOk(s, idx)
  }

  /** A canonical node is in its chain; a cached digest is the digest of the contents. */
  ghost predicate PlaceOk(hash: Hash, s: State, p: Ptr) {
    && p in s.cells && p in s.trees
    && var n := s.cells[p];
    && (n.isDigestCached ==> n.digest == DigestOf(hash, Elems(s.trees[p])))
    && (n.isCanonicalized ==> n.isDigestCached && p in ChainAt(s, Mask(n.digest)))
    && (!n.isCanonicalized ==> n.prev == NULL && n.next == NULL)
  }

  ghost predicate PlacesOk(hash: Hash, s: State) {
    forall p {:trigger PlaceOk(hash, s, p)} :: p in s.trees ==> PlaceOk(hash, s, p)
  }

  ghost predicate TableOk(hash: Hash, s: State) {
    ChainsOk(s) && PlacesOk(hash, s)
  }

  /** Canonical trees with equal contents are the same node. */
  lemma CanonicalUnique(hash: Hash, s: State, p: Ptr, q: Ptr)
    requires TableOk(hash, s) && p in s.trees && q in s.trees
    requires p in s.cells && s.cells[p].isCanonicalized && q in s.cells && s.cells[q].isCanonicalized
    requires Elems(s.trees[p]) == Elems(s.trees[q])
    ensures p == q
  {
    assert PlaceOk(hash, s, p) && PlaceOk(hash, s, q);
    var idx := Mask(s.cells[p].digest);
    assert ChainOk(s, idx);
    var c := ChainAt(s, idx);
    var i :| 0 <= i < |c| && c[i] == p;
    var j :| 0 <= j < |c| && c[j] == q;
  }

  // ----- Steps that leave the table alone -----

  ghost predicate SameLinks(n: Cell, m: Cell) {
    && n.prev == m.prev && n.next == m.next && n.isCanonicalized == m.isCanonicalized
    && n.isDigestCached == m.isDigestCached && n.digest == m.digest
  }

  ghost predicate Unlinked(n: Cell) {
    n.prev == NULL && n.next == NULL && !n.isCanonicalized && !n.isDigestCached
  }

  ghost predicate NodeKept(s: State, r: State, p: Ptr)
    requires p in r.cells
  {
    if p in s.trees then p in s.cells && SameLinks(s.cells[p], r.cells[p]) else Unlinked(r.cells[p])
  }

  /** Nodes keep their links; new ones have none. */
  ghost predicate TableKept(s: State, r: State) {
    && r.chains == s.chains && r.cache == s.cache
    && (forall p :: p in s.trees ==> p in r.trees && r.trees[p] == s.trees[p])
    && (forall p :: p in r.trees ==> p in r.cells && NodeKept(s, r, p))
  }

  lemma TableKeptOk(hash: Hash, s: State, r: State)
    requires TableKept(s, r) && TableOk(hash, s)
    ensures TableOk(hash, r)
  {
    forall idx: nat ensures ChainOk(r, idx) {
      assert ChainOk(s, idx);
      var c := ChainAt(s, idx);
      forall i | 0 <= i < |c| ensures LinkOk(r, idx, c, i) {
        assert LinkOk(s, idx, c, i);
      }
      forall i, j | 0 <= i < j < |c| && c[i] in r.trees && c[j] in r.trees ensures Elems(r.trees[c[i]]) != Elems(r.trees[c[j]]) {
        assert LinkOk(s, idx, c, i) && LinkOk(s, idx, c, j);
      }
    }
    forall p | p in r.trees ensures PlaceOk(hash, r, p) {
      if p in s.trees {
        assert PlaceOk(hash, s, p);
      }
    }
  }

  // ----- Inserting and removing -----

  /** The end of getCanonicalTree: p becomes the head of its chain. */
  ghost function Linked(s: State, p: Ptr): (r: State)
    requires p in s.cells
  {
    var idx := Mask(s.cells[p].digest);
    var h := Head(s.cache, idx);
    var m := if h in s.cells then s.cells[h := s.cells[h].(prev := p)] else s.cells;
    s.(cells := m[p := s.cells[p].(next := h, isCanonicalized := true)],
       cache := s.cache[idx := p], chains := s.chains[idx := [p] + ChainAt(s, idx)])
  }

  lemma LinkedOk(hash: Hash, s: State, p: Ptr)
    requires TableOk(hash, s) && p in s.trees && p in s.cells && NULL !in s.cells
    requires !s.cells[p].isCanonicalized && s.cells[p].isDigestCached
    requires forall q :: q in ChainAt(s, Mask(s.cells[p].digest)) ==> q in s.trees && Elems(s.trees[q]) != Elems(s.trees[p])
    ensures TableOk(hash, Linked(s, p))
  {
    var r := Linked(s, p);
    var idx := Mask(s.cells[p].digest);
    assert PlaceOk(hash, s, p);
    forall j: nat ensures ChainOk(r, j) {
      if j == idx {
        LinkedHere(s, p);
      } else {
        LinkedElsewhere(s, p, j);
      }
    }
    assert ChainOk(s, idx);
    if ChainAt(s, idx) != [] {
      assert LinkOk(s, idx, ChainAt(s, idx), 0);
    }
    forall q | q in r.trees ensures PlaceOk(hash, r, q) {
      assert PlaceOk(hash, s, q);
    }
  }

  lemma LinkedHere(s: State, p: Ptr)
    requires ChainsOk(s) && p in s.trees && p in s.cells && NULL !in s.cells
    requires !s.cells[p].isCanonicalized && s.cells[p].prev == NULL
    requires forall q :: q in ChainAt(s, Mask(s.cells[p].digest)) ==> q in s.trees && Elems(s.trees[q]) != Elems(s.trees[p])
    ensures ChainOk(Linked(s, p), Mask(s.cells[p].digest))
  {
    var r, idx := Linked(s, p), Mask(s.cells[p].digest);
    assert ChainOk(s, idx);
    var c := ChainAt(s, idx);
    var d := [p] + c;
    forall i | 0 <= i < |d| ensures LinkOk(r, idx, d, i) {
      if i > 0 {
        assert LinkOk(s, idx, c, i - 1);
      }
      if c != [] {
        assert LinkOk(s, idx, c, 0);
      }
    }
    assert ChainAt(r, idx) == d;
    forall i, j | 0 <= i < j < |d| && d[i] in r.trees && d[j] in r.trees ensures Elems(r.trees[d[i]]) != Elems(r.trees[d[j]]) {
      assert d[j] == c[j - 1] && d[j] in c;
    }
  }

  lemma LinkedElsewhere(s: State, p: Ptr, j: nat)
    requires ChainsOk(s) && p in s.cells && !s.cells[p].isCanonicalized && j != Mask(s.cells[p].digest) && NULL !in s.cells
    ensures ChainOk(Linked(s, p), j)
  {
    var r, idx := Linked(s, p), Mask(s.cells[p].digest);
    assert ChainOk(s, idx) && ChainOk(s, j);
    if ChainAt(s, idx) != [] {
      assert LinkOk(s, idx, ChainAt(s, idx), 0);
    }
    var c := ChainAt(s, j);
    forall i | 0 <= i < |c| ensures LinkOk(r, j, c, i) {
      assert LinkOk(s, j, c, i);
    }
  }

  function WithPrev(m: Store, p: Ptr, prev: Ptr): (r: Store) {
    if p in m then m[p := m[p].(prev := prev)] else m
  }

  function WithNext(m: Store, p: Ptr, next: Ptr): (r: Store) {
    if p in m then m[p := m[p].(next := next)] else m
  }

  /** The unlinking part of destroy. */
  ghost function CutOut(s: State, x: Ptr, k: nat): (r: State)
    requires x in s.cells
  {
    var n, idx := s.cells[x], Mask(s.cells[x].digest);
    s.(cells := WithNext(WithPrev(s.cells, n.next, n.prev), n.prev, n.next),
       cache := if n.prev == NULL then s.cache[idx := n.next] else s.cache,
       chains := s.chains[idx := Without(ChainAt(s, idx), k)])
  }

  ghost function Without(c: seq<Ptr>, k: nat): (d: seq<Ptr>) {
    if k < |c| then c[..k] + c[k + 1..] else c
  }

  /** The rest of destroy: x goes to the free list. */
  ghost function Freed(s: State, x: Ptr): (r: State)
    requires x in s.cells
  {
    s.(cells := s.cells[x := s.cells[x].(isMutable := false)], freeNodes := s.freeNodes + [x],
       dying := s.dying - {x}, trees := s.trees - {x})
  }

  ghost predicate InChain(s: State, x: Ptr, k: nat) {
    && x in s.cells && s.cells[x].isCanonicalized
    && var c := ChainAt(s, Mask(s.cells[x].digest)); k < |c| && c[k] == x
  }

  lemma CutHere(s: State, x: Ptr, k: nat)
    requires ChainsOk(s) && InChain(s, x, k) && NULL !in s.cells
    ensures ChainOk(Freed(CutOut(s, x, k), x), Mask(s.cells[x].digest))
  {
    var idx := Mask(s.cells[x].digest);
    var c := ChainAt(s, idx);
    var d, r := Without(c, k), Freed(CutOut(s, x, k), x);
    assert ChainOk(s, idx);
    assert LinkOk(s, idx, c, k);
    if k > 0 {
      assert LinkOk(s, idx, c, k - 1);
    }
    forall i | 0 <= i < |d| ensures LinkOk(r, idx, d, i) {
      CutLink(s, x, k, i);
    }
    WithoutDifferent(s.trees, r.trees, c, k);
  }

  lemma WithoutAt(c: seq<Ptr>, k: nat, i: nat)
    requires k < |c| && i < |Without(c, k)|
    ensures var j := if i < k then i else i + 1;
      && j < |c| && Without(c, k)[i] == c[j]
      && At(Without(c, k), i - 1) == (if j == k + 1 then At(c, k - 1) else At(c, j - 1))
      && At(Without(c, k), i + 1) == (if j + 1 == k then At(c, k + 1) else At(c, j + 1))
  {
  }

  /** A node after x was cut out and freed. */
  lemma CutCell(s: State, x: Ptr, k: nat, q: Ptr)
    requires x in s.cells && q in s.cells && q != x
    ensures var r, n, m := Freed(CutOut(s, x, k), x), s.cells[x], s.cells[q];
      q in r.cells && r.cells[q] == m.(prev := if q == n.next then n.prev else m.prev, next := if q == n.prev then n.next else m.next)
    ensures var r := Freed(CutOut(s, x, k), x); q in s.trees ==> q in r.trees
  {
  }

  lemma CutLink(s: State, x: Ptr, k: nat, i: nat)
    requires ChainsOk(s) && InChain(s, x, k) && NULL !in s.cells
    requires i < |Without(ChainAt(s, Mask(s.cells[x].digest)), k)|
    ensures var idx := Mask(s.cells[x].digest);
      LinkOk(Freed(CutOut(s, x, k), x), idx, Without(ChainAt(s, idx), k), i)
  {
    hide CutOut, Freed, Without, ChainAt, Mask;
    var idx := Mask(s.cells[x].digest);
    var c := ChainAt(s, idx);
    var j := if i < k then i else i + 1;
    assert ChainOk(s, idx);
    ChainNoRepeats(s, idx);
    WithoutAt(c, k, i);
    assert LinkOk(s, idx, c, k) && LinkOk(s, idx, c, j);
    CutCell(s, x, k, c[j]);
  }

  lemma WithoutDifferent(trees: map<Ptr, Tree>, rest: map<Ptr, Tree>, c: seq<Ptr>, k: nat)
    requires Different(trees, c) && k < |c| && forall p :: p in rest ==> p in trees && rest[p] == trees[p]
    ensures Different(rest, Without(c, k))
  {
    var d := Without(c, k);
    forall i, j | 0 <= i < j < |d| && d[i] in rest && d[j] in rest ensures Elems(rest[d[i]]) != Elems(rest[d[j]]) {
      var i', j' := if i < k then i else i + 1, if j < k then j else j + 1;
      assert d[i] == c[i'] && d[j] == c[j'];
    }
  }

  lemma ChainNoRepeats(s: State, idx: nat)
    requires ChainsOk(s)
    ensures NoRepeats(ChainAt(s, idx))
  {
    var c := ChainAt(s, idx);
    assert ChainOk(s, idx);
    forall i, j | 0 <= i < j < |c| ensures c[i] != c[j] {
      assert LinkOk(s, idx, c, i) && LinkOk(s, idx, c, j);
    }
  }

  lemma CutElsewhere(s: State, x: Ptr, k: nat, j: nat)
    requires ChainsOk(s) && InChain(s, x, k) && NULL !in s.cells && j != Mask(s.cells[x].digest)
    ensures ChainOk(Freed(CutOut(s, x, k), x), j)
  {
    var idx := Mask(s.cells[x].digest);
    var c, e := ChainAt(s, idx), ChainAt(s, j);
    var r := Freed(CutOut(s, x, k), x);
    assert ChainOk(s, idx) && ChainOk(s, j);
    assert LinkOk(s, idx, c, k);
    if k > 0 {
      assert LinkOk(s, idx, c, k - 1);
    }
    if k + 1 < |c| {
      assert LinkOk(s, idx, c, k + 1);
    }
    forall i | 0 <= i < |e| ensures LinkOk(r, j, e, i) {
      assert LinkOk(s, j, e, i);
    }
  }

  lemma CutPlaces(hash: Hash, s: State, x: Ptr, k: nat)
    requires TableOk(hash, s) && InChain(s, x, k) && NULL !in s.cells
    ensures PlacesOk(hash, Freed(CutOut(s, x, k), x))
  {
    var idx := Mask(s.cells[x].digest);
    var c := ChainAt(s, idx);
    var r := Freed(CutOut(s, x, k), x);
    assert ChainOk(s, idx);
    assert LinkOk(s, idx, c, k);
    if k > 0 {
      assert LinkOk(s, idx, c, k - 1);
    }
    if k + 1 < |c| {
      assert LinkOk(s, idx, c, k + 1);
    }
    forall p | p in r.trees ensures PlaceOk(hash, r, p) {
      assert PlaceOk(hash, s, p);
      if p in c {
        WithoutKeeps(c, k, p);
      }
    }
  }

  lemma WithoutKeeps(c: seq<Ptr>, k: nat, p: Ptr)
    requires k < |c| && p in c && p != c[k]
    ensures p in Without(c, k)
  {
    var i :| 0 <= i < |c| && c[i] == p;
    assert Without(c, k)[if i < k then i else i - 1] == p;
  }

  lemma CutOk(hash: Hash, s: State, x: Ptr, k: nat)
    requires TableOk(hash, s) && InChain(s, x, k) && NULL !in s.cells
    ensures TableOk(hash, Freed(CutOut(s, x, k), x))
  {
    var r := Freed(CutOut(s, x, k), x);
    forall j: nat ensures ChainOk(r, j) {
      if j == Mask(s.cells[x].digest) {
        CutHere(s, x, k);
      } else {
        CutElsewhere(s, x, k, j);
      }
    }
    CutPlaces(hash, s, x, k);
  }

  /** Freeing a node that is not canonical. */
  lemma FreedOk(hash: Hash, s: State, x: Ptr)
    requires TableOk(hash, s) && x in s.cells && !s.cells[x].isCanonicalized
    ensures TableOk(hash, Freed(s, x))
  {
    var r := Freed(s, x);
    forall idx: nat ensures ChainOk(r, idx) {
      assert ChainOk(s, idx);
      var c := ChainAt(s, idx);
      forall i | 0 <= i < |c| ensures LinkOk(r, idx, c, i) {
        assert LinkOk(s, idx, c, i);
      }
    }
    forall p | p in r.trees ensures PlaceOk(hash, r, p) {
      assert PlaceOk(hash, s, p);
    }
  }
}
