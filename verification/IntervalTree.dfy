/** IntervalMap::lookup in its B+-tree: the descent by stop keys finds what a linear search
    over all the leaves would find. */
module IntervalTree {
  import opened Collections
  import opened IntervalLeaf

  /** A node's arrays, of which only the first elements are in use. */
  datatype Node = Leaf(entries: seq<Entry>) | Branch(subtrees: seq<NodeRef>, stops: seq<int>)

  /** A reference to a node, with the number of elements in use. */
  datatype NodeRef = NodeRef(node: Node, size: nat)

  /** The tree below a reference has height h, and every branch stop is the last key below it. */
  ghost predicate WellFormed(r: NodeRef, h: nat)
    decreases h
  {
    && r.size > 0
    && if h == 0 then r.node.Leaf? && r.size <= |r.node.entries|
       else
         && r.node.Branch? && r.size <= |r.node.subtrees| && r.size <= |r.node.stops|
         && forall i :: 0 <= i < r.size ==> WellFormed(r.node.subtrees[i], h - 1) && r.node.stops[i] == LastStop(r.node.subtrees[i], h - 1)
  }

  /** The largest key below a reference. */
  ghost function LastStop(r: NodeRef, h: nat): (k: int)
  {
    if h == 0 then
      if r.node.Leaf? && 0 < r.size <= |r.node.entries| then Stop(r.node.entries[r.size - 1]) else 0
    else
      if r.node.Branch? && 0 < r.size <= |r.node.stops| then r.node.stops[r.size - 1] else 0
  }

  /** All the intervals below a reference, in order. */
  ghost function Entries(r: NodeRef, h: nat): (s: seq<Entry>)
    requires WellFormed(r, h)
    decreases h, 0
  {
    if h == 0 then r.node.entries[..r.size] else EntriesOf(r.node.subtrees[..r.size], h - 1)
  }

  ghost function EntriesOf(rs: seq<NodeRef>, h: nat): (s: seq<Entry>)
    requires forall i :: 0 <= i < |rs| ==> WellFormed(rs[i], h)
    decreases h, |rs| + 1
  {
    if rs == [] then [] else EntriesOf(rs[..|rs| - 1], h) + Entries(rs[|rs| - 1], h)
  }

  ghost predicate AllWellFormed(rs: seq<NodeRef>, h: nat) {
    forall i :: 0 <= i < |rs| ==> WellFormed(rs[i], h)
  }

  /** A node is not empty, and its last interval ends at its last key. */
  lemma {:induction false} LastEntry(r: NodeRef, h: nat)
    requires WellFormed(r, h)
    ensures Entries(r, h) != [] && Stop(Entries(r, h)[|Entries(r, h)| - 1]) == LastStop(r, h)
    decreases h
  {
    if h > 0 {
      var rs := r.node.subtrees[..r.size];
      LastEntry(rs[|rs| - 1], h - 1);
    }
  }

  /** Splitting the children at child k. */
  lemma {:induction false} EntriesSplit(rs: seq<NodeRef>, h: nat, k: nat) returns (p: seq<Entry>, q: seq<Entry>)
    requires AllWellFormed(rs, h) && k < |rs|
    ensures EntriesOf(rs, h) == p + Entries(rs[k], h) + q
    ensures p == EntriesOf(rs[..k], h)
    decreases |rs|
  {
    var n := |rs| - 1;
    if k == n {
      p, q := EntriesOf(rs[..n], h), [];
      assert p + Entries(rs[k], h) + [] == p + Entries(rs[k], h);
    } else {
      p, q := EntriesSplit(rs[..n], h, k);
      assert rs[..n][..k] == rs[..k];
      Assoc(p + Entries(rs[k], h), q, Entries(rs[n], h));
      q := q + Entries(rs[n], h);
    }
  }

  lemma SortedParts(tr: Traits, p: seq<Entry>, m: seq<Entry>, q: seq<Entry>)
    requires Sorted(tr, p + m + q)
    ensures Sorted(tr, p) && Sorted(tr, m) && Sorted(tr, q)
  {
    var s := p + m + q;
    assert forall i :: 0 <= i < |p| ==> s[i] == p[i];
    forall i | 0 <= i < |m|
      ensures tr.NonEmpty(Start(m[i]), Stop(m[i])) && (i + 1 < |m| ==> tr.StopLess(Stop(m[i]), Start(m[i + 1])))
    {
      assert s[|p| + i] == m[i];
      assert i + 1 < |m| ==> s[|p| + i + 1] == m[i + 1];
    }
    forall i | 0 <= i < |q|
      ensures tr.NonEmpty(Start(q[i]), Stop(q[i])) && (i + 1 < |q| ==> tr.StopLess(Stop(q[i]), Start(q[i + 1])))
    {
      assert s[|p| + |m| + i] == q[i];
      assert i + 1 < |q| ==> s[|p| + |m| + i + 1] == q[i + 1];
    }
  }

  /** x can only be in the part m when the part before it ends before x and m does not. */
  lemma OnlyInMiddle(tr: Traits, p: seq<Entry>, m: seq<Entry>, q: seq<Entry>, x: int, v: Val)
    requires Sorted(tr, p + m + q) && m != []
    requires p != [] ==> tr.StopLess(Stop(p[|p| - 1]), x)
    requires !tr.StopLess(Stop(m[|m| - 1]), x)
    ensures MapsTo(tr, p + m + q, x, v) <==> MapsTo(tr, m, x, v)
  {
    var s := p + m + q;
    MapsToConcat(tr, p + m, q, x, v);
    MapsToConcat(tr, p, m, x, v);
    forall i | 0 <= i < |p| ensures !Holds(tr, p[i], x, v) {
      assert s[i] == p[i] && s[|p| - 1] == p[|p| - 1];
      if i < |p| - 1 {
        OrderedPair(tr, s, i, |p| - 1);
      }
    }
    forall i | 0 <= i < |q| ensures !Holds(tr, q[i], x, v) {
      var j := |p| + |m| - 1;
      assert s[j] == m[|m| - 1] && s[|p| + |m| + i] == q[i];
      OrderedPair(tr, s, j, |p| + |m| + i);
    }
  }

  /** The child that safeFind selects holds everything there is to know about x. */
  lemma DescendOk(tr: Traits, r: NodeRef, h: nat, x: int, k: nat)
    requires h > 0 && WellFormed(r, h) && Sorted(tr, Entries(r, h)) && k < r.size
    requires forall i :: 0 <= i < k ==> tr.StopLess(r.node.stops[i], x)
    requires !tr.StopLess(r.node.stops[k], x)
    ensures var c := r.node.subtrees[k];
      && Sorted(tr, Entries(c, h - 1)) && !tr.StopLess(LastStop(c, h - 1), x)
      && forall v :: MapsTo(tr, Entries(r, h), x, v) <==> MapsTo(tr, Entries(c, h - 1), x, v)
  {
    var rs := r.node.subtrees[..r.size];
    var p, m, q := ChildParts(tr, rs, h - 1, x, k);
    hide Sorted, MapsTo, EntriesOf, WellFormed, LastStop;
    SortedParts(tr, p, m, q);
    forall v ensures MapsTo(tr, Entries(r, h), x, v) <==> MapsTo(tr, m, x, v) {
      OnlyInMiddle(tr, p, m, q, x, v);
    }
  }

  /** The entries of child k, and those before and after it. */
  lemma ChildParts(tr: Traits, rs: seq<NodeRef>, h: nat, x: int, k: nat) returns (p: seq<Entry>, m: seq<Entry>, q: seq<Entry>)
    requires AllWellFormed(rs, h) && k < |rs| && !tr.StopLess(LastStop(rs[k], h), x)
    requires forall i :: 0 <= i < k ==> tr.StopLess(LastStop(rs[i], h), x)
    ensures EntriesOf(rs, h) == p + m + q && m == Entries(rs[k], h) && m != []
    ensures p != [] ==> tr.StopLess(Stop(p[|p| - 1]), x)
    ensures !tr.StopLess(Stop(m[|m| - 1]), x)
  {
    hide WellFormed, EntriesOf, Entries, LastStop;
    p, q := EntriesSplit(rs, h, k);
    m := Entries(rs[k], h);
    LastEntry(rs[k], h);
    if k > 0 {
      LastEntryBefore(rs, h, k);
    } else {
      NoEntries(rs, h);
    }
  }

  lemma NoEntries(rs: seq<NodeRef>, h: nat)
    ensures EntriesOf(rs[..0], h) == []
  {
  }

  /** The entries of the first k children end with the last key of child k - 1. */
  lemma LastEntryBefore(rs: seq<NodeRef>, h: nat, k: nat)
    requires AllWellFormed(rs, h) && 0 < k <= |rs|
    ensures var p := EntriesOf(rs[..k], h); p != [] && Stop(p[|p| - 1]) == LastStop(rs[k - 1], h)
  {
    LastEntry(rs[k - 1], h);
    assert rs[..k][|rs[..k]| - 1] == rs[k - 1];
  }

  // ----- Lookup -----

  /** BranchNode::safeFind: the scan has no bound of its own, and never leaves the used part. */
  method SafeFindBranch(tr: Traits, r: NodeRef, x: int) returns (i: nat)
    requires r.node.Branch? && 0 < r.size <= |r.node.stops| && !tr.StopLess(r.node.stops[r.size - 1], x)
    ensures i < r.size && !tr.StopLess(r.node.stops[i], x)
    ensures forall k :: 0 <= k < i ==> tr.StopLess(r.node.stops[k], x)
  {
    i := 0;
    while tr.StopLess(r.node.stops[i], x)
      invariant i < r.size
      invariant forall k :: 0 <= k < i ==> tr.StopLess(r.node.stops[k], x)
      decreases r.size - i
    {
      i := i + 1;
    }
  }

  /** LeafNode::safeFind. */
  method SafeFindLeaf(tr: Traits, s: seq<Entry>, size: nat, x: int) returns (i: nat)
    requires 0 < size <= |s| && !tr.StopLess(Stop(s[size - 1]), x)
    ensures i < size && !tr.StopLess(Stop(s[i]), x)
    ensures forall k :: 0 <= k < i ==> tr.StopLess(Stop(s[k]), x)
  {
    i := 0;
    while tr.StopLess(Stop(s[i]), x)
      invariant i < size
      invariant forall k :: 0 <= k < i ==> tr.StopLess(Stop(s[k]), x)
      decreases size - i
    {
      i := i + 1;
    }
  }

  /** A linear search. */
  function LinearLookup(tr: Traits, s: seq<Entry>, x: int, notFound: Val): (v: Val) {
    if s == [] then notFound
    else if tr.Contains(Start(s[0]), Stop(s[0]), x) then Value(s[0])
    else LinearLookup(tr, s[1..], x, notFound)
  }

  /** In a sorted sequence a linear search returns the value x is mapped to, if any. */
  lemma {:induction false} LinearLookupMeans(tr: Traits, s: seq<Entry>, x: int, notFound: Val)
    requires Sorted(tr, s)
    ensures forall v :: MapsTo(tr, s, x, v) ==> LinearLookup(tr, s, x, notFound) == v
    ensures (forall v :: !MapsTo(tr, s, x, v)) ==> LinearLookup(tr, s, x, notFound) == notFound
  {
    if s != [] {
      assert s == [s[0]] + s[1..] + [];
      SortedParts(tr, [s[0]], s[1..], []);
      LinearLookupMeans(tr, s[1..], x, notFound);
      forall v ensures MapsTo(tr, s, x, v) <==> Holds(tr, s[0], x, v) || MapsTo(tr, s[1..], x, v) {
        MapsToConcat(tr, [s[0]], s[1..], x, v);
        MapsToOne(tr, s[0], x, v);
        assert s == [s[0]] + s[1..];
      }
      if tr.Contains(Start(s[0]), Stop(s[0]), x) {
        assert Holds(tr, s[0], x, Value(s[0]));
      }
      forall v ensures !(tr.Contains(Start(s[0]), Stop(s[0]), x) && MapsTo(tr, s[1..], x, v)) {
        forall i | 0 <= i < |s[1..]| ensures tr.Contains(Start(s[0]), Stop(s[0]), x) ==> !Holds(tr, s[1..][i], x, v) {
          assert s[1..][i] == s[i + 1];
          OrderedPair(tr, s, 0, i + 1);
        }
      }
    }
  }

  /** The only value a lookup may return. */
  ghost predicate IsLookup(tr: Traits, s: seq<Entry>, x: int, notFound: Val, r: Val) {
    (forall v :: MapsTo(tr, s, x, v) ==> r == v) && ((forall v :: !MapsTo(tr, s, x, v)) ==> r == notFound)
  }

  lemma LookupUnique(tr: Traits, s: seq<Entry>, x: int, notFound: Val, r: Val)
    requires Sorted(tr, s) && IsLookup(tr, s, x, notFound, r)
    ensures r == LinearLookup(tr, s, x, notFound)
  {
    LinearLookupMeans(tr, s, x, notFound);
  }

  /** LeafNode::safeLookup. */
  method SafeLookup(tr: Traits, s: seq<Entry>, size: nat, x: int, notFound: Val) returns (r: Val)
    requires 0 < size <= |s| && Sorted(tr, s[..size]) && !tr.StopLess(Stop(s[size - 1]), x)
    ensures IsLookup(tr, s[..size], x, notFound, r)
  {
    var i := SafeFindLeaf(tr, s, size, x);
    r := if tr.StartLess(x, Start(s[i])) then notFound else Value(s[i]);
    LeafLookup(tr, s[..size], i, x, notFound);
  }

  /** Only the first interval that does not end before x can contain x. */
  lemma LeafLookup(tr: Traits, s: seq<Entry>, i: nat, x: int, notFound: Val)
    requires Sorted(tr, s) && i < |s| && !tr.StopLess(Stop(s[i]), x)
    requires forall k :: 0 <= k < i ==> tr.StopLess(Stop(s[k]), x)
    ensures IsLookup(tr, s, x, notFound, if tr.StartLess(x, Start(s[i])) then notFound else Value(s[i]))
  {
    forall k, v | 0 <= k < |s| && Holds(tr, s[k], x, v) ensures k == i {
      if k > i {
        OrderedPair(tr, s, i, k);
      }
    }
    if !tr.StartLess(x, Start(s[i])) {
      assert Holds(tr, s[i], x, Value(s[i]));
      assert MapsTo(tr, s, x, Value(s[i]));
    }
  }

  /** The root is a leaf, or a branch above a tree; the start of a branched root is cached. */
  datatype IntervalMap = RootLeaf(entries: seq<Entry>, size: nat) | RootBranch(root: NodeRef, height: nat, start: int)

  ghost predicate MapOk(tr: Traits, m: IntervalMap) {
    match m
    case RootLeaf(entries, size) => size <= |entries| && Sorted(tr, entries[..size])
    case RootBranch(root, height, start) =>
      && height > 0 && WellFormed(root, height) && Sorted(tr, Entries(root, height))
      && Entries(root, height) != [] && start == Start(Entries(root, height)[0])
  }

  ghost function AllEntries(m: IntervalMap): (s: seq<Entry>)
    requires match m case RootLeaf(entries, size) => size <= |entries| case RootBranch(root, height, _) => WellFormed(root, height)
  {
    match m
    case RootLeaf(entries, size) => entries[..size]
    case RootBranch(root, height, _) => Entries(root, height)
  }

  /** treeSafeLookup: one level of branches per round. */
  method TreeSafeLookup(tr: Traits, root: NodeRef, height: nat, x: int, notFound: Val) returns (r: Val)
    requires height > 0 && WellFormed(root, height) && Sorted(tr, Entries(root, height)) && !tr.StopLess(LastStop(root, height), x)
    ensures IsLookup(tr, Entries(root, height), x, notFound, r)
  {
    var i := SafeFindBranch(tr, root, x);
    DescendOk(tr, root, height, x, i);
    var nr := root.node.subtrees[i];
    var h := height - 1;
    while h != 0
      invariant WellFormed(nr, h) && Sorted(tr, Entries(nr, h)) && !tr.StopLess(LastStop(nr, h), x)
      invariant forall v :: MapsTo(tr, Entries(root, height), x, v) <==> MapsTo(tr, Entries(nr, h), x, v)
      decreases h
    {
      var j := SafeFindBranch(tr, nr, x);
      DescendOk(tr, nr, h, x, j);
      nr := nr.node.subtrees[j];
      h := h - 1;
    }
    r := SafeLookup(tr, nr.node.entries, nr.size, x, notFound);
  }

  /** lookup: the same result as a linear search over all the leaves. */
  method Lookup(tr: Traits, m: IntervalMap, x: int, notFound: Val) returns (r: Val)
    requires MapOk(tr, m)
    ensures r == LinearLookup(tr, AllEntries(m), x, notFound)
    ensures forall e :: e in AllEntries(m) && Start(e) <= x && (if tr.Closed? then x <= Stop(e) else x < Stop(e)) ==> r == Value(e)
    ensures (forall e :: e in AllEntries(m) ==> x < Start(e) || (if tr.Closed? then Stop(e) < x else Stop(e) <= x)) ==> r == notFound
  {
    LookupPoints(tr, AllEntries(m), x, notFound);
    hide LinearLookup;
    ghost var s := AllEntries(m);
    match m {
      case RootLeaf(entries, size) =>
        if size == 0 {
          return notFound;
        }
        if tr.StartLess(x, Start(entries[0])) || tr.StopLess(Stop(entries[size - 1]), x) {
          OutOfRange(tr, s, x, notFound);
          return notFound;
        }
        r := SafeLookup(tr, entries, size, x, notFound);
      case RootBranch(root, height, start) =>
        LastEntry(root, height);
        if tr.StartLess(x, start) || tr.StopLess(root.node.stops[root.size - 1], x) {
          OutOfRange(tr, s, x, notFound);
          return notFound;
        }
        r := TreeSafeLookup(tr, root, height, x, notFound);
    }
    LookupUnique(tr, s, x, notFound, r);
  }

  /** The linear search in plain comparisons. */
  lemma LookupPoints(tr: Traits, s: seq<Entry>, x: int, notFound: Val)
    requires Sorted(tr, s)
    ensures var r := LinearLookup(tr, s, x, notFound);
      && (forall e :: e in s && Start(e) <= x && (if tr.Closed? then x <= Stop(e) else x < Stop(e)) ==> r == Value(e))
      && ((forall e :: e in s ==> x < Start(e) || (if tr.Closed? then Stop(e) < x else Stop(e) <= x)) ==> r == notFound)
  {
    LinearLookupMeans(tr, s, x, notFound);
    hide LinearLookup, Sorted;
    forall e | e in s && tr.Contains(Start(e), Stop(e), x) ensures MapsTo(tr, s, x, Value(e)) {
      var i :| 0 <= i < |s| && s[i] == e;
      assert Holds(tr, s[i], x, Value(e));
    }
  }

  /** A branch over two leaves. */
  lemma LookupExample()
    ensures var a, b := NodeRef(Leaf([((1, 2), 7)]), 1), NodeRef(Leaf([((5, 6), 8), ((0, 0), 0)]), 1);
      var m := RootBranch(NodeRef(Branch([a, b], [2, 6]), 2), 1, 1);
      && MapOk(Closed, m) && AllEntries(m) == [((1, 2), 7), ((5, 6), 8)]
      && LinearLookup(Closed, AllEntries(m), 2, 0) == 7 && LinearLookup(HalfOpen, AllEntries(m), 2, 0) == 0
      && LinearLookup(Closed, AllEntries(m), 5, 0) == 8 && LinearLookup(Closed, AllEntries(m), 3, 0) == 0
  {
    var a, b := NodeRef(Leaf([((1, 2), 7)]), 1), NodeRef(Leaf([((5, 6), 8), ((0, 0), 0)]), 1);
    var root := NodeRef(Branch([a, b], [2, 6]), 2);
    assert WellFormed(a, 0) && WellFormed(b, 0);
    assert WellFormed(root, 1);
    assert [a, b][..1] == [a] && [a, b][..2] == [a, b] && [a][..0] == [];
    assert EntriesOf([a], 0) == [((1, 2), 7)];
    assert Entries(b, 0) == [((5, 6), 8)];
    var s: seq<Entry> := [((1, 2), 7), ((5, 6), 8)];
    assert Entries(root, 1) == s;
    assert s[1..] == [((5, 6), 8)] && s[1..][1..] == [];
    assert LinearLookup(Closed, s[1..], 5, 0) == 8 && LinearLookup(Closed, s[1..], 3, 0) == 0 && LinearLookup(HalfOpen, s[1..], 2, 0) == 0;
  }

  lemma OutOfRange(tr: Traits, s: seq<Entry>, x: int, notFound: Val)
    requires Sorted(tr, s) && s != [] && (tr.StartLess(x, Start(s[0])) || tr.StopLess(Stop(s[|s| - 1]), x))
    ensures LinearLookup(tr, s, x, notFound) == notFound
  {
    forall i, v | 0 <= i < |s| ensures !Holds(tr, s[i], x, v) {
      if i > 0 {
        OrderedPair(tr, s, 0, i);
      }
      if i < |s| - 1 {
        OrderedPair(tr, s, i, |s| - 1);
      }
    }
    LinearLookupMeans(tr, s, x, notFound);
  }
}
