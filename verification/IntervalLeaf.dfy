/** IntervalMap's key traits and leaf nodes: sorted, disjoint, coalesced intervals, and
    insertion that coalesces with both neighbours. */
module IntervalLeaf {
  import opened NodeMoves

  /** IntervalMapInfo for closed intervals, IntervalMapHalfOpenInfo for half-open ones. */
  datatype Traits = Closed | HalfOpen {
    predicate StartLess(x: int, a: int) {
      x < a
    }

    predicate StopLess(b: int, x: int) {
      if Closed? then b < x else b <= x
    }

    predicate Adjacent(a: int, b: int) {
      if Closed? then a + 1 == b else a == b
    }

    predicate NonEmpty(a: int, b: int) {
      if Closed? then a <= b else a < b
    }

    /** The point x is in the interval from a to b. */
    predicate Contains(a: int, b: int, x: int) {
      !StartLess(x, a) && !StopLess(b, x)
    }
  }

  /** The points of closed and of half-open intervals. */
  lemma ContainsMeans(tr: Traits, a: int, b: int, x: int)
    ensures tr.Contains(a, b, x) <==> a <= x && if tr.Closed? then x <= b else x < b
    ensures tr.NonEmpty(a, b) <==> if tr.Closed? then a <= b else a < b
  {
  }

  type Val = int

  /** An interval's keys and its value, as a leaf stores them. */
  type Entry = ((int, int), Val)

  function Start(e: Entry): int { e.0.0 }
  function Stop(e: Entry): int { e.0.1 }
  function Value(e: Entry): Val { e.1 }

  // ----- Sequences of intervals -----

  ghost predicate Sane(tr: Traits, s: seq<Entry>) {
    forall i :: 0 <= i < |s| ==> tr.NonEmpty(Start(s[i]), Stop(s[i]))
  }

  ghost predicate Ordered(tr: Traits, s: seq<Entry>) {
    forall i :: 0 <= i < |s| - 1 ==> tr.StopLess(Stop(s[i]), Start(s[i + 1]))
  }

  ghost predicate Sorted(tr: Traits, s: seq<Entry>) {
    Sane(tr, s) && Ordered(tr, s)
  }

  ghost predicate Coalesced(tr: Traits, s: seq<Entry>) {
    forall i :: 0 <= i < |s| - 1 ==> Value(s[i]) != Value(s[i + 1]) || !tr.Adjacent(Stop(s[i]), Start(s[i + 1]))
  }

  ghost predicate LeafOk(tr: Traits, s: seq<Entry>) {
    Sane(tr, s) && Ordered(tr, s) && Coalesced(tr, s)
  }

  ghost predicate Holds(tr: Traits, e: Entry, x: int, v: Val) {
    tr.Contains(Start(e), Stop(e), x) && Value(e) == v
  }

  /** The intervals map key x to v. */
  ghost predicate MapsTo(tr: Traits, s: seq<Entry>, x: int, v: Val) {
    exists i :: 0 <= i < |s| && Holds(tr, s[i], x, v)
  }

  lemma MapsToConcat(tr: Traits, p: seq<Entry>, q: seq<Entry>, x: int, v: Val)
    ensures MapsTo(tr, p + q, x, v) <==> MapsTo(tr, p, x, v) || MapsTo(tr, q, x, v)
  {
    var s := p + q;
    if MapsTo(tr, p, x, v) {
      var i :| 0 <= i < |p| && Holds(tr, p[i], x, v);
      assert s[i] == p[i];
    }
    if MapsTo(tr, q, x, v) {
      var i :| 0 <= i < |q| && Holds(tr, q[i], x, v);
      assert s[|p| + i] == q[i];
    }
  }

  lemma MapsToOne(tr: Traits, e: Entry, x: int, v: Val)
    ensures MapsTo(tr, [e], x, v) <==> Holds(tr, e, x, v)
  {
    if Holds(tr, e, x, v) {
      assert [e][0] == e;
    }
  }

  /** Order between neighbours is order between all pairs. */
  lemma {:induction false} OrderedPair(tr: Traits, s: seq<Entry>, i: nat, j: nat)
    requires Sane(tr, s) && Ordered(tr, s) && i < j < |s|
    ensures tr.StopLess(Stop(s[i]), Start(s[j]))
  {
    assert tr.StopLess(Stop(s[j - 1]), Start(s[j - 1 + 1]));
    if i < j - 1 {
      OrderedPair(tr, s, i, j - 1);
    }
  }

  // ----- Where an interval goes -----

  /** What insertFrom asserts: i is the first interval that does not end before a, and [a;b]
      ends before it starts. */
  ghost predicate InsertPoint(tr: Traits, s: seq<Entry>, i: nat, a: int, b: int) {
    && i <= |s| && tr.NonEmpty(a, b)
    && (i > 0 ==> tr.StopLess(Stop(s[i - 1]), a))
    && (i < |s| ==> !tr.StopLess(Stop(s[i]), a) && tr.StopLess(b, Start(s[i])))
  }

  predicate JoinsLeft(tr: Traits, s: seq<Entry>, i: nat, a: int, y: Val)
    requires i <= |s|
  {
    i > 0 && Value(s[i - 1]) == y && tr.Adjacent(Stop(s[i - 1]), a)
  }

  predicate JoinsRight(tr: Traits, s: seq<Entry>, i: nat, b: int, y: Val)
    requires i <= |s|
  {
    i < |s| && Value(s[i]) == y && tr.Adjacent(b, Start(s[i]))
  }

  /** The intervals with [a;b] -> y added at i, merged with the neighbours it touches. */
  function WithInterval(tr: Traits, s: seq<Entry>, i: nat, a: int, b: int, y: Val): (r: seq<Entry>)
    requires i <= |s|
  {
    var l, r := JoinsLeft(tr, s, i, a, y), JoinsRight(tr, s, i, b, y);
    var e := ((if l then Start(s[i - 1]) else a, if r then Stop(s[i]) else b), y);
    s[..if l then i - 1 else i] + [e] + s[if r then i + 1 else i..]
  }

  lemma NoneInside(tr: Traits, s: seq<Entry>, i: nat, a: int, b: int, x: int, v: Val)
    requires Sane(tr, s) && Ordered(tr, s) && InsertPoint(tr, s, i, a, b) && tr.Contains(a, b, x)
    ensures !MapsTo(tr, s, x, v)
  {
    forall k | 0 <= k < |s| ensures !Holds(tr, s[k], x, v) {
      if k < i - 1 {
        OrderedPair(tr, s, k, i - 1);
      } else if k > i {
        OrderedPair(tr, s, i, k);
      }
    }
  }

  lemma ThreeParts(s: seq<Entry>, lo: nat, hi: nat)
    requires lo <= hi <= |s|
    ensures s == (s[..lo] + s[lo..hi]) + s[hi..]
  {
  }

  /** It maps [a;b] to y and everything else as before. */
  lemma WithIntervalMaps(tr: Traits, s: seq<Entry>, i: nat, a: int, b: int, y: Val, x: int, v: Val)
    requires Sane(tr, s) && Ordered(tr, s) && InsertPoint(tr, s, i, a, b)
    ensures MapsTo(tr, WithInterval(tr, s, i, a, b, y), x, v) <==>
            if tr.Contains(a, b, x) then v == y else MapsTo(tr, s, x, v)
  {
    var l, r := JoinsLeft(tr, s, i, a, y), JoinsRight(tr, s, i, b, y);
    var lo, hi := if l then i - 1 else i, if r then i + 1 else i;
    var e := ((if l then Start(s[i - 1]) else a, if r then Stop(s[i]) else b), y);
    var p, mid, q := s[..lo], s[lo..hi], s[hi..];
    if tr.Contains(a, b, x) {
      NoneInside(tr, s, i, a, b, x, v);
    }
    ThreeParts(s, lo, hi);
    MapsToConcat(tr, p + mid, q, x, v);
    MapsToConcat(tr, p, mid, x, v);
    MapsToConcat(tr, p + [e], q, x, v);
    MapsToConcat(tr, p, [e], x, v);
    MapsToOne(tr, e, x, v);
    MiddleMaps(tr, s, i, a, b, y, x, v);
  }

  /** The merged interval stands for the new one and the ones it replaces. */
  lemma MiddleMaps(tr: Traits, s: seq<Entry>, i: nat, a: int, b: int, y: Val, x: int, v: Val)
    requires Sane(tr, s) && InsertPoint(tr, s, i, a, b)
    ensures var l, r := JoinsLeft(tr, s, i, a, y), JoinsRight(tr, s, i, b, y);
      var e := ((if l then Start(s[i - 1]) else a, if r then Stop(s[i]) else b), y);
      var mid := s[if l then i - 1 else i..if r then i + 1 else i];
      Holds(tr, e, x, v) <==> (tr.Contains(a, b, x) && v == y) || MapsTo(tr, mid, x, v)
  {
    var l, r := JoinsLeft(tr, s, i, a, y), JoinsRight(tr, s, i, b, y);
    var mid := s[if l then i - 1 else i..if r then i + 1 else i];
    if l {
      assert mid[0] == s[i - 1];
    }
    if r {
      assert mid[|mid| - 1] == s[i];
    }
    if l && r {
      assert mid == [s[i - 1]] + [s[i]];
      MapsToConcat(tr, [s[i - 1]], [s[i]], x, v);
      MapsToOne(tr, s[i - 1], x, v);
      MapsToOne(tr, s[i], x, v);
    } else if l {
      assert mid == [s[i - 1]];
      MapsToOne(tr, s[i - 1], x, v);
    } else if r {
      assert mid == [s[i]];
      MapsToOne(tr, s[i], x, v);
    }
  }

  /** e may stand right before f. */
  ghost predicate Neighbours(tr: Traits, e: Entry, f: Entry) {
    tr.StopLess(Stop(e), Start(f)) && (Value(e) != Value(f) || !tr.Adjacent(Stop(e), Start(f)))
  }

  lemma JoinOk(tr: Traits, p: seq<Entry>, e: Entry, q: seq<Entry>)
    requires LeafOk(tr, p) && LeafOk(tr, q) && tr.NonEmpty(Start(e), Stop(e))
    requires p != [] ==> Neighbours(tr, p[|p| - 1], e)
    requires q != [] ==> Neighbours(tr, e, q[0])
    ensures LeafOk(tr, p + [e] + q)
  {
    var s := p + [e] + q;
    forall i | 0 <= i < |s| - 1 ensures Neighbours(tr, s[i], s[i + 1]) {
      if i < |p| - 1 {
        assert s[i] == p[i] && s[i + 1] == p[i + 1];
      } else if i > |p| {
        var j := i - |p| - 1;
        assert s[i] == q[j] && s[i + 1] == q[j + 1];
      }
    }
  }

  lemma TakeOk(tr: Traits, s: seq<Entry>, i: nat)
    requires LeafOk(tr, s) && i <= |s|
    ensures LeafOk(tr, s[..i])
  {
  }

  lemma DropOk(tr: Traits, s: seq<Entry>, i: nat)
    requires LeafOk(tr, s) && i <= |s|
    ensures LeafOk(tr, s[i..])
  {
    var r := s[i..];
    forall k | 0 <= k < |r| - 1 ensures Neighbours(tr, r[k], r[k + 1]) {
      assert r[k] == s[i + k] && r[k + 1] == s[i + k + 1];
    }
  }

  /** It is sane, sorted and fully coalesced again. */
  lemma WithIntervalOk(tr: Traits, s: seq<Entry>, i: nat, a: int, b: int, y: Val)
    requires LeafOk(tr, s) && InsertPoint(tr, s, i, a, b)
    ensures LeafOk(tr, WithInterval(tr, s, i, a, b, y))
  {
    var l, r := JoinsLeft(tr, s, i, a, y), JoinsRight(tr, s, i, b, y);
    var lo, hi := if l then i - 1 else i, if r then i + 1 else i;
    var e := ((if l then Start(s[i - 1]) else a, if r then Stop(s[i]) else b), y);
    TakeOk(tr, s, lo);
    DropOk(tr, s, hi);
    assert i >= 2 ==> Neighbours(tr, s[i - 2], s[i - 2 + 1]);
    assert i + 1 < |s| ==> Neighbours(tr, s[i], s[i + 1]);
    JoinOk(tr, s[..lo], e, s[hi..]);
  }

  /** r stands for the intervals s with [a;b] -> y added. */
  ghost predicate Extends(tr: Traits, s: seq<Entry>, r: seq<Entry>, a: int, b: int, y: Val) {
    && LeafOk(tr, r)
    && forall x, v :: MapsTo(tr, r, x, v) <==> if a <= x && (if tr.Closed? then x <= b else x < b) then v == y else MapsTo(tr, s, x, v)
  }

  /** Some key lies between neighbours with equal values. */
  ghost predicate Spaced(tr: Traits, s: seq<Entry>) {
    forall i :: 0 <= i < |s| - 1 && Value(s[i]) == Value(s[i + 1]) ==>
      if tr.Closed? then Stop(s[i]) + 1 < Start(s[i + 1]) else Stop(s[i]) < Start(s[i + 1])
  }

  /** x is behind e and before f. */
  ghost predicate Between(tr: Traits, e: Entry, f: Entry, x: int) {
    Start(e) < x < Start(f) && !tr.Contains(Start(e), Stop(e), x)
  }

  ghost predicate Gap(tr: Traits, e: Entry, f: Entry) {
    exists x :: Between(tr, e, f, x)
  }

  lemma SpacedMeans(tr: Traits, s: seq<Entry>)
    requires Sane(tr, s)
    ensures Spaced(tr, s) <==> forall i :: 0 <= i < |s| - 1 && Value(s[i]) == Value(s[i + 1]) ==> Gap(tr, s[i], s[i + 1])
  {
    forall i | 0 <= i < |s| - 1
      ensures Gap(tr, s[i], s[i + 1]) <==>
              if tr.Closed? then Stop(s[i]) + 1 < Start(s[i + 1]) else Stop(s[i]) < Start(s[i + 1])
    {
      var x := if tr.Closed? then Stop(s[i]) + 1 else Stop(s[i]);
      assert x < Start(s[i + 1]) ==> Between(tr, s[i], s[i + 1], x);
    }
  }

  /** In a leaf that is in order, coalesced means spaced. */
  lemma CoalescedIsSpaced(tr: Traits, s: seq<Entry>)
    requires Sane(tr, s) && Ordered(tr, s)
    ensures Coalesced(tr, s) <==> Spaced(tr, s)
  {
  }

  /** No key of e touches the interval from a to b. */
  predicate Clear(tr: Traits, e: Entry, a: int, b: int) {
    if tr.Closed? then Stop(e) + 1 < a || b + 1 < Start(e) else Stop(e) < a || b < Start(e)
  }

  /** There is nothing to join when no interval with the value touches the new one. */
  lemma NothingToJoin(tr: Traits, s: seq<Entry>, i: nat, a: int, b: int, y: Val)
    requires LeafOk(tr, s) && InsertPoint(tr, s, i, a, b)
    ensures !JoinsLeft(tr, s, i, a, y) && !JoinsRight(tr, s, i, b, y) <==> forall k :: 0 <= k < |s| && Value(s[k]) == y ==> Clear(tr, s[k], a, b)
  {
    forall k | 0 <= k < |s| && k != i - 1 && k != i ensures Clear(tr, s[k], a, b) {
      if k < i {
        OrderedPair(tr, s, k, i - 1);
      } else {
        OrderedPair(tr, s, i, k);
      }
    }
  }

  lemma WithIntervalExtends(tr: Traits, s: seq<Entry>, i: nat, a: int, b: int, y: Val)
    requires LeafOk(tr, s) && InsertPoint(tr, s, i, a, b)
    ensures Extends(tr, s, WithInterval(tr, s, i, a, b, y), a, b, y) && Spaced(tr, WithInterval(tr, s, i, a, b, y))
  {
    CoalescedIsSpaced(tr, WithInterval(tr, s, i, a, b, y));
    WithIntervalOk(tr, s, i, a, b, y);
    hide MapsTo, WithInterval;
    forall x, v
      ensures MapsTo(tr, WithInterval(tr, s, i, a, b, y), x, v) <==>
              if a <= x && (if tr.Closed? then x <= b else x < b) then v == y else MapsTo(tr, s, x, v)
    {
      ContainsMeans(tr, a, b, x);
      WithIntervalMaps(tr, s, i, a, b, y, x, v);
    }
  }

  /** Closed: [3;4] joins [1;2] of the same value, and stays apart from it with another value.
      Half-open: [3;4) does not touch [1;2). */
  lemma JoiningExample()
    ensures var s := [((1, 2), 7)];
      && LeafOk(Closed, s) && LeafOk(HalfOpen, s) && InsertPoint(Closed, s, 1, 3, 4) && InsertPoint(HalfOpen, s, 1, 3, 4)
      && WithInterval(Closed, s, 1, 3, 4, 7) == [((1, 4), 7)]
      && WithInterval(Closed, s, 1, 3, 4, 8) == [((1, 2), 7), ((3, 4), 8)]
      && WithInterval(HalfOpen, s, 1, 3, 4, 7) == [((1, 2), 7), ((3, 4), 7)]
      && WithInterval(HalfOpen, s, 1, 2, 4, 7) == [((1, 4), 7)]
    ensures MapsTo(Closed, [((1, 4), 7)], 4, 7) && !MapsTo(HalfOpen, [((1, 4), 7)], 4, 7)
  {
    var s: seq<Entry> := [((1, 2), 7)];
    assert s[..0] == [] && s[..1] == s && s[1..] == [];
    MapsToOne(Closed, ((1, 4), 7), 4, 7);
    MapsToOne(HalfOpen, ((1, 4), 7), 4, 7);
  }

  // ----- Leaf nodes -----

  type LeafNode = NodeBase<(int, int), Val>

  /** findFrom: the first interval from i on that does not end before x. */
  method FindFrom(tr: Traits, leaf: LeafNode, i: nat, size: nat, x: int) returns (r: nat)
    requires leaf.Valid() && i <= size <= leaf.Capacity()
    requires i > 0 ==> tr.StopLess(Stop(leaf.Elem(i - 1)), x)
    ensures i <= r <= size
    ensures forall k :: i <= k < r ==> tr.StopLess(Stop(leaf.Elem(k)), x)
    ensures r < size ==> !tr.StopLess(Stop(leaf.Elem(r)), x)
  {
    r := i;
    while r != size && tr.StopLess(leaf.first[r].1, x)
      invariant i <= r <= size
      invariant forall k :: i <= k < r ==> tr.StopLess(Stop(leaf.Elem(k)), x)
    {
      r := r + 1;
    }
  }

  /** The case of insertFrom that closes the gap between intervals i - 1 and i. */
  method MergeNeighbours(leaf: LeafNode, i: nat, size: nat)
    requires leaf.Valid() && 0 < i < size <= leaf.Capacity()
    modifies leaf.first, leaf.second
    ensures var s := old(leaf.Slice(0, size));
      leaf.Slice(0, size - 1) == s[..i - 1] + [((Start(s[i - 1]), Stop(s[i])), Value(s[i - 1]))] + s[i + 1..]
  {
    ghost var l, r := leaf.Slice(0, i - 1), leaf.Slice(i + 1, size);
    assert leaf.Slice(0, size)[..i - 1] == l && leaf.Slice(0, size)[i + 1..] == r;
    leaf.first[i - 1] := (leaf.first[i - 1].0, leaf.first[i].1);
    assert leaf.Slice(0, i) == l + [leaf.Elem(i - 1)] && leaf.Slice(i + 1, size) == r;
    leaf.Erase(i, i + 1, size);
  }

  /** The cases of insertFrom that extend interval k. */
  method Rekey(leaf: LeafNode, k: nat, size: nat, a: int, b: int)
    requires leaf.Valid() && k < size <= leaf.Capacity()
    modifies leaf.first
    ensures var s := old(leaf.Slice(0, size)); leaf.Slice(0, size) == s[..k] + [((a, b), Value(s[k]))] + s[k + 1..]
  {
    leaf.first[k] := (a, b);
  }

  /** The case of insertFrom that adds an interval at the end. */
  method Append(leaf: LeafNode, size: nat, a: int, b: int, y: Val)
    requires leaf.Valid() && size < leaf.Capacity()
    modifies leaf.first, leaf.second
    ensures leaf.Slice(0, size + 1) == old(leaf.Slice(0, size)) + [((a, b), y)]
  {
    leaf.first[size] := (a, b);
    leaf.second[size] := y;
  }

  /** The last case of insertFrom: shift, then write. */
  method InsertBefore(leaf: LeafNode, i: nat, size: nat, a: int, b: int, y: Val)
    requires leaf.Valid() && i <= size < leaf.Capacity()
    modifies leaf.first, leaf.second
    ensures leaf.Slice(0, size + 1) == old(leaf.Slice(0, size)[..i] + [((a, b), y)] + leaf.Slice(0, size)[i..])
  {
    ghost var l, r := leaf.Slice(0, i), leaf.Slice(i, size);
    assert leaf.Slice(0, size)[..i] == l && leaf.Slice(0, size)[i..] == r;
    leaf.Shift(i, size);
    leaf.first[i] := (a, b);
    leaf.second[i] := y;
    assert leaf.Slice(0, i) == l;
    assert leaf.Slice(i + 1, size + 1) == r;
    assert leaf.Slice(0, size + 1) == leaf.Slice(0, i) + [leaf.Elem(i)] + leaf.Slice(i + 1, size + 1);
  }

  /** insertFrom: returns the insert position and the new size, or the given position and
      capacity + 1 when the leaf is full and neither neighbour can be extended. */
  method InsertFrom(tr: Traits, leaf: LeafNode, i: nat, size: nat, a: int, b: int, y: Val) returns (pos: nat, newSize: nat)
    requires leaf.Valid() && size <= leaf.Capacity()
    requires LeafOk(tr, leaf.Slice(0, size)) && InsertPoint(tr, leaf.Slice(0, size), i, a, b)
    modifies leaf.first, leaf.second
    ensures var s := old(leaf.Slice(0, size));
      if size == leaf.Capacity() && !JoinsLeft(tr, s, i, a, y) && !JoinsRight(tr, s, i, b, y)
      then newSize == leaf.Capacity() + 1 && pos == i && leaf.Slice(0, size) == s
      else
        && newSize <= leaf.Capacity() && pos < newSize && Extends(tr, s, leaf.Slice(0, newSize), a, b, y) && Spaced(tr, leaf.Slice(0, newSize))
        && leaf.Slice(0, newSize) == WithInterval(tr, s, i, a, b, y)
        && pos == if JoinsLeft(tr, s, i, a, y) then i - 1 else i
    ensures var s := old(leaf.Slice(0, size));
      newSize == leaf.Capacity() + 1 <==> size == leaf.Capacity() && forall k :: 0 <= k < size && Value(s[k]) == y ==> Clear(tr, s[k], a, b)
  {
    hide Extends, LeafOk, Spaced, Clear;
    ghost var s := leaf.Slice(0, size);
    NothingToJoin(tr, s, i, a, b, y);
    WithIntervalExtends(tr, s, i, a, b, y);
    pos := i;
    if i != 0 && leaf.second[i - 1] == y && tr.Adjacent(leaf.first[i - 1].1, a) {
      pos := i - 1;
      if i != size && leaf.second[i] == y && tr.Adjacent(b, leaf.first[i].0) {
        MergeNeighbours(leaf, i, size);
        return pos, size - 1;
      }
      Rekey(leaf, i - 1, size, leaf.first[i - 1].0, b);
      return pos, size;
    }
    if i == leaf.Capacity() {
      return pos, leaf.Capacity() + 1;
    }
    if i == size {
      Append(leaf, size, a, b, y);
      assert leaf.Slice(0, size + 1) == s[..i] + [((a, b), y)] + s[i..];
      return pos, size + 1;
    }
    if leaf.second[i] == y && tr.Adjacent(b, leaf.first[i].0) {
      Rekey(leaf, i, size, a, leaf.first[i].1);
      return pos, size;
    }
    if size == leaf.Capacity() {
      return pos, leaf.Capacity() + 1;
    }
    InsertBefore(leaf, i, size, a, b, y);
    return pos, size + 1;
  }
}
