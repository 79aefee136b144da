/** adjustSiblingSizes: moving elements between sibling nodes until every node has its
    requested size. */
module SiblingSizes {
  import opened Collections
  import opened NodeMoves

  // ----- Sizes and contents as values -----

  function Sum(s: seq<nat>): (n: nat) {
    if s == [] then 0 else Sum(s[..|s| - 1]) + s[|s| - 1]
  }

  function Flat<E>(parts: seq<seq<E>>): (s: seq<E>) {
    if parts == [] then [] else Flat(parts[..|parts| - 1]) + parts[|parts| - 1]
  }

  ghost predicate AtMost(s: seq<nat>, n: nat) {
    forall i :: 0 <= i < |s| ==> s[i] <= n
  }

  ghost predicate ZeroIn(s: seq<nat>, i: int, j: int) {
    forall k :: 0 <= i <= k < j && k < |s| ==> s[k] == 0
  }

  lemma {:induction false} SumUpdate(s: seq<nat>, i: nat, x: nat)
    requires i < |s|
    ensures Sum(s[i := x]) == Sum(s) - s[i] + x
  {
    var n := |s| - 1;
    if i < n {
      SumUpdate(s[..n], i, x);
      assert s[i := x][..n] == s[..n][i := x];
    } else {
      assert s[i := x][..n] == s[..n];
    }
  }

  lemma {:induction false} SumMonotone(a: seq<nat>, b: seq<nat>)
    requires |a| == |b| && forall i :: 0 <= i < |a| ==> a[i] <= b[i]
    ensures Sum(a) <= Sum(b)
    ensures Sum(a) == Sum(b) ==> a == b
  {
    if a != [] {
      var n := |a| - 1;
      SumMonotone(a[..n], b[..n]);
      assert a == a[..n] + [a[n]] && b == b[..n] + [b[n]];
    }
  }

  /** Empty nodes at the end add nothing. */
  lemma {:induction false} FlatTail<E>(parts: seq<seq<E>>, m: nat)
    requires m < |parts| && forall k :: m < k < |parts| ==> parts[k] == []
    ensures Flat(parts) == Flat(parts[..m]) + parts[m]
  {
    var n := |parts| - 1;
    if m < n {
      FlatTail(parts[..n], m);
      assert parts[..n][..m] == parts[..m];
    }
  }

  /** Moving elements between two nodes with only empty nodes between them. */
  lemma {:induction false} FlatMove<E>(a: seq<seq<E>>, b: seq<seq<E>>, m: nat, n: nat)
    requires |a| == |b| && m < n < |a| && forall k :: m < k < n ==> a[k] == []
    requires forall k :: 0 <= k < |a| && k != m && k != n ==> b[k] == a[k]
    requires b[m] + b[n] == a[m] + a[n]
    ensures Flat(b) == Flat(a)
  {
    var last := |a| - 1;
    if n < last {
      FlatMove(a[..last], b[..last], m, n);
    } else {
      FlatTail(a[..n], m);
      FlatTail(b[..n], m);
      assert a[..n][..m] == b[..n][..m];
      Assoc(Flat(a[..n][..m]), a[m], a[n]);
      Assoc(Flat(a[..n][..m]), b[m], b[n]);
    }
  }

  // ----- The siblings -----

  /** Nodes of equal capacity, no two of which share an array. */
  ghost predicate Siblings<T1(0), T2(0)>(nodes: seq<NodeBase<T1, T2>>, capacity: nat) {
    && (forall i :: 0 <= i < |nodes| ==> nodes[i].Valid() && nodes[i].Capacity() == capacity)
    && (forall i, j :: 0 <= i < |nodes| && 0 <= j < |nodes| && i != j ==> nodes[i].Apart(nodes[j]))
  }

  ghost function Arrays<T1(0), T2(0)>(nodes: seq<NodeBase<T1, T2>>): (r: set<object>) {
    (set n | n in nodes :: n.first as object) + (set n | n in nodes :: n.second as object)
  }

  /** The elements of each node. */
  ghost function Parts<T1(0), T2(0)>(nodes: seq<NodeBase<T1, T2>>, capacity: nat, sizes: seq<nat>): (r: seq<seq<(T1, T2)>>)
    requires Siblings(nodes, capacity) && |sizes| == |nodes| && AtMost(sizes, capacity)
    reads Arrays(nodes)
    ensures |r| == |nodes| && forall i :: 0 <= i < |nodes| ==> r[i] == nodes[i].Slice(0, sizes[i])
  {
    seq(|nodes|, i requires 0 <= i < |nodes| reads Arrays(nodes) => nodes[i].Slice(0, sizes[i]))
  }

  lemma InArrays<T1(0), T2(0)>(nodes: seq<NodeBase<T1, T2>>, i: nat)
    requires i < |nodes|
    ensures nodes[i].first in Arrays(nodes) && nodes[i].second in Arrays(nodes)
  {
  }

  function MovedSizes(s: seq<nat>, m: nat, n: nat, d: int): (r: seq<nat>)
    requires m < n < |s| && d <= s[m] && -d <= s[n]
  {
    s[m := s[m] - d][n := s[n] + d]
  }

  lemma MovedSum(s: seq<nat>, m: nat, n: nat, d: int)
    requires m < n < |s| && d <= s[m] && -d <= s[n]
    ensures Sum(MovedSizes(s, m, n, d)) == Sum(s)
  {
    hide Sum;
    var r := s[m := s[m] - d];
    SumUpdate(s, m, s[m] - d);
    SumUpdate(r, n, s[n] + d);
  }

  /** Number of elements that adjustFromLeftSib moves. */
  function Moved(capacity: nat, ssize: nat, size: nat, add: int): (d: int) {
    if add > 0 then Min(Min(add, ssize), capacity - size) else -Min(Min(-add, size), capacity - ssize)
  }

  /** One call of adjustFromLeftSib between nodes m and n of a row of siblings. */
  method MoveBetween<T1(0), T2(0)>(nodes: seq<NodeBase<T1, T2>>, capacity: nat, ghost s: seq<nat>, m: nat, n: nat, ssize: nat, size: nat, add: int) returns (d: int)
    requires Siblings(nodes, capacity) && |s| == |nodes| && AtMost(s, capacity)
    requires m < n < |nodes| && ZeroIn(s, m + 1, n) && ssize == s[m] && size == s[n]
    modifies Arrays(nodes)
    ensures d == Moved(capacity, s[m], s[n], add) && d <= s[m] && -d <= s[n]
    ensures AtMost(MovedSizes(s, m, n, d), capacity)
    ensures Flat(Parts(nodes, capacity, MovedSizes(s, m, n, d))) == old(Flat(Parts(nodes, capacity, s)))
  {
    hide Flat, Sum, Moved;
    MovedFits(capacity, s, m, n, add);
    ghost var a, s' := Parts(nodes, capacity, s), MovedSizes(s, m, n, Moved(capacity, s[m], s[n], add));
    InArrays(nodes, m);
    InArrays(nodes, n);
    assert nodes[n].Apart(nodes[m]);
    d := MovePair(nodes[m], nodes[n], capacity, ssize, size, add);
    ghost var b := Parts(nodes, capacity, s');
    assert b[m] + b[n] == a[m] + a[n];
    assert forall k :: 0 <= k < |nodes| && k != m && k != n ==> s'[k] == s[k];
    forall k | 0 <= k < |nodes| && k != m && k != n ensures b[k] == a[k] {
      ArraysApart(nodes, capacity, m, n, k);
    }
    hide AtMost, Parts, Siblings;
    FlatMove(a, b, m, n);
  }

  lemma ArraysApart<T1(0), T2(0)>(nodes: seq<NodeBase<T1, T2>>, capacity: nat, m: nat, n: nat, k: nat)
    requires Siblings(nodes, capacity) && m < |nodes| && n < |nodes| && k < |nodes| && k != m && k != n
    ensures {nodes[k].first as object, nodes[k].second as object} !! {nodes[m].first as object, nodes[m].second as object, nodes[n].first as object, nodes[n].second as object}
  {
    assert nodes[k].Apart(nodes[m]) && nodes[k].Apart(nodes[n]);
  }

  /** adjustFromLeftSib, its effect in terms of Moved. */
  method MovePair<T1(0), T2(0)>(left: NodeBase<T1, T2>, right: NodeBase<T1, T2>, capacity: nat, ssize: nat, size: nat, add: int) returns (d: int)
    requires right.Valid() && left.Valid() && right.Apart(left) && left.Capacity() == right.Capacity() == capacity
    requires size <= capacity && ssize <= capacity
    modifies left.first, left.second, right.first, right.second
    ensures d == Moved(capacity, ssize, size, add) && d <= ssize && -d <= size
    ensures left.Slice(0, ssize - d) + right.Slice(0, size + d) == old(left.Slice(0, ssize) + right.Slice(0, size))
  {
    d := right.AdjustFromLeftSib(size, left, ssize, add);
  }

  lemma MovedFits(capacity: nat, s: seq<nat>, m: nat, n: nat, add: int)
    requires m < n < |s| && AtMost(s, capacity)
    ensures var d := Moved(capacity, s[m], s[n], add);
      s[m] <= capacity && s[n] <= capacity && d <= s[m] && -d <= s[n] && AtMost(MovedSizes(s, m, n, d), capacity)
  {
  }

  // ----- The two passes -----

  /** What both passes keep: capacities, the total, and the concatenated contents. */
  ghost predicate Kept<T1(0), T2(0)>(nodes: seq<NodeBase<T1, T2>>, capacity: nat, s: seq<nat>, total: nat, flat: seq<(T1, T2)>)
    requires Siblings(nodes, capacity)
    reads Arrays(nodes)
  {
    |s| == |nodes| && AtMost(s, capacity) && Sum(s) == total && Flat(Parts(nodes, capacity, s)) == flat
  }

  /** Step with the size updates that follow every call of adjustFromLeftSib. */
  method MoveAndCount<T1(0), T2(0)>(nodes: seq<NodeBase<T1, T2>>, capacity: nat, cur: array<nat>, m: nat, n: nat, add: int, ghost total: nat, ghost flat: seq<(T1, T2)>)
    requires Siblings(nodes, capacity) && cur !in Arrays(nodes) && Kept(nodes, capacity, cur[..], total, flat)
    requires m < n < |nodes| && ZeroIn(cur[..], m + 1, n)
    modifies Arrays(nodes), cur
    ensures Kept(nodes, capacity, cur[..], total, flat)
    ensures var d := Moved(capacity, old(cur[m]), old(cur[n]), add); d <= old(cur[m]) && -d <= old(cur[n]) && cur[..] == MovedSizes(old(cur[..]), m, n, d)
  {
    hide Flat, Parts, Siblings, Sum;
    ghost var s := cur[..];
    var d := MoveBetween(nodes, capacity, s, m, n, cur[m], cur[n], add);
    MovedSum(s, m, n, d);
    cur[m] := cur[m] - d;
    cur[n] := cur[n] + d;
    assert cur[..] == MovedSizes(s, m, n, d);
  }

  /** The inner loop of the first pass, for a node n that has not its requested size. */
  method PullFromLeft<T1(0), T2(0)>(nodes: seq<NodeBase<T1, T2>>, capacity: nat, cur: array<nat>, n: nat, target: nat, ghost total: nat, ghost flat: seq<(T1, T2)>)
    requires Siblings(nodes, capacity) && cur !in Arrays(nodes) && Kept(nodes, capacity, cur[..], total, flat)
    requires 0 < n < |nodes| && cur[n] != target <= capacity
    modifies Arrays(nodes), cur
    ensures Kept(nodes, capacity, cur[..], total, flat)
    ensures cur[n] >= target || ZeroIn(cur[..], 0, n)
    ensures forall i :: n < i < |nodes| ==> cur[i] == old(cur[i])
    ensures ZeroIn(old(cur[..]), 0, n + 1) ==> cur[..] == old(cur[..])
  {
    hide Kept, Siblings, Arrays;
    LengthOfSizes(nodes, capacity, cur[..], total, flat);
    var m := n - 1;
    while m != -1
      invariant -1 <= m < n && cur.Length == |nodes| && Kept(nodes, capacity, cur[..], total, flat)
      invariant forall i :: n < i < |nodes| ==> cur[i] == old(cur[i])
      invariant ZeroIn(old(cur[..]), 0, n + 1) ==> cur[..] == old(cur[..])
      invariant ZeroIn(cur[..], m + 1, n) && (m < n - 1 ==> cur[n] < target)
      invariant AtMost(cur[..], capacity)
      decreases m + 1
    {
      ghost var s := cur[..];
      MoveAndCount(nodes, capacity, cur, m, n, target - cur[n], total, flat);
      LengthOfSizes(nodes, capacity, cur[..], total, flat);
      assert cur[m] == cur[..][m] && cur[n] == cur[..][n];
      assert forall k :: m < k < n ==> cur[k] == s[k];
      if cur[n] >= target { break; }
      m := m - 1;
    }
  }

  lemma LengthOfSizes<T1(0), T2(0)>(nodes: seq<NodeBase<T1, T2>>, capacity: nat, s: seq<nat>, total: nat, flat: seq<(T1, T2)>)
    requires Siblings(nodes, capacity) && Kept(nodes, capacity, s, total, flat)
    ensures |s| == |nodes| && AtMost(s, capacity) && Sum(s) == total
  {
  }

  /** The inner loop of the second pass, for a node n that is too small. */
  method PullFromRight<T1(0), T2(0)>(nodes: seq<NodeBase<T1, T2>>, capacity: nat, cur: array<nat>, n: nat, target: nat, ghost total: nat, ghost flat: seq<(T1, T2)>)
    requires Siblings(nodes, capacity) && cur !in Arrays(nodes) && Kept(nodes, capacity, cur[..], total, flat)
    requires n < |nodes| - 1 && cur.Length == |nodes| && cur[n] < target <= capacity
    modifies Arrays(nodes), cur
    ensures Kept(nodes, capacity, cur[..], total, flat)
    ensures cur[n] == target || (cur[n] < target && ZeroIn(cur[..], n + 1, |nodes|))
    ensures forall i :: 0 <= i < n ==> cur[i] == old(cur[i])
    ensures forall i :: n < i < |nodes| ==> cur[i] <= old(cur[i]) && (cur[i] == old(cur[i]) || ZeroIn(cur[..], n + 1, i))
  {
    hide Kept, Siblings, Arrays;
    LengthOfSizes(nodes, capacity, cur[..], total, flat);
    var m := n + 1;
    while m != |nodes|
      invariant n < m <= |nodes| && cur.Length == |nodes| && Kept(nodes, capacity, cur[..], total, flat)
      invariant forall i :: 0 <= i < n ==> cur[i] == old(cur[i])
      invariant forall i :: m <= i < |nodes| ==> cur[i] == old(cur[i])
      invariant forall i :: n < i < m ==> cur[i] == 0
      invariant cur[n] < target && AtMost(cur[..], capacity)
      decreases |nodes| - m
    {
      ghost var s := cur[..];
      MoveAndCount(nodes, capacity, cur, n, m, cur[n] - target, total, flat);
      LengthOfSizes(nodes, capacity, cur[..], total, flat);
      assert cur[m] == cur[..][m] && cur[n] == cur[..][n];
      assert forall k :: 0 <= k < |nodes| && k != m && k != n ==> cur[k] == s[k];
      if cur[n] >= target { break; }
      m := m + 1;
    }
  }

  /** After the first pass no node above node 0 is too small unless everything below it is empty. */
  ghost predicate Settled(s: seq<nat>, want: seq<nat>, lo: int, n: int) {
    |s| == |want| && forall i :: 0 <= n < i < |s| ==> s[i] >= want[i] || ZeroIn(s, lo, i)
  }

  /** So, with the nodes before n done, node n is not too large ... */
  lemma NoExcess(s: seq<nat>, want: seq<nat>, n: nat)
    requires Settled(s, want, n, n) && n < |s| && Sum(s) == Sum(want)
    requires forall i :: 0 <= i < n ==> s[i] == want[i]
    ensures s[n] <= want[n]
  {
    if s[n] > want[n] {
      forall i | 0 <= i < |s| ensures want[i] <= s[i] {
        assert i > n ==> !ZeroIn(s, n, i);
      }
      SumMonotone(want, s);
    }
  }

  /** ... and cannot stay too small when nothing is left to its right. */
  lemma NoShortage(s: seq<nat>, want: seq<nat>, n: nat)
    requires |s| == |want| && n < |s| && Sum(s) == Sum(want) && s[n] <= want[n] && ZeroIn(s, n + 1, |s|)
    requires forall i :: 0 <= i < n ==> s[i] == want[i]
    ensures s == want
  {
    SumMonotone(s, want);
  }

  /** adjustSiblingSizes, for at least one node: with equal totals and sizes within the
      capacity, every node gets its requested size, and the concatenation of all the
      elements stays the same. */
  method AdjustSiblingSizes<T1(0), T2(0)>(nodes: seq<NodeBase<T1, T2>>, capacity: nat, cur: array<nat>, want: seq<nat>)
    requires Siblings(nodes, capacity) && cur !in Arrays(nodes) && |nodes| > 0
    requires cur.Length == |want| == |nodes| && AtMost(cur[..], capacity) && AtMost(want, capacity)
    requires Sum(cur[..]) == Sum(want)
    modifies Arrays(nodes), cur
    ensures cur[..] == want
    ensures Flat(Parts(nodes, capacity, want)) == old(Flat(Parts(nodes, capacity, cur[..])))
  {
    ghost var total, flat := Sum(want), Flat(Parts(nodes, capacity, cur[..]));
    assert Kept(nodes, capacity, cur[..], total, flat);
    FirstPass(nodes, capacity, cur, want, total, flat);
    SecondPass(nodes, capacity, cur, want, total, flat);
  }

  method FirstPass<T1(0), T2(0)>(nodes: seq<NodeBase<T1, T2>>, capacity: nat, cur: array<nat>, want: seq<nat>, ghost total: nat, ghost flat: seq<(T1, T2)>)
    requires Siblings(nodes, capacity) && cur !in Arrays(nodes) && |nodes| > 0
    requires cur.Length == |want| == |nodes| && AtMost(want, capacity) && Kept(nodes, capacity, cur[..], total, flat)
    modifies Arrays(nodes), cur
    ensures Kept(nodes, capacity, cur[..], total, flat) && Settled(cur[..], want, 0, 0)
  {
    hide Kept, Siblings, Arrays;
    var n := |nodes| - 1;
    while n != 0
      invariant 0 <= n < |nodes| && Kept(nodes, capacity, cur[..], total, flat)
      invariant forall i :: n < i < |nodes| ==> cur[i] >= want[i] || ZeroIn(cur[..], 0, i)
      decreases n
    {
      if cur[n] != want[n] {
        ghost var s := cur[..];
        PullFromLeft(nodes, capacity, cur, n, want[n], total, flat);
        forall i | n <= i < |nodes| ensures cur[i] >= want[i] || ZeroIn(cur[..], 0, i) {
          if i > n && ZeroIn(s, 0, i) {
            assert ZeroIn(s, 0, n + 1);
          }
        }
      }
      n := n - 1;
    }
  }

  method SecondPass<T1(0), T2(0)>(nodes: seq<NodeBase<T1, T2>>, capacity: nat, cur: array<nat>, want: seq<nat>, ghost total: nat, ghost flat: seq<(T1, T2)>)
    requires Siblings(nodes, capacity) && cur !in Arrays(nodes) && |nodes| > 0
    requires cur.Length == |want| == |nodes| && AtMost(want, capacity) && Kept(nodes, capacity, cur[..], total, flat)
    requires total == Sum(want) && Settled(cur[..], want, 0, 0)
    modifies Arrays(nodes), cur
    ensures Kept(nodes, capacity, cur[..], total, flat) && cur[..] == want
  {
    hide Kept, Siblings, Arrays;
    var n := 0;
    while n != |nodes| - 1
      invariant 0 <= n < |nodes| && Kept(nodes, capacity, cur[..], total, flat)
      invariant forall i :: 0 <= i < n ==> cur[i] == want[i]
      invariant Settled(cur[..], want, n, n)
      decreases |nodes| - n
    {
      LengthOfSizes(nodes, capacity, cur[..], total, flat);
      NoExcess(cur[..], want, n);
      if cur[n] != want[n] {
        ghost var s := cur[..];
        PullFromRight(nodes, capacity, cur, n, want[n], total, flat);
        LengthOfSizes(nodes, capacity, cur[..], total, flat);
        if cur[n] != want[n] {
          NoShortage(cur[..], want, n);
        }
        forall i | n + 1 < i < |nodes| ensures cur[i] >= want[i] || ZeroIn(cur[..], n + 1, i) {
          assert s[i] >= want[i] || ZeroIn(s, n, i);
        }
      } else {
        SettledNext(cur[..], want, n);
      }
      n := n + 1;
    }
    LengthOfSizes(nodes, capacity, cur[..], total, flat);
    NoExcess(cur[..], want, n);
    NoShortage(cur[..], want, n);
  }

  lemma SettledNext(s: seq<nat>, want: seq<nat>, n: nat)
    requires Settled(s, want, n, n)
    ensures Settled(s, want, n + 1, n + 1)
  {
    forall i | n + 1 < i < |s| ensures s[i] >= want[i] || ZeroIn(s, n + 1, i) {
      assert s[i] >= want[i] || ZeroIn(s, n, i);
    }
  }
}
