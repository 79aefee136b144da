/** IntervalMapOverlaps: enumerating the overlapping intervals of two maps. A map is the
    sequence of its intervals, and a position in it an index, its length being the end. */
module IntervalOverlaps {
  import opened IntervalLeaf

  /** Neither interval ends before the other begins. */
  ghost predicate Overlap(tr: Traits, e: Entry, f: Entry) {
    !tr.StopLess(Stop(e), Start(f)) && !tr.StopLess(Stop(f), Start(e))
  }

  /** Intervals i of a and j of b overlap. */
  ghost predicate Pair(tr: Traits, a: seq<Entry>, b: seq<Entry>, i: int, j: int) {
    0 <= i < |a| && 0 <= j < |b| && Overlap(tr, a[i], b[j])
  }

  /** No overlap at or after positions (p, q) is lost by moving to (p', q'). */
  ghost predicate NoneLost(tr: Traits, a: seq<Entry>, b: seq<Entry>, p: int, q: int, p': int, q': int) {
    forall i, j :: p <= i && q <= j && Pair(tr, a, b, i, j) ==> p' <= i && q' <= j
  }

  lemma NoneLostRefl(tr: Traits, a: seq<Entry>, b: seq<Entry>, p: int, q: int)
    ensures NoneLost(tr, a, b, p, q, p, q)
  {
  }

  lemma NoneLostTrans(tr: Traits, a: seq<Entry>, b: seq<Entry>, p: int, q: int, p': int, q': int, p'': int, q'': int)
    requires NoneLost(tr, a, b, p, q, p', q') && NoneLost(tr, a, b, p', q', p'', q'')
    ensures NoneLost(tr, a, b, p, q, p'', q'')
  {
  }

  lemma EarlierEndsFirst(tr: Traits, s: seq<Entry>, i: nat, j: nat)
    requires Sorted(tr, s) && i < j < |s|
    ensures tr.StopLess(Stop(s[i]), Start(s[j])) && Stop(s[i]) <= Start(s[j]) <= Stop(s[j])
  {
    OrderedPair(tr, s, i, j);
  }

  /** const_iterator::advanceTo, and find when it starts at 0: the first interval from the
      position on that does not end before x. */
  method AdvanceTo(tr: Traits, s: seq<Entry>, pos: nat, x: int) returns (r: nat)
    requires pos <= |s| && (pos > 0 ==> tr.StopLess(Stop(s[pos - 1]), x))
    ensures pos <= r <= |s|
    ensures forall k :: pos <= k < r ==> tr.StopLess(Stop(s[k]), x)
    ensures r < |s| ==> !tr.StopLess(Stop(s[r]), x)
    ensures r > 0 ==> tr.StopLess(Stop(s[r - 1]), x)
  {
    r := pos;
    while r != |s| && tr.StopLess(Stop(s[r]), x)
      invariant pos <= r <= |s|
      invariant forall k :: pos <= k < r ==> tr.StopLess(Stop(s[k]), x)
    {
      r := r + 1;
    }
  }

  /** Catching up with the other map's interval loses no overlap. */
  lemma CatchUpA(tr: Traits, a: seq<Entry>, b: seq<Entry>, p: nat, q: nat, r: nat)
    requires Sorted(tr, a) && Sorted(tr, b) && p <= r <= |a| && q < |b|
    requires forall k :: p <= k < r ==> tr.StopLess(Stop(a[k]), Start(b[q]))
    ensures NoneLost(tr, a, b, p, q, r, q)
  {
    forall i, j | p <= i && q <= j && Pair(tr, a, b, i, j) ensures r <= i {
      if j > q {
        EarlierEndsFirst(tr, b, q, j);
      }
    }
  }

  lemma CatchUpB(tr: Traits, a: seq<Entry>, b: seq<Entry>, p: nat, q: nat, r: nat)
    requires Sorted(tr, a) && Sorted(tr, b) && q <= r <= |b| && p < |a|
    requires forall k :: q <= k < r ==> tr.StopLess(Stop(b[k]), Start(a[p]))
    ensures NoneLost(tr, a, b, p, q, p, r)
  {
    forall i, j | p <= i && q <= j && Pair(tr, a, b, i, j) ensures r <= j {
      if i > p {
        EarlierEndsFirst(tr, a, p, i);
      }
    }
  }

  /** The interval that ends first has no further overlap. */
  lemma FirstToEnd(tr: Traits, a: seq<Entry>, b: seq<Entry>, p: nat, q: nat)
    requires Sorted(tr, a) && Sorted(tr, b) && p < |a| && q < |b|
    ensures Stop(a[p]) <= Stop(b[q]) ==> forall j :: Pair(tr, a, b, p, j) && q <= j ==> j == q
    ensures Stop(b[q]) < Stop(a[p]) ==> forall i :: Pair(tr, a, b, i, q) && p <= i ==> i == p
  {
    forall j | q < j < |b| && Stop(a[p]) <= Stop(b[q]) ensures !Pair(tr, a, b, p, j) {
      EarlierEndsFirst(tr, b, q, j);
    }
    forall i | p < i < |a| && Stop(b[q]) < Stop(a[p]) ensures !Pair(tr, a, b, i, q) {
      EarlierEndsFirst(tr, a, p, i);
    }
  }

  class Overlaps {
    const tr: Traits
    const a: seq<Entry>
    const b: seq<Entry>
    var posA: nat
    var posB: nat

    ghost predicate InRange()
      reads this
    {
      Sorted(tr, a) && Sorted(tr, b) && posA <= |a| && posB <= |b|
    }

    predicate IsValid()
      reads this
    {
      posA < |a| && posB < |b|
    }

    /** Whenever the iterator is not at the end, it stands on an overlap. */
    ghost predicate Valid()
      reads this
    {
      InRange() && (IsValid() ==> Pair(tr, a, b, posA, posB))
    }

    constructor (tr: Traits, a: seq<Entry>, b: seq<Entry>)
      requires Sorted(tr, a) && Sorted(tr, b)
      ensures Valid() && this.tr == tr && this.a == a && this.b == b
      ensures NoneLost(tr, a, b, 0, 0, posA, posB)
    {
      this.tr, this.a, this.b := tr, a, b;
      posA, posB := |a|, |b|;
      new;
      if |b| > 0 {
        posA := AdvanceTo(tr, a, 0, Start(b[0]));
        CatchUpA(tr, a, b, 0, 0, posA);
        if posA < |a| {
          posB := AdvanceTo(tr, b, 0, Start(a[posA]));
          CatchUpB(tr, a, b, posA, 0, posB);
        }
      }
      Advance();
    }

    /** advance: moves forward to the next overlap, or until one map ends. */
    method Advance()
      requires InRange()
      modifies this`posA, this`posB
      ensures Valid() && posA >= old(posA) && posB >= old(posB)
      ensures NoneLost(tr, a, b, old(posA), old(posB), posA, posB)
    {
      hide Sorted, NoneLost;
      ghost var p, q := posA, posB;
      NoneLostRefl(tr, a, b, p, q);
      if !IsValid() {
        return;
      }
      if tr.StopLess(Stop(a[posA]), Start(b[posB])) {
        BehindPrevious(tr, a, posA, Start(b[posB]));
        var done := CatchUpWithB(p, q);
        if done {
          return;
        }
      } else if tr.StopLess(Stop(b[posB]), Start(a[posA])) {
        BehindPrevious(tr, b, posB, Start(a[posA]));
        var done := CatchUpWithA(p, q);
        if done {
          return;
        }
      } else {
        return;
      }
      while true
        invariant InRange() && IsValid() && posA >= p && posB >= q && NoneLost(tr, a, b, p, q, posA, posB)
        invariant posA > 0 ==> tr.StopLess(Stop(a[posA - 1]), Start(b[posB]))
        decreases |b| - posB
      {
        var done := CatchUpWithB(p, q);
        if done {
          return;
        }
        done := CatchUpWithA(p, q);
        if done {
          return;
        }
      }
    }

    /** posA.advanceTo(posB.start()), and whether that ends the search, which started at (p, q). */
    method CatchUpWithB(ghost p: nat, ghost q: nat) returns (done: bool)
      requires InRange() && IsValid() && (posA > 0 ==> tr.StopLess(Stop(a[posA - 1]), Start(b[posB])))
      requires NoneLost(tr, a, b, p, q, posA, posB)
      modifies this`posA
      ensures InRange() && posA >= old(posA) && NoneLost(tr, a, b, p, q, posA, posB)
      ensures posA > 0 ==> tr.StopLess(Stop(a[posA - 1]), Start(b[posB]))
      ensures if done then Valid() else
        IsValid() && tr.StopLess(Stop(b[posB]), Start(a[posA])) && (posB > 0 ==> tr.StopLess(Stop(b[posB - 1]), Start(a[posA])))
    {
      hide Sorted, NoneLost;
      ghost var r := posA;
      posA := AdvanceTo(tr, a, posA, Start(b[posB]));
      CatchUpA(tr, a, b, r, posB, posA);
      NoneLostTrans(tr, a, b, p, q, r, posB, posA, posB);
      done := posA == |a| || !tr.StopLess(Stop(b[posB]), Start(a[posA]));
      if !done {
        BehindPrevious(tr, b, posB, Start(a[posA]));
      }
    }

    /** posB.advanceTo(posA.start()), the same for the other position. */
    method CatchUpWithA(ghost p: nat, ghost q: nat) returns (done: bool)
      requires InRange() && IsValid() && (posB > 0 ==> tr.StopLess(Stop(b[posB - 1]), Start(a[posA])))
      requires tr.StopLess(Stop(b[posB]), Start(a[posA])) && NoneLost(tr, a, b, p, q, posA, posB)
      modifies this`posB
      ensures InRange() && posB > old(posB) && NoneLost(tr, a, b, p, q, posA, posB)
      ensures if done then Valid() else
        IsValid() && tr.StopLess(Stop(a[posA]), Start(b[posB])) && (posA > 0 ==> tr.StopLess(Stop(a[posA - 1]), Start(b[posB])))
    {
      hide Sorted, NoneLost;
      ghost var r := posB;
      posB := AdvanceTo(tr, b, posB, Start(a[posA]));
      CatchUpB(tr, a, b, posA, r, posB);
      NoneLostTrans(tr, a, b, p, q, posA, r, posA, posB);
      done := posB == |b| || !tr.StopLess(Stop(a[posA]), Start(b[posB]));
      if !done {
        BehindPrevious(tr, a, posA, Start(b[posB]));
      }
    }

    /** skipA: the next overlap that does not involve the current interval of a. */
    method SkipA()
      requires Valid() && IsValid()
      modifies this`posA, this`posB
      ensures Valid() && posA > old(posA) && posB >= old(posB)
      ensures NoneLost(tr, a, b, old(posA) + 1, old(posB), posA, posB)
    {
      posA := posA + 1;
      Advance();
    }

    /** skipB. */
    method SkipB()
      requires Valid() && IsValid()
      modifies this`posA, this`posB
      ensures Valid() && posA >= old(posA) && posB > old(posB)
      ensures NoneLost(tr, a, b, old(posA), old(posB) + 1, posA, posB)
    {
      posB := posB + 1;
      Advance();
    }

    /** operator++: no overlap but the current one is passed. */
    method Next()
      requires Valid() && IsValid()
      modifies this`posA, this`posB
      ensures Valid() && posA >= old(posA) && posB >= old(posB) && posA + posB > old(posA + posB)
      ensures forall i, j :: old(posA) <= i && old(posB) <= j && Pair(tr, a, b, i, j)
                ==> (i == old(posA) && j == old(posB)) || (posA <= i && posB <= j)
    {
      FirstToEnd(tr, a, b, posA, posB);
      if tr.StartLess(Stop(b[posB]), Stop(a[posA])) {
        SkipB();
      } else {
        SkipA();
      }
    }

    /** advanceTo: the first overlap of which neither interval ends before x. */
    method AdvanceBothTo(x: int)
      requires Valid()
      modifies this`posA, this`posB
      ensures Valid() && posA >= old(posA) && posB >= old(posB)
      ensures forall i, j :: old(posA) <= i && old(posB) <= j && Pair(tr, a, b, i, j) && !tr.StopLess(Stop(a[i]), x) && !tr.StopLess(Stop(b[j]), x)
                ==> posA <= i && posB <= j
      ensures IsValid() ==> !tr.StopLess(Stop(a[posA]), x) && !tr.StopLess(Stop(b[posB]), x)
    {
      hide Sorted, NoneLost;
      if !IsValid() {
        return;
      }
      hide Pair;
      ghost var p0, q0 := posA, posB;
      if tr.StopLess(Stop(a[posA]), x) {
        BehindPrevious(tr, a, posA, x);
        posA := AdvanceTo(tr, a, posA, x);
      }
      if tr.StopLess(Stop(b[posB]), x) {
        BehindPrevious(tr, b, posB, x);
        posB := AdvanceTo(tr, b, posB, x);
      }
      ghost var p, q := posA, posB;
      Advance();
      LaterStops(tr, a, p, posA, x);
      LaterStops(tr, b, q, posB, x);
      PassedBoth(tr, a, b, p0, q0, p, q, posA, posB, x);
    }

    /** start() and stop(): precisely the keys that both intervals contain. */
    method Intersection() returns (start: int, stop: int)
      requires Valid() && IsValid()
      ensures tr.NonEmpty(start, stop)
      ensures forall x :: tr.Contains(start, stop, x) <==>
                tr.Contains(Start(a[posA]), Stop(a[posA]), x) && tr.Contains(Start(b[posB]), Stop(b[posB]), x)
    {
      start := if tr.StartLess(Start(a[posA]), Start(b[posB])) then Start(b[posB]) else Start(a[posA]);
      stop := if tr.StartLess(Stop(a[posA]), Stop(b[posB])) then Stop(a[posA]) else Stop(b[posB]);
    }
  }

  /** What the position before a given one satisfies, as advanceTo demands. */
  lemma BehindPrevious(tr: Traits, s: seq<Entry>, p: nat, x: int)
    requires Sorted(tr, s) && p < |s| && tr.StopLess(Stop(s[p]), x)
    ensures p > 0 ==> tr.StopLess(Stop(s[p - 1]), x)
  {
    if p > 0 {
      EarlierEndsFirst(tr, s, p - 1, p);
    }
  }

  /** Going from (p0, q0) to (p, q) passes only intervals that end before x. */
  lemma PassedBoth(tr: Traits, a: seq<Entry>, b: seq<Entry>, p0: int, q0: int, p: int, q: int, p': int, q': int, x: int)
    requires forall k :: 0 <= p0 <= k < p && k < |a| ==> tr.StopLess(Stop(a[k]), x)
    requires forall k :: 0 <= q0 <= k < q && k < |b| ==> tr.StopLess(Stop(b[k]), x)
    requires NoneLost(tr, a, b, p, q, p', q') && 0 <= p0 && 0 <= q0
    ensures forall i, j :: p0 <= i && q0 <= j && Pair(tr, a, b, i, j) && !tr.StopLess(Stop(a[i]), x) && !tr.StopLess(Stop(b[j]), x)
              ==> p' <= i && q' <= j
  {
  }

  lemma LaterStops(tr: Traits, s: seq<Entry>, p: nat, q: nat, x: int)
    requires Sorted(tr, s) && p <= q
    ensures q < |s| && !tr.StopLess(Stop(s[p]), x) ==> !tr.StopLess(Stop(s[q]), x)
  {
    if p < q < |s| {
      EarlierEndsFirst(tr, s, p, q);
    }
  }

  /** for (I(a, b); I.valid(); ++I): every overlapping pair exactly once, in the order of both maps. */
  method AllOverlaps(tr: Traits, a: seq<Entry>, b: seq<Entry>) returns (pairs: seq<(nat, nat)>)
    requires Sorted(tr, a) && Sorted(tr, b)
    ensures forall i: nat, j: nat :: (i, j) in pairs <==>
              (i < |a| && j < |b| && if tr.Closed? then Start(a[i]) <= Stop(b[j]) && Start(b[j]) <= Stop(a[i]) else Start(a[i]) < Stop(b[j]) && Start(b[j]) < Stop(a[i]))
    ensures forall k, l :: 0 <= k < l < |pairs| ==> pairs[k].0 <= pairs[l].0 && pairs[k].1 <= pairs[l].1 && pairs[k] != pairs[l]
  {
    hide Overlap, Sorted;
    var it := new Overlaps(tr, a, b);
    pairs := [];
    while it.IsValid()
      invariant fresh(it) && it.Valid() && it.tr == tr && it.a == a && it.b == b
      invariant forall i, j :: (i, j) in pairs ==> Pair(tr, a, b, i, j) && Before(i, j, it.posA, it.posB)
      invariant forall i, j :: Pair(tr, a, b, i, j) ==> (i, j) in pairs || (it.posA <= i && it.posB <= j)
      invariant Ascending(pairs)
      decreases |a| + |b| - it.posA - it.posB
    {
      AscendingAppend(pairs, it.posA, it.posB);
      pairs := pairs + [(it.posA, it.posB)];
      it.Next();
    }
    PairMeans(tr, a, b);
  }

  /** When two intervals overlap, in plain comparisons. */
  lemma PairMeans(tr: Traits, a: seq<Entry>, b: seq<Entry>)
    ensures forall i, j :: Pair(tr, a, b, i, j) <==>
              (0 <= i < |a| && 0 <= j < |b| && if tr.Closed? then Start(a[i]) <= Stop(b[j]) && Start(b[j]) <= Stop(a[i]) else Start(a[i]) < Stop(b[j]) && Start(b[j]) < Stop(a[i]))
  {
  }

  ghost predicate Common(tr: Traits, e: Entry, f: Entry, x: int) {
    tr.Contains(Start(e), Stop(e), x) && tr.Contains(Start(f), Stop(f), x)
  }

  /** Two intervals overlap exactly when some key is in both. */
  lemma OverlapMeans(tr: Traits, e: Entry, f: Entry)
    requires tr.NonEmpty(Start(e), Stop(e)) && tr.NonEmpty(Start(f), Stop(f))
    ensures Overlap(tr, e, f) <==> exists x :: Common(tr, e, f, x)
  {
    var x := if Start(e) < Start(f) then Start(f) else Start(e);
    assert Overlap(tr, e, f) ==> Common(tr, e, f, x);
  }

  /** (i, j) comes before (p, q) in both maps' order, and differs from it. */
  ghost predicate Before(i: int, j: int, p: int, q: int) {
    i <= p && j <= q && (i, j) != (p, q)
  }

  ghost predicate Ascending(pairs: seq<(nat, nat)>) {
    forall k, l :: 0 <= k < l < |pairs| ==> Before(pairs[k].0, pairs[k].1, pairs[l].0, pairs[l].1)
  }

  lemma AscendingAppend(pairs: seq<(nat, nat)>, p: nat, q: nat)
    requires Ascending(pairs) && forall i, j :: (i, j) in pairs ==> Before(i, j, p, q)
    ensures Ascending(pairs + [(p, q)])
  {
    forall k | 0 <= k < |pairs| ensures Before(pairs[k].0, pairs[k].1, p, q) {
      assert (pairs[k].0, pairs[k].1) in pairs;
    }
  }
}
