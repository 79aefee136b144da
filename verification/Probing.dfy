/** The arithmetic of DenseMap: table sizes are powers of two, and adding 1, 2, 3, ... to
    a bucket number, modulo such a size, visits every bucket. */
module Probing {
  import opened Collections

  ghost predicate IsPow2(n: nat) {
    n == 1 || (n > 1 && n % 2 == 0 && IsPow2(n / 2))
  }

  function Pow2Above(a: nat, p: nat): (r: nat)
    requires p > 0
    decreases if a < p then 0 else a - p + 1
  {
    if a < p then p else Pow2Above(a, 2 * p)
  }

  /** NextPowerOf2, which the source computes by smearing the top bit downwards. */
  function NextPowerOf2(a: nat): (r: nat) {
    Pow2Above(a, 1)
  }

  lemma {:induction false} Pow2AboveSpec(a: nat, p: nat)
    requires IsPow2(p)
    ensures var r := Pow2Above(a, p); IsPow2(r) && a < r && (r == p || r / 2 <= a)
    decreases if a < p then 0 else a - p + 1
  {
    if a >= p {
      Pow2AboveSpec(a, 2 * p);
    }
  }

  /** The least power of two strictly above a. */
  lemma NextPowerOf2Spec(a: nat)
    ensures var r := NextPowerOf2(a); IsPow2(r) && a < r && (r == 1 || r / 2 <= a)
  {
    Pow2AboveSpec(a, 1);
  }

  /** No power of two lies strictly between another one and its double. */
  lemma {:induction false} Pow2Gap(p: nat, q: nat)
    requires IsPow2(p) && IsPow2(q) && p < q
    ensures 2 * p <= q
  {
    if p > 1 {
      Pow2Gap(p / 2, q / 2);
    }
  }

  lemma NextPowerOf2BelowPow2(n: nat)
    requires IsPow2(n)
    ensures NextPowerOf2(n - 1) == n
  {
    var r := NextPowerOf2(n - 1);
    NextPowerOf2Spec(n - 1);
    if r > n {
      Pow2Gap(n, r);
    }
  }

  lemma Pow2Twice(p: nat)
    requires IsPow2(p)
    ensures IsPow2(2 * p)
  {
  }

  /** What init makes of a count that already is a power of two. */
  lemma NextPowerOf2Double(s: nat)
    requires IsPow2(s) && s >= 4
    ensures NextPowerOf2(s * 4 / 3 + 1) == 2 * s
  {
    hide IsPow2;
    var r := NextPowerOf2(s * 4 / 3 + 1);
    NextPowerOf2Spec(s * 4 / 3 + 1);
    Pow2Twice(s);
    Pow2Gap(s, r);
    if r > 2 * s {
      Pow2Gap(2 * s, r);
    }
  }

  // ----- Triangular probing -----

  function Tri(i: nat): (r: nat) {
    if i == 0 then 0 else Tri(i - 1) + i
  }

  /** The bucket looked at after i steps. */
  function At(h: nat, i: nat, n: nat): (b: nat)
    requires n > 0
    ensures b < n
  {
    (h + Tri(i)) % n
  }

  lemma MultipleBounds(m: nat, c: int)
    ensures c >= 1 ==> m * c >= m
    ensures c <= 0 ==> m * c <= 0
  {
    if c >= 1 {
      assert m * c == m * (c - 1) + m;
    }
  }

  /** Quotient and remainder are unique. */
  lemma ModUnique(x: nat, q: int, r: nat, n: nat)
    requires r < n && x == n * q + r
    ensures x % n == r
  {
    var d := q - x / n;
    assert x == n * (x / n) + x % n;
    assert n * d == x % n - r by {
      assert n * d == n * q - n * (x / n);
    }
    MultipleBounds(n, d);
    MultipleBounds(n, -d);
    assert n * -d == -(n * d);
  }

  lemma ModAddMod(a: nat, b: nat, n: nat)
    requires n > 0
    ensures (a % n + b) % n == (a + b) % n
  {
    var y := a % n + b;
    assert a == n * (a / n) + a % n;
    assert y == n * (y / n) + y % n;
    assert a + b == n * (a / n + y / n) + y % n by {
      assert n * (a / n + y / n) == n * (a / n) + n * (y / n);
    }
    ModUnique(a + b, a / n + y / n, y % n, n);
  }

  lemma AtStep(h: nat, i: nat, n: nat)
    requires n > 0
    ensures At(h, i + 1, n) == (At(h, i, n) + (i + 1)) % n
    ensures At(h, 0, n) == h % n
  {
    ModAddMod(h + Tri(i), i + 1, n);
  }

  lemma {:induction false} TriDifference(i: nat, j: nat)
    requires i <= j
    ensures 2 * (Tri(j) - Tri(i)) == (j - i) * (j + i + 1)
  {
    if i < j {
      TriDifference(i, j - 1);
      assert (j - i) * (j + i + 1) == (j - 1 - i) * (j - 1 + i + 1) + 2 * j by {
        assert (j - 1 - i) * (j + i) == (j - i) * (j + i) - (j + i);
        assert (j - i) * (j + i + 1) == (j - i) * (j + i) + (j - i);
      }
    }
  }

  ghost predicate Divides(m: nat, x: int) {
    exists c: int :: x == m * c
  }

  lemma OddTimes(k: nat, b: nat)
    ensures (2 * k + 1) * b == 2 * (k * b) + b
  {
  }

  lemma OddTimesOdd(a: nat, b: nat)
    requires a % 2 == 1 && b % 2 == 1
    ensures (a * b) % 2 == 1
  {
    var k := a / 2;
    OddTimes(k, b);
    var x := k * b;
    assert a == 2 * k + 1 && a * b == 2 * x + b;
  }

  lemma TwiceLeft(x: int, y: int)
    ensures (2 * x) * y == 2 * (x * y)
  {
  }

  lemma TwiceRight(x: int, y: int)
    ensures x * (2 * y) == 2 * (x * y)
  {
  }

  /** A power of two that divides a product with one odd factor divides the other factor. */
  lemma {:induction false} OddFactor(m: nat, a: nat, b: nat)
    requires IsPow2(m) && a % 2 == 1 && Divides(m, a * b)
    ensures Divides(m, b)
  {
    if m == 1 {
      assert b == 1 * b;
    } else {
      var c: int :| a * b == m * c;
      var h, e := m / 2, b / 2;
      TwiceLeft(h, c);
      assert (a * b) % 2 == 0;
      if b % 2 == 1 {
        OddTimesOdd(a, b);
        assert false;
      }
      TwiceRight(a, e);
      assert Divides(h, a * e) by {
        assert a * e == h * c;
      }
      OddFactor(h, a, e);
      var f: int :| e == h * f;
      TwiceLeft(h, f);
      assert b == m * f;
    }
  }

  lemma SmallMultiple(m: nat, x: nat)
    requires 0 < x < m
    ensures !Divides(m, x)
  {
    forall c: int ensures x != m * c {
      MultipleBounds(m, c);
    }
  }

  /** Two factors of different parity, both below a power of two. */
  lemma SmallProduct(m: nat, d: nat, s: nat)
    requires IsPow2(m) && 0 < d < m && 0 < s < m && d % 2 != s % 2
    ensures !Divides(m, d * s)
  {
    if Divides(m, d * s) {
      if d % 2 == 1 {
        OddFactor(m, d, s);
        SmallMultiple(m, s);
      } else {
        assert s * d == d * s;
        OddFactor(m, s, d);
        SmallMultiple(m, d);
      }
    }
  }

  lemma SameRemainder(x: nat, y: nat, n: nat)
    requires n > 0 && x <= y && x % n == y % n
    ensures y - x == n * (y / n - x / n)
  {
    assert x == n * (x / n) + x % n;
    assert y == n * (y / n) + y % n;
  }

  lemma Regroup(n: nat, c: int)
    ensures 2 * (n * c) == (2 * n) * c
  {
  }

  lemma SameBucket(h: nat, i: nat, j: nat, n: nat)
    requires n > 0 && i <= j && At(h, i, n) == At(h, j, n)
    ensures Divides(2 * n, (j - i) * (j + i + 1))
  {
    TriDifference(i, j);
    TriMonotone(i, j);
    var x, y := h + Tri(i), h + Tri(j);
    SameRemainder(x, y, n);
    var c := y / n - x / n;
    Regroup(n, c);
    assert y - x == n * c;
    assert (j - i) * (j + i + 1) == (2 * n) * c;
  }

  lemma DoublePow2(n: nat)
    requires IsPow2(n)
    ensures IsPow2(2 * n)
  {
  }

  lemma AtInjective(h: nat, i: nat, j: nat, n: nat)
    requires IsPow2(n) && i < j < n
    ensures At(h, i, n) != At(h, j, n)
  {
    hide At, Divides, IsPow2;
    DoublePow2(n);
    SmallProduct(2 * n, j - i, j + i + 1);
    if At(h, i, n) == At(h, j, n) {
      SameBucket(h, i, j, n);
    }
  }

  lemma {:induction false} TriMonotone(i: nat, j: nat)
    requires i <= j
    ensures Tri(i) <= Tri(j)
  {
    if i < j {
      TriMonotone(i, j - 1);
    }
  }

  function Visited(h: nat, k: nat, n: nat): (r: set<nat>)
    requires n > 0
  {
    set i | 0 <= i < k :: At(h, i, n)
  }

  lemma {:induction false} VisitedSize(h: nat, k: nat, n: nat)
    requires IsPow2(n) && k <= n
    ensures |Visited(h, k, n)| == k && forall b :: b in Visited(h, k, n) ==> b < n
  {
    if k > 0 {
      VisitedSize(h, k - 1, n);
      forall i | 0 <= i < k - 1 ensures At(h, i, n) != At(h, k - 1, n) {
        AtInjective(h, i, k - 1, n);
      }
      assert Visited(h, k, n) == Visited(h, k - 1, n) + {At(h, k - 1, n)};
    }
  }

  lemma {:induction false} Below(n: nat) returns (s: set<nat>)
    ensures |s| == n && forall b: nat :: b in s <==> b < n
  {
    if n == 0 {
      s := {};
    } else {
      s := Below(n - 1);
      s := s + {n - 1};
    }
  }

  lemma {:induction false} FullSubset<T>(a: set<T>, b: set<T>)
    requires a <= b && |a| == |b|
    ensures a == b
  {
    if b - a != {} {
      var x :| x in b - a;
      SubsetSize(a, b - {x});
    }
  }

  /** Within n probes every bucket is visited. */
  lemma ProbingVisitsAll(h: nat, b: nat, n: nat) returns (i: nat)
    requires IsPow2(n) && b < n
    ensures i < n && At(h, i, n) == b
  {
    VisitedSize(h, n, n);
    var all := Below(n);
    FullSubset(Visited(h, n, n), all);
    assert b in Visited(h, n, n);
    i :| 0 <= i < n && At(h, i, n) == b;
  }
}
