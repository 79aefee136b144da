/** DenseMap: an open-addressing hash table with tombstones and quadratic probing,
    proved to be a finite map. */
module DenseMaps {
  import opened Probing
  import opened Collections

  /** A bucket holds the empty key, the tombstone key, or a key and its value. */
  datatype Bucket<K, V> = Empty | Tombstone | Live(key: K, value: V)

  // ----- Tables as values -----

  /** The first i buckets probed for hash h are not empty. */
  ghost predicate OnPath<K(!new), V(!new)>(t: seq<Bucket<K, V>>, h: nat, i: nat) {
    forall j :: 0 <= j < i && |t| > 0 ==> t[At(h, j, |t|)] != Empty
  }

  /** Bucket b is where the probe for h stands after i steps, with no empty bucket before it. */
  ghost predicate ProbedAt<K(!new), V(!new)>(t: seq<Bucket<K, V>>, h: nat, b: nat, i: nat) {
    |t| > 0 && At(h, i, |t|) == b && OnPath(t, h, i)
  }

  ghost predicate Placed<K(!new), V(!new)>(t: seq<Bucket<K, V>>, h: nat, b: nat) {
    exists i: nat :: ProbedAt(t, h, b, i)
  }

  /** Bucket b is the first one on the probe path for h that holds no key, after i steps. */
  ghost predicate FreeAt<K(!new), V(!new)>(t: seq<Bucket<K, V>>, h: nat, b: nat, i: nat) {
    && b < |t| && At(h, i, |t|) == b && !t[b].Live?
    && forall j :: 0 <= j < i ==> t[At(h, j, |t|)].Live?
  }

  ghost predicate FirstFree<K(!new), V(!new)>(t: seq<Bucket<K, V>>, h: nat, b: nat) {
    exists i: nat :: FreeAt(t, h, b, i)
  }

  ghost predicate AllPlaced<K(!new), V(!new)>(hash: K -> nat, t: seq<Bucket<K, V>>) {
    forall b :: 0 <= b < |t| && t[b].Live? ==> Placed(t, hash(t[b].key), b)
  }

  ghost predicate HasKey<K(!new), V(!new)>(t: seq<Bucket<K, V>>, k: K, v: V) {
    Live(k, v) in t
  }

  /** The live buckets hold exactly the entries of m, each key once. */
  ghost predicate Represents<K(!new), V(!new)>(t: seq<Bucket<K, V>>, m: map<K, V>) {
    && (forall b :: 0 <= b < |t| && t[b].Live? ==> t[b].key in m && m[t[b].key] == t[b].value)
    && (forall k :: k in m ==> HasKey(t, k, m[k]))
    && (forall a, b :: 0 <= a < b < |t| && t[a].Live? && t[b].Live? ==> t[a].key != t[b].key)
  }

  ghost function LiveAt<K(!new), V(!new)>(t: seq<Bucket<K, V>>): (r: set<nat>) {
    set b: nat | b < |t| && t[b].Live?
  }

  ghost function TombstonesAt<K(!new), V(!new)>(t: seq<Bucket<K, V>>): (r: set<nat>) {
    set b: nat | b < |t| && t[b].Tombstone?
  }

  /** The counters are exact, and some bucket of an allocated table is empty. */
  ghost predicate Counted<K(!new), V(!new)>(t: seq<Bucket<K, V>>, m: map<K, V>, entries: nat, tombstones: nat) {
    && |LiveAt(t)| == entries == |m| && |TombstonesAt(t)| == tombstones
    && (|t| == 0 || (IsPow2(|t|) && entries + tombstones < |t|))
  }

  ghost predicate TableOk<K(!new), V(!new)>(hash: K -> nat, t: seq<Bucket<K, V>>, m: map<K, V>, entries: nat, tombstones: nat) {
    AllPlaced(hash, t) && Represents(t, m) && Counted(t, m, entries, tombstones)
  }

  lemma NoBuckets<K(!new), V(!new)>(hash: K -> nat, t: seq<Bucket<K, V>>, m: map<K, V>, entries: nat, tombstones: nat, k: K)
    requires TableOk(hash, t, m, entries, tombstones) && |t| == 0
    ensures k !in m
  {
    assert forall v :: !HasKey(t, k, v);
  }

  lemma SomeEmpty<K(!new), V(!new)>(t: seq<Bucket<K, V>>, m: map<K, V>, entries: nat, tombstones: nat) returns (b: nat)
    requires |t| > 0 && Counted(t, m, entries, tombstones)
    ensures b < |t| && t[b] == Empty
  {
    var all := Below(|t|);
    var used := LiveAt(t) + TombstonesAt(t);
    assert |used| <= entries + tombstones;
    if all <= used {
      SubsetSize(all, used);
    }
    b :| b in all && b !in used;
  }

  // ----- One probe -----

  /** The first i buckets probed for k are neither empty nor k's. */
  ghost predicate Passed<K(!new), V(!new)>(t: seq<Bucket<K, V>>, h: nat, k: K, i: nat) {
    |t| > 0 && forall j :: 0 <= j < i ==> t[At(h, j, |t|)] != Empty && !(t[At(h, j, |t|)].Live? && t[At(h, j, |t|)].key == k)
  }

  ghost predicate Crowded<K(!new), V(!new)>(t: seq<Bucket<K, V>>, h: nat, i: nat) {
    |t| > 0 && forall j :: 0 <= j < i ==> t[At(h, j, |t|)].Live?
  }

  lemma PassedStep<K(!new), V(!new)>(t: seq<Bucket<K, V>>, h: nat, k: K, i: nat)
    requires Passed(t, h, k, i)
    ensures Placed(t, h, At(h, i, |t|))
    ensures t[At(h, i, |t|)] != Empty && !(t[At(h, i, |t|)].Live? && t[At(h, i, |t|)].key == k) ==> Passed(t, h, k, i + 1)
  {
    assert ProbedAt(t, h, At(h, i, |t|), i);
  }

  lemma CrowdedStep<K(!new), V(!new)>(t: seq<Bucket<K, V>>, h: nat, i: nat)
    requires Crowded(t, h, i)
    ensures if t[At(h, i, |t|)].Live? then Crowded(t, h, i + 1) else FirstFree(t, h, At(h, i, |t|))
  {
    if !t[At(h, i, |t|)].Live? {
      assert FreeAt(t, h, At(h, i, |t|), i);
    }
  }

  lemma PassedBound<K(!new), V(!new)>(t: seq<Bucket<K, V>>, h: nat, k: K, i: nat, last: nat)
    requires Passed(t, h, k, i) && t[At(h, last, |t|)] == Empty
    ensures i <= last
  {
  }

  /** The loop of LookupBucketFor after i probes; tomb is the first tombstone met, or -1. */
  ghost predicate Searching<K(!new), V(!new)>(t: seq<Bucket<K, V>>, h: nat, k: K, i: nat, tomb: int) {
    && Passed(t, h, k, i)
    && if tomb == -1 then Crowded(t, h, i)
       else 0 <= tomb < |t| && t[tomb].Tombstone? && Placed(t, h, tomb) && FirstFree(t, h, tomb)
  }

  lemma SearchStart<K(!new), V(!new)>(t: seq<Bucket<K, V>>, h: nat, k: K)
    requires |t| > 0
    ensures Searching(t, h, k, 0, -1)
  {
  }

  lemma SearchNext<K(!new), V(!new)>(t: seq<Bucket<K, V>>, h: nat, k: K, i: nat, tomb: int, last: nat)
    requires Searching(t, h, k, i, tomb) && t[At(h, last, |t|)] == Empty
    ensures var b := t[At(h, i, |t|)];
      b != Empty && !(b.Live? && b.key == k) ==>
        i + 1 <= last && Searching(t, h, k, i + 1, if b.Tombstone? && tomb == -1 then At(h, i, |t|) else tomb)
  {
    hide At, Placed, FirstFree, Crowded;
    PassedStep(t, h, k, i);
    if tomb == -1 {
      CrowdedStep(t, h, i);
    }
    if Passed(t, h, k, i + 1) {
      PassedBound(t, h, k, i + 1, last);
    }
  }

  /** The bucket a failed search gives. */
  lemma SearchMiss<K(!new), V(!new)>(t: seq<Bucket<K, V>>, h: nat, k: K, i: nat, tomb: int)
    requires Searching(t, h, k, i, tomb) && t[At(h, i, |t|)] == Empty
    ensures var b := if tomb != -1 then tomb else At(h, i, |t|);
      0 <= b < |t| && !t[b].Live? && Placed(t, h, b) && FirstFree(t, h, b)
  {
    hide At, Placed, FirstFree, Crowded;
    PassedStep(t, h, k, i);
    if tomb == -1 {
      CrowdedStep(t, h, i);
    }
  }

  /** The first free bucket has only live ones before it on the probe path. */
  lemma FirstFreeMeans<K(!new), V(!new)>(t: seq<Bucket<K, V>>, h: nat, b: nat)
    requires FirstFree(t, h, b)
    ensures |t| > 0 && exists i: nat :: At(h, i, |t|) == b && forall j :: 0 <= j < i ==> t[At(h, j, |t|)].Live?
  {
    hide At;
    var i: nat :| FreeAt(t, h, b, i);
    assert At(h, i, |t|) == b;
  }

  lemma PresentKey<K(!new), V(!new)>(t: seq<Bucket<K, V>>, m: map<K, V>, b: nat)
    requires Represents(t, m) && b < |t| && t[b].Live?
    ensures t[b].key in m && t[b] == Live(t[b].key, m[t[b].key])
  {
  }

  /** When a probe for k meets an empty bucket without meeting k, the key is nowhere. */
  lemma AbsentKey<K(!new), V(!new)>(hash: K -> nat, t: seq<Bucket<K, V>>, m: map<K, V>, k: K, i: nat)
    requires AllPlaced(hash, t) && Represents(t, m)
    requires Passed(t, hash(k), k, i) && t[At(hash(k), i, |t|)] == Empty
    ensures k !in m
  {
    forall b | 0 <= b < |t| && t[b].Live? ensures t[b].key != k {
      assert Placed(t, hash(t[b].key), b);
      var j: nat :| ProbedAt(t, hash(t[b].key), b, j);
    }
    assert forall v :: !HasKey(t, k, v);
  }

  lemma NotThere<K(!new), V(!new)>(hash: K -> nat, t: seq<Bucket<K, V>>, m: map<K, V>, k: K, i: nat, tomb: int)
    requires AllPlaced(hash, t) && Represents(t, m)
    requires Searching(t, hash(k), k, i, tomb) && t[At(hash(k), i, |t|)] == Empty
    ensures k !in m
  {
    AbsentKey(hash, t, m, k, i);
  }

  // ----- Writing one bucket -----

  lemma WriteLivePlaced<K(!new), V(!new)>(hash: K -> nat, t: seq<Bucket<K, V>>, b: nat, k: K, v: V)
    requires AllPlaced(hash, t) && b < |t| && Placed(t, hash(k), b)
    ensures AllPlaced(hash, t[b := Live(k, v)])
  {
    var t' := t[b := Live(k, v)];
    forall c | 0 <= c < |t'| && t'[c].Live? ensures Placed(t', hash(t'[c].key), c) {
      assert Placed(t, hash(t'[c].key), c);
      var i: nat :| ProbedAt(t, hash(t'[c].key), c, i);
      assert ProbedAt(t', hash(t'[c].key), c, i);
    }
  }

  lemma WriteLiveRepresents<K(!new), V(!new)>(t: seq<Bucket<K, V>>, m: map<K, V>, b: nat, k: K, v: V)
    requires Represents(t, m) && b < |t| && !t[b].Live? && k !in m
    ensures Represents(t[b := Live(k, v)], m[k := v])
    ensures LiveAt(t[b := Live(k, v)]) == LiveAt(t) + {b}
    ensures TombstonesAt(t[b := Live(k, v)]) == TombstonesAt(t) - {b}
  {
    var t', m' := t[b := Live(k, v)], m[k := v];
    forall x | x in m' ensures HasKey(t', x, m'[x]) {
      if x == k {
        assert t'[b] == Live(k, v);
      } else {
        assert HasKey(t, x, m[x]);
        var c :| 0 <= c < |t| && t[c] == Live(x, m[x]);
        assert t'[c] == Live(x, m[x]);
      }
    }
  }

  lemma WriteLive<K(!new), V(!new)>(hash: K -> nat, t: seq<Bucket<K, V>>, m: map<K, V>, entries: nat, tombstones: nat, b: nat, k: K, v: V)
    requires TableOk(hash, t, m, entries, tombstones) && b < |t| && !t[b].Live? && k !in m && Placed(t, hash(k), b)
    requires entries + 1 + tombstones < |t| || t[b].Tombstone?
    ensures t[b].Tombstone? ==> tombstones >= 1
    ensures TableOk(hash, t[b := Live(k, v)], m[k := v], entries + 1, if t[b].Tombstone? then tombstones - 1 else tombstones)
  {
    hide AllPlaced, Represents, Placed;
    WriteLivePlaced(hash, t, b, k, v);
    WriteLiveRepresents(t, m, b, k, v);
    assert b !in LiveAt(t);
    if t[b].Tombstone? {
      assert b in TombstonesAt(t);
    }
  }

  lemma WriteTombstonePlaced<K(!new), V(!new)>(hash: K -> nat, t: seq<Bucket<K, V>>, b: nat)
    requires AllPlaced(hash, t) && b < |t|
    ensures AllPlaced(hash, t[b := Tombstone])
  {
    var t' := t[b := Tombstone];
    forall c | 0 <= c < |t'| && t'[c].Live? ensures Placed(t', hash(t'[c].key), c) {
      assert Placed(t, hash(t'[c].key), c);
      var i: nat :| ProbedAt(t, hash(t'[c].key), c, i);
      assert ProbedAt(t', hash(t'[c].key), c, i);
    }
  }

  lemma WriteTombstoneRepresents<K(!new), V(!new)>(t: seq<Bucket<K, V>>, m: map<K, V>, b: nat)
    requires Represents(t, m) && b < |t| && t[b].Live?
    ensures t[b].key in m && Represents(t[b := Tombstone], m - {t[b].key})
    ensures LiveAt(t[b := Tombstone]) == LiveAt(t) - {b}
    ensures TombstonesAt(t[b := Tombstone]) == TombstonesAt(t) + {b}
  {
    var t', m' := t[b := Tombstone], m - {t[b].key};
    forall x | x in m' ensures HasKey(t', x, m'[x]) {
      assert HasKey(t, x, m[x]);
      var c :| 0 <= c < |t| && t[c] == Live(x, m[x]);
      assert t'[c] == Live(x, m[x]);
    }
  }

  lemma WriteTombstone<K(!new), V(!new)>(hash: K -> nat, t: seq<Bucket<K, V>>, m: map<K, V>, entries: nat, tombstones: nat, b: nat)
    requires TableOk(hash, t, m, entries, tombstones) && b < |t| && t[b].Live?
    ensures t[b].key in m && entries >= 1
    ensures TableOk(hash, t[b := Tombstone], m - {t[b].key}, entries - 1, tombstones + 1)
  {
    hide AllPlaced, Represents, Placed;
    WriteTombstonePlaced(hash, t, b);
    WriteTombstoneRepresents(t, m, b);
    assert b in LiveAt(t) && b !in TombstonesAt(t);
    assert |m - {t[b].key}| == |m| - 1 by {
      assert (m - {t[b].key}).Keys == m.Keys - {t[b].key};
    }
  }

  function EmptyTable<K, V>(n: nat): (t: seq<Bucket<K, V>>) {
    seq(n, i => Empty)
  }

  lemma EmptyTableOk<K(!new), V(!new)>(hash: K -> nat, n: nat)
    requires n == 0 || IsPow2(n)
    ensures TableOk(hash, EmptyTable<K, V>(n), map[], 0, 0)
  {
    assert LiveAt(EmptyTable<K, V>(n)) == {} && TombstonesAt(EmptyTable<K, V>(n)) == {};
  }

  // ----- Sizes -----

  /** getMinBucketToReserveForEntries. */
  function MinBuckets(entries: nat): (r: nat) {
    if entries == 0 then 0 else NextPowerOf2(entries * 4 / 3 + 1)
  }

  /** The number of buckets grow allocates; AtLeast - 1 and the result are 32 bits wide. */
  function GrownSize(atLeast: nat): (r: nat) {
    var above := NextPowerOf2(if atLeast == 0 then 0xFFFF_FFFF else atLeast - 1) % 0x1_0000_0000;
    if above > 64 then above else 64
  }

  lemma {:induction false} Pow2Above32(p: nat)
    requires IsPow2(p) && p <= 0x1_0000_0000
    ensures Pow2Above(0xFFFF_FFFF, p) == 0x1_0000_0000
    decreases 0x1_0000_0000 - p
  {
    if p <= 0xFFFF_FFFF {
      Pow2Above32Helper(p);
      Pow2Above32(2 * p);
    }
  }

  lemma Pow2Above32Helper(p: nat)
    requires IsPow2(p) && p <= 0xFFFF_FFFF
    ensures IsPow2(2 * p) && 2 * p <= 0x1_0000_0000
  {
    TwoTo32();
    Pow2Gap(p, 0x1_0000_0000);
  }

  lemma TimesSixteen(p: nat)
    requires IsPow2(p)
    ensures IsPow2(16 * p)
  {
    hide IsPow2;
    Pow2Twice(p);
    Pow2Twice(2 * p);
    Pow2Twice(4 * p);
    Pow2Twice(8 * p);
  }

  lemma TwoTo32()
    ensures IsPow2(0x1_0000_0000)
  {
    TimesSixteen(1);
    TimesSixteen(0x10);
    TimesSixteen(0x100);
    TimesSixteen(0x1000);
    TimesSixteen(0x1_0000);
    TimesSixteen(0x10_0000);
    TimesSixteen(0x100_0000);
    TimesSixteen(0x1000_0000);
  }

  /** Growing keeps table sizes powers of two, at least 64 and at least as requested. */
  lemma GrownSizeOk(atLeast: nat)
    requires atLeast == 0 || (IsPow2(atLeast) && atLeast < 0x1_0000_0000)
    ensures IsPow2(GrownSize(atLeast)) && GrownSize(atLeast) >= 64 && GrownSize(atLeast) >= atLeast
    ensures GrownSize(atLeast) == if atLeast > 64 then atLeast else 64
  {
    if atLeast == 0 {
      Pow2Above32(1);
    } else {
      NextPowerOf2BelowPow2(atLeast);
    }
    assert IsPow2(64);
  }

  /** A table made for n entries takes n entries without growing. */
  /** The bucket count for n entries is the least power of two above four thirds of them. */
  lemma MinBucketsMeans(entries: nat)
    requires entries > 0
    ensures var n := MinBuckets(entries); IsPow2(n) && 3 * (n - 1) > 4 * entries && 3 * (n / 2 - 1) <= 4 * entries
  {
    NextPowerOf2Spec(entries * 4 / 3 + 1);
  }

  lemma ReserveSuffices(entries: nat, k: nat)
    requires 1 <= k <= entries
    ensures var n := MinBuckets(entries); IsPow2(n) && !(k * 4 >= n * 3) && !(n - k <= n / 8)
  {
    NextPowerOf2Spec(entries * 4 / 3 + 1);
  }

  lemma MovedFits<K, V>(part: map<K, V>, m: map<K, V>, k: K)
    requires part.Keys <= m.Keys && k in m && k !in part
    ensures |part| + 1 <= |m|
  {
    SubsetSize(part.Keys + {k}, m.Keys);
  }

  /** part has the entries of m that lie in the buckets of t before number i. */
  ghost predicate Moving<K(!new), V(!new)>(t: seq<Bucket<K, V>>, m: map<K, V>, part: map<K, V>, i: nat) {
    && part.Keys <= m.Keys && (forall k :: k in part ==> part[k] == m[k])
    && (forall j :: 0 <= j < i && j < |t| && t[j].Live? ==> t[j].key in part)
    && (forall j :: i <= j < |t| && t[j].Live? ==> t[j].key !in part)
  }

  lemma MovingStart<K(!new), V(!new)>(hash: K -> nat, t: seq<Bucket<K, V>>, m: map<K, V>, entries: nat, tombstones: nat)
    requires TableOk(hash, t, m, entries, tombstones)
    ensures Moving(t, m, map[], 0)
  {
  }

  lemma MovingNext<K(!new), V(!new)>(hash: K -> nat, t: seq<Bucket<K, V>>, m: map<K, V>, entries: nat, tombstones: nat, part: map<K, V>, i: nat)
    requires TableOk(hash, t, m, entries, tombstones) && Moving(t, m, part, i) && i < |t|
    ensures if t[i].Live? then
        t[i].key !in part && |part| + 1 <= |m| && Moving(t, m, part[t[i].key := t[i].value], i + 1)
      else Moving(t, m, part, i + 1)
  {
    TableEntries(hash, t, m, entries, tombstones);
    hide TableOk;
    if t[i].Live? {
      MovedFits(part, m, t[i].key);
    }
  }

  lemma MovingEnd<K(!new), V(!new)>(hash: K -> nat, t: seq<Bucket<K, V>>, m: map<K, V>, entries: nat, tombstones: nat, part: map<K, V>)
    requires TableOk(hash, t, m, entries, tombstones) && Moving(t, m, part, |t|)
    ensures part == m
  {
    hide TableOk;
    forall k | k in m ensures k in part {
      var j := FindEntry(hash, t, m, entries, tombstones, k);
    }
  }

  lemma NoTombstones<K(!new), V(!new)>(t: seq<Bucket<K, V>>, m: map<K, V>, entries: nat, b: nat)
    requires Counted(t, m, entries, 0) && b < |t|
    ensures !t[b].Tombstone?
  {
    assert b !in TombstonesAt(t);
  }

  lemma TableEntries<K(!new), V(!new)>(hash: K -> nat, t: seq<Bucket<K, V>>, m: map<K, V>, entries: nat, tombstones: nat)
    requires TableOk(hash, t, m, entries, tombstones)
    ensures |m| == entries
    ensures forall b :: 0 <= b < |t| && t[b].Live? ==> t[b].key in m && m[t[b].key] == t[b].value
    ensures forall a, b :: 0 <= a < b < |t| && t[a].Live? && t[b].Live? ==> t[a].key != t[b].key
  {
  }

  lemma FindEntry<K(!new), V(!new)>(hash: K -> nat, t: seq<Bucket<K, V>>, m: map<K, V>, entries: nat, tombstones: nat, k: K) returns (b: nat)
    requires TableOk(hash, t, m, entries, tombstones) && k in m
    ensures b < |t| && t[b] == Live(k, m[k])
  {
    assert HasKey(t, k, m[k]);
    b :| 0 <= b < |t| && t[b] == Live(k, m[k]);
  }

  // ----- The class -----

  /** The bucket count of a table that clear() replaces: shrink_and_clear passes a bucket
      count to init(), which takes a number of entries. */
  function ShrunkEntries(entries: nat): (r: nat) {
    if entries == 0 then 0
    else var c := 2 * NextPowerOf2(entries - 1); if c > 64 then c else 64
  }

  class DenseMap<K(==, !new), V(!new)> {
    const hash: K -> nat
    var buckets: array<Bucket<K, V>>
    var numEntries: nat
    var numTombstones: nat
    ghost var contents: map<K, V>

    ghost predicate Valid()
      reads this, buckets
    {
      TableOk(hash, buckets[..], contents, numEntries, numTombstones)
    }

    /** DenseMap(InitialReserve), by way of init. */
    constructor (hash: K -> nat, initialReserve: nat)
      ensures Valid() && fresh(buckets) && this.hash == hash
      ensures contents == map[] && numEntries == 0
      ensures buckets.Length == MinBuckets(initialReserve)
    {
      this.hash := hash;
      buckets := new Bucket<K, V>[0];
      numEntries, numTombstones, contents := 0, 0, map[];
      new;
      NextPowerOf2Spec(initialReserve * 4 / 3 + 1);
      AllocateEmpty(MinBuckets(initialReserve));
    }

    /** allocateBuckets followed by initEmpty. */
    method AllocateEmpty(n: nat)
      modifies this
      requires n == 0 || IsPow2(n)
      ensures fresh(buckets) && buckets.Length == n
      ensures Valid() && contents == map[] && numEntries == 0 && numTombstones == 0
    {
      buckets := new Bucket<K, V>[n](_ => Empty);
      numEntries, numTombstones, contents := 0, 0, map[];
      assert buckets[..] == EmptyTable<K, V>(n);
      EmptyTableOk<K, V>(hash, n);
    }

    /** LookupBucketFor: the bucket of the key, or the one to put it in (-1 in a table
        without buckets). */
    method LookupBucketFor(k: K) returns (found: bool, b: int)
      requires Valid()
      ensures found <==> k in contents
      ensures found ==> 0 <= b < buckets.Length && buckets[b] == Live(k, contents[k])
      ensures !found ==> if buckets.Length == 0 then b == -1 else
                0 <= b < buckets.Length && !buckets[b].Live? && Placed(buckets[..], hash(k), b) && FirstFree(buckets[..], hash(k), b)
    {
      var n := buckets.Length;
      if n == 0 {
        NoBuckets(hash, buckets[..], contents, numEntries, numTombstones, k);
        return false, -1;
      }
      hide Searching, Passed, Placed, FirstFree, AllPlaced, Represents, Counted, At;
      ghost var t, h := buckets[..], hash(k);
      ghost var empty := SomeEmpty(t, contents, numEntries, numTombstones);
      ghost var last := ProbingVisitsAll(h, empty, n);
      var foundTombstone := -1;
      var bucketNo := hash(k) % n;
      var probeAmt := 1;
      AtStep(h, 0, n);
      SearchStart(t, h, k);
      while true
        invariant 1 <= probeAmt <= last + 1 && bucketNo == At(h, probeAmt - 1, n)
        invariant Searching(t, h, k, probeAmt - 1, foundTombstone)
        decreases last + 1 - probeAmt
      {
        SearchNext(t, h, k, probeAmt - 1, foundTombstone, last);
        if buckets[bucketNo].Live? && buckets[bucketNo].key == k {
          PresentKey(t, contents, bucketNo);
          return true, bucketNo;
        }
        if buckets[bucketNo].Empty? {
          SearchMiss(t, h, k, probeAmt - 1, foundTombstone);
          NotThere(hash, t, contents, k, probeAmt - 1, foundTombstone);
          return false, if foundTombstone != -1 then foundTombstone else bucketNo;
        }
        if buckets[bucketNo].Tombstone? && foundTombstone == -1 {
          foundTombstone := bucketNo;
        }
        AtStep(h, probeAmt - 1, n);
        bucketNo := (bucketNo + probeAmt) % n;
        probeAmt := probeAmt + 1;
      }
    }

    /** lookup, find and count. */
    method Lookup(k: K) returns (r: Option<V>)
      requires Valid()
      ensures r == if k in contents then Some(contents[k]) else None
    {
      var found, b := LookupBucketFor(k);
      r := if found then Some(buckets[b].value) else None;
    }

    /** grow, with moveFromOldBuckets: every entry moves, no tombstone does. */
    method Grow(atLeast: nat)
      requires Valid()
      requires atLeast == 0 || (IsPow2(atLeast) && atLeast < 0x1_0000_0000)
      requires numEntries < GrownSize(atLeast)
      modifies this
      ensures Valid() && fresh(buckets)
      ensures contents == old(contents) && numEntries == old(numEntries) && numTombstones == 0
      ensures buckets.Length == GrownSize(atLeast)
    {
      var oldBuckets := buckets;
      hide TableOk, Placed, GrownSize, Moving;
      ghost var m := contents;
      ghost var t := oldBuckets[..];
      ghost var e, d := numEntries, numTombstones;
      TableEntries(hash, t, m, e, d);
      GrownSizeOk(atLeast);
      AllocateEmpty(GrownSize(atLeast));
      MovingStart(hash, t, m, e, d);
      for i := 0 to oldBuckets.Length
        invariant Valid() && fresh(buckets) && buckets.Length == GrownSize(atLeast) && oldBuckets != buckets
        invariant oldBuckets[..] == t && numTombstones == 0 && Moving(t, m, contents, i)
      {
        var b := oldBuckets[i];
        MovingNext(hash, t, m, e, d, contents, i);
        if b.Live? {
          TableEntries(hash, buckets[..], contents, numEntries, 0);
          MoveEntry(b);
        }
      }
      MovingEnd(hash, t, m, e, d, contents);
      TableEntries(hash, buckets[..], contents, numEntries, 0);
    }
  
    /** The body of moveFromOldBuckets for one live bucket of the old table. */
    method MoveEntry(b: Bucket<K, V>)
      requires Valid() && b.Live? && b.key !in contents && numEntries + 1 < buckets.Length && numTombstones == 0
      modifies this`numEntries, this`numTombstones, this`contents, buckets
      ensures Valid() && contents == old(contents)[b.key := b.value] && numTombstones == 0
    {
      var _, dest := LookupBucketFor(b.key);
      NoTombstones(buckets[..], contents, numEntries, dest);
      WriteEntry(dest, b.key, b.value);
    }

    /** Fills a bucket that the key was probed to, and adjusts the counters. */
    method WriteEntry(b: nat, k: K, v: V)
      requires Valid() && b < buckets.Length && !buckets[b].Live? && k !in contents && Placed(buckets[..], hash(k), b)
      requires numEntries + 1 + numTombstones < buckets.Length || buckets[b].Tombstone?
      modifies this`numEntries, this`numTombstones, this`contents, buckets
      ensures Valid() && contents == old(contents)[k := v] && numEntries == old(numEntries) + 1
      ensures numTombstones == old(numTombstones) - (if old(buckets[b]).Tombstone? then 1 else 0)
      ensures buckets[..] == old(buckets[..])[b := Live(k, v)]
    {
      hide TableOk, Placed;
      ghost var t := buckets[..];
      WriteLive(hash, t, contents, numEntries, numTombstones, b, k, v);
      numEntries := numEntries + 1;
      if !buckets[b].Empty? {
        numTombstones := numTombstones - 1;
      }
      buckets[b] := Live(k, v);
      contents := contents[k := v];
      assert buckets[..] == t[b := Live(k, v)];
    }

    /** InsertIntoBucketImpl and InsertIntoBucket: the growth rules, then the write. */
    method InsertIntoBucket(bucket: int, k: K, v: V)
      requires Valid() && k !in contents && buckets.Length <= 0x2000_0000
      requires if buckets.Length == 0 then bucket == -1 else
                 0 <= bucket < buckets.Length && !buckets[bucket].Live? && Placed(buckets[..], hash(k), bucket)
      modifies this, buckets
      ensures Valid() && (buckets == old(buckets) || fresh(buckets))
      ensures contents == old(contents)[k := v] && numEntries == old(numEntries) + 1
      ensures var n, e, d := old(buckets.Length), old(numEntries) + 1, old(numTombstones);
        if 4 * e >= 3 * n then fresh(buckets) && buckets.Length == (if n > 32 then 2 * n else 64) && numTombstones == 0
        else if n - (e + d) <= n / 8 then fresh(buckets) && buckets.Length == (if n > 64 then n else 64) && numTombstones == 0
        else buckets == old(buckets)
      ensures buckets.Length - (numEntries + numTombstones) > buckets.Length / 8
    {
      hide Placed, TableOk, GrownSize;
      var b := bucket;
      var newNumEntries := numEntries + 1;
      var n := buckets.Length;
      GrowthFits(hash, buckets[..], contents, numEntries, numTombstones);
      if newNumEntries * 4 >= n * 3 {
        Grow(n * 2);
        var _, dest := LookupBucketFor(k);
        b := dest;
      } else if n - (newNumEntries + numTombstones) <= n / 8 {
        Grow(n);
        var _, dest := LookupBucketFor(k);
        b := dest;
      }
      WriteEntry(b, k, v);
    }

    /** insert and try_emplace: an existing entry is kept. */
    method TryEmplace(k: K, v: V) returns (inserted: bool)
      requires Valid() && buckets.Length <= 0x2000_0000
      modifies this, buckets
      ensures Valid() && (buckets == old(buckets) || fresh(buckets))
      ensures inserted <==> k !in old(contents)
      ensures contents == if inserted then old(contents)[k := v] else old(contents)
    {
      var found, b := LookupBucketFor(k);
      if found {
        return false;
      }
      InsertIntoBucket(b, k, v);
      return true;
    }

    /** operator[] used to store: FindAndConstruct, then the assignment. */
    method Store(k: K, v: V)
      requires Valid() && buckets.Length <= 0x2000_0000
      modifies this, buckets
      ensures Valid() && (buckets == old(buckets) || fresh(buckets))
      ensures contents == old(contents)[k := v]
    {
      var found, b := LookupBucketFor(k);
      if found {
        ghost var t := buckets[..];
        OverwriteValue(hash, t, contents, numEntries, numTombstones, b, v);
        buckets[b] := Live(buckets[b].key, v);
        contents := contents[k := v];
        assert buckets[..] == t[b := Live(k, v)];
      } else {
        InsertIntoBucket(b, k, v);
      }
    }

    method Erase(k: K) returns (erased: bool)
      requires Valid()
      modifies this, buckets
      ensures Valid() && buckets == old(buckets)
      ensures erased <==> k in old(contents)
      ensures contents == old(contents) - {k}
      ensures numEntries == old(numEntries) - (if erased then 1 else 0)
    {
      hide TableOk, Placed, FirstFree;
      var found, b := LookupBucketFor(k);
      if !found {
        assert contents - {k} == contents;
        return false;
      }
      ghost var t := buckets[..];
      WriteTombstone(hash, t, contents, numEntries, numTombstones, b);
      buckets[b] := Tombstone;
      numEntries := numEntries - 1;
      numTombstones := numTombstones + 1;
      contents := contents - {k};
      assert buckets[..] == t[b := Tombstone];
      return true;
    }

    method Reserve(entries: nat)
      requires Valid() && MinBuckets(entries) < 0x1_0000_0000
      modifies this
      ensures Valid() && (buckets == old(buckets) || fresh(buckets))
      ensures contents == old(contents) && buckets.Length >= MinBuckets(entries)
    {
      var n := MinBuckets(entries);
      if n > buckets.Length {
        NextPowerOf2Spec(entries * 4 / 3 + 1);
        GrownSizeOk(n);
        EntriesFit(buckets[..], contents, numEntries, numTombstones);
        Grow(n);
      }
    }

    /** clear, with shrink_and_clear for a large and nearly unused table. */
    method Clear()
      requires Valid()
      modifies this, buckets
      ensures Valid() && (buckets == old(buckets) || fresh(buckets))
      ensures contents == map[] && numEntries == 0 && numTombstones == 0
      ensures buckets.Length ==
        if old(numEntries) * 4 < old(buckets.Length) && old(buckets.Length) > 64 && (old(numEntries) > 0 || old(numTombstones) > 0)
        then MinBuckets(ShrunkEntries(old(numEntries))) else old(buckets.Length)
    {
      hide TableOk, IsPow2;
      TablePow2(hash, buckets[..], contents, numEntries, numTombstones);
      if numEntries == 0 && numTombstones == 0 {
        NoEntries(hash, buckets[..], contents);
        return;
      }
      ghost var e, n := numEntries, buckets.Length;
      if numEntries * 4 < buckets.Length && buckets.Length > 64 {
        var newNumBuckets := ShrunkEntries(numEntries);
        if e > 0 {
          ShrinkNeverGrows(n, e);
        }
        if newNumBuckets != buckets.Length {
          NextPowerOf2Spec(newNumBuckets * 4 / 3 + 1);
          AllocateEmpty(MinBuckets(newNumBuckets));
          return;
        }
      }
      var i := 0;
      while i < buckets.Length
        invariant buckets == old(buckets)
        invariant 0 <= i <= buckets.Length && forall j :: 0 <= j < i ==> buckets[j] == Empty
      {
        buckets[i] := Empty;
        i := i + 1;
      }
      numEntries, numTombstones, contents := 0, 0, map[];
      assert buckets[..] == EmptyTable<K, V>(buckets.Length);
      EmptyTableOk<K, V>(hash, buckets.Length);
    }
  }

  /** Both growth rules leave room, and so does the table when neither fires. */
  lemma GrowthFits<K(!new), V(!new)>(hash: K -> nat, t: seq<Bucket<K, V>>, m: map<K, V>, entries: nat, tombstones: nat)
    requires TableOk(hash, t, m, entries, tombstones) && |t| <= 0x2000_0000
    ensures var n := |t|;
      && (n * 2 == 0 || IsPow2(n * 2)) && (n == 0 || IsPow2(n))
      && ((entries + 1) * 4 >= n * 3 ==> var s := GrownSize(n * 2); s - (entries + 1) > s / 8 && entries < s)
      && ((entries + 1) * 4 < n * 3 ==> var s := GrownSize(n); s - (entries + 1) > s / 8 && entries < s)
      && GrownSize(n * 2) == (if n > 32 then 2 * n else 64) && (n > 0 ==> GrownSize(n) == if n > 64 then n else 64)
  {
    var n := |t|;
    if n > 0 {
      assert IsPow2(n * 2);
      GrownSizeOk(n);
    }
    GrownSizeOk(n * 2);
  }

  lemma EntriesFit<K(!new), V(!new)>(t: seq<Bucket<K, V>>, m: map<K, V>, entries: nat, tombstones: nat)
    requires Counted(t, m, entries, tombstones)
    ensures entries <= |t|
  {
    if |t| == 0 {
      assert LiveAt(t) == {};
    }
  }

  lemma TablePow2<K(!new), V(!new)>(hash: K -> nat, t: seq<Bucket<K, V>>, m: map<K, V>, entries: nat, tombstones: nat)
    requires TableOk(hash, t, m, entries, tombstones)
    ensures |t| == 0 || IsPow2(|t|)
  {
  }

  lemma NoEntries<K(!new), V(!new)>(hash: K -> nat, t: seq<Bucket<K, V>>, m: map<K, V>)
    requires TableOk(hash, t, m, 0, 0)
    ensures m == map[]
  {
  }

  lemma OverwriteValue<K(!new), V(!new)>(hash: K -> nat, t: seq<Bucket<K, V>>, m: map<K, V>, entries: nat, tombstones: nat, b: nat, v: V)
    requires TableOk(hash, t, m, entries, tombstones) && b < |t| && t[b].Live?
    ensures t[b].key in m && TableOk(hash, t[b := Live(t[b].key, v)], m[t[b].key := v], entries, tombstones)
  {
    hide Represents, Placed;
    var k := t[b].key;
    assert Placed(t, hash(k), b);
    WriteLivePlaced(hash, t, b, k, v);
    OverwriteRepresents(t, m, b, v);
  }

  lemma OverwriteRepresents<K(!new), V(!new)>(t: seq<Bucket<K, V>>, m: map<K, V>, b: nat, v: V)
    requires Represents(t, m) && b < |t| && t[b].Live?
    ensures t[b].key in m && |m[t[b].key := v]| == |m|
    ensures Represents(t[b := Live(t[b].key, v)], m[t[b].key := v])
    ensures LiveAt(t[b := Live(t[b].key, v)]) == LiveAt(t) && TombstonesAt(t[b := Live(t[b].key, v)]) == TombstonesAt(t)
  {
    var k := t[b].key;
    var t', m' := t[b := Live(k, v)], m[k := v];
    assert m'.Keys == m.Keys;
    forall x | x in m' ensures HasKey(t', x, m'[x]) {
      if x == k {
        assert t'[b] == Live(k, v);
      } else {
        assert HasKey(t, x, m[x]);
        var c :| 0 <= c < |t| && t[c] == Live(x, m[x]);
        assert t'[c] == Live(x, m[x]);
      }
    }
  }

  /** shrink_and_clear never enlarges the table; because init doubles the count it is given,
      the table keeps its size exactly when that count is half of it. */
  lemma ShrunkMeans(entries: nat)
    requires entries > 0
    ensures var s := ShrunkEntries(entries); s >= 64 && IsPow2(s) && s >= 2 * entries && (s == 64 || s < 4 * entries)
  {
    NextPowerOf2Spec(entries - 1);
    assert IsPow2(64);
    var c := NextPowerOf2(entries - 1);
    Pow2Twice(c);
    assert entries > 1 ==> c / 2 <= entries - 1;
  }

  lemma ShrinkNeverGrows(n: nat, entries: nat)
    requires IsPow2(n) && n > 64 && 0 < entries && entries * 4 < n
    ensures var s := ShrunkEntries(entries);
      && MinBuckets(s) == 2 * s && MinBuckets(s) <= n
      && (MinBuckets(s) == n <==> s == n / 2)
  {
    var c := NextPowerOf2(entries - 1);
    NextPowerOf2Spec(entries - 1);
    assert IsPow2(64);
    hide IsPow2, NextPowerOf2;
    var s := ShrunkEntries(entries);
    assert c < 2 * entries;
    Pow2Twice(c);
    Pow2Gap(2 * c, n);
    Pow2Gap(64, n);
    assert IsPow2(s) && 2 * s <= n;
    NextPowerOf2Double(s);
  }
}
