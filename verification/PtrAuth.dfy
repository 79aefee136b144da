/** The software pointer authentication of the PTAuth runtime, for the shipped configuration
    (PACENABLED 0, TOPBYTEIGNORE 1, BKTHREASHOLDENABLED 1), and its search for the metadata
    of an interior pointer. Addresses and ids are 64-bit words. */
module PtrAuth {
  import opened Collections

  type Word = bv64

  const MASKLOWBIT: Word := 0x0000_FFFF_FFFF_FFFF
  const MASK7BITS: Word := 0xFF
  const THRESHOLD := 1024

  // ----- Signing -----

  /** __xpac. */
  function Xpac(p: Word): (x: Word) {
    p & MASKLOWBIT
  }

  /** __pacia. */
  function Pacia(p: Word, id: Word): (signed: Word) {
    p | (((p & MASK7BITS) ^ (id & MASK7BITS)) << 56)
  }

  /** __autia, 0 being NULL. */
  function Autia(p: Word, id: Word): (x: Word) {
    var signature := (p & !MASKLOWBIT) >> 56;
    var stripped := Xpac(p);
    if ((Pacia(stripped, id) & !MASKLOWBIT) >> 56) == signature then stripped else 0
  }

  function LowByte(w: Word): (b: Word) {
    w & 0xFF
  }

  function Xor(a: Word, b: Word): (r: Word) {
    a ^ b
  }

  /** The byte a pointer signed with id carries on top. */
  function Signature(p: Word, id: Word): (b: Word) {
    Xor(LowByte(p), LowByte(id))
  }

  function TopByte(p: Word): (b: Word) {
    p >> 56
  }

  /** The ids agree modulo 256. */
  predicate SameByte(id: Word, other: Word) {
    LowByte(id) == LowByte(other)
  }

  /** Signing a stripped pointer changes its top byte only. */
  lemma PaciaParts(p: Word, id: Word)
    requires p <= MASKLOWBIT
    ensures Xpac(Pacia(p, id)) == p
    ensures TopByte(Pacia(p, id)) == Signature(p, id)
  {
  }

  /** The signature is the exclusive or of the low bytes of pointer and id, in bits. */
  lemma PaciaTop(p: Word, id: Word)
    requires p <= MASKLOWBIT
    ensures (TopByte(Pacia(p, id)) ^ p ^ id) & 0xFF == 0 && TopByte(Pacia(p, id)) <= 0xFF
    ensures Pacia(p, id) << 8 == p << 8
  {
  }

  /** Under one id, stripped pointers carry the same byte if and only if their low bytes agree. */
  lemma SameTop(p: Word, q: Word, id: Word)
    requires p <= MASKLOWBIT && q <= MASKLOWBIT
    ensures TopByte(Pacia(p, id)) == TopByte(Pacia(q, id)) <==> p & 0xFF == q & 0xFF
  {
    hide Pacia, TopByte, Xor, LowByte;
    PaciaParts(p, id);
    PaciaParts(q, id);
    XorAgain(LowByte(p), LowByte(id));
    XorAgain(LowByte(q), LowByte(id));
    LowByteIs(p);
    LowByteIs(q);
  }

  lemma XorAgain(a: Word, b: Word)
    ensures Xor(Xor(a, b), b) == a
  {
  }

  lemma LowByteIs(w: Word)
    ensures LowByte(w) == w & 0xFF
  {
  }

  /** Stripping keeps the low 48 bits and clears the others. */
  lemma XpacMeans(p: Word)
    ensures Xpac(p) << 16 == p << 16 && Xpac(p) >> 48 == 0
  {
  }

  /** One signed pointer: address 0x1008 and id 0x21. */
  lemma SignedExample()
    ensures Pacia(0x1008, 0x21) == 0x2900_0000_0000_1008
    ensures Autia(0x2900_0000_0000_1008, 0x21) == 0x1008 && Autia(0x2900_0000_0000_1008, 0x20) == 0
  {
  }

  lemma XpacIsLow(p: Word)
    ensures Xpac(p) <= MASKLOWBIT
  {
  }

  lemma ExtractedByte(w: Word)
    ensures (w & !MASKLOWBIT) >> 56 == TopByte(w)
  {
  }

  /** What authenticates: the top byte must be the signature; the byte below it is ignored. */
  lemma AutiaMeans(p: Word, id: Word)
    ensures Autia(p, id) == if TopByte(p) == Signature(Xpac(p), id) then Xpac(p) else 0
  {
    hide Pacia, Xpac, TopByte, Signature;
    XpacIsLow(p);
    PaciaParts(Xpac(p), id);
    ExtractedByte(p);
    ExtractedByte(Pacia(Xpac(p), id));
  }

  lemma SignatureSame(p: Word, id: Word, other: Word)
    ensures Signature(p, id) == Signature(p, other) <==> SameByte(id, other)
  {
    hide Xor, LowByte;
    XorTwice(LowByte(p), LowByte(id));
    XorTwice(LowByte(p), LowByte(other));
  }

  lemma XorTwice(a: Word, b: Word)
    ensures Xor(a, Xor(a, b)) == b
  {
  }

  /** A signed pointer authenticates exactly under the ids that agree with its own in the low byte. */
  lemma AutiaPacia(p: Word, id: Word, other: Word)
    requires p <= MASKLOWBIT
    ensures Autia(Pacia(p, id), other) == if SameByte(id, other) then p else 0
  {
    hide *;
    AutiaMeans(Pacia(p, id), other);
    PaciaParts(p, id);
    SignatureSame(p, id, other);
  }

  /** So the high bits that __ptauth_free takes for a violation are never set. */
  lemma FreeSeesNoViolation(p: Word, id: Word)
    ensures Autia(p, id) & !MASKLOWBIT == 0
  {
  }

  // ----- Words and numbers -----

  function Prev(p: Word): (q: Word) {
    p - 1
  }

  function Next(p: Word): (q: Word) {
    p + 1
  }

  /** The address of the object behind a word of metadata. */
  function ObjectOf(m: Word): (p: Word) {
    m + 8
  }

  /** The object does not cross into the tag bits. */
  predicate HasObject(m: Word) {
    m <= MASKLOWBIT - 8
  }

  /** The number of a word. */
  ghost function Number(w: Word): (n: nat)
    decreases w
  {
    if w == 0 then 0 else Number(Prev(w)) + 1
  }

  /** p - n, wrapping around. */
  function Back(p: Word, n: nat): (q: Word) {
    if n == 0 then p else Prev(Back(p, n - 1))
  }

  /** p + n, wrapping around. */
  function Forward(p: Word, n: nat): (q: Word) {
    if n == 0 then p else Next(Forward(p, n - 1))
  }

  lemma Decrement(p: Word)
    requires Number(Xpac(p)) > 0
    ensures Xpac(Prev(p)) == Prev(Xpac(p)) && TopByte(Prev(p)) == TopByte(p)
    ensures Number(Prev(Xpac(p))) == Number(Xpac(p)) - 1
  {
  }

  lemma Increment(p: Word)
    requires Number(Xpac(p)) != Number(MASKLOWBIT)
    ensures Xpac(Next(p)) == Next(Xpac(p)) && TopByte(Next(p)) == TopByte(p)
    ensures Number(Next(Xpac(p))) == Number(Xpac(p)) + 1
  {
  }

  /** Moving a pointer down without leaving the low 48 bits keeps its tag. */
  lemma {:induction false} BackKeeps(p: Word, n: nat)
    requires n <= Number(Xpac(p))
    ensures TopByte(Back(p, n)) == TopByte(p) && Xpac(Back(p, n)) == Back(Xpac(p), n)
    ensures Number(Back(Xpac(p), n)) == Number(Xpac(p)) - n
  {
    hide Xpac, TopByte, Number, Prev;
    if n > 0 {
      BackKeeps(p, n - 1);
      Decrement(Back(p, n - 1));
    }
  }

  /** And so does moving it up. */
  lemma {:induction false} ForwardKeeps(p: Word, n: nat)
    requires Number(Xpac(p)) + n <= Number(MASKLOWBIT)
    ensures TopByte(Forward(p, n)) == TopByte(p) && Xpac(Forward(p, n)) == Forward(Xpac(p), n)
    ensures Number(Forward(Xpac(p), n)) == Number(Xpac(p)) + n
  {
    hide Xpac, TopByte, Number, Next;
    if n > 0 {
      ForwardKeeps(p, n - 1);
      Increment(Forward(p, n - 1));
    }
  }

  lemma {:induction false} BackAdds(p: Word, m: nat, n: nat)
    ensures Back(Back(p, m), n) == Back(p, m + n)
  {
    hide Prev;
    if n > 0 {
      BackAdds(p, m, n - 1);
    }
  }

  lemma PrevNext(p: Word)
    ensures Prev(Next(p)) == p
  {
  }

  lemma {:induction false} BackForward(p: Word, n: nat)
    ensures Back(Forward(p, n), n) == p
  {
    hide Prev, Next;
    if n > 0 {
      var q := Forward(p, n);
      assert Back(q, 1) == Prev(Back(q, 0));
      PrevNext(Forward(p, n - 1));
      BackAdds(q, 1, n - 1);
      BackForward(p, n - 1);
    }
  }

  lemma ObjectNumber(m: Word)
    requires HasObject(m)
    ensures Number(ObjectOf(m)) == Number(m) + 8
  {
    assert Number(m + 8) == Number(m + 7) + 1 && Number(m + 7) == Number(m + 6) + 1;
    assert Number(m + 6) == Number(m + 5) + 1 && Number(m + 5) == Number(m + 4) + 1;
    assert Number(m + 4) == Number(m + 3) + 1 && Number(m + 3) == Number(m + 2) + 1;
    assert Number(m + 2) == Number(m + 1) + 1 && Number(m + 1) == Number(m) + 1;
  }

  lemma ObjectBack(m: Word)
    ensures Back(ObjectOf(m), 8) == m
  {
    hide Back, ObjectOf;
    BackEight(ObjectOf(m));
    ObjectMinusEight(m);
  }

  lemma ObjectMinusEight(m: Word)
    ensures ObjectOf(m) - 8 == m
  {
  }

  lemma BackEight(p: Word)
    ensures Back(p, 8) == p - 8
  {
    assert Back(p, 0) == p;
    assert Back(p, 1) == p - 1;
    assert Back(p, 2) == p - 2;
    assert Back(p, 3) == p - 3;
    assert Back(p, 4) == p - 4;
    assert Back(p, 5) == p - 5;
    assert Back(p, 6) == p - 6;
    assert Back(p, 7) == p - 7;
  }

  // ----- The search -----

  /** The ids in memory, by address; there is none where reading faults. */
  type Memory = Word -> Option<Word>

  /** C's remainder by 16, which takes the sign of its operand. */
  function Rem16(a: int): (r: int) {
    if a >= 0 then a % 16 else -((-a) % 16)
  }

  /** Reading the id at distance i below ptr faults. */
  predicate Faults(mem: Memory, ptr: Word, i: nat) {
    mem(Back(Xpac(ptr), i)).None?
  }

  /** The test at distance i below ptr passes. */
  predicate Hit(mem: Memory, ptr: Word, i: nat) {
    var id := mem(Back(Xpac(ptr), i));
    id.Some? && id.value != 0 && Autia(ObjectOf(Back(ptr, i)), id.value) != 0
  }

  predicate Stops(mem: Memory, ptr: Word, i: nat) {
    Faults(mem, ptr, i) || Hit(mem, ptr, i)
  }

  datatype Step = Continue(i: int) | Return(p: Word) | Fault

  /** One round of the loop, the test of its head included, which compares unsigned;
      x is Xpac(ptr) as a number. */
  function Round(mem: Memory, ptr: Word, x: nat, i: int): (s: Step) {
    if !(0 <= i < THRESHOLD) then Return(ptr)
    else if Rem16(x - i) != 0 then Continue(i + (Rem16(x - i) - 1) + 1)
    else if Faults(mem, ptr, i) then Fault
    else if Hit(mem, ptr, i) then Return(Xpac(ptr))
    else Continue(i + 1)
  }

  /** The loop's state after a number of rounds. */
  function After(mem: Memory, ptr: Word, x: nat, rounds: nat): (s: Step) {
    if rounds == 0 then Continue(1)
    else
      var s := After(mem, ptr, x, rounds - 1);
      if s.Continue? then Round(mem, ptr, x, s.i) else s
  }

  /** The distances a search below x should test. Below address 0 it only tests 0 itself. */
  predicate Candidate(x: nat, i: nat) {
    (x - i) % 16 == 0 && i < THRESHOLD && if x == 0 then i == 0 else 1 <= i <= x
  }

  ghost predicate SomeStop(mem: Memory, ptr: Word, x: nat) {
    exists i :: Candidate(x, i) && Stops(mem, ptr, i)
  }

  /** i is the nearest candidate that stops the search. */
  ghost predicate FirstStop(mem: Memory, ptr: Word, x: nat, i: nat) {
    && Candidate(x, i) && Stops(mem, ptr, i)
    && forall k: nat :: Candidate(x, k) && k < i ==> !Stops(mem, ptr, k)
  }

  /** The naive scan: every distance from i up, filtered. */
  function Scan(x: nat, i: nat): (distances: seq<nat>)
    decreases THRESHOLD - i
  {
    if i >= THRESHOLD || i > x then [] else (if (x - i) % 16 == 0 then [i] else []) + Scan(x, i + 1)
  }

  /** The scan has each candidate once, the nearest first. */
  lemma {:induction false} ScanMeans(x: nat, i: nat)
    requires 1 <= i
    ensures forall d :: d in Scan(x, i) <==> i <= d && Candidate(x, d)
    ensures forall j, k :: 0 <= j < k < |Scan(x, i)| ==> Scan(x, i)[j] < Scan(x, i)[k]
    decreases THRESHOLD - i
  {
    if i < THRESHOLD && i <= x {
      ScanMeans(x, i + 1);
      var rest := Scan(x, i + 1);
      forall k | 0 <= k < |rest| ensures i < rest[k] {
        assert rest[k] in rest;
      }
    }
  }

  /** Skipping over unaligned addresses leaves the scan as it is. */
  lemma {:induction false} ScanSkips(x: nat, i: nat)
    requires 1 <= i <= x
    ensures Scan(x, i) == Scan(x, i + (x - i) % 16)
    decreases x - i
  {
    var r := (x - i) % 16;
    if r > 0 {
      assert (x - (i + 1)) % 16 == r - 1;
      ScanSkips(x, i + 1);
    }
  }

  lemma SkipLands(x: nat, i: nat)
    requires 1 <= i <= x && Rem16(x - i) != 0
    ensures var next := i + Rem16(x - i);
      && i < next <= x && next < i + 16 && Scan(x, next) == Scan(x, i)
      && forall k: nat :: Candidate(x, k) && k < next ==> k < i
  {
    hide Scan;
    ScanSkips(x, i);
    var r := Rem16(x - i);
    forall k: nat | i <= k < i + r ensures !Candidate(x, k) {
      assert (x - k) % 16 == r - (k - i);
    }
  }

  lemma ScanNext(x: nat, i: nat)
    requires 1 <= i <= x && i < THRESHOLD && Rem16(x - i) == 0
    ensures Scan(x, i) == [i] + Scan(x, i + 1)
  {
  }

  lemma ScanEnd(x: nat, i: nat)
    requires i >= THRESHOLD
    ensures Scan(x, i) == []
  {
  }

  lemma OnlyFirst(mem: Memory, ptr: Word, x: nat, i: nat)
    requires Candidate(x, i) && Stops(mem, ptr, i)
    requires forall k: nat :: Candidate(x, k) && k < i ==> !Stops(mem, ptr, k)
    ensures SomeStop(mem, ptr, x) && forall j :: FirstStop(mem, ptr, x, j) ==> j == i
  {
  }

  lemma NoFirst(mem: Memory, ptr: Word, x: nat)
    requires forall k: nat :: Candidate(x, k) ==> !Stops(mem, ptr, k)
    ensures !SomeStop(mem, ptr, x) && forall j :: !FirstStop(mem, ptr, x, j)
  {
  }

  /** The distances the loop keeps to. */
  ghost predicate Looping(x: nat, i: int) {
    if x == 0 then 0 <= i <= 1 else 1 <= i <= x + 1
  }

  lemma JumpLoops(x: nat, i: int)
    requires Looping(x, i)
    ensures Rem16(x - i) != 0 ==> Looping(x, i + Rem16(x - i))
    ensures Rem16(x - i) == 0 ==> i <= x && Looping(x, i + 1) && (i < THRESHOLD ==> Candidate(x, i))
  {
  }

  /** The loop has come to distance i without being stopped, and will not go on for ever. */
  ghost predicate Going(mem: Memory, ptr: Word, x: nat, i: int) {
    && Looping(x, i) && (x >= 1023 || SomeStop(mem, ptr, x))
    && (x > 0 ==> forall k: nat :: Candidate(x, k) && k < i ==> !Stops(mem, ptr, k))
  }

  lemma GoingStart(mem: Memory, ptr: Word, x: nat)
    requires x >= 1023 || SomeStop(mem, ptr, x)
    ensures Going(mem, ptr, x, 1) && After(mem, ptr, x, 0) == Continue(1)
  {
  }

  lemma AfterNext(mem: Memory, ptr: Word, x: nat, rounds: nat, i: int)
    requires After(mem, ptr, x, rounds) == Continue(i)
    ensures After(mem, ptr, x, rounds + 1) == Round(mem, ptr, x, i)
  {
  }

  /** Nothing is left to test once i has passed all candidates. */
  lemma PassedAll(mem: Memory, ptr: Word, x: nat, i: int)
    requires Going(mem, ptr, x, i) && x > 0 && (i > x || i >= THRESHOLD)
    ensures i >= THRESHOLD && !SomeStop(mem, ptr, x) && forall j :: !FirstStop(mem, ptr, x, j)
  {
    NoFirst(mem, ptr, x);
  }

  function RoundsLeft(x: nat, i: int): int {
    if x == 0 then i else THRESHOLD + 16 - i
  }

  /** A jump passes no candidate and gets nearer to the end. */
  lemma JumpGoes(mem: Memory, ptr: Word, x: nat, i: int)
    requires Going(mem, ptr, x, i) && 0 <= i < THRESHOLD && Rem16(x - i) != 0
    ensures var next := i + Rem16(x - i);
      && 0 <= next && Going(mem, ptr, x, next) && 0 <= RoundsLeft(x, next) < RoundsLeft(x, i) && (x > 0 ==> Scan(x, next) == Scan(x, i))
  {
    JumpLoops(x, i);
    hide Stops, Scan;
    if x > 0 {
      if i > x {
        PassedAll(mem, ptr, x, i);
      }
      SkipLands(x, i);
    }
  }

  /** So does a test that does not stop the search. */
  lemma TestGoes(mem: Memory, ptr: Word, x: nat, i: int)
    requires Going(mem, ptr, x, i) && 0 <= i < THRESHOLD && Rem16(x - i) == 0
    ensures Candidate(x, i) && (x > 0 ==> Scan(x, i) == [i] + Scan(x, i + 1))
    ensures !Stops(mem, ptr, i) ==> Going(mem, ptr, x, i + 1) && 0 <= RoundsLeft(x, i + 1) < RoundsLeft(x, i)
    ensures Stops(mem, ptr, i) ==> SomeStop(mem, ptr, x) && forall j :: FirstStop(mem, ptr, x, j) ==> j == i
  {
    JumpLoops(x, i);
    hide Stops, Scan, Rem16;
    if x > 0 {
      ScanNext(x, i);
    } else if !Stops(mem, ptr, i) {
      NoFirst(mem, ptr, x);
    }
    if Stops(mem, ptr, i) {
      OnlyFirst(mem, ptr, x, i);
    }
  }

  lemma EndFacts(mem: Memory, ptr: Word, x: nat, i: int)
    requires Going(mem, ptr, x, i) && !(0 <= i < THRESHOLD)
    ensures x > 0 && Scan(x, i) == [] && !SomeStop(mem, ptr, x) && forall j :: !FirstStop(mem, ptr, x, j)
  {
    ScanEnd(x, i);
    PassedAll(mem, ptr, x, i);
  }

  /** backward_search. The nearest candidate that stops it decides: the stripped pointer if its
      test passes, a fault if it cannot be read; without one the pointer comes back as it came.
      The distances it tests are those of the naive scan, in order, up to that candidate. */
  method BackwardSearch(mem: Memory, ptr: Word, x: nat) returns (r: Step, tested: seq<nat>)
    requires x == Number(Xpac(ptr))
    requires x >= 1023 || SomeStop(mem, ptr, x)
    ensures !SomeStop(mem, ptr, x) ==> r == Return(ptr)
    ensures forall i :: FirstStop(mem, ptr, x, i) ==> r == if Faults(mem, ptr, i) then Fault else Return(Xpac(ptr))
    ensures x > 0 ==> tested <= Scan(x, 1) && (!SomeStop(mem, ptr, x) ==> tested == Scan(x, 1))
    ensures forall k :: 0 <= k < |tested| - 1 ==> !Stops(mem, ptr, tested[k])
    ensures exists rounds :: After(mem, ptr, x, rounds) == r
  {
    hide Faults, Hit, Scan, SomeStop, FirstStop, Going, Rem16, Xpac, After, RoundsLeft;
    var i: int := 1;
    tested := [];
    ghost var rounds := 0;
    GoingStart(mem, ptr, x);
    while 0 <= i < THRESHOLD
      invariant 0 <= i && Going(mem, ptr, x, i) && After(mem, ptr, x, rounds) == Continue(i)
      invariant x > 0 ==> tested + Scan(x, i) == Scan(x, 1)
      invariant forall k :: 0 <= k < |tested| ==> !Stops(mem, ptr, tested[k])
      decreases RoundsLeft(x, i)
    {
      AfterNext(mem, ptr, x, rounds, i);
      rounds := rounds + 1;
      if Rem16(x - i) != 0 {
        JumpGoes(mem, ptr, x, i);
        i := i + (Rem16(x - i) - 1);
        i := i + 1;
        continue;
      }
      TestGoes(mem, ptr, x, i);
      tested := tested + [i];
      if Faults(mem, ptr, i) {
        assert After(mem, ptr, x, rounds) == Fault;
        return Fault, tested;
      }
      if Hit(mem, ptr, i) {
        assert After(mem, ptr, x, rounds) == Return(Xpac(ptr));
        return Return(Xpac(ptr)), tested;
      }
      i := i + 1;
    }
    EndFacts(mem, ptr, x, i);
    AfterNext(mem, ptr, x, rounds, i);
    assert After(mem, ptr, x, rounds + 1) == Return(ptr);
    return Return(ptr), tested;
  }

  // ----- When the search ends -----

  lemma {:induction false} NoStopBelow(mem: Memory, ptr: Word, x: nat, rounds: nat)
    requires x < 1023 && !SomeStop(mem, ptr, x)
    ensures After(mem, ptr, x, rounds).Continue? && Looping(x, After(mem, ptr, x, rounds).i)
  {
    if rounds > 0 {
      NoStopBelow(mem, ptr, x, rounds - 1);
      var i := After(mem, ptr, x, rounds - 1).i;
      JumpLoops(x, i);
      hide Faults, Hit, Rem16, Candidate;
      assert Rem16(x - i) == 0 ==> !Stops(mem, ptr, i);
    }
  }

  /** The search ends if and only if there are 1023 addresses below the stripped pointer or a
      candidate stops it: otherwise it keeps jumping back to address 0. */
  lemma EndsIff(mem: Memory, ptr: Word, x: nat)
    requires x == Number(Xpac(ptr))
    ensures (exists rounds :: !After(mem, ptr, x, rounds).Continue?) <==> x >= 1023 || SomeStop(mem, ptr, x)
  {
    if x >= 1023 || SomeStop(mem, ptr, x) {
      GoingStart(mem, ptr, x);
      Ends(mem, ptr, x, 0, 1);
    } else {
      forall rounds: nat ensures After(mem, ptr, x, rounds).Continue? {
        NoStopBelow(mem, ptr, x, rounds);
      }
    }
  }

  lemma {:induction false} Ends(mem: Memory, ptr: Word, x: nat, rounds: nat, i: int)
    requires After(mem, ptr, x, rounds) == Continue(i) && Going(mem, ptr, x, i)
    ensures exists n :: !After(mem, ptr, x, n).Continue?
    decreases RoundsLeft(x, i)
  {
    hide Faults, Hit, Going, Rem16, RoundsLeft;
    var s := After(mem, ptr, x, rounds + 1);
    assert s == Round(mem, ptr, x, i);
    if s.Continue? {
      if Rem16(x - i) != 0 {
        JumpGoes(mem, ptr, x, i);
      } else {
        TestGoes(mem, ptr, x, i);
      }
      Ends(mem, ptr, x, rounds + 1, s.i);
    }
  }

  lemma ZeroIsBelow(ptr: Word, x: nat)
    requires x == Number(Xpac(ptr))
    ensures Back(Xpac(ptr), x) == 0
  {
    hide Xpac, TopByte, Prev;
    BackKeeps(ptr, x);
    assert Number(Back(Xpac(ptr), x)) == 0;
  }

  /** Where address 0 cannot be read the search always ends. From a stripped address of at most
      1023 it never gets past a failed search: it faults instead. */
  lemma NullStops(mem: Memory, ptr: Word, x: nat)
    requires x == Number(Xpac(ptr)) && mem(0).None?
    ensures x >= 1023 || SomeStop(mem, ptr, x)
    ensures x <= 1023 && (forall i :: Candidate(x, i) ==> !Hit(mem, ptr, i)) ==>
      exists i :: FirstStop(mem, ptr, x, i) && Faults(mem, ptr, i)
  {
    ZeroIsBelow(ptr, x);
    hide Back, Xpac, Hit, Number;
    if x <= 1023 {
      assert Candidate(x, x) && Stops(mem, ptr, x);
      var i := NearestStop(mem, ptr, x, x);
    }
  }

  lemma {:induction false} NearestStop(mem: Memory, ptr: Word, x: nat, n: nat) returns (i: nat)
    requires Candidate(x, n) && Stops(mem, ptr, n)
    ensures i <= n && FirstStop(mem, ptr, x, i)
    decreases n
  {
    hide Stops, Candidate;
    if k: nat :| k < n && Candidate(x, k) && Stops(mem, ptr, k) {
      i := NearestStop(mem, ptr, x, k);
    } else {
      i := n;
    }
  }

  /** An input on which the search goes on for ever: address 16, with memory readable down to 0
      and no ids in it. The loop tests address 0 at distance 16 again and again. */
  lemma EndlessSearch(rounds: nat)
    ensures After(_ => Some(0), 16, 16, rounds).Continue?
  {
    hide Back, Xpac;
    NoStopBelow(_ => Some(0), 16, 16, rounds);
  }

  /** The same search where address 0 cannot be read: the second round faults. */
  lemma FaultingSearch()
    ensures After(w => if w == 0 then None else Some(0), 16, 16, 2) == Fault
  {
    var mem: Memory := w => if w == 0 then None else Some(0);
    assert Xpac(16) == 16;
    BackSixteen();
    hide Back, Xpac;
    assert After(mem, 16, 16, 0) == Continue(1);
    assert After(mem, 16, 16, 1) == Continue(16);
  }

  lemma BackSixteen()
    ensures Back(16, 16) == 0
  {
    BackEight(16);
    BackEight(8);
    BackAdds(16, 8, 8);
  }

  // ----- What a search finds -----

  lemma ObjectKeeps(p: Word)
    requires HasObject(Xpac(p))
    ensures Xpac(ObjectOf(p)) == ObjectOf(Xpac(p)) && Xpac(ObjectOf(p)) != 0 && TopByte(ObjectOf(p)) == TopByte(p)
  {
  }

  /** What a test compares: the pointer's top byte with the signature of the address behind
      the metadata. */
  lemma HitMeans(mem: Memory, ptr: Word, i: nat)
    requires i <= Number(Xpac(ptr)) && HasObject(Back(Xpac(ptr), i))
    ensures var m := Back(Xpac(ptr), i);
      Hit(mem, ptr, i) <==> mem(m).Some? && mem(m).value != 0 && TopByte(ptr) == Signature(ObjectOf(m), mem(m).value)
  {
    hide Xpac, TopByte, Signature, Autia, Back, ObjectOf, HasObject, Number;
    var m, q := Back(Xpac(ptr), i), Back(ptr, i);
    BackKeeps(ptr, i);
    ObjectKeeps(q);
    if mem(m).Some? {
      AutiaMeans(ObjectOf(q), mem(m).value);
    }
  }

  /** The pointer k bytes into the object whose metadata is at m: the signed pointer moved up. */
  function Interior(m: Word, id: Word, k: nat): (ptr: Word) {
    Forward(Pacia(ObjectOf(m), id), k)
  }

  /** A 16-aligned object whose byte k is an address within reach of the search. */
  ghost predicate InReach(m: Word, k: nat) {
    HasObject(m) && Number(m) % 16 == 0 && Number(m) + 8 + k <= Number(MASKLOWBIT) && k + 8 < THRESHOLD
  }

  lemma InteriorParts(m: Word, id: Word, k: nat)
    requires InReach(m, k)
    ensures var ptr := Interior(m, id, k);
      && Number(Xpac(ptr)) == Number(m) + 8 + k && Back(Xpac(ptr), k + 8) == m
      && TopByte(ptr) == Signature(ObjectOf(m), id)
  {
    hide Xpac, Pacia, TopByte, Signature, Back, Forward, Number, ObjectOf;
    var base := Pacia(ObjectOf(m), id);
    ObjectIsLow(m);
    PaciaParts(ObjectOf(m), id);
    ObjectNumber(m);
    ObjectBack(m);
    ForwardKeeps(base, k);
    BackForward(ObjectOf(m), k);
    BackAdds(Forward(ObjectOf(m), k), k, 8);
  }

  lemma ObjectIsLow(m: Word)
    requires HasObject(m)
    ensures ObjectOf(m) <= MASKLOWBIT
  {
  }

  /** The search from such a pointer tests the object's metadata, at distance k + 8, and
      the test passes exactly under the ids that agree with the signing one in the low byte. */
  lemma OwnMetadata(mem: Memory, m: Word, id: Word, k: nat)
    requires InReach(m, k)
    ensures var ptr := Interior(m, id, k);
      && Candidate(Number(Xpac(ptr)), k + 8) && Back(Xpac(ptr), k + 8) == m
      && (Hit(mem, ptr, k + 8) <==> mem(m).Some? && mem(m).value != 0 && SameByte(mem(m).value, id))
  {
    hide Xpac, TopByte, Signature, SameByte, Hit, Back, Number, Interior, ObjectOf, HasObject;
    InteriorParts(m, id, k);
    HitMeans(mem, Interior(m, id, k), k + 8);
    if mem(m).Some? {
      SignatureSame(ObjectOf(m), mem(m).value, id);
    }
  }

  /** The search finds every interior pointer of a live 16-aligned object within reach whose
      memory can be read: the nearest candidate that stops it is a hit. */
  lemma InteriorFound(mem: Memory, m: Word, id: Word, k: nat)
    requires InReach(m, k) && mem(m) == Some(id) && id != 0
    requires forall i: nat :: i < k + 8 ==> !Faults(mem, Interior(m, id, k), i)
    ensures var ptr := Interior(m, id, k);
      exists i :: FirstStop(mem, ptr, Number(Xpac(ptr)), i) && !Faults(mem, ptr, i)
  {
    hide Xpac, Hit, Candidate, Back, Interior, Number;
    OwnMetadata(mem, m, id, k);
    var ptr := Interior(m, id, k);
    var i := NearestStop(mem, ptr, Number(Xpac(ptr)), k + 8);
  }
}
