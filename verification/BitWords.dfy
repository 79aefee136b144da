/** The bits of a 64-bit word under the operations BitVector uses on words. */
module BitWords {
  type Word = bv64

  const ONES: Word := 0xFFFF_FFFF_FFFF_FFFF
  const WORD_SIZE := 64

  function And(a: Word, b: Word): (r: Word) { a & b }
  function Or(a: Word, b: Word): (r: Word) { a | b }
  function Xor(a: Word, b: Word): (r: Word) { a ^ b }
  function Not(a: Word): (r: Word) { !a }
  function Half(a: Word): (r: Word) { a >> 1 }
  function Twice(a: Word): (r: Word) { a << 1 }
  predicate Odd(a: Word) { a & 1 == 1 }

  /** a << n. */
  function Shl(a: Word, n: nat): (r: Word) {
    if n == 0 then a else Twice(Shl(a, n - 1))
  }

  /** a >> n. */
  function Shr(a: Word, n: nat): (r: Word) {
    if n == 0 then a else Shr(Half(a), n - 1)
  }

  /** Bit k of w; there is none from 64 on. */
  function Bit(w: Word, k: nat): (b: bool) {
    Odd(Shr(w, k))
  }

  lemma AndParts(a: Word, b: Word)
    ensures Half(And(a, b)) == And(Half(a), Half(b)) && (Odd(And(a, b)) <==> Odd(a) && Odd(b))
  {
  }

  lemma OrParts(a: Word, b: Word)
    ensures Half(Or(a, b)) == Or(Half(a), Half(b)) && (Odd(Or(a, b)) <==> Odd(a) || Odd(b))
  {
  }

  lemma XorParts(a: Word, b: Word)
    ensures Half(Xor(a, b)) == Xor(Half(a), Half(b)) && (Odd(Xor(a, b)) <==> Odd(a) != Odd(b))
  {
  }

  lemma ZeroParts()
    ensures Half(0) == 0 && !Odd(0)
  {
  }

  lemma {:induction false} BitAnd(a: Word, b: Word, k: nat)
    ensures Bit(And(a, b), k) <==> Bit(a, k) && Bit(b, k)
    decreases k
  {
    hide And, Half, Odd;
    AndParts(a, b);
    if k > 0 {
      BitAnd(Half(a), Half(b), k - 1);
    }
  }

  lemma {:induction false} BitOr(a: Word, b: Word, k: nat)
    ensures Bit(Or(a, b), k) <==> Bit(a, k) || Bit(b, k)
    decreases k
  {
    hide Or, Half, Odd;
    OrParts(a, b);
    if k > 0 {
      BitOr(Half(a), Half(b), k - 1);
    }
  }

  lemma {:induction false} BitXor(a: Word, b: Word, k: nat)
    ensures Bit(Xor(a, b), k) <==> Bit(a, k) != Bit(b, k)
    decreases k
  {
    hide Xor, Half, Odd;
    XorParts(a, b);
    if k > 0 {
      BitXor(Half(a), Half(b), k - 1);
    }
  }

  lemma {:induction false} BitZero(k: nat)
    ensures !Bit(0, k)
  {
    hide Half, Odd;
    ZeroParts();
    if k > 0 {
      BitZero(k - 1);
    }
  }

  lemma {:induction false} ShrAdds(w: Word, m: nat, n: nat)
    ensures Shr(Shr(w, m), n) == Shr(w, m + n)
    decreases m
  {
    hide Half;
    if m > 0 {
      ShrAdds(Half(w), m - 1, n);
    }
  }

  lemma ShrBits(w: Word, n: nat, k: nat)
    ensures Bit(Shr(w, n), k) == Bit(w, n + k)
  {
    hide Half, Odd;
    ShrAdds(w, n, k);
  }

  // ----- The word of ones -----

  lemma ShrNext(w: Word, n: nat, v: Word, u: Word)
    requires Shr(w, n) == v && Half(v) == u
    ensures Shr(w, n + 1) == u
  {
    hide Half;
    ShrAdds(w, n, 1);
    assert Shr(v, 1) == Shr(Half(v), 0);
  }

  /** Halving up to eight times, as single shifts. */
  lemma ShrByte(w: Word)
    ensures Shr(w, 0) == w && Shr(w, 1) == w >> 1 && Shr(w, 2) == w >> 2 && Shr(w, 3) == w >> 3
    ensures Shr(w, 4) == w >> 4 && Shr(w, 5) == w >> 5 && Shr(w, 6) == w >> 6 && Shr(w, 7) == w >> 7 && Shr(w, 8) == w >> 8
  {
    hide Shr;
    ShrZero(w);
    ShrNext(w, 0, w, w >> 1);
    ShrNext(w, 1, w >> 1, w >> 2);
    ShrNext(w, 2, w >> 2, w >> 3);
    ShrNext(w, 3, w >> 3, w >> 4);
    ShrNext(w, 4, w >> 4, w >> 5);
    ShrNext(w, 5, w >> 5, w >> 6);
    ShrNext(w, 6, w >> 6, w >> 7);
    ShrNext(w, 7, w >> 7, w >> 8);
  }

  lemma ShrZero(w: Word)
    ensures Shr(w, 0) == w
  {
  }

  lemma ByteOfOnes(w: Word, k: nat)
    requires w & 0xFF == 0xFF && k < 8
    ensures Bit(w, k)
  {
    ShrByte(w);
    hide Shr;
  }

  lemma ShrEight(w: Word, n: nat, v: Word)
    requires Shr(w, n) == v
    ensures Shr(w, n + 8) == v >> 8
  {
    hide Shr, Half;
    ShrAdds(w, n, 8);
    ShrByte(v);
  }

  /** The word of ones has exactly the bits below 64. */
  lemma BitOnes(k: nat)
    ensures Bit(ONES, k) <==> k < 64
  {
    hide Shr, Bit;
    ShrZero(ONES);
    ShrEight(ONES, 0, ONES);
    ShrEight(ONES, 8, 0xFF_FFFF_FFFF_FFFF);
    ShrEight(ONES, 16, 0xFFFF_FFFF_FFFF);
    ShrEight(ONES, 24, 0xFF_FFFF_FFFF);
    ShrEight(ONES, 32, 0xFFFF_FFFF);
    ShrEight(ONES, 40, 0xFF_FFFF);
    ShrEight(ONES, 48, 0xFFFF);
    ShrEight(ONES, 56, 0xFF);
    if k >= 64 {
      ShrBits(ONES, 64, k - 64);
      BitZero(k - 64);
    } else {
      var j := k / 8 * 8;
      ShrBits(ONES, j, k % 8);
      ByteOfOnes(Shr(ONES, j), k % 8);
    }
  }

  lemma AndOnes(w: Word)
    ensures And(w, ONES) == w && Not(w) == Xor(w, ONES) && Half(Twice(w)) == And(w, Half(ONES)) && !Odd(Twice(w))
  {
  }

  /** Only the bits below 64 can be set. */
  lemma BitBound(w: Word, k: nat)
    ensures Bit(w, k) ==> k < 64
  {
    hide Bit, And, Xor, Not;
    AndOnes(w);
    BitAnd(w, ONES, k);
    BitOnes(k);
  }

  lemma BitNot(w: Word, k: nat)
    ensures Bit(Not(w), k) <==> k < 64 && !Bit(w, k)
  {
    hide Bit, And, Xor, Not;
    AndOnes(w);
    BitXor(w, ONES, k);
    BitOnes(k);
    BitBound(w, k);
  }

  lemma BitNext(w: Word, k: nat)
    ensures Bit(w, k + 1) == Bit(Half(w), k)
    ensures Bit(w, 0) == Odd(w)
  {
  }

  lemma BitTwice(w: Word, k: nat)
    ensures Bit(Twice(w), k) <==> 0 < k < 64 && Bit(w, k - 1)
  {
    hide Bit, And, Half, Twice, Xor, Not, Odd;
    AndOnes(w);
    BitNext(Twice(w), if k > 0 then k - 1 else 0);
    if k > 0 {
      BitAnd(w, Half(ONES), k - 1);
      BitNext(ONES, k - 1);
      BitOnes(k);
    }
  }

  lemma {:induction false} BitShl(w: Word, n: nat, k: nat)
    ensures Bit(Shl(w, n), k) <==> n <= k < 64 && Bit(w, k - n)
    decreases n
  {
    hide Bit, Twice;
    if n == 0 {
      BitBound(w, k);
    } else {
      BitTwice(Shl(w, n - 1), k);
      if k > 0 {
        BitShl(w, n - 1, k - 1);
      }
    }
  }

  // ----- Masks -----

  /** maskTrailingOnes. */
  function MaskTrailingOnes(n: nat): (m: Word)
    requires n <= 64
  {
    if n == 0 then 0 else Shr(ONES, 64 - n)
  }

  lemma BitTrailingOnes(n: nat, k: nat)
    requires n <= 64
    ensures Bit(MaskTrailingOnes(n), k) <==> k < n
  {
    hide Bit, Shr;
    if n == 0 {
      BitZero(k);
    } else {
      ShrBits(ONES, 64 - n, k);
      BitOnes(64 - n + k);
    }
  }

  lemma OneParts()
    ensures Odd(1) && Half(1) == 0
  {
  }

  /** BitWord(1) << n. */
  function One(n: nat): (m: Word) {
    Shl(1, n)
  }

  lemma BitOne(n: nat, k: nat)
    ensures Bit(One(n), k) <==> k == n && n < 64
  {
    hide Bit, Shl, Half, Odd;
    BitShl(1, n, k);
    OneParts();
    if k >= n {
      BitNext(1, if k > n then k - n - 1 else 0);
      if k > n {
        BitZero(k - n - 1);
      }
    }
  }

  lemma DoubledMinusOne(x: Word)
    ensures (x << 1) - 1 == ((x - 1) << 1) | 1
  {
  }

  lemma OneNext(n: nat)
    ensures One(n + 1) == One(n) << 1
  {
  }

  /** (1 << n) - 1. */
  function LowMask(n: nat): (m: Word) {
    One(n) - 1
  }

  lemma LowMaskZero()
    ensures LowMask(0) == 0
  {
  }

  lemma LowMaskRaw(n: nat)
    ensures One(n + 1) - 1 == ((One(n) - 1) << 1) | 1
  {
    hide One;
    OneNext(n);
    DoubledMinusOne(One(n));
  }

  lemma LowMaskNext(n: nat)
    ensures LowMask(n + 1) == Or(Twice(LowMask(n)), 1)
  {
    hide One;
    LowMaskRaw(n);
  }

  lemma {:induction false} BitLowMask(n: nat, k: nat)
    requires n < 64
    ensures Bit(LowMask(n), k) <==> k < n
  {
    hide Bit, LowMask, Or, Twice;
    if n == 0 {
      LowMaskZero();
      BitZero(k);
    } else {
      LowMaskNext(n - 1);
      BitOr(Twice(LowMask(n - 1)), 1, k);
      BitTwice(LowMask(n - 1), k);
      BitOneWord(k);
      if k > 0 {
        BitLowMask(n - 1, k - 1);
      }
    }
  }

  lemma BitOneWord(k: nat)
    ensures Bit(1, k) <==> k == 0
  {
    BitOne(0, k);
  }

  // ----- Searching a word -----

  lemma HalfSmaller(w: Word)
    requires w != 0
    ensures Odd(w) || Half(w) != 0
    ensures Half(w) < w
  {
  }

  lemma HalfNonZero(w: Word)
    requires w != 0
    ensures Odd(w) || Half(w) != 0
  {
  }

  /** countTrailingZeros: the least bit of a word that has one. */
  function FirstBit(w: Word): (k: nat)
    requires w != 0
    decreases w
  {
    HalfSmaller(w);
    if Odd(w) then 0 else 1 + FirstBit(Half(w))
  }

  /** 63 - countLeadingZeros: the greatest. */
  function LastBit(w: Word): (k: nat)
    requires w != 0
    decreases w
  {
    HalfSmaller(w);
    if Half(w) == 0 then 0 else 1 + LastBit(Half(w))
  }

  lemma {:induction false} FirstBitMeans(w: Word, j: nat)
    requires w != 0
    ensures Bit(w, FirstBit(w)) && FirstBit(w) < 64 && (Bit(w, j) ==> FirstBit(w) <= j)
    decreases FirstBit(w)
  {
    hide Bit, Half, Odd;
    HalfNonZero(w);
    BitNext(w, if j > 0 then j - 1 else 0);
    if !Odd(w) {
      FirstBitMeans(Half(w), if j > 0 then j - 1 else 0);
      BitNext(w, FirstBit(Half(w)));
    }
    BitBound(w, FirstBit(w));
  }

  lemma {:induction false} LastBitMeans(w: Word, j: nat)
    requires w != 0
    ensures Bit(w, LastBit(w)) && LastBit(w) < 64 && (Bit(w, j) ==> j <= LastBit(w))
    decreases LastBit(w)
  {
    hide Bit, Half, Odd;
    HalfNonZero(w);
    BitNext(w, if j > 0 then j - 1 else 0);
    if Half(w) != 0 {
      LastBitMeans(Half(w), if j > 0 then j - 1 else 0);
      BitNext(w, LastBit(Half(w)));
    } else if j > 0 {
      BitZero(j - 1);
    }
    BitBound(w, LastBit(w));
  }

  // ----- Words and their bits -----

  lemma XorZero(a: Word, b: Word)
    ensures Xor(a, b) == 0 ==> a == b
  {
  }

  /** Words with the same bits are equal. */
  lemma SameBits(a: Word, b: Word)
    requires forall k :: 0 <= k < 64 ==> Bit(a, k) == Bit(b, k)
    ensures a == b
  {
    hide Bit, Xor;
    XorZero(a, b);
    if Xor(a, b) != 0 {
      var k := FirstBit(Xor(a, b));
      FirstBitMeans(Xor(a, b), 0);
      BitXor(a, b, k);
      BitBound(a, k);
      BitBound(b, k);
    }
  }

  function Minus(a: Word, b: Word): (r: Word) { a - b }

  /** EMask - IMask of a range within one word. */
  function DiffMask(i: nat, e: nat): (m: Word) {
    Minus(One(e), One(i))
  }

  /** The difference of two low masks. */
  lemma MaskDifference(a: Word, b: Word)
    requires And(a, b) == b && And(a + 1, a) == 0 && And(b + 1, b) == 0
    ensures Minus(a, b) == And(a, Not(b))
  {
  }

  lemma MinusOnes(a: Word, b: Word)
    ensures Minus(a - 1, b - 1) == Minus(a, b)
  {
  }

  lemma LowMaskPart(i: nat, e: nat)
    requires i <= e < 64
    ensures And(LowMask(e), LowMask(i)) == LowMask(i)
  {
    hide Bit, And, LowMask;
    forall k | 0 <= k < 64 ensures Bit(And(LowMask(e), LowMask(i)), k) == Bit(LowMask(i), k) {
      BitAnd(LowMask(e), LowMask(i), k);
      BitLowMask(e, k);
      BitLowMask(i, k);
    }
    SameBits(And(LowMask(e), LowMask(i)), LowMask(i));
  }

  lemma OneApart(e: nat)
    requires e < 64
    ensures And(One(e), LowMask(e)) == 0
  {
    hide Bit, And, LowMask, One;
    forall k | 0 <= k < 64 ensures Bit(And(One(e), LowMask(e)), k) == Bit(0, k) {
      BitAnd(One(e), LowMask(e), k);
      BitLowMask(e, k);
      BitOne(e, k);
      BitZero(k);
    }
    SameBits(And(One(e), LowMask(e)), 0);
  }

  lemma LowMaskAndOne(e: nat)
    ensures LowMask(e) + 1 == One(e)
  {
  }

  lemma DiffMaskMinus(i: nat, e: nat)
    ensures DiffMask(i, e) == Minus(LowMask(e), LowMask(i))
  {
    hide Minus, One;
    MinusOnes(One(e), One(i));
  }

  lemma DiffMaskIs(i: nat, e: nat)
    requires i <= e < 64
    ensures DiffMask(i, e) == And(LowMask(e), Not(LowMask(i)))
  {
    hide And, Not, Minus, LowMask, DiffMask, One;
    DiffMaskMinus(i, e);
    LowMaskPart(i, e);
    LowMaskAndOne(i);
    LowMaskAndOne(e);
    OneApart(i);
    OneApart(e);
    MaskDifference(LowMask(e), LowMask(i));
  }

  lemma BitDiffMask(i: nat, e: nat, k: nat)
    requires i <= e < 64
    ensures Bit(DiffMask(i, e), k) <==> i <= k < e
  {
    hide Bit, DiffMask, LowMask, And, Not;
    DiffMaskIs(i, e);
    BitAnd(LowMask(e), Not(LowMask(i)), k);
    BitNot(LowMask(i), k);
    BitLowMask(e, k);
    BitLowMask(i, k);
  }

  /** maskTrailingZeros and ~0UL << n. */
  lemma BitHighOnes(n: nat, k: nat)
    ensures Bit(Shl(ONES, n), k) <==> n <= k < 64
  {
    hide Bit, Shl;
    BitShl(ONES, n, k);
    if k >= n {
      BitOnes(k - n);
    }
  }
}
