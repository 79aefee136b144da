/** BitVector: a vector of bits packed into 64-bit words. */
module BitVectors {
  import opened BitWords
  import opened Collections

  /** Bit i of the words. */
  ghost predicate Get(ws: seq<Word>, i: nat) {
    i / 64 < |ws| && Bit(ws[i / 64], i % 64)
  }

  function NumBitWords(s: nat): (n: nat) {
    (s + 63) / 64
  }

  /** The bits between the size and the end of the last used word are zero. */
  ghost predicate UnusedClear(ws: seq<Word>, size: nat) {
    forall i :: size <= i < 64 * NumBitWords(size) ==> !Get(ws, i)
  }

  // ----- Changing one word -----

  /** The mask has the bits of word w that belong to the range from lo up to hi. */
  ghost predicate RangeMask(mask: Word, w: nat, lo: nat, hi: nat) {
    forall k :: 0 <= k < 64 ==> (Bit(mask, k) <==> lo <= 64 * w + k < hi)
  }

  ghost predicate RangeSet(a: seq<Word>, b: seq<Word>, lo: nat, hi: nat) {
    |b| == |a| && forall i :: 0 <= i < 64 * |a| ==> (Get(b, i) <==> lo <= i < hi || Get(a, i))
  }

  ghost predicate RangeReset(a: seq<Word>, b: seq<Word>, lo: nat, hi: nat) {
    |b| == |a| && forall i :: 0 <= i < 64 * |a| ==> (Get(b, i) <==> !(lo <= i < hi) && Get(a, i))
  }

  lemma IndexParts(i: nat)
    ensures i == 64 * (i / 64) + i % 64 && i % 64 < 64
  {
  }

  /** Bits[w] |= mask. */
  lemma OrWord(a: seq<Word>, w: nat, mask: Word, lo: nat, hi: nat)
    requires w < |a| && 64 * w <= lo && hi <= 64 * w + 64 && RangeMask(mask, w, lo, hi)
    ensures RangeSet(a, a[w := Or(a[w], mask)], lo, hi)
  {
    hide Bit, Or;
    var b := a[w := Or(a[w], mask)];
    forall i | 0 <= i < 64 * |a| ensures Get(b, i) <==> lo <= i < hi || Get(a, i) {
      IndexParts(i);
      if i / 64 == w {
        BitOr(a[w], mask, i % 64);
      }
    }
  }

  /** Bits[w] &= ~mask. */
  lemma AndNotWord(a: seq<Word>, w: nat, mask: Word, lo: nat, hi: nat)
    requires w < |a| && 64 * w <= lo && hi <= 64 * w + 64 && RangeMask(mask, w, lo, hi)
    ensures RangeReset(a, a[w := And(a[w], Not(mask))], lo, hi)
  {
    hide Bit, And, Not;
    var b := a[w := And(a[w], Not(mask))];
    forall i | 0 <= i < 64 * |a| ensures Get(b, i) <==> !(lo <= i < hi) && Get(a, i) {
      IndexParts(i);
      if i / 64 == w {
        BitAnd(a[w], Not(mask), i % 64);
        BitNot(mask, i % 64);
      }
    }
  }

  lemma RangeSetTrans(a: seq<Word>, b: seq<Word>, c: seq<Word>, lo: nat, from: nat, to: nat, hi: nat)
    requires RangeSet(a, b, lo, to) && RangeSet(b, c, from, hi) && lo <= from <= to <= hi
    ensures RangeSet(a, c, lo, hi)
  {
  }

  lemma RangeResetTrans(a: seq<Word>, b: seq<Word>, c: seq<Word>, lo: nat, from: nat, to: nat, hi: nat)
    requires RangeReset(a, b, lo, to) && RangeReset(b, c, from, hi) && lo <= from <= to <= hi
    ensures RangeReset(a, c, lo, hi)
  {
  }

  lemma RangeSetNone(a: seq<Word>, lo: nat)
    ensures RangeSet(a, a, lo, lo)
  {
  }

  lemma RangeResetNone(a: seq<Word>, lo: nat)
    ensures RangeReset(a, a, lo, lo)
  {
  }

  lemma RangeSetValid(a: seq<Word>, b: seq<Word>, lo: nat, hi: nat, size: nat)
    requires UnusedClear(a, size) && RangeSet(a, b, lo, hi) && hi <= size && NumBitWords(size) <= |a|
    ensures UnusedClear(b, size)
  {
  }

  lemma RangeResetValid(a: seq<Word>, b: seq<Word>, lo: nat, hi: nat, size: nat)
    requires UnusedClear(a, size) && RangeReset(a, b, lo, hi) && NumBitWords(size) <= |a|
    ensures UnusedClear(b, size)
  {
  }

  // ----- The masks of a range -----

  lemma InnerMask(i: nat, e: nat)
    requires i <= e && i / 64 == e / 64
    ensures RangeMask(DiffMask(i % 64, e % 64), i / 64, i, e)
  {
    hide Bit, DiffMask;
    forall k | 0 <= k < 64 ensures Bit(DiffMask(i % 64, e % 64), k) <==> i <= 64 * (i / 64) + k < e {
      BitDiffMask(i % 64, e % 64, k);
    }
  }

  lemma PrefixMask(i: nat)
    ensures RangeMask(Shl(ONES, i % 64), i / 64, i, 64 * (i / 64) + 64)
  {
    hide Bit, Shl;
    forall k | 0 <= k < 64 ensures Bit(Shl(ONES, i % 64), k) <==> i <= 64 * (i / 64) + k < 64 * (i / 64) + 64 {
      BitHighOnes(i % 64, k);
    }
  }

  lemma PostfixMask(e: nat)
    ensures RangeMask(LowMask(e % 64), e / 64, 64 * (e / 64), e)
  {
    hide Bit, LowMask;
    forall k | 0 <= k < 64 ensures Bit(LowMask(e % 64), k) <==> 64 * (e / 64) <= 64 * (e / 64) + k < e {
      BitLowMask(e % 64, k);
    }
  }

  lemma FullMask(w: nat)
    ensures RangeMask(ONES, w, 64 * w, 64 * w + 64)
  {
    hide Bit;
    forall k | 0 <= k < 64 ensures Bit(ONES, k) {
      BitOnes(k);
    }
  }

  lemma OrOnes(w: Word)
    ensures Or(w, ONES) == ONES && And(w, Not(ONES)) == 0
  {
  }

  /** alignTo(i, 64) for an i that is in a word before e's. */
  lemma AlignedUp(i: nat, e: nat)
    requires i <= e && i / 64 != e / 64
    ensures var j := (i + 63) / 64 * 64; j <= e && (i % 64 == 0 ==> j == i) && (i % 64 != 0 ==> j == 64 * (i / 64) + 64)
  {
  }

  // ----- Searching a range -----

  /** Word w of the vector, cut to the range. */
  ghost predicate Cut(word: Word, copy: Word, w: nat, lo: nat, hi: nat) {
    forall k :: 0 <= k < 64 ==> (Bit(copy, k) <==> Bit(word, k) && lo <= 64 * w + k < hi)
  }

  /** Word w of the vector, filled up outside the range. */
  ghost predicate Filled(word: Word, copy: Word, w: nat, lo: nat, hi: nat) {
    forall k :: 0 <= k < 64 ==> (Bit(copy, k) <==> Bit(word, k) || !(lo <= 64 * w + k < hi))
  }

  function CutFirst(word: Word, lo: nat): (copy: Word) {
    And(word, Not(MaskTrailingOnes(lo % 64)))
  }

  function CutLast(word: Word, hi: nat): (copy: Word)
    requires hi > 0
  {
    And(word, MaskTrailingOnes((hi - 1) % 64 + 1))
  }

  function FillFirst(word: Word, lo: nat): (copy: Word) {
    Or(word, MaskTrailingOnes(lo % 64))
  }

  function FillLast(word: Word, hi: nat): (copy: Word)
    requires hi > 0
  {
    Or(word, Not(MaskTrailingOnes((hi - 1) % 64 + 1)))
  }

  /** The masks of the first and the last word, in whichever order they are applied. */
  lemma CutBits(word: Word, w: nat, lo: nat, hi: nat)
    requires lo < hi && lo / 64 <= w <= (hi - 1) / 64
    ensures var c := if w == lo / 64 then CutFirst(word, lo) else word;
      Cut(word, if w == (hi - 1) / 64 then CutLast(c, hi) else c, w, lo, hi)
    ensures var c := if w == (hi - 1) / 64 then CutLast(word, hi) else word;
      Cut(word, if w == lo / 64 then CutFirst(c, lo) else c, w, lo, hi)
  {
    hide Bit, And, Not, MaskTrailingOnes;
    var first, last := MaskTrailingOnes(lo % 64), MaskTrailingOnes((hi - 1) % 64 + 1);
    forall k | 0 <= k < 64
      ensures Bit(And(word, Not(first)), k) <==> Bit(word, k) && k >= lo % 64
      ensures Bit(And(word, last), k) <==> Bit(word, k) && k <= (hi - 1) % 64
      ensures Bit(And(And(word, Not(first)), last), k) <==> Bit(word, k) && lo % 64 <= k <= (hi - 1) % 64
      ensures Bit(And(And(word, last), Not(first)), k) <==> Bit(word, k) && lo % 64 <= k <= (hi - 1) % 64
    {
      BitTrailingOnes(lo % 64, k);
      BitTrailingOnes((hi - 1) % 64 + 1, k);
      BitNot(first, k);
      BitAnd(word, Not(first), k);
      BitAnd(word, last, k);
      BitAnd(And(word, Not(first)), last, k);
      BitAnd(And(word, last), Not(first), k);
    }
  }

  lemma FillBits(word: Word, w: nat, lo: nat, hi: nat)
    requires lo < hi && lo / 64 <= w <= (hi - 1) / 64
    ensures var c := if w == lo / 64 then FillFirst(word, lo) else word;
      Filled(word, if w == (hi - 1) / 64 then FillLast(c, hi) else c, w, lo, hi)
    ensures var c := if w == (hi - 1) / 64 then FillLast(word, hi) else word;
      Filled(word, if w == lo / 64 then FillFirst(c, lo) else c, w, lo, hi)
  {
    hide Bit, Or, Not, MaskTrailingOnes;
    var first, last := MaskTrailingOnes(lo % 64), Not(MaskTrailingOnes((hi - 1) % 64 + 1));
    forall k | 0 <= k < 64
      ensures Bit(Or(word, first), k) <==> Bit(word, k) || k < lo % 64
      ensures Bit(Or(word, last), k) <==> Bit(word, k) || k > (hi - 1) % 64
      ensures Bit(Or(Or(word, first), last), k) <==> Bit(word, k) || k < lo % 64 || k > (hi - 1) % 64
      ensures Bit(Or(Or(word, last), first), k) <==> Bit(word, k) || k < lo % 64 || k > (hi - 1) % 64
    {
      BitTrailingOnes(lo % 64, k);
      BitTrailingOnes((hi - 1) % 64 + 1, k);
      BitNot(MaskTrailingOnes((hi - 1) % 64 + 1), k);
      BitOr(word, first, k);
      BitOr(word, last, k);
      BitOr(Or(word, first), last, k);
      BitOr(Or(word, last), first, k);
    }
  }

  /** A cut word without bits: the range has none in this word. */
  lemma CutEmpty(ws: seq<Word>, copy: Word, w: nat, lo: nat, hi: nat)
    requires w < |ws| && Cut(ws[w], copy, w, lo, hi) && copy == 0
    ensures forall i :: 64 * w <= i < 64 * w + 64 && lo <= i < hi ==> !Get(ws, i)
  {
    hide Bit;
    forall i | 64 * w <= i < 64 * w + 64 && lo <= i < hi ensures !Get(ws, i) {
      IndexParts(i);
      assert i / 64 == w;
      BitZero(i % 64);
    }
  }

  /** The first and the last bit of a cut word are those of the range in this word. */
  lemma CutFound(ws: seq<Word>, copy: Word, w: nat, lo: nat, hi: nat)
    requires w < |ws| && Cut(ws[w], copy, w, lo, hi) && copy != 0
    ensures var r := 64 * w + FirstBit(copy);
      lo <= r < hi && Get(ws, r) && forall i :: 64 * w <= i < r && lo <= i ==> !Get(ws, i)
    ensures var r := 64 * w + LastBit(copy);
      lo <= r < hi && Get(ws, r) && forall i :: r < i < 64 * w + 64 && i < hi ==> !Get(ws, i)
  {
    hide Bit, FirstBit, LastBit, Get, Cut;
    FirstCut(ws, copy, w, lo, hi);
    LastCut(ws, copy, w, lo, hi);
  }

  /** Bit i lies in word w. */
  lemma CutAt(ws: seq<Word>, copy: Word, w: nat, lo: nat, hi: nat, i: nat)
    requires w < |ws| && Cut(ws[w], copy, w, lo, hi) && 64 * w <= i < 64 * w + 64
    ensures Bit(copy, i - 64 * w) <==> Get(ws, i) && lo <= i < hi
  {
    hide Bit;
    IndexParts(i);
  }

  lemma FirstCut(ws: seq<Word>, copy: Word, w: nat, lo: nat, hi: nat)
    requires w < |ws| && Cut(ws[w], copy, w, lo, hi) && copy != 0
    ensures var r := 64 * w + FirstBit(copy);
      lo <= r < hi && Get(ws, r) && forall i :: 64 * w <= i < r && lo <= i ==> !Get(ws, i)
  {
    hide Bit, FirstBit, Get, Cut;
    FirstBitMeans(copy, 0);
    CutAt(ws, copy, w, lo, hi, 64 * w + FirstBit(copy));
    forall i | 64 * w <= i < 64 * w + FirstBit(copy) && lo <= i ensures !Get(ws, i) {
      CutAt(ws, copy, w, lo, hi, i);
      FirstBitMeans(copy, i - 64 * w);
    }
  }

  lemma LastCut(ws: seq<Word>, copy: Word, w: nat, lo: nat, hi: nat)
    requires w < |ws| && Cut(ws[w], copy, w, lo, hi) && copy != 0
    ensures var r := 64 * w + LastBit(copy);
      lo <= r < hi && Get(ws, r) && forall i :: r < i < 64 * w + 64 && i < hi ==> !Get(ws, i)
  {
    hide Bit, LastBit, Get, Cut;
    LastBitMeans(copy, 0);
    CutAt(ws, copy, w, lo, hi, 64 * w + LastBit(copy));
    forall i | 64 * w + LastBit(copy) < i < 64 * w + 64 && i < hi ensures !Get(ws, i) {
      CutAt(ws, copy, w, lo, hi, i);
      LastBitMeans(copy, i - 64 * w);
    }
  }

  /** Turning ones into zeros turns a filled word into a cut one. */
  lemma FilledIsCut(ws: seq<Word>, copy: Word, w: nat, lo: nat, hi: nat)
    requires w < |ws| && Filled(ws[w], copy, w, lo, hi)
    ensures Cut(Not(ws[w]), Not(copy), w, lo, hi) && (Not(copy) == 0 <==> copy == ONES)
  {
    hide Bit, Not;
    NotZero(copy);
    forall k | 0 <= k < 64 ensures Bit(Not(copy), k) <==> Bit(Not(ws[w]), k) && lo <= 64 * w + k < hi {
      BitNot(copy, k);
      BitNot(ws[w], k);
    }
  }

  lemma NotZero(copy: Word)
    ensures Not(copy) == 0 <==> copy == ONES
  {
  }

  /** What a filled word tells about the clear bits of the range. */
  lemma UnsetFacts(ws: seq<Word>, copy: Word, w: nat, lo: nat, hi: nat)
    requires w < |ws| && Cut(Not(ws[w]), Not(copy), w, lo, hi) && hi <= 64 * |ws|
    ensures Not(copy) == 0 ==> forall i :: 64 * w <= i < 64 * w + 64 && lo <= i < hi ==> Get(ws, i)
    ensures Not(copy) != 0 ==> var r := 64 * w + FirstBit(Not(copy));
      lo <= r < hi && !Get(ws, r) && forall i :: 64 * w <= i < r && lo <= i ==> Get(ws, i)
    ensures Not(copy) != 0 ==> var r := 64 * w + LastBit(Not(copy));
      lo <= r < hi && !Get(ws, r) && forall i :: r < i < 64 * w + 64 && i < hi ==> Get(ws, i)
  {
    hide Bit, Not, FirstBit, LastBit, Cut, Get;
    var cs := Complement(ws);
    forall i | 0 <= i < 64 * |ws| ensures Get(cs, i) <==> !Get(ws, i) {
      ComplementGet(ws, i);
    }
    if Not(copy) == 0 {
      CutEmpty(cs, Not(copy), w, lo, hi);
    } else {
      CutFound(cs, Not(copy), w, lo, hi);
    }
  }

  ghost function Complement(ws: seq<Word>): (cs: seq<Word>)
    ensures |cs| == |ws|
  {
    seq(|ws|, i requires 0 <= i < |ws| => Not(ws[i]))
  }

  lemma ComplementGet(ws: seq<Word>, i: nat)
    requires i < 64 * |ws|
    ensures Get(Complement(ws), i) <==> !Get(ws, i)
  {
    hide Bit, Not;
    BitNot(ws[i / 64], i % 64);
  }

  // ----- Padding -----

  /** From the size on, every bit of b is t. */
  ghost predicate Padded(a: seq<Word>, b: seq<Word>, size: nat, t: bool) {
    |b| == |a| && forall i :: 0 <= i < 64 * |b| ==> (Get(b, i) <==> if i < size then Get(a, i) else t)
  }

  /** A word of equal bits. */
  function Fill(t: bool): (w: Word) {
    if t then ONES else 0
  }

  lemma FillBit(t: bool, k: nat)
    requires k < 64
    ensures Bit(Fill(t), k) == t
  {
    BitOnes(k);
    BitZero(k);
  }

  /** init_words on the words from number used on. */
  ghost predicate Inited(a: seq<Word>, b: seq<Word>, used: nat, t: bool) {
    && |b| == |a| && forall w :: 0 <= w < |a| ==> b[w] == if w < used then a[w] else Fill(t)
  }

  lemma InitedPads(a: seq<Word>, b: seq<Word>, used: nat, t: bool)
    requires Inited(a, b, used, t)
    ensures Padded(a, b, 64 * used, t)
  {
    hide Bit, Fill;
    forall i | 0 <= i < 64 * |b| ensures Get(b, i) <==> if i < 64 * used then Get(a, i) else t {
      FillBit(t, i % 64);
    }
  }

  /** The stray high bits of the last used word. */
  lemma StrayBits(a: seq<Word>, b: seq<Word>, size: nat, t: bool)
    requires size % 64 != 0 && size / 64 < |a| && Padded(a, b, 64 * (size / 64) + 64, t)
    ensures var m, w := Shl(ONES, size % 64), size / 64;
      Padded(a, if t then b[w := Or(b[w], m)] else b[w := And(b[w], Not(m))], size, t)
  {
    hide Bit, Shl, Or, And, Not, Get;
    var m, w := Shl(ONES, size % 64), size / 64;
    PrefixMask(size);
    OrWord(b, w, m, size, 64 * w + 64);
    AndNotWord(b, w, m, size, 64 * w + 64);
  }

  /** A new vector of n bits. */
  lemma NewBits(a: seq<Word>, b: seq<Word>, c: seq<Word>, n: nat, t: bool)
    requires Inited(a, b, 0, t) && |b| == NumBitWords(n) && if t then Padded(b, c, n, false) else c == b
    ensures |c| == |b| && UnusedClear(c, n) && forall i :: 0 <= i < n ==> (Get(c, i) <==> t)
  {
    hide Bit, Fill, Inited;
    InitedPads(a, b, 0, t);
    InitedLength(a, b, 0, t);
  }

  /** The words before number w are complemented. */
  ghost predicate Flipped(a: seq<Word>, b: seq<Word>, w: nat) {
    |b| == |a| && forall v :: 0 <= v < |a| ==> b[v] == if v < w then Not(a[v]) else a[v]
  }

  lemma FlippedBits(a: seq<Word>, b: seq<Word>, c: seq<Word>, size: nat)
    requires Flipped(a, b, NumBitWords(size)) && NumBitWords(size) <= |a| && Padded(b, c, size, false)
    ensures |c| == |a| && UnusedClear(c, size) && forall i :: 0 <= i < size ==> (Get(c, i) <==> !Get(a, i))
  {
    hide Bit, Not;
    forall i | 0 <= i < size ensures Get(b, i) <==> !Get(a, i) {
      BitNot(a[i / 64], i % 64);
    }
  }

  lemma InitedLength(a: seq<Word>, b: seq<Word>, used: nat, t: bool)
    requires Inited(a, b, used, t)
    ensures |b| == |a|
  {
  }

  lemma PaddedLength(a: seq<Word>, b: seq<Word>, size: nat, t: bool)
    requires Padded(a, b, size, t)
    ensures |b| == |a|
  {
  }

  /** The words of the old vector, copied into larger memory and padded. */
  lemma GrownBits(a: seq<Word>, b: seq<Word>, c: seq<Word>, size: nat)
    requires |a| <= |b| && b[..|a|] == a && NumBitWords(size) <= |a| && Padded(b, c, size, false)
    ensures UnusedClear(c, size) && forall i :: 0 <= i < 64 * |c| ==> (Get(c, i) <==> i < size && Get(a, i))
  {
    hide Bit;
    forall i | 0 <= i < 64 * |c| ensures Get(c, i) <==> i < size && Get(a, i) {
      if i < size {
        assert b[i / 64] == a[i / 64];
      }
    }
  }

  lemma InitedBelow(a: seq<Word>, b: seq<Word>, used: nat, t: bool, size: nat)
    requires Inited(a, b, used, t) && size <= 64 * used
    ensures |b| == |a| && forall i :: 0 <= i < size ==> (Get(b, i) <==> Get(a, i))
  {
    hide Bit, Inited;
    InitedPads(a, b, used, t);
    InitedLength(a, b, used, t);
  }

  /** The steps of resize put together: a the old bits, b after growing, c after padding. */
  lemma ResizedBits(a: seq<Word>, b: seq<Word>, c: seq<Word>, d: seq<Word>, size: nat, n: nat, t: bool)
    requires UnusedClear(a, size) && n <= 64 * |b| && size <= 64 * |b|
    requires forall i :: 0 <= i < size ==> (Get(b, i) <==> Get(a, i))
    requires n <= size ==> b == a
    requires if n > size then Padded(b, c, size, t) else c == b
    requires if t || n < size then Padded(c, d, n, false) else d == c
    ensures UnusedClear(d, n) && NumBitWords(n) <= |d|
    ensures forall i :: 0 <= i < n ==> (Get(d, i) <==> if i < size then Get(a, i) else t)
  {
    hide Bit;
  }

  // ----- Shifting -----

  /** b is a moved down by n bits. */
  ghost predicate Down(a: seq<Word>, b: seq<Word>, words: nat, n: nat) {
    |b| == |a| && forall i :: 0 <= i < 64 * words ==> (Get(b, i) <==> i + n < 64 * words && Get(a, i + n))
  }

  /** b is a moved up by n bits. */
  ghost predicate Up(a: seq<Word>, b: seq<Word>, words: nat, n: nat) {
    |b| == |a| && forall i :: 0 <= i < 64 * words ==> (Get(b, i) <==> n <= i && Get(a, i - n))
  }

  lemma DownTrans(a: seq<Word>, b: seq<Word>, c: seq<Word>, words: nat, m: nat, n: nat)
    requires Down(a, b, words, m) && Down(b, c, words, n)
    ensures Down(a, c, words, m + n)
  {
    hide Get;
    forall i | 0 <= i < 64 * words ensures Get(c, i) <==> i + (m + n) < 64 * words && Get(a, i + (m + n)) {
      assert Get(c, i) <==> i + n < 64 * words && Get(b, i + n);
      if i + n < 64 * words {
        assert Get(b, i + n) <==> i + n + m < 64 * words && Get(a, i + n + m);
      }
    }
  }

  /** What operator>>= makes of a word and the one above it. */
  function Merged(low: Word, high: Word, d: nat): (w: Word)
    requires 0 < d < 64
  {
    Or(Shr(low, d), Shl(And(high, MaskTrailingOnes(d)), 64 - d))
  }

  lemma MergedBits(low: Word, high: Word, d: nat, k: nat)
    requires 0 < d < 64 && k < 64
    ensures Bit(Merged(low, high, d), k) <==> if k + d < 64 then Bit(low, k + d) else Bit(high, k + d - 64)
  {
    hide Bit, Or, And, Shr, Shl, MaskTrailingOnes;
    var part := And(high, MaskTrailingOnes(d));
    BitOr(Shr(low, d), Shl(part, 64 - d), k);
    ShrBits(low, d, k);
    BitShl(part, 64 - d, k);
    BitBound(low, d + k);
    if k >= 64 - d {
      BitAnd(high, MaskTrailingOnes(d), k - (64 - d));
      BitTrailingOnes(d, k - (64 - d));
    }
  }

  /** What operator<<= makes of a word and the one below it. */
  function Carried(low: Word, high: Word, d: nat): (w: Word)
    requires 0 < d < 64
  {
    Or(Shl(high, d), Shr(And(low, Not(MaskTrailingOnes(64 - d))), 64 - d))
  }

  lemma CarriedBits(low: Word, high: Word, d: nat, k: nat)
    requires 0 < d < 64 && k < 64
    ensures Bit(Carried(low, high, d), k) <==> if k < d then Bit(low, k + 64 - d) else Bit(high, k - d)
  {
    hide Bit, Or, And, Not, Shr, Shl, MaskTrailingOnes;
    var mask := Not(MaskTrailingOnes(64 - d));
    var part := And(low, mask);
    BitOr(Shl(high, d), Shr(part, 64 - d), k);
    BitShl(high, d, k);
    ShrBits(part, 64 - d, k);
    BitAnd(low, mask, 64 - d + k);
    BitNot(MaskTrailingOnes(64 - d), 64 - d + k);
    BitTrailingOnes(64 - d, 64 - d + k);
    BitBound(low, 64 - d + k);
  }

  /** The words merged one by one. */
  ghost predicate MergedDown(a: seq<Word>, b: seq<Word>, words: nat, d: nat, n: nat)
    requires 0 < d < 64
  {
    && |b| == |a| && 0 < words <= |a|
    && forall w {:trigger b[w]} :: 0 <= w < words ==>
      b[w] == if w >= n then a[w] else if w + 1 < words then Merged(a[w], a[w + 1], d) else Shr(a[w], d)
  }

  lemma IndexPlus(i: nat, d: nat)
    requires d < 64
    ensures if i % 64 + d < 64 then (i + d) / 64 == i / 64 && (i + d) % 64 == i % 64 + d
            else (i + d) / 64 == i / 64 + 1 && (i + d) % 64 == i % 64 + d - 64
  {
  }

  lemma MergedDownBits(a: seq<Word>, b: seq<Word>, words: nat, d: nat)
    requires 0 < d < 64 && MergedDown(a, b, words, d, words)
    ensures Down(a, b, words, d)
  {
    hide Bit, Merged, Shr;
    forall i | 0 <= i < 64 * words ensures Get(b, i) <==> i + d < 64 * words && Get(a, i + d) {
      var w, k := i / 64, i % 64;
      IndexPlus(i, d);
      if w + 1 < words {
        assert b[w] == Merged(a[w], a[w + 1], d);
        MergedBits(a[w], a[w + 1], d, k);
      } else {
        assert b[w] == Shr(a[w], d);
        ShrBits(a[w], d, k);
        BitBound(a[w], d + k);
      }
    }
  }

  ghost predicate CarriedUp(a: seq<Word>, b: seq<Word>, words: nat, d: nat, n: int)
    requires 0 < d < 64
  {
    && |b| == |a| && 0 < words <= |a|
    && forall w {:trigger b[w]} :: 0 <= w < words ==>
      b[w] == if w <= n then a[w] else if w > 0 then Carried(a[w - 1], a[w], d) else Shl(a[w], d)
  }

  lemma CarriedUpBits(a: seq<Word>, b: seq<Word>, words: nat, d: nat)
    requires 0 < d < 64 && CarriedUp(a, b, words, d, -1)
    ensures Up(a, b, words, d)
  {
    hide Bit, Carried, Shl;
    forall i | 0 <= i < 64 * words ensures Get(b, i) <==> d <= i && Get(a, i - d) {
      var w, k := i / 64, i % 64;
      if d <= i {
        IndexPlus(i - d, d);
      }
      if w > 0 {
        assert b[w] == Carried(a[w - 1], a[w], d);
        CarriedBits(a[w - 1], a[w], d, k);
      } else {
        assert b[w] == Shl(a[w], d);
        BitShl(a[w], d, k);
      }
    }
  }

  lemma MergeStart(a: seq<Word>, words: nat, d: nat)
    requires 0 < d < 64 && 0 < words <= |a|
    ensures MergedDown(a, a, words, d, 0)
  {
  }

  lemma CarryStart(a: seq<Word>, words: nat, d: nat)
    requires 0 < d < 64 && 0 < words <= |a|
    ensures CarriedUp(a, a, words, d, words - 1)
  {
  }

  lemma MergeStep(a: seq<Word>, b: seq<Word>, words: nat, d: nat, i: nat)
    requires 0 < d < 64 && MergedDown(a, b, words, d, i) && i < words
    ensures |b| == |a| && i < |b|
    ensures i + 1 < words ==> i + 1 < |b| && MergedDown(a, b[i := Merged(b[i], b[i + 1], d)], words, d, i + 1)
    ensures i + 1 == words ==> MergedDown(a, b[i := Shr(b[i], d)], words, d, words)
  {
    hide Merged, Shr;
  }

  lemma CarryStep(a: seq<Word>, b: seq<Word>, words: nat, d: nat, i: nat)
    requires 0 < d < 64 && CarriedUp(a, b, words, d, i) && i < words
    ensures |b| == |a| && i < |b|
    ensures i > 0 ==> CarriedUp(a, b[i := Carried(b[i - 1], b[i], d)], words, d, i - 1)
    ensures i == 0 ==> CarriedUp(a, b[0 := Shl(b[0], d)], words, d, -1)
  {
    hide Carried, Shl;
  }

  /** Words below moved come from c words above, those from there up to zeroed are zero. */
  ghost predicate MovedDown(a: seq<Word>, b: seq<Word>, c: nat, moved: nat, zeroed: nat) {
    && |b| == |a| && moved + c <= |a|
    && forall w {:trigger b[w]} :: 0 <= w < |a| ==> b[w] == if w < moved then a[w + c] else if w < zeroed then 0 else a[w]
  }

  /** Words from moved up to words come from c words below, the first zeroed are zero. */
  ghost predicate MovedUp(a: seq<Word>, b: seq<Word>, c: nat, words: nat, moved: nat, zeroed: nat) {
    && |b| == |a| && zeroed <= c <= moved
    && forall w {:trigger b[w]} :: 0 <= w < |a| ==> b[w] == if w < zeroed then 0 else if moved <= w < words then a[w - c] else a[w]
  }

  /** Moving whole words. */
  lemma WordsDown(a: seq<Word>, b: seq<Word>, words: nat, c: nat)
    requires |b| == |a| && words <= |a|
    requires forall w {:trigger b[w]} :: 0 <= w < words ==> b[w] == if w + c < words then a[w + c] else 0
    ensures Down(a, b, words, 64 * c)
  {
    hide Bit;
    forall i | 0 <= i < 64 * words ensures Get(b, i) <==> i + 64 * c < 64 * words && Get(a, i + 64 * c) {
      assert (i + 64 * c) / 64 == i / 64 + c && (i + 64 * c) % 64 == i % 64;
      BitZero(i % 64);
    }
  }

  lemma WordsUp(a: seq<Word>, b: seq<Word>, words: nat, c: nat)
    requires |b| == |a| && words <= |a|
    requires forall w {:trigger b[w]} :: 0 <= w < words ==> b[w] == if w >= c then a[w - c] else 0
    ensures Up(a, b, words, 64 * c)
  {
    hide Bit;
    forall i | 0 <= i < 64 * words ensures Get(b, i) <==> 64 * c <= i && Get(a, i - 64 * c) {
      if 64 * c <= i {
        assert (i - 64 * c) / 64 == i / 64 - c && (i - 64 * c) % 64 == i % 64;
      }
      BitZero(i % 64);
    }
  }

  /** b is a moved up by n bits, and clear from the size on. */
  ghost predicate UpTo(a: seq<Word>, b: seq<Word>, size: nat, n: nat) {
    && |b| == |a| && UnusedClear(b, size)
    && forall i :: 0 <= i < size ==> (Get(b, i) <==> n <= i && Get(a, i - n))
  }

  lemma UpToNothing(a: seq<Word>, size: nat)
    requires UnusedClear(a, size)
    ensures UpTo(a, a, size, 0)
  {
  }

  lemma UpToPadded(a: seq<Word>, b: seq<Word>, c: seq<Word>, size: nat, n: nat)
    requires Up(a, b, NumBitWords(size), n) && NumBitWords(size) <= |a| && Padded(b, c, size, false)
    ensures UpTo(a, c, size, n)
  {
    hide Bit;
  }

  lemma UpToTrans(a: seq<Word>, b: seq<Word>, c: seq<Word>, d: seq<Word>, size: nat, m: nat, n: nat)
    requires UpTo(a, b, size, m) && Up(b, c, NumBitWords(size), n) && NumBitWords(size) <= |a| && Padded(c, d, size, false)
    ensures UpTo(a, d, size, m + n)
  {
    hide Get, UnusedClear;
    UpToPadded(b, c, d, size, n);
    forall i | 0 <= i < size ensures Get(d, i) <==> m + n <= i && Get(a, i - (m + n)) {
      assert Get(d, i) <==> n <= i && Get(b, i - n);
      if n <= i {
        assert Get(b, i - n) <==> m <= i - n && Get(a, i - n - m);
      }
    }
  }

  lemma UpBits(a: seq<Word>, b: seq<Word>, size: nat, n: nat)
    requires UpTo(a, b, size, 64 * (n / 64) + n % 64)
    ensures |b| == |a| && UnusedClear(b, size)
    ensures forall i :: 0 <= i < size ==> (Get(b, i) <==> n <= i && Get(a, i - n))
  {
  }

  lemma NotRaised(a: seq<Word>, size: nat, n: nat)
    requires size == 0 || n == 0
    ensures forall i :: 0 <= i < size ==> (Get(a, i) <==> n <= i && Get(a, i - n))
  {
  }

  lemma NotShifted(a: seq<Word>, size: nat, n: nat)
    requires size == 0 || n == 0
    ensures forall i :: 0 <= i < size ==> (Get(a, i) <==> i + n < size && Get(a, i + n))
  {
  }

  lemma DownBits(a: seq<Word>, b: seq<Word>, size: nat, n: nat)
    requires UnusedClear(a, size) && NumBitWords(size) <= |a|
    requires Down(a, b, NumBitWords(size), 64 * (n / 64) + n % 64)
    ensures UnusedClear(b, size) && |b| == |a|
    ensures forall i :: 0 <= i < size ==> (Get(b, i) <==> i + n < size && Get(a, i + n))
  {
    hide Bit, Get;
  }

  // ----- Masks of 32-bit words -----

  ghost predicate Is32(m: Word) {
    forall k :: 32 <= k < 64 ==> !Bit(m, k)
  }

  /** One step of applyMask: mask word m, shifted to its half of the word. */
  function Combined(word: Word, m: Word, b: nat, add: bool, invert: bool): (r: Word) {
    var n := Shl(if invert then And(Not(m), MaskTrailingOnes(32)) else m, b);
    if add then Or(word, n) else And(word, Not(n))
  }

  lemma CombinedBits(word: Word, m: Word, b: nat, add: bool, invert: bool, k: nat)
    requires Is32(m) && (b == 0 || b == 32) && k < 64
    ensures Bit(Combined(word, m, b, add, invert), k) <==>
      if b <= k < b + 32 && (Bit(m, k - b) != invert) then add else Bit(word, k)
  {
    hide Bit, And, Or, Not, Shl, MaskTrailingOnes;
    var u := if invert then And(Not(m), MaskTrailingOnes(32)) else m;
    var n := Shl(u, b);
    BitShl(u, b, k);
    BitOr(word, n, k);
    BitAnd(word, Not(n), k);
    BitNot(n, k);
    if k >= b {
      BitAnd(Not(m), MaskTrailingOnes(32), k - b);
      BitTrailingOnes(32, k - b);
      BitNot(m, k - b);
    }
  }

  /** Bit i is among the first n words of the mask, and set in it (or clear, if inverted). */
  ghost predicate Selected(mask: seq<Word>, n: nat, invert: bool, i: nat) {
    i / 32 < n && i / 32 < |mask| && (Bit(mask[i / 32], i % 32) != invert)
  }

  ghost predicate Applied(a: seq<Word>, b: seq<Word>, mask: seq<Word>, n: nat, add: bool, invert: bool) {
    |b| == |a| && forall i :: 0 <= i < 64 * |a| ==> (Get(b, i) <==> if Selected(mask, n, invert, i) then add else Get(a, i))
  }

  lemma AppliedNone(a: seq<Word>, mask: seq<Word>, add: bool, invert: bool)
    ensures Applied(a, a, mask, 0, add, invert)
  {
  }

  lemma HalfIndex(i: nat)
    ensures i / 32 == 2 * (i / 64) + (if i % 64 < 32 then 0 else 1)
    ensures i % 32 == if i % 64 < 32 then i % 64 else i % 64 - 32
  {
  }

  lemma MaskStep(a: seq<Word>, b: seq<Word>, mask: seq<Word>, n: nat, add: bool, invert: bool)
    requires Applied(a, b, mask, n, add, invert) && n < |mask| && n / 2 < |b| && Is32(mask[n])
    ensures Applied(a, b[n / 2 := Combined(b[n / 2], mask[n], 32 * (n % 2), add, invert)], mask, n + 1, add, invert)
  {
    hide Bit, Combined, Is32;
    var w := n / 2;
    var c := b[w := Combined(b[w], mask[n], 32 * (n % 2), add, invert)];
    forall i | 0 <= i < 64 * |a| ensures Get(c, i) <==> if Selected(mask, n + 1, invert, i) then add else Get(a, i) {
      HalfIndex(i);
      assert Get(b, i) <==> if Selected(mask, n, invert, i) then add else Get(a, i);
      if i / 64 == w {
        CombinedBits(b[w], mask[n], 32 * (n % 2), add, invert, i % 64);
      }
    }
  }

  lemma MaskedBits(a: seq<Word>, b: seq<Word>, c: seq<Word>, size: nat, mask: seq<Word>, n: nat, add: bool, invert: bool)
    requires UnusedClear(a, size) && NumBitWords(size) <= |a| && Applied(a, b, mask, n, add, invert)
    requires if add then Padded(b, c, size, false) else c == b
    ensures |c| == |a| && UnusedClear(c, size)
    ensures forall i :: 0 <= i < size ==> (Get(c, i) <==> if Selected(mask, n, invert, i) then add else Get(a, i))
  {
    hide Bit, Selected;
  }

  // ----- The vector -----

  class BitVector {
    var bits: array<Word>
    var size: nat

    ghost predicate Valid()
      reads this, bits
    {
      NumBitWords(size) <= bits.Length && UnusedClear(bits[..], size)
    }

    /** A vector of n bits, all of them t. */
    constructor (n: nat, t: bool)
      ensures Valid() && fresh(bits) && size == n
      ensures forall i :: 0 <= i < n ==> (Get(bits[..], i) <==> t)
    {
      bits, size := new Word[NumBitWords(n)], n;
      new;
      hide Bit, Get, Padded, Inited, UnusedClear;
      ghost var a := bits[..];
      InitWords(0, t);
      ghost var b := bits[..];
      InitedLength(a, b, 0, t);
      if t {
        SetUnusedBits(false);
      }
      NewBits(a, b, bits[..], n, t);
    }

    /** set(I, E). */
    method SetRange(first: nat, e: nat)
      requires Valid() && first <= e <= size
      modifies bits
      ensures Valid() && RangeSet(old(bits[..]), bits[..], first, e)
    {
      hide Bit, Get, UnusedClear, RangeSet, RangeMask, DiffMask, LowMask, Shl, Or, And, Not;
      ghost var a := bits[..];
      if first == e {
        RangeSetNone(a, first);
        return;
      }
      if first / 64 == e / 64 {
        var mask := DiffMask(first % 64, e % 64);
        InnerMask(first, e);
        OrWord(a, first / 64, mask, first, e);
        bits[first / 64] := Or(bits[first / 64], mask);
        RangeSetValid(a, bits[..], first, e, size);
        return;
      }
      var prefixMask := Shl(ONES, first % 64);
      PrefixMask(first);
      ghost var done := 64 * (first / 64) + 64;
      OrWord(a, first / 64, prefixMask, first, done);
      bits[first / 64] := Or(bits[first / 64], prefixMask);
      AlignedUp(first, e);
      ghost var b := bits[..];
      var i := SetWords((first + 63) / 64 * 64, e);
      RangeSetTrans(a, b, bits[..], first, (first + 63) / 64 * 64, done, i);
      if i < e {
        b := bits[..];
        var postfixMask := LowMask(e % 64);
        PostfixMask(e);
        OrWord(b, i / 64, postfixMask, i, e);
        bits[i / 64] := Or(bits[i / 64], postfixMask);
        RangeSetTrans(a, b, bits[..], first, i, i, e);
      }
      RangeSetValid(a, bits[..], first, e, size);
    }

    /** The loop of set(I, E): all words up to e. */
    method SetWords(start: nat, e: nat) returns (i: nat)
      requires start % 64 == 0 && start <= e <= 64 * bits.Length
      modifies bits
      ensures i % 64 == 0 && start <= i <= e < i + 64
      ensures RangeSet(old(bits[..]), bits[..], start, i)
    {
      hide Bit, Get, RangeSet, RangeMask, Or, And, Not;
      ghost var a := bits[..];
      i := start;
      RangeSetNone(a, start);
      while i + 64 <= e
        invariant i % 64 == 0 && start <= i <= e
        invariant RangeSet(a, bits[..], start, i)
        decreases e - i
      {
        ghost var b := bits[..];
        FullMask(i / 64);
        OrWord(b, i / 64, ONES, i, i + 64);
        OrOnes(b[i / 64]);
        bits[i / 64] := ONES;
        assert bits[..] == b[i / 64 := ONES];
        RangeSetTrans(a, b, bits[..], start, i, i, i + 64);
        i := i + 64;
      }
    }

    /** reset(I, E). */
    method ResetRange(first: nat, e: nat)
      requires Valid() && first <= e <= size
      modifies bits
      ensures Valid() && RangeReset(old(bits[..]), bits[..], first, e)
    {
      hide Bit, Get, UnusedClear, RangeReset, RangeMask, DiffMask, LowMask, Shl, Or, And, Not;
      ghost var a := bits[..];
      if first == e {
        RangeResetNone(a, first);
        return;
      }
      if first / 64 == e / 64 {
        var mask := DiffMask(first % 64, e % 64);
        InnerMask(first, e);
        AndNotWord(a, first / 64, mask, first, e);
        bits[first / 64] := And(bits[first / 64], Not(mask));
        RangeResetValid(a, bits[..], first, e, size);
        return;
      }
      var prefixMask := Shl(ONES, first % 64);
      PrefixMask(first);
      ghost var done := 64 * (first / 64) + 64;
      AndNotWord(a, first / 64, prefixMask, first, done);
      bits[first / 64] := And(bits[first / 64], Not(prefixMask));
      AlignedUp(first, e);
      ghost var b := bits[..];
      var i := ResetWords((first + 63) / 64 * 64, e);
      RangeResetTrans(a, b, bits[..], first, (first + 63) / 64 * 64, done, i);
      if i < e {
        b := bits[..];
        var postfixMask := LowMask(e % 64);
        PostfixMask(e);
        AndNotWord(b, i / 64, postfixMask, i, e);
        bits[i / 64] := And(bits[i / 64], Not(postfixMask));
        RangeResetTrans(a, b, bits[..], first, i, i, e);
      }
      RangeResetValid(a, bits[..], first, e, size);
    }

    /** The loop of reset(I, E): all words up to e. */
    method ResetWords(start: nat, e: nat) returns (i: nat)
      requires start % 64 == 0 && start <= e <= 64 * bits.Length
      modifies bits
      ensures i % 64 == 0 && start <= i <= e < i + 64
      ensures RangeReset(old(bits[..]), bits[..], start, i)
    {
      hide Bit, Get, RangeReset, RangeMask, Or, And, Not;
      ghost var a := bits[..];
      i := start;
      RangeResetNone(a, start);
      while i + 64 <= e
        invariant i % 64 == 0 && start <= i <= e
        invariant RangeReset(a, bits[..], start, i)
        decreases e - i
      {
        ghost var b := bits[..];
        FullMask(i / 64);
        AndNotWord(b, i / 64, ONES, i, i + 64);
        OrOnes(b[i / 64]);
        bits[i / 64] := 0;
        assert bits[..] == b[i / 64 := 0];
        RangeResetTrans(a, b, bits[..], start, i, i, i + 64);
        i := i + 64;
      }
    }

    /** flip. */
    method Flip()
      requires Valid()
      modifies bits
      ensures Valid() && forall i :: 0 <= i < size ==> (Get(bits[..], i) <==> !Get(old(bits[..]), i))
    {
      hide Bit, Get, Padded, UnusedClear, Not;
      ghost var a := bits[..];
      for w := 0 to NumBitWords(size)
        invariant Flipped(a, bits[..], w)
      {
        bits[w] := Not(bits[w]);
      }
      ghost var b := bits[..];
      SetUnusedBits(false);
      FlippedBits(a, b, bits[..], size);
    }

    /** find_first_in. */
    method FindFirstIn(begin: nat, end: nat) returns (r: int)
      requires Valid() && begin <= end <= size
      ensures if r == -1 then (forall i :: begin <= i < end ==> !Get(bits[..], i)) else begin <= r < end && Get(bits[..], r) && (forall i :: begin <= i < r ==> !Get(bits[..], i))
    {
      hide Bit, FirstBit, LastBit, CutFirst, CutLast, Cut;
      if begin == end {
        return -1;
      }
      var firstWord, lastWord := begin / WORD_SIZE, (end - 1) / WORD_SIZE;
      var w := firstWord;
      while w <= lastWord
        invariant firstWord <= w <= lastWord + 1
        invariant forall i :: begin <= i < end && i < 64 * w ==> !Get(bits[..], i)
      {
        var copy := bits[w];
        if w == firstWord {
          copy := CutFirst(copy, begin);
        }
        if w == lastWord {
          copy := CutLast(copy, end);
        }
        CutBits(bits[w], w, begin, end);
        if copy != 0 {
          CutFound(bits[..], copy, w, begin, end);
          return w * WORD_SIZE + FirstBit(copy);
        }
        CutEmpty(bits[..], copy, w, begin, end);
        w := w + 1;
      }
      return -1;
    }

    /** find_last_in. */
    method FindLastIn(begin: nat, end: nat) returns (r: int)
      requires Valid() && begin <= end <= size
      ensures if r == -1 then (forall i :: begin <= i < end ==> !Get(bits[..], i)) else begin <= r < end && Get(bits[..], r) && (forall i :: r < i < end ==> !Get(bits[..], i))
    {
      hide Bit, FirstBit, LastBit, CutFirst, CutLast, Cut;
      if begin == end {
        return -1;
      }
      var firstWord, lastWord := begin / WORD_SIZE, (end - 1) / WORD_SIZE;
      var next := lastWord + 1;
      while next >= firstWord + 1
        invariant firstWord <= next <= lastWord + 1
        invariant forall i :: begin <= i < end && 64 * next <= i ==> !Get(bits[..], i)
      {
        var w := next - 1;
        var copy := bits[w];
        if w == lastWord {
          copy := CutLast(copy, end);
        }
        if w == firstWord {
          copy := CutFirst(copy, begin);
        }
        CutBits(bits[w], w, begin, end);
        if copy != 0 {
          CutFound(bits[..], copy, w, begin, end);
          return (w + 1) * WORD_SIZE - (63 - LastBit(copy)) - 1;
        }
        CutEmpty(bits[..], copy, w, begin, end);
        next := next - 1;
      }
      return -1;
    }

    /** find_first_unset_in. */
    method FindFirstUnsetIn(begin: nat, end: nat) returns (r: int)
      requires Valid() && begin <= end <= size
      ensures if r == -1 then (forall i :: begin <= i < end ==> Get(bits[..], i)) else begin <= r < end && !Get(bits[..], r) && (forall i :: begin <= i < r ==> Get(bits[..], i))
    {
      hide Bit, FirstBit, LastBit, FillFirst, FillLast, Filled, Not, Complement;
      if begin == end {
        return -1;
      }
      var firstWord, lastWord := begin / WORD_SIZE, (end - 1) / WORD_SIZE;
      var w := firstWord;
      while w <= lastWord
        invariant firstWord <= w <= lastWord + 1
        invariant forall i :: begin <= i < end && i < 64 * w ==> Get(bits[..], i)
      {
        var copy := bits[w];
        if w == firstWord {
          copy := FillFirst(copy, begin);
        }
        if w == lastWord {
          copy := FillLast(copy, end);
        }
        FillBits(bits[w], w, begin, end);
        FilledIsCut(bits[..], copy, w, begin, end);
        UnsetFacts(bits[..], copy, w, begin, end);
        if copy != ONES {
          var result := w * WORD_SIZE + FirstBit(Not(copy));
          return if result < size then result else -1;
        }
        w := w + 1;
      }
      return -1;
    }

    /** find_last_unset_in. */
    method FindLastUnsetIn(begin: nat, end: nat) returns (r: int)
      requires Valid() && begin <= end <= size
      ensures if r == -1 then (forall i :: begin <= i < end ==> Get(bits[..], i)) else begin <= r < end && !Get(bits[..], r) && (forall i :: r < i < end ==> Get(bits[..], i))
    {
      hide Bit, FirstBit, LastBit, FillFirst, FillLast, Filled, Not, Complement;
      if begin == end {
        return -1;
      }
      var firstWord, lastWord := begin / WORD_SIZE, (end - 1) / WORD_SIZE;
      var next := lastWord + 1;
      while next >= firstWord + 1
        invariant firstWord <= next <= lastWord + 1
        invariant forall i :: begin <= i < end && 64 * next <= i ==> Get(bits[..], i)
      {
        var w := next - 1;
        var copy := bits[w];
        if w == lastWord {
          copy := FillLast(copy, end);
        }
        if w == firstWord {
          copy := FillFirst(copy, begin);
        }
        FillBits(bits[w], w, begin, end);
        FilledIsCut(bits[..], copy, w, begin, end);
        UnsetFacts(bits[..], copy, w, begin, end);
        if copy != ONES {
          var result := (w + 1) * WORD_SIZE - (63 - LastBit(Not(copy))) - 1;
          return if result < size then result else -1;
        }
        next := next - 1;
      }
      return -1;
    }

    /** init_words on the words from number used on. */
    method InitWords(used: nat, t: bool)
      modifies bits
      ensures Inited(old(bits[..]), bits[..], used, t)
    {
      ghost var a := bits[..];
      var w := used;
      while w < bits.Length
        invariant used <= w && forall v :: 0 <= v < bits.Length ==> bits[v] == if used <= v < w then Fill(t) else a[v]
      {
        bits[w] := Fill(t);
        w := w + 1;
      }
    }

    /** set_unused_bits; clear_unused_bits is the case of t being false. */
    method SetUnusedBits(t: bool)
      requires NumBitWords(size) <= bits.Length
      modifies bits
      ensures Padded(old(bits[..]), bits[..], size, t)
    {
      hide Bit, Get, Shl, Or, And, Not, Padded, Inited, Fill;
      ghost var a := bits[..];
      var usedWords := NumBitWords(size);
      InitWords(usedWords, t);
      ghost var b := bits[..];
      InitedPads(a, b, usedWords, t);
      InitedLength(a, b, usedWords, t);
      var extraBits := size % WORD_SIZE;
      if extraBits != 0 {
        var extraBitMask := Shl(ONES, extraBits);
        StrayBits(a, b, size, t);
        if t {
          bits[usedWords - 1] := Or(bits[usedWords - 1], extraBitMask);
        } else {
          bits[usedWords - 1] := And(bits[usedWords - 1], Not(extraBitMask));
        }
      }
    }

    /** grow: reallocates; what the new memory holds is unknown until it is cleared. */
    method Grow(newSize: nat)
      requires Valid() && NumBitWords(newSize) > bits.Length
      modifies this`bits
      ensures Valid() && fresh(bits) && bits.Length >= NumBitWords(newSize) && bits.Length >= old(bits.Length)
      ensures forall i :: 0 <= i < 64 * bits.Length ==> (Get(bits[..], i) <==> i < size && Get(old(bits[..]), i))
    {
      hide Bit, Padded;
      ghost var a := bits[..];
      var newCapacity := if NumBitWords(newSize) > bits.Length * 2 then NumBitWords(newSize) else bits.Length * 2;
      var newBits := new Word[newCapacity];
      for w := 0 to bits.Length
        invariant newBits[..w] == a[..w]
        invariant bits == old(bits) && bits[..] == a
      {
        newBits[w] := bits[w];
      }
      assert newBits[..|a|] == a;
      bits := newBits;
      ghost var b := bits[..];
      SetUnusedBits(false);
      GrownBits(a, b, bits[..], size);
    }

    /** resize. */
    method Resize(n: nat, t: bool)
      requires Valid()
      modifies this, bits
      ensures Valid() && size == n && (bits == old(bits) || fresh(bits))
      ensures forall i :: 0 <= i < n ==> (Get(bits[..], i) <==> if i < old(size) then Get(old(bits[..]), i) else t)
    {
      hide Bit, Get, Padded, Inited, UnusedClear;
      ghost var a, s := bits[..], size;
      if n > bits.Length * WORD_SIZE {
        var oldCapacity := bits.Length;
        Grow(n);
        ghost var g := bits[..];
        InitWords(oldCapacity, t);
        InitedBelow(g, bits[..], oldCapacity, t, size);
      }
      ghost var b := bits[..];
      if n > size {
        SetUnusedBits(t);
        PaddedLength(b, bits[..], size, t);
      }
      ghost var c := bits[..];
      var oldSize := size;
      size := n;
      if t || n < oldSize {
        SetUnusedBits(false);
      }
      ResizedBits(a, b, c, bits[..], s, n, t);
    }

    /** wordShr. */
    method WordShr(count: nat)
      requires NumBitWords(size) <= bits.Length && count <= NumBitWords(size)
      modifies bits
      ensures Down(old(bits[..]), bits[..], NumBitWords(size), 64 * count)
    {
      hide Bit, Get, Down;
      ghost var a := bits[..];
      var numWords := NumBitWords(size);
      if count == 0 {
        WordsDown(a, a, numWords, 0);
        return;
      }
      for w := 0 to numWords - count
        invariant MovedDown(a, bits[..], count, w, w)
      {
        ghost var b := bits[..];
        bits[w] := bits[w + count];
        assert bits[..] == b[w := b[w + count]];
      }
      for w := numWords - count to numWords
        invariant MovedDown(a, bits[..], count, numWords - count, w)
      {
        ghost var b := bits[..];
        bits[w] := 0;
        assert bits[..] == b[w := 0];
      }
      WordsDown(a, bits[..], numWords, count);
    }

    /** wordShl. */
    method WordShl(count: nat)
      requires Valid() && count <= NumBitWords(size)
      modifies bits
      ensures UpTo(old(bits[..]), bits[..], size, 64 * count)
    {
      hide Bit, Get, Up, Padded, UpTo;
      ghost var a := bits[..];
      var numWords := NumBitWords(size);
      if count == 0 {
        UpToNothing(a, size);
        return;
      }
      var w := numWords;
      while w > count
        invariant count <= w <= numWords
        invariant MovedUp(a, bits[..], count, numWords, w, 0)
      {
        ghost var b := bits[..];
        w := w - 1;
        bits[w] := bits[w - count];
        assert bits[..] == b[w := b[w - count]];
      }
      for u := 0 to count
        invariant MovedUp(a, bits[..], count, numWords, count, u)
      {
        ghost var b := bits[..];
        bits[u] := 0;
        assert bits[..] == b[u := 0];
      }
      ghost var b := bits[..];
      WordsUp(a, b, numWords, count);
      SetUnusedBits(false);
      UpToPadded(a, b, bits[..], size, 64 * count);
    }

    /** operator>>=. */
    method ShiftRight(n: nat)
      requires Valid() && n <= size
      modifies bits
      ensures Valid()
      ensures forall i :: 0 <= i < size ==> (Get(bits[..], i) <==> i + n < size && Get(old(bits[..]), i + n))
    {
      hide Bit, Get, Down, MergedDown, UnusedClear, Shr, Shl, Or, And, MaskTrailingOnes;
      ghost var a := bits[..];
      if size == 0 || n == 0 {
        NotShifted(a, size, n);
        return;
      }
      var numWords := NumBitWords(size);
      WordShr(n / WORD_SIZE);
      ghost var b := bits[..];
      var bitDistance := n % WORD_SIZE;
      if bitDistance == 0 {
        DownBits(a, b, size, n);
        return;
      }
      MergeWords(numWords, bitDistance);
      DownTrans(a, b, bits[..], numWords, 64 * (n / 64), bitDistance);
      DownBits(a, bits[..], size, n);
    }

    /** The loop of operator>>=. */
    method MergeWords(numWords: nat, d: nat)
      requires 0 < d < 64 && 0 < numWords <= bits.Length
      modifies bits
      ensures Down(old(bits[..]), bits[..], numWords, d)
    {
      hide Bit, Get, Down, Shr, Shl, Or, And, MaskTrailingOnes, MergedDown;
      ghost var a := bits[..];
      MergeStart(a, numWords, d);
      var mask := MaskTrailingOnes(d);
      var lsh := WORD_SIZE - d;
      var i := 0;
      while i < numWords - 1
        invariant 0 <= i <= numWords - 1
        invariant MergedDown(a, bits[..], numWords, d, i)
      {
        ghost var b := bits[..];
        MergeStep(a, b, numWords, d, i);
        bits[i] := Shr(bits[i], d);
        bits[i] := Or(bits[i], Shl(And(bits[i + 1], mask), lsh));
        assert bits[..] == b[i := Merged(b[i], b[i + 1], d)];
        i := i + 1;
      }
      ghost var b := bits[..];
      MergeStep(a, b, numWords, d, numWords - 1);
      bits[numWords - 1] := Shr(bits[numWords - 1], d);
      assert bits[..] == b[numWords - 1 := Shr(b[numWords - 1], d)];
      MergedDownBits(a, bits[..], numWords, d);
    }

    /** operator<<=. */
    method ShiftLeft(n: nat)
      requires Valid() && n <= size
      modifies bits
      ensures Valid()
      ensures forall i :: 0 <= i < size ==> (Get(bits[..], i) <==> n <= i && Get(old(bits[..]), i - n))
    {
      hide Bit, Get, Up, UpTo, CarriedUp, UnusedClear, Padded, Shr, Shl, Or, And, Not, MaskTrailingOnes;
      ghost var a := bits[..];
      if size == 0 || n == 0 {
        NotRaised(a, size, n);
        return;
      }
      var numWords := NumBitWords(size);
      WordShl(n / WORD_SIZE);
      ghost var b := bits[..];
      var bitDistance := n % WORD_SIZE;
      if bitDistance == 0 {
        UpBits(a, b, size, n);
        return;
      }
      CarryWords(numWords, bitDistance);
      ghost var c := bits[..];
      SetUnusedBits(false);
      UpToTrans(a, b, c, bits[..], size, 64 * (n / 64), bitDistance);
      UpBits(a, bits[..], size, n);
    }

    /** The loop of operator<<=. */
    method CarryWords(numWords: nat, d: nat)
      requires 0 < d < 64 && 0 < numWords <= bits.Length
      modifies bits
      ensures Up(old(bits[..]), bits[..], numWords, d)
    {
      hide Bit, Get, Up, Shr, Shl, Or, And, Not, MaskTrailingOnes, CarriedUp;
      ghost var a := bits[..];
      CarryStart(a, numWords, d);
      var mask := Not(MaskTrailingOnes(64 - d));
      var rsh := WORD_SIZE - d;
      var i := numWords - 1;
      while i > 0
        invariant 0 <= i <= numWords - 1
        invariant CarriedUp(a, bits[..], numWords, d, i)
      {
        ghost var b := bits[..];
        CarryStep(a, b, numWords, d, i);
        bits[i] := Shl(bits[i], d);
        bits[i] := Or(bits[i], Shr(And(bits[i - 1], mask), rsh));
        assert bits[..] == b[i := Carried(b[i - 1], b[i], d)];
        i := i - 1;
      }
      ghost var b := bits[..];
      CarryStep(a, b, numWords, d, 0);
      bits[0] := Shl(bits[0], d);
      assert bits[..] == b[0 := Shl(b[0], d)];
      CarriedUpBits(a, bits[..], numWords, d);
    }

    /** applyMask; the mask's words are 32 bits wide. */
    method ApplyMask(mask: seq<Word>, maskWords: nat, add: bool, invert: bool)
      requires Valid() && forall j :: 0 <= j < |mask| ==> Is32(mask[j])
      requires |mask| >= Min(maskWords, (size + 31) / 32)
      modifies bits
      ensures Valid()
      ensures forall i :: 0 <= i < size ==>
        (Get(bits[..], i) <==> if Selected(mask, Min(maskWords, (size + 31) / 32), invert, i) then add else Get(old(bits[..]), i))
    {
      hide Bit, Get, Applied, Combined, UnusedClear, Padded, Is32;
      ghost var a := bits[..];
      var total: nat := Min(maskWords, (size + 31) / 32);
      AppliedNone(a, mask, add, invert);
      var left, next, i := total, 0, 0;
      while left >= 2
        invariant next == 2 * i && next + left == total
        invariant Applied(a, bits[..], mask, next, add, invert)
      {
        ghost var b := bits[..];
        MaskStep(a, b, mask, next, add, invert);
        var bw := Combined(bits[i], mask[next], 0, add, invert);
        ghost var c := b[i := bw];
        MaskStep(a, c, mask, next + 1, add, invert);
        bw := Combined(bw, mask[next + 1], 32, add, invert);
        bits[i] := bw;
        assert bits[..] == c[i := bw];
        next, left, i := next + 2, left - 2, i + 1;
      }
      if left != 0 {
        ghost var b := bits[..];
        MaskStep(a, b, mask, next, add, invert);
        bits[i] := Combined(bits[i], mask[next], 0, add, invert);
        assert bits[..] == b[i := bits[i]];
      }
      ghost var b := bits[..];
      if add {
        SetUnusedBits(false);
      }
      MaskedBits(a, b, bits[..], size, mask, total, add, invert);
    }
  }
}
