/** Counting set bits of a 64-bit word: the bit-parallel formula, and the loop that clears
    the lowest set bit until none is left. Words are naturals below two to the 64; the
    operators that can wrap do so explicitly. */
module Popcount {

  const WORD: nat := 0x1_0000_0000_0000_0000

  /** What an unsigned 64-bit operation keeps of its exact result. */
  function Wrap(x: int): (r: nat)
    ensures r < WORD
  {
    x % WORD
  }

  /** `(x * 0x0101010101010101) >> 56`. */
  function SumBytes(x: nat): nat { Wrap(x * 0x0101010101010101) / 0x100_0000_0000_0000 }

  /** Bitwise and. */
  function And(x: nat, y: nat): nat {
    if x == 0 || y == 0 then 0
    else (if x % 2 == 1 && y % 2 == 1 then 1 else 0) + 2 * And(x / 2, y / 2)
  }

  /** The number of set bits. */
  function BitCount(v: nat): nat {
    if v == 0 then 0 else v % 2 + BitCount(v / 2)
  }

  lemma AndLowBit(x: nat, y: nat)
    ensures And(x, y) == (if x % 2 == 1 && y % 2 == 1 then 1 else 0) + 2 * And(x / 2, y / 2)
  {
  }

  // ── Masks with a repeating digit ──

  /** `n` base-4 digits 1: 0x55... */
  function Mask5(n: nat): nat { if n == 0 then 0 else 1 + 4 * Mask5(n - 1) }

  /** `n` base-16 digits 3: 0x33... */
  function Mask3(n: nat): nat { if n == 0 then 0 else 3 + 16 * Mask3(n - 1) }

  /** `n` base-256 digits 15: 0x0F0F... */
  function MaskF(n: nat): nat { if n == 0 then 0 else 15 + 256 * MaskF(n - 1) }

  lemma Mask5By4(n: nat)
    ensures Mask5(n + 4) == 0x55 + 256 * Mask5(n) && Pow4(n + 4) == 256 * Pow4(n)
  {
    assert Mask5(n + 2) == 5 + 16 * Mask5(n) && Pow4(n + 2) == 16 * Pow4(n);
  }

  lemma Mask3By2(n: nat)
    ensures Mask3(n + 2) == 0x33 + 256 * Mask3(n)
  {
    assert Mask3(n + 1) == 3 + 16 * Mask3(n);
  }

  /** The masks of the source, and the range of a word. */
  lemma MaskValues()
    ensures Mask5(32) == 0x5555555555555555 && Mask3(16) == 0x3333333333333333 && MaskF(8) == 0x0F0F0F0F0F0F0F0F
    ensures Pow4(32) == 0x1_0000_0000_0000_0000
  {
    Mask5By4(0);
    Mask5By4(4);
    Mask5By4(8);
    Mask5By4(12);
    Mask5By4(16);
    Mask5By4(20);
    Mask5By4(24);
    Mask5By4(28);
    Mask3By2(0);
    Mask3By2(2);
    Mask3By2(4);
    Mask3By2(6);
    Mask3By2(8);
    Mask3By2(10);
    Mask3By2(12);
    Mask3By2(14);
    assert MaskF(2) == 0x0F0F;
    assert MaskF(4) == 0x0F0F0F0F;
    assert MaskF(6) == 0x0F0F0F0F0F0F;
  }

  lemma AndLow2(x: nat, m: nat)
    ensures And(x, 3 + 4 * m) == x % 4 + 4 * And(x / 4, m)
    ensures And(x, 1 + 4 * m) == x % 2 + 4 * And(x / 4, m)
    ensures And(x, 4 * m) == 4 * And(x / 4, m)
  {
    hide And;
    AndLowBit(x, 3 + 4 * m);
    AndLowBit(x, 1 + 4 * m);
    AndLowBit(x, 4 * m);
    AndLowBit(x / 2, 1 + 2 * m);
    AndLowBit(x / 2, 2 * m);
    assert x / 2 / 2 == x / 4;
  }

  lemma AndLow4(x: nat, m: nat)
    ensures And(x, 15 + 16 * m) == x % 16 + 16 * And(x / 16, m)
    ensures And(x, 16 * m) == 16 * And(x / 16, m)
  {
    hide And;
    AndLow2(x, 3 + 4 * m);
    AndLow2(x / 4, m);
    AndLow2(x, 4 * m);
    assert x / 4 / 4 == x / 16;
  }

  lemma AndMask5(x: nat, n: nat)
    ensures And(x, Mask5(n + 1)) == x % 2 + 4 * And(x / 4, Mask5(n))
  {
    AndLow2(x, Mask5(n));
  }

  lemma AndMask3(x: nat, n: nat)
    ensures And(x, Mask3(n + 1)) == x % 4 + 16 * And(x / 16, Mask3(n))
  {
    hide And;
    AndLow2(x, 4 * Mask3(n));
    AndLow2(x / 4, Mask3(n));
    assert x / 4 / 4 == x / 16;
  }

  lemma AndMaskF(x: nat, n: nat)
    ensures And(x, MaskF(n + 1)) == x % 16 + 256 * And(x / 256, MaskF(n))
  {
    hide And;
    AndLow4(x, 16 * MaskF(n));
    AndLow4(x / 16, MaskF(n));
    assert x / 16 / 16 == x / 256;
  }

  // ── The stages of the formula, digit by digit ──

  /** Set bits among the lowest two, four, eight. */
  function Low2(v: nat): (r: nat)
    ensures r <= 2
  {
    v % 2 + v / 2 % 2
  }

  function Low4(v: nat): (r: nat)
    ensures r <= 4
  {
    Low2(v) + Low2(v / 4)
  }

  function Low8(v: nat): (r: nat)
    ensures r <= 8
  {
    Low4(v) + Low4(v / 16)
  }

  /** Base-4, base-16 and base-256 digits holding the bit counts of the word's digits. */
  function PairCounts(v: nat, n: nat): nat { if n == 0 then 0 else Low2(v) + 4 * PairCounts(v / 4, n - 1) }

  function NibbleCounts(v: nat, n: nat): nat { if n == 0 then 0 else Low4(v) + 16 * NibbleCounts(v / 16, n - 1) }

  function ByteCounts(v: nat, n: nat): nat { if n == 0 then 0 else Low8(v) + 256 * ByteCounts(v / 256, n - 1) }

  /** `x + (x >> 4)`, exact. */
  function AddNibbles(x: nat): nat { x + x / 16 }

  /** `x >> 2`. */
  function Quarter(x: nat): nat { x / 4 }

  /** `x >> 4` and `x >> 8`. */
  function Shr4(x: nat): nat { x / 16 }

  function Shr8(x: nat): nat { x / 256 }

  function Pow4(n: nat): nat { if n == 0 then 1 else 4 * Pow4(n - 1) }

  lemma QuarterTwice(v: nat)
    ensures v / 4 / 4 == v / 16
  {
  }

  lemma SixteenthTwice(v: nat)
    ensures v / 16 / 16 == v / 256
  {
  }

  lemma PairsUnfold(v: nat, m: nat)
    requires m >= 2
    ensures PairCounts(v, m) == Low2(v) + 4 * Low2(Quarter(v)) + 16 * PairCounts(Shr4(v), m - 2)
  {
    hide Low2;
    QuarterTwice(v);
    assert PairCounts(v / 4, m - 1) == Low2(v / 4) + 4 * PairCounts(v / 4 / 4, m - 2);
  }

  lemma NibblesUnfold(v: nat, m: nat)
    requires m >= 2
    ensures NibbleCounts(v, m) == Low4(v) + 16 * Low4(Shr4(v)) + 256 * NibbleCounts(Shr8(v), m - 2)
  {
    hide Low4;
    SixteenthTwice(v);
    assert NibbleCounts(v / 16, m - 1) == Low4(v / 16) + 16 * NibbleCounts(v / 16 / 16, m - 2);
  }

  lemma NibblesStep(v: nat, n: nat)
    requires n > 0
    ensures NibbleCounts(v, n) == Low2(v) + Low2(Quarter(v)) + 16 * NibbleCounts(Shr4(v), n - 1)
  {
    hide Low2;
  }

  lemma BytesUnfold(v: nat, n: nat)
    requires n > 0
    ensures ByteCounts(v, n) == Low4(v) + Low4(Shr4(v)) + 256 * ByteCounts(Shr8(v), n - 1)
  {
    hide Low4;
  }

  /** First stage: the subtraction leaves the count of each pair, and never borrows. */
  lemma {:induction false} PairStage(v: nat, n: nat)
    requires v < Pow4(n)
    ensures v - And(v / 2, Mask5(n)) == PairCounts(v, n)
  {
    if n == 0 {
    } else {
      MaskOfWord(v, n);
      PairStage(v / 4, n - 1);
      PairDifference(v, And(v / 4 / 2, Mask5(n - 1)));
    }
  }

  lemma MaskOfWord(v: nat, n: nat)
    requires n > 0
    ensures And(v / 2, Mask5(n)) == v / 2 % 2 + 4 * And(v / 4 / 2, Mask5(n - 1))
  {
    hide And;
    AndMask5(v / 2, n - 1);
    assert v / 2 / 4 == v / 4 / 2;
  }

  lemma PairDifference(v: nat, rest: nat)
    ensures v - (v / 2 % 2 + 4 * rest) == Low2(v) + 4 * (v / 4 - rest)
  {
  }

  /** Second stage: adjacent pairs add up inside their nibble. */
  lemma {:induction false} NibbleStage(v: nat, n: nat, m: nat)
    requires m == 2 * n
    ensures And(PairCounts(v, m), Mask3(n)) + And(Quarter(PairCounts(v, m)), Mask3(n)) == NibbleCounts(v, n)
  {
    if n == 0 {
    } else {
      hide *;
      NibbleStage(Shr4(v), n - 1, m - 2);
      OneMoreNibble(v, n, m);
    }
  }

  lemma OneMoreNibble(v: nat, n: nat, m: nat)
    requires n > 0 && m >= 2
    requires And(PairCounts(Shr4(v), m - 2), Mask3(n - 1)) + And(Quarter(PairCounts(Shr4(v), m - 2)), Mask3(n - 1))
      == NibbleCounts(Shr4(v), n - 1)
    ensures And(PairCounts(v, m), Mask3(n)) + And(Quarter(PairCounts(v, m)), Mask3(n)) == NibbleCounts(v, n)
  {
    hide *;
    NibblesStep(v, n);
    PairsUnfold(v, m);
    NibbleStep(Low2(v), Low2(Quarter(v)), PairCounts(Shr4(v), m - 2), n, NibbleCounts(Shr4(v), n - 1));
  }

  lemma NibbleStep(a: nat, b: nat, rest: nat, n: nat, counts: nat)
    requires a <= 2 && b <= 2 && n > 0
    requires And(rest, Mask3(n - 1)) + And(Quarter(rest), Mask3(n - 1)) == counts
    ensures var x := a + 4 * b + 16 * rest;
      And(x, Mask3(n)) + And(Quarter(x), Mask3(n)) == a + b + 16 * counts
  {
    hide *;
    MaskOfPairs(a, b, rest, n);
  }

  lemma MaskOfPairs(a: nat, b: nat, rest: nat, n: nat)
    requires a <= 2 && b <= 2 && n > 0
    ensures var x := a + 4 * b + 16 * rest;
      && And(x, Mask3(n)) == a + 16 * And(rest, Mask3(n - 1))
      && And(Quarter(x), Mask3(n)) == b + 16 * And(Quarter(rest), Mask3(n - 1))
  {
    hide And;
    hide Mask3;
    var x := a + 4 * b + 16 * rest;
    PairSum(a, b, rest);
    AndMask3(x, n - 1);
    AndMask3(x / 4, n - 1);
  }

  lemma PairSum(a: nat, b: nat, rest: nat)
    requires a <= 2 && b <= 2
    ensures var x := a + 4 * b + 16 * rest;
      x % 4 == a && x / 4 % 4 == b && x / 16 == rest && x / 4 / 16 == rest / 4
  {
    assert (a + 4 * b + 16 * rest) / 4 == b + 4 * rest;
  }

  /** The lowest four bits hold a count of at most four. */
  predicate SmallNibble(x: nat) { x % 16 <= 4 }

  /** Third stage: adjacent nibbles add up inside their byte; the sum of the words never carries. */
  lemma {:induction false} ByteStage(v: nat, n: nat, m: nat)
    requires m == 2 * n
    ensures And(AddNibbles(NibbleCounts(v, m)), MaskF(n)) == ByteCounts(v, n)
  {
    if n == 0 {
    } else {
      hide *;
      ByteStage(Shr8(v), n - 1, m - 2);
      OneMoreByte(v, n, m);
    }
  }

  lemma OneMoreByte(v: nat, n: nat, m: nat)
    requires n > 0 && m >= 2
    requires And(AddNibbles(NibbleCounts(Shr8(v), m - 2)), MaskF(n - 1)) == ByteCounts(Shr8(v), n - 1)
    ensures And(AddNibbles(NibbleCounts(v, m)), MaskF(n)) == ByteCounts(v, n)
  {
    hide *;
    BytesUnfold(v, n);
    NibblesUnfold(v, m);
    LowNibbleOf(Shr8(v), m - 2);
    ByteStep(Low4(v), Low4(Shr4(v)), NibbleCounts(Shr8(v), m - 2), n, ByteCounts(Shr8(v), n - 1), NibbleCounts(v, m));
  }

  lemma ByteStep(a: nat, b: nat, rest: nat, n: nat, counts: nat, x: nat)
    requires a <= 4 && b <= 4 && SmallNibble(rest) && n > 0
    requires And(AddNibbles(rest), MaskF(n - 1)) == counts && x == a + 16 * b + 256 * rest
    ensures And(AddNibbles(x), MaskF(n)) == a + b + 256 * counts
  {
    hide *;
    MaskOfNibbles(a, b, rest, n);
  }

  lemma MaskOfNibbles(a: nat, b: nat, rest: nat, n: nat)
    requires a <= 4 && b <= 4 && SmallNibble(rest) && n > 0
    ensures var x := a + 16 * b + 256 * rest;
      And(AddNibbles(x), MaskF(n)) == a + b + 256 * And(AddNibbles(rest), MaskF(n - 1))
  {
    hide And;
    hide MaskF;
    var x := a + 16 * b + 256 * rest;
    NibbleSum(a, b, rest);
    AndMaskF(x + x / 16, n - 1);
  }

  lemma NibbleDigits(a: nat, b: nat, low: nat, high: nat)
    requires a <= 4 && b <= 4 && low <= 4
    ensures var s := (a + b) + 16 * (b + low) + 256 * (low + 17 * high);
      s % 16 == a + b && s / 256 == low + 17 * high
  {
  }

  lemma NibbleSum(a: nat, b: nat, rest: nat)
    requires a <= 4 && b <= 4 && rest % 16 <= 4
    ensures var s := a + 16 * b + 256 * rest + (a + 16 * b + 256 * rest) / 16;
      s % 16 == a + b && s / 256 == rest + rest / 16
  {
    var low, high := rest % 16, rest / 16;
    assert rest == low + 16 * high;
    assert (a + 16 * b + 256 * rest) / 16 == b + 16 * rest;
    NibbleDigits(a, b, low, high);
  }

  lemma LowNibbleOf(v: nat, n: nat)
    ensures SmallNibble(NibbleCounts(v, n))
  {
    if n > 0 {
      LowDigit(Low4(v), NibbleCounts(v / 16, n - 1));
    }
  }

  lemma LowDigit(a: nat, rest: nat)
    requires a < 16
    ensures (a + 16 * rest) % 16 == a
  {
  }

  /** No stage leaves the word's range. */
  lemma {:induction false} NibblesFit(v: nat, n: nat)
    ensures 3 * NibbleCounts(v, n) <= 4 * Mask3(n)
  {
    if n == 0 {
    } else {
      NibblesFit(v / 16, n - 1);
    }
  }

  // ── The multiplication ──

  /** The product's top byte is the sum of the eight digits: no column overflows. */
  lemma TopByteOfProduct(x: nat, c0: nat, c1: nat, c2: nat, c3: nat, c4: nat, c5: nat, c6: nat, c7: nat)
    requires c0 <= 8 && c1 <= 8 && c2 <= 8 && c3 <= 8 && c4 <= 8 && c5 <= 8 && c6 <= 8 && c7 <= 8
    requires x == c0 + 0x100 * c1 + 0x1_0000 * c2 + 0x100_0000 * c3 + 0x1_0000_0000 * c4
                  + 0x100_0000_0000 * c5 + 0x1_0000_0000_0000 * c6 + 0x100_0000_0000_0000 * c7
    ensures SumBytes(x) == c0 + c1 + c2 + c3 + c4 + c5 + c6 + c7
  {
    var high := (c1 + c2 + c3 + c4 + c5 + c6 + c7) + 0x100 * (c2 + c3 + c4 + c5 + c6 + c7)
                + 0x1_0000 * (c3 + c4 + c5 + c6 + c7) + 0x100_0000 * (c4 + c5 + c6 + c7)
                + 0x1_0000_0000 * (c5 + c6 + c7) + 0x100_0000_0000 * (c6 + c7) + 0x1_0000_0000_0000 * c7;
    var low := c0 + 0x100 * (c0 + c1) + 0x1_0000 * (c0 + c1 + c2) + 0x100_0000 * (c0 + c1 + c2 + c3)
               + 0x1_0000_0000 * (c0 + c1 + c2 + c3 + c4) + 0x100_0000_0000 * (c0 + c1 + c2 + c3 + c4 + c5)
               + 0x1_0000_0000_0000 * (c0 + c1 + c2 + c3 + c4 + c5 + c6);
    var sum := c0 + c1 + c2 + c3 + c4 + c5 + c6 + c7;
    assert x * 0x0101010101010101 == high * 0x1_0000_0000_0000_0000 + (sum * 0x100_0000_0000_0000 + low);
    TopByte(x * 0x0101010101010101, high, sum, low);
  }

  lemma TopByte(product: nat, high: nat, sum: nat, low: nat)
    requires product == high * 0x1_0000_0000_0000_0000 + (sum * 0x100_0000_0000_0000 + low)
    requires sum < 256 && low < 0x100_0000_0000_0000
    ensures Wrap(product) / 0x100_0000_0000_0000 == sum
  {
    assert product % 0x1_0000_0000_0000_0000 == sum * 0x100_0000_0000_0000 + low;
  }

  lemma CountByte(v: nat)
    ensures BitCount(v) == Low8(v) + BitCount(v / 256)
  {
    CountNibble(v);
    CountNibble(v / 16);
    assert v / 16 / 16 == v / 256;
  }

  lemma CountNibble(v: nat)
    ensures BitCount(v) == Low4(v) + BitCount(v / 16)
  {
    CountPair(v);
    CountPair(v / 4);
    assert v / 4 / 4 == v / 16;
  }

  lemma CountPair(v: nat)
    ensures BitCount(v) == Low2(v) + BitCount(v / 4)
  {
    CountBit(v);
    CountBit(v / 2);
    assert v / 2 / 2 == v / 4;
  }

  lemma CountBit(v: nat)
    ensures BitCount(v) == v % 2 + BitCount(v / 2)
  {
  }

  /** The eight byte counts of a word add up to its bit count. */
  lemma ByteCountsSum(v: nat)
    requires v < WORD
    ensures SumBytes(ByteCounts(v, 8)) == BitCount(v)
  {
    var v1 := v / 256;
    var v2 := v1 / 256;
    var v3 := v2 / 256;
    var v4 := v3 / 256;
    var v5 := v4 / 256;
    var v6 := v5 / 256;
    var v7 := v6 / 256;
    CountByte(v);
    CountByte(v1);
    CountByte(v2);
    CountByte(v3);
    CountByte(v4);
    CountByte(v5);
    CountByte(v6);
    CountByte(v7);
    assert v7 / 256 == 0;
    ByteDigits(v, v1, v2, v3, v4, v5, v6, v7);
    TopByteOfProduct(ByteCounts(v, 8), Low8(v), Low8(v1), Low8(v2), Low8(v3), Low8(v4), Low8(v5), Low8(v6), Low8(v7));
  }

  lemma ByteDigits(v: nat, v1: nat, v2: nat, v3: nat, v4: nat, v5: nat, v6: nat, v7: nat)
    requires v1 == v / 256 && v2 == v1 / 256 && v3 == v2 / 256 && v4 == v3 / 256
    requires v5 == v4 / 256 && v6 == v5 / 256 && v7 == v6 / 256
    ensures ByteCounts(v, 8) == Low8(v) + 0x100 * Low8(v1) + 0x1_0000 * Low8(v2) + 0x100_0000 * Low8(v3)
      + 0x1_0000_0000 * Low8(v4) + 0x100_0000_0000 * Low8(v5) + 0x1_0000_0000_0000 * Low8(v6) + 0x100_0000_0000_0000 * Low8(v7)
  {
    hide Low8;
    assert ByteCounts(v7, 1) == Low8(v7) + 256 * ByteCounts(v7 / 256, 0);
    assert ByteCounts(v6, 2) == Low8(v6) + 256 * ByteCounts(v7, 1);
    assert ByteCounts(v5, 3) == Low8(v5) + 256 * ByteCounts(v6, 2);
    assert ByteCounts(v4, 4) == Low8(v4) + 256 * ByteCounts(v5, 3);
    assert ByteCounts(v3, 5) == Low8(v3) + 256 * ByteCounts(v4, 4);
    assert ByteCounts(v2, 6) == Low8(v2) + 256 * ByteCounts(v3, 5);
    assert ByteCounts(v1, 7) == Low8(v1) + 256 * ByteCounts(v2, 6);
  }

  // ── The theorem and the benchmark loop ──

  lemma WordStages(i: nat)
    requires i < WORD
    ensures And(i / 2, 0x5555555555555555) <= i
    ensures Wrap(i - And(i / 2, 0x5555555555555555)) == PairCounts(i, 32)
    ensures var x := PairCounts(i, 32);
      Wrap(And(x, 0x3333333333333333) + And(x / 4, 0x3333333333333333)) == NibbleCounts(i, 16)
    ensures var x := NibbleCounts(i, 16);
      And(Wrap(x + x / 16), 0x0F0F0F0F0F0F0F0F) == ByteCounts(i, 8)
  {
    hide And;
    hide PairCounts;
    hide NibbleCounts;
    hide ByteCounts;
    hide Mask5;
    hide Mask3;
    hide MaskF;
    hide Pow4;
    MaskValues();
    PairStage(i, 32);
    NibbleStage(i, 16, 32);
    NibblesFit(i, 16);
    ByteStage(i, 8, 16);
    InRange(i - And(i / 2, 0x5555555555555555));
    InRange(NibbleCounts(i, 16));
    InRange(NibbleCounts(i, 16) + NibbleCounts(i, 16) / 16);
  }

  lemma InRange(x: nat)
    requires x < WORD
    ensures Wrap(x) == x
  {
  }

  /** The bit-parallel count of one word, step by step as the loop body runs it. */
  method ParallelCount(i: nat) returns (count: nat)
    requires i < WORD
    ensures count == BitCount(i)
  {
    hide *;
    WordStages(i);
    ByteCountsSum(i);
    var v := i;
    v := Wrap(v - And(v / 2, 0x5555555555555555));
    v := Wrap(And(v, 0x3333333333333333) + And(v / 4, 0x3333333333333333));
    v := And(Wrap(v + v / 16), 0x0F0F0F0F0F0F0F0F);
    count := SumBytes(v);
  }

  function BitsBelow(n: nat): nat {
    if n == 0 then 0 else BitsBelow(n - 1) + BitCount(n - 1)
  }

  lemma WrapTwice(x: nat, y: nat)
    ensures Wrap(Wrap(x) + y) == Wrap(x + y)
  {
  }

  /** The benchmark: the counts of 0 .. n - 1, added up in a 64-bit accumulator. */
  method SumOfCounts(n: nat) returns (sum: nat)
    requires n <= WORD
    ensures sum == Wrap(BitsBelow(n))
  {
    hide BitCount;
    sum := 0;
    for i := 0 to n
      invariant sum == Wrap(BitsBelow(i))
    {
      var count := ParallelCount(i);
      WrapTwice(BitsBelow(i), count);
      sum := Wrap(sum + count);
    }
  }

  // ── Clearing the lowest set bit ──

  lemma {:induction false} AndSelf(v: nat)
    ensures And(v, v) == v
  {
    if v == 0 {
    } else {
      AndSelf(v / 2);
    }
  }

  lemma CountDouble(h: nat)
    ensures BitCount(2 * h) == BitCount(h)
  {
  }

  /** `v & (v - 1)` is smaller and has exactly one set bit less. */
  lemma {:induction false} ClearsOneBit(v: nat)
    requires v > 0
    ensures And(v, v - 1) < v && BitCount(And(v, v - 1)) == BitCount(v) - 1
  {
    hide And;
    hide BitCount;
    AndLowBit(v, v - 1);
    CountBit(v);
    if v % 2 == 1 {
      AndSelf(v / 2);
      assert (v - 1) / 2 == v / 2;
      CountDouble(v / 2);
    } else {
      ClearsOneBit(v / 2);
      assert (v - 1) / 2 == v / 2 - 1;
      CountDouble(And(v / 2, v / 2 - 1));
    }
  }

  /** From any non-negative signed word the loop ends, after one turn for each set bit. */
  method ClearAll(start: nat) returns (reg: nat, turns: nat)
    requires start < 0x8000_0000_0000_0000
    ensures reg == 0 && turns == BitCount(start)
  {
    reg, turns := start, 0;
    while reg != 0
      invariant turns + BitCount(reg) == BitCount(start)
    {
      ClearsOneBit(reg);
      reg := And(reg, reg - 1);
      turns := turns + 1;
    }
  }

  function Ones(n: nat): nat { if n == 0 then 0 else 2 * Ones(n - 1) + 1 }

  lemma {:induction false} OnesCount(n: nat)
    ensures BitCount(Ones(n)) == n
  {
    if n == 0 {
    } else {
      OnesCount(n - 1);
      CountBit(Ones(n));
    }
  }
}
