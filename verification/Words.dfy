/** Machine words as integers. */
module Words {

  const SIGN32: bv32 := 0x8000_0000
  const SIGN64: bv64 := 0x8000_0000_0000_0000
  const ONES64: bv64 := 0xFFFF_FFFF_FFFF_FFFF

  function Half(w: bv64): bv64
  {
    w >> 1
  }

  function Twice(h: bv64): bv64
  {
    h << 1
  }

  function TwicePlus(h: bv64): bv64
  {
    (h << 1) | 1
  }

  function Widen(w: bv32): bv64
  {
    w as bv64
  }

  predicate Odd(w: bv64)
  {
    w & 1 == 1
  }

  lemma HalfIsSmaller(w: bv64)
    requires w != 0
    ensures Half(w) < w
  {
  }

  /** The uint64_t that a word stands for, bit by bit. */
  function Value(w: bv64): nat
    decreases w
  {
    if w == 0 then 0
    else
      HalfIsSmaller(w);
      2 * Value(Half(w)) + (if Odd(w) then 1 else 0)
  }

  /** The int64_t: two's complement makes the complement of a negative number one less than its
      absolute value. */
  function Signed64(w: bv64): int
  {
    if w < SIGN64 then Value(w) else -1 - Value(!w)
  }

  /** The same for 32-bit words. */
  function Unsigned32(w: bv32): nat
  {
    Value(Widen(w))
  }

  function Signed32(w: bv32): int
  {
    if w < SIGN32 then Unsigned32(w) else -1 - Unsigned32(!w)
  }

  /** The cast from int32_t to int64_t. */
  function SignExtend(w: bv32): bv64
  {
    if w < SIGN32 then w as bv64 else (w as bv64) | 0xFFFF_FFFF_0000_0000
  }

  lemma Zero()
    ensures Half(0) == 0 && !Odd(0)
  {
  }

  lemma Unfold(w: bv64)
    ensures Value(w) == 2 * Value(Half(w)) + (if Odd(w) then 1 else 0)
  {
    Zero();
  }

  lemma HalfOfDouble(h: bv64)
    requires h < SIGN64
    ensures Half(Twice(h)) == h && !Odd(Twice(h))
    ensures Half(TwicePlus(h)) == h && Odd(TwicePlus(h))
  {
  }

  lemma Doubled(h: bv64)
    requires h < SIGN64
    ensures Value(Twice(h)) == 2 * Value(h) && Value(TwicePlus(h)) == 2 * Value(h) + 1
  {
    HalfOfDouble(h);
    Unfold(Twice(h));
    Unfold(TwicePlus(h));
  }

  lemma SameBits(v: bv64, w: bv64)
    requires Half(v) == Half(w) && Odd(v) == Odd(w)
    ensures v == w
  {
  }

  /** Different words stand for different integers. */
  lemma {:induction false} ValueIsInjective(v: bv64, w: bv64)
    requires Value(v) == Value(w)
    ensures v == w
    decreases v
  {
    Unfold(v);
    Unfold(w);
    if v != 0 {
      HalfIsSmaller(v);
      ValueIsInjective(Half(v), Half(w));
      SameBits(v, w);
    } else if w != 0 {
      PositiveValue(w);
    }
  }

  lemma {:induction false} PositiveValue(w: bv64)
    requires w != 0
    ensures Value(w) > 0
    decreases w
  {
    HalfIsSmaller(w);
    Unfold(w);
    if Half(w) != 0 {
      PositiveValue(Half(w));
    } else {
      OnlyOne(w);
    }
  }

  lemma OnlyOne(w: bv64)
    requires Half(w) == 0 && w != 0
    ensures Odd(w)
  {
  }

  /* ----- the low bits ----- */

  /** `ones` is the word of `n` low one-bits. */
  predicate IsOnes(ones: bv64, n: nat)
  {
    if n == 0 then ones == 0 else Odd(ones) && IsOnes(Half(ones), n - 1)
  }

  /** `w` without its `n` low bits. */
  function Drop(w: bv64, n: nat): bv64
  {
    if n == 0 then w else Half(Drop(w, n - 1))
  }

  function Pow2(n: nat): nat
  {
    if n == 0 then 1 else 2 * Pow2(n - 1)
  }

  function Mask(w: bv64, ones: bv64): bv64
  {
    w & ones
  }

  lemma MaskStep(w: bv64, ones: bv64)
    requires Odd(ones)
    ensures Half(Mask(w, ones)) == Mask(Half(w), Half(ones))
    ensures Odd(Mask(w, ones)) <==> Odd(w)
  {
  }

  lemma MaskNothing(w: bv64)
    ensures Mask(w, 0) == 0
  {
  }

  lemma {:induction false} DropInside(w: bv64, n: nat)
    ensures Drop(w, n + 1) == Drop(Half(w), n)
  {
    if n > 0 {
      DropInside(w, n - 1);
    }
  }

  lemma DoubledProduct(p: nat, x: nat)
    ensures (2 * p) * x == 2 * (p * x)
  {
  }

  /** Masking and shifting off bits is dividing. */
  lemma {:induction false} Split(w: bv64, ones: bv64, n: nat)
    requires IsOnes(ones, n)
    ensures Value(w) == Pow2(n) * Value(Drop(w, n)) + Value(Mask(w, ones)) && Value(Mask(w, ones)) < Pow2(n)
    decreases n
  {
    if n == 0 {
      MaskNothing(w);
    } else {
      MaskStep(w, ones);
      DropInside(w, n - 1);
      Split(Half(w), Half(ones), n - 1);
      Unfold(w);
      Unfold(Mask(w, ones));
      DoubledProduct(Pow2(n - 1), Value(Drop(w, n)));
    }
  }

  lemma HalfOfShift(w: bv64)
    ensures Half(w) == w >> 1 && Half(w >> 1) == w >> 2 && Half(w >> 2) == w >> 3 && Half(w >> 3) == w >> 4
    ensures Half(w >> 4) == w >> 5 && Half(w >> 5) == w >> 6 && Half(w >> 6) == w >> 7
  {
  }

  lemma DropSeven(w: bv64)
    ensures Drop(w, 7) == w >> 7
  {
    HalfOfShift(w);
    assert Drop(w, 1) == w >> 1;
    assert Drop(w, 2) == w >> 2;
    assert Drop(w, 3) == w >> 3;
    assert Drop(w, 4) == w >> 4;
    assert Drop(w, 5) == w >> 5;
    assert Drop(w, 6) == w >> 6;
  }

  lemma OnesSeven()
    ensures IsOnes(0x7F, 7) && Pow2(7) == 128
  {
    assert IsOnes(0, 0) && IsOnes(1, 1) && IsOnes(3, 2) && IsOnes(7, 3);
    assert IsOnes(0xF, 4) && IsOnes(0x1F, 5) && IsOnes(0x3F, 6);
    assert Pow2(3) == 8;
  }

  lemma Septet(w: bv64)
    ensures Value(w >> 7) == Value(w) / 128 && Value(Mask(w, 0x7F)) == Value(w) % 128
  {
    DropSeven(w);
    OnesSeven();
    Split(w, 0x7F, 7);
  }

  function SevenRight(w: bv64): bv64
  {
    w >> 7
  }

  lemma RestOfWord(w: bv64)
    ensures Value(SevenRight(w)) == Value(w) / 128
  {
    Septet(w);
  }

  /* ----- complements ----- */

  function Flip(w: bv64, ones: bv64): bv64
  {
    w ^ ones
  }

  predicate Covers(ones: bv64, w: bv64)
  {
    w & ones == w
  }

  lemma FlipStep(w: bv64, ones: bv64)
    requires Odd(ones) && Covers(ones, w)
    ensures Half(Flip(w, ones)) == Flip(Half(w), Half(ones)) && (Odd(Flip(w, ones)) <==> !Odd(w))
    ensures Covers(Half(ones), Half(w))
  {
  }

  lemma FlipNothing(w: bv64)
    requires Covers(0, w)
    ensures w == 0 && Flip(w, 0) == 0
  {
  }

  /** Flipping n low bits subtracts from their largest value. */
  lemma {:induction false} Complement(w: bv64, ones: bv64, n: nat)
    requires IsOnes(ones, n) && Covers(ones, w)
    ensures Value(Flip(w, ones)) + Value(w) == Pow2(n) - 1
    decreases n
  {
    if n == 0 {
      FlipNothing(w);
    } else {
      FlipStep(w, ones);
      Complement(Half(w), Half(ones), n - 1);
      Unfold(w);
      Unfold(Flip(w, ones));
    }
  }

  lemma OddShifts(o: bv64)
    requires o & 0xFF == 0xFF
    ensures Odd(o) && Odd(o >> 1) && Odd(o >> 2) && Odd(o >> 3)
    ensures Odd(o >> 4) && Odd(o >> 5) && Odd(o >> 6) && Odd(o >> 7)
    ensures Half(o >> 7) == o >> 8
  {
  }

  lemma OnesByte(o: bv64, n: nat)
    requires o & 0xFF == 0xFF && IsOnes(o >> 8, n)
    ensures IsOnes(o, n + 8)
  {
    HalfOfShift(o);
    OddShifts(o);
    assert IsOnes(o >> 7, n + 1);
    assert IsOnes(o >> 6, n + 2);
    assert IsOnes(o >> 5, n + 3);
    assert IsOnes(o >> 4, n + 4);
    assert IsOnes(o >> 3, n + 5);
    assert IsOnes(o >> 2, n + 6);
    assert IsOnes(o >> 1, n + 7);
  }

  lemma AllOnes()
    ensures IsOnes(0xFFFF_FFFF, 32) && IsOnes(ONES64, 64)
  {
    OnesByte(0xFF, 0);
    OnesByte(0xFFFF, 8);
    OnesByte(0xFF_FFFF, 16);
    OnesByte(0xFFFF_FFFF, 24);
    OnesByte(0xFF_FFFF_FFFF, 32);
    OnesByte(0xFFFF_FFFF_FFFF, 40);
    OnesByte(0xFF_FFFF_FFFF_FFFF, 48);
    OnesByte(ONES64, 56);
  }

  lemma Complemented(w: bv64)
    ensures Covers(ONES64, w) && Flip(w, ONES64) == !w
  {
  }

  lemma Pow2Byte(n: nat)
    ensures Pow2(n + 8) == 0x100 * Pow2(n)
  {
    assert Pow2(n + 2) == 4 * Pow2(n);
    assert Pow2(n + 4) == 4 * Pow2(n + 2);
    assert Pow2(n + 6) == 4 * Pow2(n + 4);
  }

  lemma Pow2Of64()
    ensures Pow2(32) == 0x1_0000_0000 && Pow2(64) == 0x1_0000_0000_0000_0000
  {
    Pow2Byte(0);
    Pow2Byte(8);
    Pow2Byte(16);
    Pow2Byte(24);
    Pow2Byte(32);
    Pow2Byte(40);
    Pow2Byte(48);
    Pow2Byte(56);
  }

  /** A negative word stands for its unsigned value less 2^64. */
  lemma SignedIsUnsignedLess2To64(w: bv64)
    ensures Signed64(w) == if w < SIGN64 then Value(w) else Value(w) - 0x1_0000_0000_0000_0000
  {
    AllOnes();
    Pow2Of64();
    Complemented(w);
    Complement(w, ONES64, 64);
  }

  lemma Bounds64(w: bv64)
    ensures Value(w) < 0x1_0000_0000_0000_0000
    ensures Value(w) < 0x8000_0000_0000_0000 <==> w < SIGN64
  {
    AllOnes();
    Pow2Of64();
    Complemented(w);
    Complement(w, ONES64, 64);
    if w < SIGN64 { UpperBound(w); } else { UpperBound(!w); }
  }

  lemma UpperBound(h: bv64)
    requires h < SIGN64
    ensures Value(h) < 0x8000_0000_0000_0000
  {
    AllOnes();
    Pow2Of64();
    Complemented(Twice(h));
    Complement(Twice(h), ONES64, 64);
    Doubled(h);
  }

  lemma CoveredBy32(w: bv32)
    ensures Covers(0xFFFF_FFFF, Widen(w))
  {
  }

  lemma Bounds32(w: bv32)
    ensures Unsigned32(w) < 0x1_0000_0000
  {
    AllOnes();
    Pow2Of64();
    CoveredBy32(w);
    Complement(Widen(w), 0xFFFF_FFFF, 32);
  }

  /* ----- words from integers ----- */

  /** The word that stands for an integer below 2^64. */
  function WordOf(m: nat): bv64
  {
    if m == 0 then 0
    else if m % 2 == 0 then Twice(WordOf(m / 2))
    else TwicePlus(WordOf(m / 2))
  }

  lemma {:induction false} WordOfExact(m: nat)
    requires m < 0x1_0000_0000_0000_0000
    ensures Value(WordOf(m)) == m
  {
    if m != 0 {
      WordOfExact(m / 2);
      Bounds64(WordOf(m / 2));
      Doubled(WordOf(m / 2));
    }
  }

  lemma WordOfValue(w: bv64)
    ensures WordOf(Value(w)) == w
  {
    Bounds64(w);
    WordOfExact(Value(w));
    ValueIsInjective(WordOf(Value(w)), w);
  }

  /** The cast from int64_t to int32_t. */
  function Truncate(w: bv64): bv32
  {
    (w & 0xFFFF_FFFF) as bv32
  }

  lemma TruncatedBits(w: bv64)
    ensures Widen(Truncate(w)) == Mask(w, 0xFFFF_FFFF)
  {
  }

  lemma LowRemainder(total: nat, q: nat, r: nat)
    requires total == 0x1_0000_0000 * q + r && r < 0x1_0000_0000
    ensures r == total % 0x1_0000_0000
  {
  }

  /** Of any word the cast keeps the remainder by 2^32. */
  lemma TruncateIsRemainder(w: bv64)
    ensures Unsigned32(Truncate(w)) == Value(w) % 0x1_0000_0000
  {
    AllOnes();
    Pow2Of64();
    Split(w, 0xFFFF_FFFF, 32);
    TruncatedBits(w);
    LowRemainder(Value(w), Value(Drop(w, 32)), Value(Mask(w, 0xFFFF_FFFF)));
  }

  lemma ComplementedLow(w: bv32)
    ensures Widen(!w) == Flip(Widen(w), 0xFFFF_FFFF) && Covers(0xFFFF_FFFF, Widen(w))
  {
  }

  /** A negative 32-bit word stands for its unsigned value less 2^32. */
  lemma Signed32IsUnsignedLess2To32(w: bv32)
    ensures Signed32(w) == if w < SIGN32 then Unsigned32(w) else Unsigned32(w) - 0x1_0000_0000
  {
    AllOnes();
    Pow2Of64();
    ComplementedLow(w);
    Complement(Widen(w), 0xFFFF_FFFF, 32);
  }

  lemma TruncateExtended(n: bv32)
    ensures Truncate(SignExtend(n)) == n && Truncate(Widen(n)) == n
  {
  }

  /* ----- or of words without common bits ----- */

  function Or(v: bv64, w: bv64): bv64
  {
    v | w
  }

  lemma HalfOfOr(v: bv64, w: bv64)
    ensures Half(Or(v, w)) == Or(Half(v), Half(w))
  {
  }

  lemma HalvesApart(v: bv64, w: bv64)
    requires Mask(v, w) == 0
    ensures Mask(Half(v), Half(w)) == 0
  {
  }

  lemma OddOr(v: bv64, w: bv64)
    ensures Odd(Or(v, w)) <==> Odd(v) || Odd(w)
  {
  }

  lemma NotBothOdd(v: bv64, w: bv64)
    requires Mask(v, w) == 0
    ensures !(Odd(v) && Odd(w))
  {
  }

  lemma OrZero(w: bv64)
    ensures Or(0, w) == w
  {
  }

  lemma {:induction false} OrIsSum(v: bv64, w: bv64)
    requires Mask(v, w) == 0
    ensures Value(Or(v, w)) == Value(v) + Value(w)
    decreases v
  {
    if v == 0 {
      OrZero(w);
    } else {
      HalfIsSmaller(v);
      HalvesApart(v, w);
      OrIsSum(Half(v), Half(w));
      SumOfHalves(v, w);
    }
  }

  lemma SumOfHalves(v: bv64, w: bv64)
    requires Mask(v, w) == 0 && Value(Or(Half(v), Half(w))) == Value(Half(v)) + Value(Half(w))
    ensures Value(Or(v, w)) == Value(v) + Value(w)
  {
    HalfOfOr(v, w);
    OddOr(v, w);
    NotBothOdd(v, w);
    Unfold(v);
    Unfold(w);
    Unfold(Or(v, w));
  }

  /* ----- shifting left ----- */

  const LOW63: bv64 := 0x7FFF_FFFF_FFFF_FFFF

  lemma LowAndSign()
    ensures Or(LOW63, SIGN64) == ONES64 && Mask(LOW63, SIGN64) == 0
  {
  }

  lemma OnesFromZero()
    ensures Flip(0, ONES64) == ONES64 && Covers(ONES64, 0)
  {
  }

  lemma HalfOfOnes()
    ensures Half(ONES64) == LOW63 && Odd(ONES64)
  {
  }

  lemma ValueOfSignBit()
    ensures Value(SIGN64) == 0x8000_0000_0000_0000
  {
    AllOnes();
    Pow2Of64();
    OnesFromZero();
    Complement(0, ONES64, 64);
    HalfOfOnes();
    Unfold(ONES64);
    LowAndSign();
    OrIsSum(LOW63, SIGN64);
  }

  lemma LowPart(w: bv64)
    ensures Mask(w, LOW63) < SIGN64 && Mask(Mask(w, LOW63), SIGN64) == 0
  {
  }

  lemma LowPartDoubles(w: bv64)
    ensures Twice(w) == Twice(Mask(w, LOW63))
  {
  }

  lemma LowPartAndSign(w: bv64)
    requires w >= SIGN64
    ensures Or(Mask(w, LOW63), SIGN64) == w
  {
  }

  lemma ValueOfLowPart(w: bv64)
    requires w >= SIGN64
    ensures Value(Mask(w, LOW63)) == Value(w) - 0x8000_0000_0000_0000
  {
    LowPart(w);
    LowPartAndSign(w);
    ValueOfSignBit();
    OrIsSum(Mask(w, LOW63), SIGN64);
  }

  lemma DoubledHigh(w: bv64)
    requires w >= SIGN64
    ensures Value(Twice(w)) == 2 * (Value(w) - 0x8000_0000_0000_0000)
  {
    LowPart(w);
    LowPartDoubles(w);
    ValueOfLowPart(w);
    Doubled(Mask(w, LOW63));
  }

  /** Doubling loses the top bit. */
  lemma DoubledModulo(w: bv64)
    ensures Value(Twice(w)) == 2 * Value(w) % 0x1_0000_0000_0000_0000
  {
    Bounds64(w);
    if w < SIGN64 {
      Doubled(w);
    } else {
      DoubledHigh(w);
    }
    WrapOnce(Value(w), Value(Twice(w)));
  }

  lemma WrapOnce(x: nat, y: nat)
    requires x < 0x1_0000_0000_0000_0000
    requires y == if x < 0x8000_0000_0000_0000 then 2 * x else 2 * (x - 0x8000_0000_0000_0000)
    ensures y == 2 * x % 0x1_0000_0000_0000_0000
  {
  }

  function DoubledTimes(w: bv64, n: nat): bv64
  {
    if n == 0 then w else Twice(DoubledTimes(w, n - 1))
  }

  lemma RemainderIs(total: nat, q: nat, r: nat)
    requires total == 0x1_0000_0000_0000_0000 * q + r && r < 0x1_0000_0000_0000_0000
    ensures total % 0x1_0000_0000_0000_0000 == r
  {
  }

  lemma Quotient(y: nat) returns (q: nat, r: nat)
    ensures y == 0x1_0000_0000_0000_0000 * q + r && r == y % 0x1_0000_0000_0000_0000
    ensures r < 0x1_0000_0000_0000_0000
  {
    q, r := y / 0x1_0000_0000_0000_0000, y % 0x1_0000_0000_0000_0000;
  }

  lemma RemainderDoubled(y: nat)
    ensures 2 * y % 0x1_0000_0000_0000_0000 == 2 * (y % 0x1_0000_0000_0000_0000) % 0x1_0000_0000_0000_0000
  {
    var q, r := Quotient(y);
    DoubledParts(y, q, r);
  }

  lemma DoubledParts(y: nat, q: nat, r: nat)
    requires y == 0x1_0000_0000_0000_0000 * q + r && r < 0x1_0000_0000_0000_0000
    ensures 2 * y % 0x1_0000_0000_0000_0000 == 2 * r % 0x1_0000_0000_0000_0000
  {
    if 2 * r < 0x1_0000_0000_0000_0000 {
      RemainderIs(2 * y, 2 * q, 2 * r);
    } else {
      RemainderIs(2 * y, 2 * q + 1, 2 * r - 0x1_0000_0000_0000_0000);
      RemainderIs(2 * r, 1, 2 * r - 0x1_0000_0000_0000_0000);
    }
  }

  lemma ProductDoubled(x: nat, p: nat)
    ensures x * (2 * p) == 2 * (x * p)
  {
  }

  lemma {:induction false} DoubledTimesIsProduct(w: bv64, n: nat)
    ensures Value(DoubledTimes(w, n)) == Value(w) * Pow2(n) % 0x1_0000_0000_0000_0000
  {
    if n == 0 {
      Bounds64(w);
      ProductByOne(Value(w), Pow2(0));
    } else {
      DoubledTimesIsProduct(w, n - 1);
      DoubledModulo(DoubledTimes(w, n - 1));
      ProductStep(Value(DoubledTimes(w, n - 1)), Value(w), Pow2(n - 1), Pow2(n));
    }
  }

  lemma ProductByOne(x: nat, p: nat)
    requires p == 1 && x < 0x1_0000_0000_0000_0000
    ensures x == x * p % 0x1_0000_0000_0000_0000
  {
  }

  lemma ProductStep(v: nat, x: nat, p: nat, twice: nat)
    requires v == x * p % 0x1_0000_0000_0000_0000 && twice == 2 * p
    ensures 2 * v % 0x1_0000_0000_0000_0000 == x * twice % 0x1_0000_0000_0000_0000
  {
    RemainderDoubled(x * p);
    ProductDoubled(x, p);
  }

  lemma LowBitsStep(r: bv64, y: bv64)
    requires Mask(Half(r), y) == 0
    ensures Mask(r, Twice(y)) == 0
  {
  }

  lemma NoBits(w: bv64)
    ensures Mask(0, w) == 0
  {
  }

  /** A word below 2^n has no bits in common with one that is shifted by n. */
  lemma {:induction false} LowBitsApart(r: bv64, w: bv64, n: nat)
    requires Value(r) < Pow2(n)
    ensures Mask(r, DoubledTimes(w, n)) == 0
    decreases n
  {
    if n == 0 {
      if r != 0 { PositiveValue(r); }
      NoBits(w);
    } else {
      Unfold(r);
      LowBitsApart(Half(r), w, n - 1);
      LowBitsStep(r, DoubledTimes(w, n - 1));
    }
  }

  function ShiftLeft(w: bv64, n: bv32): bv64
    requires n <= 64
  {
    w << n
  }

  lemma TwiceShifts(w: bv64)
    ensures Twice(w) == w << 1 && Twice(w << 1) == w << 2 && Twice(w << 2) == w << 3 && Twice(w << 3) == w << 4
    ensures Twice(w << 4) == w << 5 && Twice(w << 5) == w << 6 && Twice(w << 6) == w << 7
  {
  }

  function SevenLeft(w: bv64): bv64
  {
    w << 7
  }

  function SevenMore(n: bv32): bv32
  {
    n + 7
  }

  lemma DoubledSevenTimes(w: bv64, n: nat)
    ensures DoubledTimes(w, n + 7) == SevenLeft(DoubledTimes(w, n))
  {
    var d := DoubledTimes(w, n);
    TwiceShifts(d);
    assert DoubledTimes(w, n + 1) == d << 1;
    assert DoubledTimes(w, n + 2) == d << 2;
    assert DoubledTimes(w, n + 3) == d << 3;
    assert DoubledTimes(w, n + 4) == d << 4;
    assert DoubledTimes(w, n + 5) == d << 5;
    assert DoubledTimes(w, n + 6) == d << 6;
  }

  /** The shift before round g of the reading loop. */
  function ShiftOf(g: nat): bv32
  {
    if g == 0 then 0 else SevenMore(ShiftOf(g - 1))
  }

  lemma Shifts()
    ensures ShiftOf(0) == 0 && ShiftOf(1) == 7 && ShiftOf(2) == 14 && ShiftOf(3) == 21 && ShiftOf(4) == 28
    ensures ShiftOf(5) == 35 && ShiftOf(6) == 42 && ShiftOf(7) == 49 && ShiftOf(8) == 56 && ShiftOf(9) == 63
    ensures ShiftOf(10) == 70
  {
  }

  lemma ShiftByNothing(w: bv64)
    ensures ShiftLeft(w, 0) == w
  {
  }

  lemma ShiftBySevenMore(w: bv64, n: bv32)
    requires n == 0 || n == 7 || n == 14 || n == 21 || n == 28 || n == 35 || n == 42 || n == 49 || n == 56
    ensures SevenMore(n) <= 64 && ShiftLeft(w, SevenMore(n)) == SevenLeft(ShiftLeft(w, n))
  {
  }

  lemma ShiftsInRange(g: nat)
    requires g <= 10
    ensures ShiftOf(g) < 64 <==> g <= 9
    ensures g <= 8 ==> ShiftOf(g) in [0, 7, 14, 21, 28, 35, 42, 49, 56]
  {
    Shifts();
  }

  /** Shifting by whole groups is doubling. */
  lemma {:induction false} ShiftIsDoubling(w: bv64, g: nat)
    requires g <= 9 && ShiftOf(g) < 64
    ensures ShiftLeft(w, ShiftOf(g)) == DoubledTimes(w, 7 * g)
  {
    if g == 0 {
      ShiftByNothing(w);
    } else {
      ShiftsInRange(g - 1);
      ShiftIsDoubling(w, g - 1);
      DoubledSevenTimes(w, 7 * (g - 1));
      ShiftBySevenMore(w, ShiftOf(g - 1));
    }
  }
}
