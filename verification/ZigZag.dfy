/** The ZigZag transforms, on two's-complement words as the C code computes them, and what they are
    as integer arithmetic (Protocol Buffers Encoding, section "Signed Integers"). */
module ZigZag {
  import opened Words

  function LogicalRightShift32(value: bv32, spaces: nat): bv32
    requires spaces < 32
  {
    value >> spaces
  }

  function LogicalRightShift64(value: bv64, spaces: nat): bv64
    requires spaces < 64
  {
    value >> spaces
  }

  /** `>>` on a signed operand: the sign bit is shifted in. */
  function ArithmeticRightShift32(value: bv32, spaces: nat): bv32
    requires spaces < 32
  {
    if value < SIGN32 then value >> spaces else !(!value >> spaces)
  }

  function ArithmeticRightShift64(value: bv64, spaces: nat): bv64
    requires spaces < 64
  {
    if value < SIGN64 then value >> spaces else !(!value >> spaces)
  }

  function EncodeZigZag32(n: bv32): bv32
  {
    (n << 1) ^ ArithmeticRightShift32(n, 31)
  }

  function DecodeZigZag32(n: bv32): bv32
  {
    LogicalRightShift32(n, 1) ^ (0 - (n & 1))
  }

  function EncodeZigZag64(n: bv64): bv64
  {
    (n << 1) ^ ArithmeticRightShift64(n, 63)
  }

  function DecodeZigZag64(n: bv64): bv64
  {
    LogicalRightShift64(n, 1) ^ (0 - (n & 1))
  }

  /* ----- bits ----- */

  lemma SignShift32(n: bv32)
    ensures ArithmeticRightShift32(n, 31) == if n < SIGN32 then 0 else 0xFFFF_FFFF
  {
  }

  lemma SignShift64(n: bv64)
    ensures ArithmeticRightShift64(n, 63) == if n < SIGN64 then 0 else ONES64
  {
  }

  lemma UndoPositive32(n: bv32)
    requires n < SIGN32
    ensures ((n << 1) >> 1) ^ (0 - ((n << 1) & 1)) == n
  {
  }

  lemma UndoNegative32(n: bv32)
    requires n >= SIGN32
    ensures (((n << 1) ^ 0xFFFF_FFFF) >> 1) ^ (0 - (((n << 1) ^ 0xFFFF_FFFF) & 1)) == n
  {
  }

  lemma UndoPositive64(n: bv64)
    requires n < SIGN64
    ensures ((n << 1) >> 1) ^ (0 - ((n << 1) & 1)) == n
  {
  }

  lemma UndoNegative64(n: bv64)
    requires n >= SIGN64
    ensures (((n << 1) ^ ONES64) >> 1) ^ (0 - (((n << 1) ^ ONES64) & 1)) == n
  {
  }

  lemma RedoEven32(n: bv32)
    requires n & 1 == 0
    ensures var d := (n >> 1) ^ (0 - (n & 1)); d < SIGN32 && d << 1 == n
  {
  }

  lemma RedoOdd32(n: bv32)
    requires n & 1 == 1
    ensures var d := (n >> 1) ^ (0 - (n & 1)); d >= SIGN32 && (d << 1) ^ 0xFFFF_FFFF == n
  {
  }

  lemma RedoEven64(n: bv64)
    requires n & 1 == 0
    ensures var d := (n >> 1) ^ (0 - (n & 1)); d < SIGN64 && d << 1 == n
  {
  }

  lemma RedoOdd64(n: bv64)
    requires n & 1 == 1
    ensures var d := (n >> 1) ^ (0 - (n & 1)); d >= SIGN64 && (d << 1) ^ ONES64 == n
  {
  }

  lemma LowBit32(n: bv32)
    ensures n & 1 == 0 || n & 1 == 1
  {
  }

  lemma LowBit64(n: bv64)
    ensures n & 1 == 0 || n & 1 == 1
  {
  }

  /* ----- the transforms are inverse to each other ----- */

  lemma DecodeEncode32(n: bv32)
    ensures DecodeZigZag32(EncodeZigZag32(n)) == n
  {
    SignShift32(n);
    if n < SIGN32 { UndoPositive32(n); } else { UndoNegative32(n); }
  }

  lemma EncodeDecode32(n: bv32)
    ensures EncodeZigZag32(DecodeZigZag32(n)) == n
  {
    SignShift32(DecodeZigZag32(n));
    LowBit32(n);
    if n & 1 == 0 { RedoEven32(n); } else { RedoOdd32(n); }
  }

  lemma DecodeEncode64(n: bv64)
    ensures DecodeZigZag64(EncodeZigZag64(n)) == n
  {
    SignShift64(n);
    if n < SIGN64 { UndoPositive64(n); } else { UndoNegative64(n); }
  }

  lemma EncodeDecode64(n: bv64)
    ensures EncodeZigZag64(DecodeZigZag64(n)) == n
  {
    SignShift64(DecodeZigZag64(n));
    LowBit64(n);
    if n & 1 == 0 { RedoEven64(n); } else { RedoOdd64(n); }
  }

  /* ----- the transforms as arithmetic ----- */

  /** The position of an integer in the order 0, -1, 1, -2, 2, ... */
  function Zig(n: int): nat
  {
    if n >= 0 then 2 * n else -2 * n - 1
  }

  lemma EncodingBits64(n: bv64)
    ensures if n < SIGN64 then EncodeZigZag64(n) == Twice(n)
            else !n < SIGN64 && EncodeZigZag64(n) == TwicePlus(!n)
  {
    SignShift64(n);
  }

  lemma Encode64IsArithmetic(n: bv64)
    ensures Value(EncodeZigZag64(n)) == Zig(Signed64(n))
  {
    EncodingBits64(n);
    if n < SIGN64 { Doubled(n); } else { Doubled(!n); }
  }

  lemma WidenedPositive(n: bv32)
    requires n < SIGN32
    ensures Widen(n << 1) == Twice(Widen(n)) && Widen(n) < SIGN64
  {
  }

  lemma WidenedNegative(n: bv32)
    requires n >= SIGN32
    ensures Widen((n << 1) ^ 0xFFFF_FFFF) == TwicePlus(Widen(!n)) && Widen(!n) < SIGN64
  {
  }

  lemma EncodingBySign32(n: bv32)
    ensures EncodeZigZag32(n) == if n < SIGN32 then n << 1 else (n << 1) ^ 0xFFFF_FFFF
  {
    SignShift32(n);
    if n < SIGN32 { XorZero(n << 1); }
  }

  lemma XorZero(w: bv32)
    ensures w ^ 0 == w
  {
  }

  lemma EncodingBits32(n: bv32)
    ensures if n < SIGN32 then Widen(EncodeZigZag32(n)) == Twice(Widen(n)) && Widen(n) < SIGN64
            else Widen(!n) < SIGN64 && Widen(EncodeZigZag32(n)) == TwicePlus(Widen(!n))
  {
    EncodingBySign32(n);
    if n < SIGN32 { WidenedPositive(n); } else { WidenedNegative(n); }
  }

  lemma Encode32IsArithmetic(n: bv32)
    ensures Unsigned32(EncodeZigZag32(n)) == Zig(Signed32(n))
  {
    EncodingBits32(n);
    if n < SIGN32 { Doubled(Widen(n)); } else { Doubled(Widen(!n)); }
  }

  /** The decoders undo the arithmetic: m becomes m / 2 if it is even, -(m + 1) / 2 if it is odd. */
  lemma DecodersAreArithmetic(m: bv64, k: bv32)
    ensures Zig(Signed64(DecodeZigZag64(m))) == Value(m)
    ensures Zig(Signed32(DecodeZigZag32(k))) == Unsigned32(k)
  {
    EncodeDecode64(m);
    Encode64IsArithmetic(DecodeZigZag64(m));
    EncodeDecode32(k);
    Encode32IsArithmetic(DecodeZigZag32(k));
  }

  /** On an int32_t, the 64-bit encoder computes the 32-bit encoding. */
  lemma EncodersAgree(n: bv32)
    ensures EncodeZigZag64(SignExtend(n)) == Widen(EncodeZigZag32(n))
  {
    ExtensionBits(n);
    EncodingBits32(n);
    EncodingBits64(SignExtend(n));
  }

  lemma ExtensionBits(n: bv32)
    ensures if n < SIGN32 then SignExtend(n) == Widen(n) && SignExtend(n) < SIGN64
            else SignExtend(n) >= SIGN64 && !SignExtend(n) == Widen(!n)
  {
  }

  lemma SignExtendKeepsValue(n: bv32)
    ensures Signed64(SignExtend(n)) == Signed32(n)
  {
    ExtensionBits(n);
  }
}
