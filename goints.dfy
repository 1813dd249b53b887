/** Go's fixed-width unsigned integers and their operators, as used by the
    repository: `byte` (uint8) and `uint64`, with the language's wrap-around
    arithmetic, shifts (a shift by the width or more gives 0), bitwise
    operators, and the `math/bits` counts `Len64` and `TrailingZeros64`. */
module GoInts {
  import opened Bits

  type byte = x: int | 0 <= x < 0x100
  type uint64 = x: int | 0 <= x < 0x1_0000_0000_0000_0000

  const MaxUint64: uint64 := 0xFFFF_FFFF_FFFF_FFFF

  /** a + b on uint64: wraps modulo 2^64. */
  function Add64(a: uint64, b: uint64): uint64
  {
    (a + b) % TWO64
  }

  /** a - b on uint64: wraps modulo 2^64. */
  function Sub64(a: uint64, b: uint64): uint64
  {
    (a - b) % TWO64
  }

  /** a << n on uint64. Go defines a shift by 64 or more as 0. */
  function Shl64(a: uint64, n: nat): uint64
  {
    if n >= 64 then 0 else (a * Exp2(n)) % TWO64
  }

  /** a >> n on uint64 (logical). */
  function Shr64(a: uint64, n: nat): uint64
  {
    Shr(a, n)
  }

  function And64(a: uint64, b: uint64): uint64
  {
    Exp2Constants();
    Bitwise(AndOp, a, b, 64)
  }

  function Or64(a: uint64, b: uint64): uint64
  {
    Exp2Constants();
    Bitwise(OrOp, a, b, 64)
  }

  function Xor64(a: uint64, b: uint64): uint64
  {
    Exp2Constants();
    Bitwise(XorOp, a, b, 64)
  }

  /** ^a on uint64: Go defines it as m ^ a with m all ones. */
  function Not64(a: uint64): uint64
  {
    Xor64(a, MaxUint64)
  }

  /** bits.Len64 */
  function Len64(a: uint64): nat
  {
    BitLength(a)
  }

  /** bits.TrailingZeros64: 64 for 0. */
  function TrailingZeros64(a: uint64): nat
  {
    if a == 0 then 64 else LowestSetBit(a)
  }

  /** ^b on a byte. */
  function Not8(b: byte): byte
  {
    Exp2Constants();
    Bitwise(XorOp, b, 0xFF, 8)
  }

  function Or8(a: byte, b: byte): byte
  {
    Exp2Constants();
    Bitwise(OrOp, a, b, 8)
  }

  function And8(a: byte, b: byte): byte
  {
    Exp2Constants();
    Bitwise(AndOp, a, b, 8)
  }

  /** a &^ b (AND NOT) on bytes. */
  function AndNot8(a: byte, b: byte): byte
  {
    Exp2Constants();
    Bitwise(AndNotOp, a, b, 8)
  }

  /** XOR with all ones over w bits is subtraction from 2^w - 1. */
  lemma {:induction false} XorOnes(a: nat, w: nat)
    requires a < Exp2(w)
    ensures Bitwise(XorOp, a, Exp2(w) - 1, w) == Exp2(w) - 1 - a
  {
    if w > 0 {
      assert (Exp2(w) - 1) / 2 == Exp2(w - 1) - 1;
      assert (Exp2(w) - 1) % 2 == 1;
      XorOnes(a / 2, w - 1);
    }
  }

  lemma Not64Value(a: uint64)
    ensures Not64(a) == MaxUint64 - a
  {
    Exp2Constants();
    XorOnes(a, 64);
  }

  lemma Or64Bit(a: uint64, b: uint64, i: nat)
    ensures Bit(Or64(a, b), i) == (i < 64 && (Bit(a, i) || Bit(b, i)))
  {
    Exp2Constants();
    BitwiseBit(OrOp, a, b, 64, i);
  }

  lemma Not64Bit(a: uint64, i: nat)
    ensures Bit(Not64(a), i) == (i < 64 && !Bit(a, i))
  {
    Exp2Constants();
    BitwiseBit(XorOp, a, MaxUint64, 64, i);
    OnesBit(64, i);
  }

  lemma Not8Bit(b: byte, i: nat)
    ensures Bit(Not8(b), i) == (i < 8 && !Bit(b, i))
  {
    Exp2Constants();
    BitwiseBit(XorOp, b, 0xFF, 8, i);
    OnesBit(8, i);
  }

  lemma Shl64Bit(a: uint64, n: nat, i: nat)
    ensures Bit(Shl64(a, n), i) == (n <= i < 64 && Bit(a, i - n))
  {
    Exp2Constants();
    if n >= 64 {
      ZeroBit(i);
    } else {
      ModExp2Bit(a * Exp2(n), 64, i);
      MulExp2Bit(a, n, i);
    }
  }

  lemma Shr64Bit(a: uint64, n: nat, i: nat)
    ensures Bit(Shr64(a, n), i) == (i + n < 64 && Bit(a, i + n))
  {
    Exp2Constants();
    DivExp2Bit(a, n, i);
    if i + n >= 64 {
      BitAboveWidth(a, 64, i + n);
    }
  }

  /** Len64 is the number of binary digits. */
  lemma Len64Bounds(a: uint64)
    ensures Len64(a) <= 64
    ensures a == 0 <==> Len64(a) == 0
    ensures a > 0 ==> Exp2(Len64(a) - 1) <= a < Exp2(Len64(a))
  {
    Exp2Constants();
    if a > 0 && Len64(a) > 64 {
      Exp2Monotone(64, Len64(a) - 1);
    }
  }

  /** TrailingZeros64 is the index of the lowest set bit, 64 for 0. */
  lemma TrailingZeros64Bounds(a: uint64)
    ensures a == 0 <==> TrailingZeros64(a) == 64
    ensures a > 0 ==> TrailingZeros64(a) < 64 && Bit(a, TrailingZeros64(a)) && a % Exp2(TrailingZeros64(a)) == 0
  {
    Exp2Constants();
    if a > 0 && TrailingZeros64(a) >= 64 {
      BitAboveWidth(a, 64, TrailingZeros64(a));
    }
  }
}
