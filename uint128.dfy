/** The 128-bit unsigned integer of package `internal/uint128`: two uint64
    halves, most significant first. Every operation is proved against the
    natural number Value(x) = Hi * 2^64 + Lo. */
module UInt128 {
  import opened Bits
  import opened GoInts
  import opened Wrappers
  import opened Decimal
  import opened BigEndian
  import BigInt

  datatype Int = Int(Hi: uint64, Lo: uint64)

  const Zero: Int := Int(0, 0)
  const One: Int := Int(0, 1)
  const Max: Int := Int(MaxUint64, MaxUint64)

  datatype Error = ErrOverflow | ErrEmptySlice | ErrInvalidString

  /** The number an Int denotes. */
  function Value(x: Int): (r: nat)
    ensures r < TWO128
  {
    MulLe(x.Hi + 1, TWO64, TWO64);
    x.Hi * TWO64 + x.Lo
  }

  /** Distinct Ints denote distinct numbers. */
  lemma ValueInjective(x: Int, y: Int)
    ensures Value(x) == Value(y) <==> x == y
  {
    if Value(x) == Value(y) {
      DivModUnique(Value(x), TWO64, x.Hi, x.Lo);
      DivModUnique(Value(y), TWO64, y.Hi, y.Lo);
    }
  }

  /** Bits 0..63 of the value are Lo's, bits 64..127 are Hi's. */
  lemma ValueBit(x: Int, i: nat)
    ensures Bit(Value(x), i) == if i < 64 then Bit(x.Lo, i) else Bit(x.Hi, i - 64)
  {
    Exp2Constants();
    BitSplit(x.Hi, x.Lo, 64, i);
  }

  /** `NewFromBytes`: an empty buffer and one longer than 16 bytes are errors;
      otherwise the buffer is read big-endian, zero-padded on the left. */
  function NewFromBytes(buf: seq<byte>): (r: (Int, Option<Error>))
    ensures |buf| == 0 ==> r == (Zero, Some(ErrEmptySlice))
    ensures |buf| > 16 ==> r == (Zero, Some(ErrOverflow))
    ensures 0 < |buf| <= 16 ==> r.1 == None && Value(r.0) == BeValue(buf)
  {
    if |buf| == 0 then (Zero, Some(ErrEmptySlice))
    else if |buf| > 16 then (Zero, Some(ErrOverflow))
    else
      var b := Zeros(16 - |buf|) + buf;
      var x := Int(Uint64(b[..8]), Uint64(b[8..]));
      assert Value(x) == BeValue(buf) by {
        assert b == b[..8] + b[8..];
        BeValueAppend(b[..8], b[8..]);
        BeValueZeroPad(16 - |buf|, buf);
        Exp2Constants();
      }
      (x, None)
  }

  /** `NewFromString`: a string that is not base 10 is invalid; a number of
      2^128 or more overflows (its magnitude needs more than 16 bytes). */
  function NewFromString(s: string): (r: (Int, Option<Error>))
    ensures !IsDecimal(s) ==> r == (Zero, Some(ErrInvalidString))
    ensures IsDecimal(s) && DigitsValue(s) >= TWO128 ==> r == (Zero, Some(ErrOverflow))
    ensures IsDecimal(s) && DigitsValue(s) < TWO128 ==> r.1 == None && Value(r.0) == DigitsValue(s)
  {
    match BigInt.SetString(s)
    case None => (Zero, Some(ErrInvalidString))
    case Some(i) =>
      if |BigInt.Bytes(i)| == 0 then (Zero, None)
      else
        BigInt.BytesFit(i, 16);
        Exp2Constants();
        NewFromBytes(BigInt.Bytes(i))
  }

  /** `Pow2`: 2^n, or an overflow for n >= 128. */
  function Pow2(n: nat): (r: (Int, Option<Error>))
    ensures n >= 128 ==> r == (Zero, Some(ErrOverflow))
    ensures n < 128 ==> r.1 == None && Value(r.0) == Exp2(n)
  {
    if n >= 128 then (Zero, Some(ErrOverflow))
    else
      assert Value(One) * Exp2(n) == Exp2(n);
      Exp2Constants();
      Exp2Monotone(n, 128);
      ModSmall(Exp2(n), TWO128);
      (Lsh(One, n), None)
  }

  /** `Add`: the carry out of the low half is detected by x.Lo > lo. */
  function Add(x: Int, y: Int): (r: Int)
    ensures Value(r) == (Value(x) + Value(y)) % TWO128
  {
    var lo := Add64(x.Lo, y.Lo);
    var hi := Add64(x.Hi, y.Hi);
    var hi := if x.Lo > lo then Add64(hi, 1) else hi;
    assert Value(Int(hi, lo)) == (Value(x) + Value(y)) % TWO128 by {
      var c := if x.Lo > lo then 1 else 0;
      if x.Lo + y.Lo < TWO64 {
        DivModUnique(x.Lo + y.Lo, TWO64, 0, x.Lo + y.Lo);
      } else {
        DivModUnique(x.Lo + y.Lo, TWO64, 1, x.Lo + y.Lo - TWO64);
      }
      assert x.Lo + y.Lo == c * TWO64 + lo;
      ModAdd(x.Hi + y.Hi, c, TWO64);
      assert hi == (x.Hi + y.Hi + c) % TWO64;
      CarryMod(x.Hi + y.Hi + c, lo, TWO64);
      assert (x.Hi + y.Hi + c) * TWO64 + lo == Value(x) + Value(y);
    }
    Int(hi, lo)
  }

  /** `Sub`: the borrow from the low half is detected by x.Lo < lo. */
  function Sub(x: Int, y: Int): (r: Int)
    ensures Value(r) == (Value(x) - Value(y)) % TWO128
  {
    var lo := Sub64(x.Lo, y.Lo);
    var hi := Sub64(x.Hi, y.Hi);
    var hi := if x.Lo < lo then Sub64(hi, 1) else hi;
    assert Value(Int(hi, lo)) == (Value(x) - Value(y)) % TWO128 by {
      var b := if x.Lo < lo then 1 else 0;
      if x.Lo >= y.Lo {
        DivModUnique(x.Lo - y.Lo, TWO64, 0, x.Lo - y.Lo);
      } else {
        DivModUnique(x.Lo - y.Lo, TWO64, -1, x.Lo - y.Lo + TWO64);
      }
      assert x.Lo - y.Lo == lo - b * TWO64;
      ModAdd(x.Hi - y.Hi, -b, TWO64);
      assert hi == (x.Hi - y.Hi - b) % TWO64;
      CarryMod(x.Hi - y.Hi - b, lo, TWO64);
      assert (x.Hi - y.Hi - b) * TWO64 + lo == Value(x) - Value(y);
    }
    Int(hi, lo)
  }

  /** Subtracting what was added gives the original back. */
  lemma AddSub(x: Int, y: Int)
    ensures Sub(Add(x, y), y) == x
  {
    ModAdd(Value(x) + Value(y), -(Value(y) as int), TWO128);
    DivModUnique(Value(x), TWO128, 0, Value(x));
    ValueInjective(Sub(Add(x, y), y), x);
  }

  /** Adding what was subtracted gives the original back. */
  lemma SubAdd(x: Int, y: Int)
    ensures Add(Sub(x, y), y) == x
  {
    ModAdd(Value(x) - Value(y), Value(y), TWO128);
    DivModUnique(Value(x), TWO128, 0, Value(x));
    ValueInjective(Add(Sub(x, y), y), x);
  }

  /** The largest value plus one wraps around to zero. */
  lemma MaxPlusOne()
    ensures Add(Max, One) == Zero
  {
    assert Value(Add(Max, One)) == 0;
    ValueInjective(Add(Max, One), Zero);
  }

  /** A bitwise operation on the halves is the operation on the 128-bit value. */
  lemma BitwiseHalves(op: BitOp, x: Int, y: Int)
    ensures Bitwise(op, Value(x), Value(y), 128)
         == Bitwise(op, x.Hi, y.Hi, 64) * TWO64 + Bitwise(op, x.Lo, y.Lo, 64)
  {
    Exp2Constants();
    BitwiseConcat(op, x.Hi, x.Lo, y.Hi, y.Lo, Value(x), Value(y), 64, 64, TWO64);
  }


  function And(x: Int, y: Int): (r: Int)
    ensures Value(r) == Bitwise(AndOp, Value(x), Value(y), 128)
  {
    BitwiseHalves(AndOp, x, y);
    Int(And64(x.Hi, y.Hi), And64(x.Lo, y.Lo))
  }

  function Or(x: Int, y: Int): (r: Int)
    ensures Value(r) == Bitwise(OrOp, Value(x), Value(y), 128)
  {
    BitwiseHalves(OrOp, x, y);
    Int(Or64(x.Hi, y.Hi), Or64(x.Lo, y.Lo))
  }

  function Xor(x: Int, y: Int): (r: Int)
    ensures Value(r) == Bitwise(XorOp, Value(x), Value(y), 128)
  {
    BitwiseHalves(XorOp, x, y);
    Int(Xor64(x.Hi, y.Hi), Xor64(x.Lo, y.Lo))
  }

  /** `Not` flips all 128 bits: the value becomes 2^128 - 1 - x. */
  function Not(x: Int): (r: Int)
    ensures Value(r) == TWO128 - 1 - Value(x)
  {
    Not64Value(x.Hi);
    Not64Value(x.Lo);
    Int(Not64(x.Hi), Not64(x.Lo))
  }

  /** Not is an involution, and Not(Zero) is all ones. */
  lemma NotNot(x: Int)
    ensures Not(Not(x)) == x
    ensures Not(Zero) == Max
  {
    ValueInjective(Not(Not(x)), x);
    ValueInjective(Not(Zero), Max);
  }

  /** `Lsh`: x shifted left by n bits, which is multiplication by 2^n modulo
      2^128. A shift by 128 or more gives Zero. */
  function Lsh(x: Int, n: nat): (r: Int)
    ensures Value(r) == (Value(x) * Exp2(n)) % TWO128
  {
    if n >= 128 then
      LshZeroValue(x, n);
      Zero
    else if n >= 64 then
      LshWideValue(x, n);
      LshWide(x, n)
    else
      LshNarrowValue(x, n);
      LshNarrow(x, n)
  }

  /** The branch of Lsh for 64 <= n < 128: Lo moves into Hi. */
  function LshWide(x: Int, n: nat): Int
    requires 64 <= n < 128
  {
    Int(Shl64(x.Lo, n - 64), 0)
  }

  /** The branch of Lsh for n < 64: the bits leaving Lo enter Hi. A uint64
      shift by 64 yields 0 in Go, which makes n == 0 come out right. */
  function LshNarrow(x: Int, n: nat): Int
    requires n < 64
  {
    Int(Or64(Shl64(x.Hi, n), Shr64(x.Lo, 64 - n)), Shl64(x.Lo, n))
  }

  /** `Rsh`: x shifted right by n bits, which is division by 2^n rounding
      down. A shift by 128 or more gives Zero. */
  function Rsh(x: Int, n: nat): (r: Int)
    ensures Value(r) == Value(x) / Exp2(n)
  {
    if n >= 128 then
      RshZeroValue(x, n);
      Zero
    else if n >= 64 then
      RshWideValue(x, n);
      RshWide(x, n)
    else
      RshNarrowValue(x, n);
      RshNarrow(x, n)
  }

  /** The branch of Rsh for 64 <= n < 128: Hi moves into Lo. */
  function RshWide(x: Int, n: nat): Int
    requires 64 <= n < 128
  {
    Int(0, Shr64(x.Hi, n - 64))
  }

  /** The branch of Rsh for n < 64: the bits leaving Hi enter Lo. */
  function RshNarrow(x: Int, n: nat): Int
    requires n < 64
  {
    Int(Shr64(x.Hi, n), Or64(Shr64(x.Lo, n), Shl64(x.Hi, 64 - n)))
  }

  /** An Int whose bit i is bit i - n of x (0 below n) is x * 2^n modulo 2^128. */
  lemma ShlByBits(x: Int, n: nat, r: Int, q: int)
    requires q == Value(x) * Exp2(n)
    requires forall i | 0 <= i < 128 :: Bit(Value(r), i) == (n <= i && Bit(Value(x), i - n))
    ensures Value(r) == q % TWO128
  {
    MulLe(0, Value(x), Exp2(n));
    var p: nat := q;
    forall i | 0 <= i < 128
      ensures Bit(Value(r), i) == Bit(Low(p, 128), i)
    {
      ModExp2Bit(p, 128, i);
      MulExp2Bit(Value(x), n, i);
    }
    Exp2Constants();
    BitsExtLow(Value(r), p, 128);
  }

  /** An Int whose bit i is bit i + n of x is x div 2^n. */
  lemma ShrByBits(x: Int, n: nat, r: Int)
    requires forall i | 0 <= i < 128 :: Bit(Value(r), i) == Bit(Value(x), i + n)
    ensures Value(r) == Value(x) / Exp2(n)
  {
    var q := Shr(Value(x), n);
    forall i | 0 <= i < 128
      ensures Bit(Value(r), i) == Bit(q, i)
    {
      DivExp2Bit(Value(x), n, i);
    }
    Exp2Constants();
    BitsExt(Value(r), q, 128);
  }

  lemma ZeroValueBit(i: nat)
    requires i < 128
    ensures !Bit(Value(Zero), i)
  {
    ValueBit(Zero, i);
    ZeroBit(i);
    if i >= 64 {
      ZeroBit(i - 64);
    }
  }

  lemma MulAssoc(a: int, b: int, c: int)
    ensures a * (c * b) == (a * b) * c
  {
  }

  lemma LshZeroValue(x: Int, n: nat)
    requires n >= 128
    ensures Value(Zero) == (Value(x) * Exp2(n)) % TWO128
  {
    var v: int, k: int, e: int := Value(x), Exp2(n - 128), Exp2(n);
    Exp2Add(128, n - 128);
    Exp2Constants();
    assert e == TWO128 * k;
    MulAssoc(v, k, TWO128);
    MulMod(v * k, TWO128);
  }

  lemma LshWideValue(x: Int, n: nat)
    requires 64 <= n < 128
    ensures Value(LshWide(x, n)) == (Value(x) * Exp2(n)) % TWO128
  {
    LshWideBits(x, n);
    ShlByBits(x, n, LshWide(x, n), Value(x) * Exp2(n));
  }

  lemma LshWideBits(x: Int, n: nat)
    requires 64 <= n < 128
    ensures forall i | 0 <= i < 128 :: Bit(Value(LshWide(x, n)), i) == (n <= i && Bit(Value(x), i - n))
  {
    forall i | 0 <= i < 128
      ensures Bit(Value(LshWide(x, n)), i) == (n <= i && Bit(Value(x), i - n))
    {
      LshBitWide(x, n, i);
    }
  }

  lemma LshNarrowValue(x: Int, n: nat)
    requires n < 64
    ensures Value(LshNarrow(x, n)) == (Value(x) * Exp2(n)) % TWO128
  {
    LshNarrowBits(x, n);
    ShlByBits(x, n, LshNarrow(x, n), Value(x) * Exp2(n));
  }

  lemma LshNarrowBits(x: Int, n: nat)
    requires n < 64
    ensures forall i | 0 <= i < 128 :: Bit(Value(LshNarrow(x, n)), i) == (n <= i && Bit(Value(x), i - n))
  {
    forall i | 0 <= i < 128
      ensures Bit(Value(LshNarrow(x, n)), i) == (n <= i && Bit(Value(x), i - n))
    {
      LshBitNarrow(x, n, i);
    }
  }

  lemma RshZeroValue(x: Int, n: nat)
    requires n >= 128
    ensures Value(Zero) == Value(x) / Exp2(n)
  {
    forall i | 0 <= i < 128
      ensures Bit(Value(Zero), i) == Bit(Value(x), i + n)
    {
      ZeroValueBit(i);
      Exp2Constants();
      BitAboveWidth(Value(x), 128, i + n);
    }
    ShrByBits(x, n, Zero);
  }

  lemma RshWideValue(x: Int, n: nat)
    requires 64 <= n < 128
    ensures Value(RshWide(x, n)) == Value(x) / Exp2(n)
  {
    forall i | 0 <= i < 128
      ensures Bit(Value(RshWide(x, n)), i) == Bit(Value(x), i + n)
    {
      RshBitWide(x, n, i);
    }
    ShrByBits(x, n, RshWide(x, n));
  }

  lemma RshNarrowValue(x: Int, n: nat)
    requires n < 64
    ensures Value(RshNarrow(x, n)) == Value(x) / Exp2(n)
  {
    forall i | 0 <= i < 128
      ensures Bit(Value(RshNarrow(x, n)), i) == Bit(Value(x), i + n)
    {
      RshBitNarrow(x, n, i);
    }
    ShrByBits(x, n, RshNarrow(x, n));
  }

  /** Bit i of x << n is bit i - n of x, and 0 below n, whichever branch runs. */
  lemma LshBit(x: Int, n: nat, i: nat)
    requires i < 128
    ensures Bit(Value(Lsh(x, n)), i) == (n <= i && Bit(Value(x), i - n))
  {
    if n >= 128 {
      ZeroValueBit(i);
    } else if n >= 64 {
      LshBitWide(x, n, i);
    } else {
      LshBitNarrow(x, n, i);
    }
  }

  lemma LshBitWide(x: Int, n: nat, i: nat)
    requires 64 <= n < 128 && i < 128
    ensures Bit(Value(LshWide(x, n)), i) == (n <= i && Bit(Value(x), i - n))
  {
    var r := LshWide(x, n);
    ValueBit(r, i);
    if i < 64 {
      ZeroBit(i);
    } else {
      Shl64Bit(x.Lo, n - 64, i - 64);
      if n <= i {
        ValueBit(x, i - n);
      }
    }
  }

  lemma LshBitNarrow(x: Int, n: nat, i: nat)
    requires n < 64 && i < 128
    ensures Bit(Value(LshNarrow(x, n)), i) == (n <= i && Bit(Value(x), i - n))
  {
    var r := LshNarrow(x, n);
    ValueBit(r, i);
    if n <= i {
      ValueBit(x, i - n);
    }
    if i < 64 {
      Shl64Bit(x.Lo, n, i);
    } else {
      Or64Bit(Shl64(x.Hi, n), Shr64(x.Lo, 64 - n), i - 64);
      Shl64Bit(x.Hi, n, i - 64);
      Shr64Bit(x.Lo, 64 - n, i - 64);
    }
  }

  /** Bit i of x >> n is bit i + n of x, whichever branch runs. */
  lemma RshBit(x: Int, n: nat, i: nat)
    requires i < 128
    ensures Bit(Value(Rsh(x, n)), i) == Bit(Value(x), i + n)
  {
    if n >= 128 {
      ZeroValueBit(i);
      Exp2Constants();
      BitAboveWidth(Value(x), 128, i + n);
    } else if n >= 64 {
      RshBitWide(x, n, i);
    } else {
      RshBitNarrow(x, n, i);
    }
  }

  lemma RshBitWide(x: Int, n: nat, i: nat)
    requires 64 <= n < 128 && i < 128
    ensures Bit(Value(RshWide(x, n)), i) == Bit(Value(x), i + n)
  {
    var r := RshWide(x, n);
    ValueBit(r, i);
    ValueBit(x, i + n);
    Exp2Constants();
    if i < 64 {
      Shr64Bit(x.Hi, n - 64, i);
      if i + n - 64 >= 64 {
        BitAboveWidth(x.Hi, 64, i + n - 64);
      }
    } else {
      ZeroBit(i - 64);
      BitAboveWidth(x.Hi, 64, i + n - 64);
    }
  }

  lemma RshBitNarrow(x: Int, n: nat, i: nat)
    requires n < 64 && i < 128
    ensures Bit(Value(RshNarrow(x, n)), i) == Bit(Value(x), i + n)
  {
    var r := RshNarrow(x, n);
    ValueBit(r, i);
    ValueBit(x, i + n);
    if i < 64 {
      Or64Bit(Shr64(x.Lo, n), Shl64(x.Hi, 64 - n), i);
      Shr64Bit(x.Lo, n, i);
      Shl64Bit(x.Hi, 64 - n, i);
    } else {
      Shr64Bit(x.Hi, n, i - 64);
      if i + n >= 128 {
        Exp2Constants();
        BitAboveWidth(x.Hi, 64, i - 64 + n);
      }
    }
  }

  /** A shift by 0 changes nothing. */
  lemma ShiftByZero(x: Int)
    ensures Lsh(x, 0) == x && Rsh(x, 0) == x
  {
    assert Exp2(0) == 1;
    DivModUnique(Value(x), TWO128, 0, Value(x));
    ValueInjective(Lsh(x, 0), x);
    ValueInjective(Rsh(x, 0), x);
  }

  /** `BitLen`: the number of binary digits of the value (see BitLength),
      0 for Zero. */
  function BitLen(x: Int): (r: nat)
    ensures r == BitLength(Value(x))
    ensures r <= 128
  {
    Len64Bounds(x.Hi);
    Len64Bounds(x.Lo);
    if x.Hi == 0 then
      BitLenLo(x);
      Len64(x.Lo)
    else
      BitLenHi(x);
      64 + Len64(x.Hi)
  }

  lemma BitLenLo(x: Int)
    requires x.Hi == 0
    ensures Len64(x.Lo) == BitLength(Value(x))
  {
    assert Value(x) == x.Lo;
  }

  lemma BitLenHi(x: Int)
    requires x.Hi != 0
    ensures 64 + Len64(x.Hi) == BitLength(Value(x))
  {
    Exp2Constants();
    BitLengthConcat(Value(x), x.Hi, x.Lo, 64, TWO64);
  }

  /** `LeadingZeros`: the number of zero bits above the highest set bit. */
  function LeadingZeros(x: Int): (r: nat)
    ensures r <= 128
    ensures Value(x) < Exp2(128 - r)
    ensures r < 128 ==> Exp2(127 - r) <= Value(x)
  {
    var z := 128 - BitLen(x);
    ValueBelow(x);
    LeadingZeroBits(Value(x), 128, z);
    z
  }

  lemma ValueBelow(x: Int)
    ensures Value(x) < Exp2(128)
  {
    Exp2Constants();
  }

  /** `TrailingZeros`: the index of the lowest set bit, 128 for Zero. */
  function TrailingZeros(x: Int): (r: nat)
    ensures Value(x) == 0 <==> r == 128
    ensures Value(x) > 0 ==> r < 128 && Bit(Value(x), r) && Value(x) % Exp2(r) == 0
  {
    TrailingZeros64Bounds(x.Hi);
    TrailingZeros64Bounds(x.Lo);
    if x.Lo == 0 then
      LowestBitHi(x.Hi);
      64 + TrailingZeros64(x.Hi)
    else
      LowestBitLo(x, TrailingZeros64(x.Lo));
      TrailingZeros64(x.Lo)
  }

  lemma LowestBitHi(h: uint64)
    ensures h != 0 ==>
      Bit(h * TWO64, 64 + TrailingZeros64(h)) && (h * TWO64) % Exp2(64 + TrailingZeros64(h)) == 0
  {
    if h != 0 {
      TrailingZeros64Bounds(h);
      Exp2Constants();
      LowestBitScaled(h, TrailingZeros64(h), 64);
    }
  }

  lemma LowestBitLo(x: Int, t: nat)
    requires t < 64 && Bit(x.Lo, t) && x.Lo % Exp2(t) == 0
    ensures Bit(Value(x), t) && Value(x) % Exp2(t) == 0
  {
    ValueBit(x, t);
    Exp2Add(64 - t, t);
    Exp2Constants();
    DivisibleSum(x.Hi, Exp2(64 - t), x.Lo, Exp2(t));
  }

  /** A larger high half means a larger value, whatever the low halves. */
  lemma HiDominates(x: Int, y: Int)
    requires x.Hi < y.Hi
    ensures Value(x) < Value(y)
  {
    MulLe(x.Hi + 1, y.Hi, TWO64);
  }

  /** `Cmp`: compares Hi, then Lo. */
  function Cmp(x: Int, y: Int): (r: int)
    ensures r == -1 || r == 0 || r == 1
    ensures r == -1 <==> Value(x) < Value(y)
    ensures r == 0 <==> Value(x) == Value(y)
    ensures r == 1 <==> Value(x) > Value(y)
  {
    if x.Hi > y.Hi then HiDominates(y, x); 1
    else if x.Hi < y.Hi then HiDominates(x, y); -1
    else if x.Lo > y.Lo then 1
    else if x.Lo < y.Lo then -1
    else 0
  }

  function IsGreaterThan(x: Int, y: Int): (r: bool)
    ensures r <==> Value(x) > Value(y)
  {
    Cmp(x, y) == 1
  }

  function IsLessThan(x: Int, y: Int): (r: bool)
    ensures r <==> Value(x) < Value(y)
  {
    Cmp(x, y) == -1
  }

  function IsEqualTo(x: Int, y: Int): (r: bool)
    ensures r <==> Value(x) == Value(y)
    ensures r <==> Cmp(x, y) == 0
  {
    ValueInjective(x, y);
    x.Hi == y.Hi && x.Lo == y.Lo
  }

  /** Exactly one of IsLessThan, IsEqualTo and IsGreaterThan holds. */
  lemma Trichotomy(x: Int, y: Int)
    ensures IsLessThan(x, y) || IsEqualTo(x, y) || IsGreaterThan(x, y)
    ensures !(IsLessThan(x, y) && IsEqualTo(x, y))
    ensures !(IsLessThan(x, y) && IsGreaterThan(x, y))
    ensures !(IsEqualTo(x, y) && IsGreaterThan(x, y))
  {
  }

  /** x And One keeps only bit 0 of the value. */
  lemma AndOne(x: Int)
    ensures Value(And(x, One)) == Value(x) % 2
    ensures Value(x) % 2 == x.Lo % 2
  {
    AndLowMask(Value(x), 1, 128);
    assert x.Hi * TWO64 == 2 * (x.Hi * 0x8000_0000_0000_0000);
  }

  /** `IsEven`: bit 0 of Lo is clear. */
  function IsEven(x: Int): (r: bool)
    ensures r <==> Value(x) % 2 == 0
    ensures r <==> x.Lo % 2 == 0
  {
    AndOne(x);
    ValueInjective(And(x, One), Zero);
    And(x, One) == Zero
  }

  /** `IsOdd`: bit 0 of Lo is set. */
  function IsOdd(x: Int): (r: bool)
    ensures r <==> Value(x) % 2 == 1
    ensures r <==> !IsEven(x)
  {
    AndOne(x);
    ValueInjective(And(x, One), Zero);
    And(x, One) != Zero
  }

  /** `Bytes`: 16 big-endian bytes, Hi first. */
  function Bytes(x: Int): (r: seq<byte>)
    ensures |r| == 16
    ensures BeValue(r) == Value(x)
    ensures r[..8] == PutUint64(x.Hi) && r[8..] == PutUint64(x.Lo)
  {
    var hi, lo := PutUint64(x.Hi), PutUint64(x.Lo);
    BeValueAppend(hi, lo);
    Exp2Constants();
    assert BeValue(hi + lo) == x.Hi * TWO64 + x.Lo;
    hi + lo
  }

  /** Bytes and NewFromBytes are inverse on 16-byte buffers. */
  lemma BytesRoundTrip(x: Int, buf: seq<byte>)
    ensures NewFromBytes(Bytes(x)) == (x, None)
    ensures |buf| == 16 ==> Bytes(NewFromBytes(buf).0) == buf
  {
    ValueInjective(NewFromBytes(Bytes(x)).0, x);
    if |buf| == 16 {
      BeValueInjective(Bytes(NewFromBytes(buf).0), buf);
    }
  }

  /** `String`: `SetBytes(x.Bytes()).String()`, the canonical decimal form. */
  function String(x: Int): (r: string)
    ensures Canonical(r)
    ensures DigitsValue(r) == Value(x)
  {
    ToDecimal(BeValue(Bytes(x)))
  }

  /** NewFromString undoes String. */
  lemma StringRoundTrip(x: Int)
    ensures NewFromString(String(x)) == (x, None)
  {
    ValueInjective(NewFromString(String(x)).0, x);
  }
}
