/** Powers of two and the bits of natural numbers.

    Every fixed-width operation of the model (Go's uint64 and byte operators,
    the 128-bit value type, the bit set) is stated against the definitions in
    this module: `Exp2` for powers of two, `Bit` for the i-th binary digit of a
    natural number, and `Bitwise` for a bit-by-bit operation over a width. */
module Bits {

  const TWO8: nat := 0x100
  const TWO64: nat := 0x1_0000_0000_0000_0000
  const TWO128: nat := 0x1_0000_0000_0000_0000_0000_0000_0000_0000

  /** 2^n */
  function Exp2(n: nat): (r: nat)
    ensures r >= 1
  {
    if n == 0 then 1 else 2 * Exp2(n - 1)
  }

  lemma {:induction false} Exp2Add(a: nat, b: nat)
    ensures Exp2(a + b) == Exp2(a) * Exp2(b)
  {
    if a > 0 {
      Exp2Add(a - 1, b);
      DoubleMul(Exp2(a - 1), Exp2(b));
    }
  }

  lemma DoubleMul(p: nat, q: nat)
    ensures 2 * (p * q) == (2 * p) * q
  {
  }

  lemma {:induction false} Exp2Monotone(a: nat, b: nat)
    requires a <= b
    ensures Exp2(a) <= Exp2(b)
    ensures a < b ==> Exp2(a) < Exp2(b)
  {
    if a < b {
      Exp2Monotone(a, b - 1);
    }
  }

  lemma Exp2Of24()
    ensures Exp2(24) == 0x100_0000
  {
    assert Exp2(4) == 16;
    assert Exp2(8) == 256;
    Exp2Add(8, 8);
    Exp2Add(8, 16);
  }

  lemma Exp2Constants()
    ensures Exp2(8) == TWO8
    ensures Exp2(64) == TWO64
    ensures Exp2(128) == TWO128
  {
    assert Exp2(2) == 4;
    assert Exp2(4) == 16;
    assert Exp2(8) == TWO8;
    Exp2Add(8, 8);
    assert Exp2(16) == 0x1_0000;
    Exp2Add(16, 16);
    assert Exp2(32) == 0x1_0000_0000;
    Exp2Add(32, 32);
    assert Exp2(64) == TWO64;
    Exp2Add(64, 64);
  }

  lemma DivMod(v: nat, d: nat)
    requires d > 0
    ensures v == (v / d) * d + v % d
  {
  }

  /** Division of a natural number by a positive one: the solver does not find
      these bounds on its own when the divisor is a function call. */
  lemma DivBound(v: nat, d: nat)
    requires d > 0
    ensures 0 <= v / d <= v
  {
    DivMod(v, d);
    MulLe(1, d, v / d);
  }

  lemma ModSmall(v: nat, d: nat)
    requires v < d
    ensures v % d == v
  {
    DivModUnique(v, d, 0, v);
  }

  /** A multiple of a, scaled by b, is a multiple of a * b. */
  lemma MulDivisible(h: nat, a: nat, b: nat)
    requires a > 0 && b > 0 && h % a == 0
    ensures (h * b) % (a * b) == 0
  {
    DivBound(h, a);
    var q: nat := h / a;
    DivMod(h, a);
    assert h * b == q * (a * b);
    MulMod(q, a * b);
  }

  /** Adding a multiple of e to a multiple of e gives a multiple of e. */
  lemma DivisibleSum(h: nat, a: nat, l: nat, e: nat)
    requires e > 0 && l % e == 0
    ensures (h * (a * e) + l) % e == 0
  {
    DivBound(l, e);
    var q: nat := l / e;
    DivMod(l, e);
    assert h * (a * e) + l == (h * a + q) * e;
    MulMod(h * a + q, e);
  }

  /** a <= h < b bounds the two-digit number h * t + l in base t. */
  lemma ScaleBounds(a: nat, h: nat, b: nat, l: nat, t: nat)
    requires a <= h < b && l < t
    ensures a * t <= h * t + l < b * t
  {
    MulLe(a, h, t);
    MulLe(h + 1, b, t);
  }

  lemma MulLe(a: nat, b: nat, c: nat)
    requires a <= b
    ensures a * c <= b * c
  {
  }

  lemma MulMod(q: nat, d: nat)
    requires d > 0
    ensures (q * d) % d == 0
  {
    DivModUnique(q * d, d, q, 0);
  }

  lemma MulSign(k: int, d: int)
    requires d > 0
    ensures k >= 1 ==> k * d >= d
    ensures k <= -1 ==> k * d <= -d
  {
  }

  lemma DivModUnique(n: int, d: int, q: int, r: int)
    requires d > 0 && 0 <= r < d && n == q * d + r
    ensures n / d == q && n % d == r
  {
    MulSign(q - n / d, d);
    assert (q - n / d) * d == q * d - (n / d) * d;
  }

  /** Adding c commutes with reduction modulo d. */
  lemma ModAdd(a: int, c: int, d: int)
    requires d > 0
    ensures ((a % d) + c) % d == (a + c) % d
  {
    var q, m := a / d, a % d;
    var q2, r2 := (m + c) / d, (m + c) % d;
    assert a + c == (q + q2) * d + r2;
    DivModUnique(a + c, d, q + q2, r2);
  }

  /** A two-digit number in base d, reduced modulo d * d, keeps its low digit
      and reduces its high digit modulo d. */
  lemma CarryMod(a: int, lo: int, d: int)
    requires d > 0 && 0 <= lo < d
    ensures (a % d) * d + lo == (a * d + lo) % (d * d)
  {
    var q, m := a / d, a % d;
    assert a * d == q * (d * d) + m * d;
    MulLe(m, d - 1, d);
    DivModUnique(a * d + lo, d * d, q, m * d + lo);
  }

  /** Bit i (counted from the least significant, starting at 0) of n is set. */
  predicate Bit(n: nat, i: nat)
  {
    if i == 0 then n % 2 == 1 else Bit(n / 2, i - 1)
  }

  lemma {:induction false} ZeroBit(i: nat)
    ensures !Bit(0, i)
  {
    if i > 0 {
      ZeroBit(i - 1);
    }
  }

  /** The bits of h * 2^k + l are those of l below k and those of h from k up. */
  lemma {:induction false} BitSplit(h: nat, l: nat, k: nat, i: nat)
    requires l < Exp2(k)
    ensures Bit(h * Exp2(k) + l, i) == if i < k then Bit(l, i) else Bit(h, i - k)
    decreases k
  {
    if k == 0 {
      assert h * Exp2(k) + l == h;
    } else {
      var e := Exp2(k - 1);
      var n := h * Exp2(k) + l;
      assert h * Exp2(k) == 2 * (h * e);
      assert n % 2 == l % 2;
      assert n / 2 == h * e + l / 2;
      if i > 0 {
        BitSplit(h, l / 2, k - 1, i - 1);
      }
    }
  }
  /** BitSplit with the sum named. */
  lemma BitOfSum(v: nat, h: nat, l: nat, k: nat, i: nat)
    requires l < Exp2(k) && v == h * Exp2(k) + l
    ensures Bit(v, i) == if i < k then Bit(l, i) else Bit(h, i - k)
  {
    BitSplit(h, l, k, i);
  }


  /** A number below 2^w has no bit at or above w. */
  lemma BitAboveWidth(n: nat, w: nat, i: nat)
    requires n < Exp2(w) && w <= i
    ensures !Bit(n, i)
  {
    BitSplit(0, n, w, i);
    ZeroBit(i - w);
  }

  /** Two numbers below 2^w with the same w low bits are equal. */
  lemma {:induction false} BitsExt(x: nat, y: nat, w: nat)
    requires x < Exp2(w) && y < Exp2(w)
    requires forall i :: 0 <= i < w ==> Bit(x, i) == Bit(y, i)
    ensures x == y
  {
    if w > 0 {
      forall i | 0 <= i < w - 1
        ensures Bit(x / 2, i) == Bit(y / 2, i)
      {
        assert Bit(x, i + 1) == Bit(y, i + 1);
      }
      BitsExt(x / 2, y / 2, w - 1);
      assert Bit(x, 0) == Bit(y, 0);
    }
  }

  lemma MulExp2Bit(v: nat, n: nat, i: nat)
    ensures Bit(v * Exp2(n), i) == (n <= i && Bit(v, i - n))
  {
    BitSplit(v, 0, n, i);
    if i < n {
      ZeroBit(i);
    }
  }

  /** v / 2^n: v shifted right by n bits. */
  function Shr(v: nat, n: nat): (r: nat)
    ensures r <= v
  {
    var e := Exp2(n);
    DivBound(v, e);
    v / e
  }

  /** v % 2^n: the low n bits of v. */
  function Low(v: nat, n: nat): (r: nat)
    ensures r < Exp2(n)
  {
    var e := Exp2(n);
    ModBound(v, e);
    v % e
  }

  lemma ModBound(v: nat, d: nat)
    requires d > 0
    ensures 0 <= v % d < d
  {
  }

  /** v splits into its bits above n and its low n bits. */
  lemma ShrLow(v: nat, n: nat)
    ensures v == Shr(v, n) * Exp2(n) + Low(v, n)
  {
    DivMod(v, Exp2(n));
  }

  /** Two numbers below 2^w with the same low w bits as p are p % 2^w. */
  lemma BitsExtLow(a: nat, p: nat, w: nat)
    requires a < Exp2(w)
    requires forall i | 0 <= i < w :: Bit(a, i) == Bit(Low(p, w), i)
    ensures a == p % Exp2(w)
  {
    BitsExt(a, Low(p, w), w);
  }

  lemma ModExp2Bit(v: nat, w: nat, i: nat)
    ensures Bit(Low(v, w), i) == (i < w && Bit(v, i))
  {
    ShrLow(v, w);
    BitSplit(Shr(v, w), Low(v, w), w, i);
    if w <= i {
      BitAboveWidth(Low(v, w), w, i);
    }
  }

  lemma DivExp2Bit(v: nat, n: nat, i: nat)
    ensures Bit(Shr(v, n), i) == Bit(v, i + n)
  {
    ShrLow(v, n);
    BitSplit(Shr(v, n), Low(v, n), n, i + n);
  }

  /** 2^k has exactly bit k set. */
  lemma Exp2Bit(k: nat, i: nat)
    ensures Bit(Exp2(k), i) == (i == k)
  {
    MulExp2Bit(1, k, i);
    if k < i {
      assert Bit(1, i - k) == Bit(0, i - k - 1);
      ZeroBit(i - k - 1);
    }
  }

  /** 2^k - 1 has exactly the bits below k set. */
  lemma {:induction false} OnesBit(k: nat, i: nat)
    ensures Bit(Exp2(k) - 1, i) == (i < k)
  {
    if k == 0 {
      ZeroBit(i);
    } else {
      assert (Exp2(k) - 1) % 2 == 1;
      assert (Exp2(k) - 1) / 2 == Exp2(k - 1) - 1;
      if i > 0 {
        OnesBit(k - 1, i - 1);
      }
    }
  }

  /** The boolean operators that Go applies bit by bit: &, |, ^ and &^. */
  datatype BitOp = AndOp | OrOp | XorOp | AndNotOp

  function Apply(op: BitOp, a: bool, b: bool): bool
  {
    match op
    case AndOp => a && b
    case OrOp => a || b
    case XorOp => a != b
    case AndNotOp => a && !b
  }

  /** The w-bit result of applying op to each pair of bits of x and y. */
  function Bitwise(op: BitOp, x: nat, y: nat, w: nat): (r: nat)
    ensures r < Exp2(w)
  {
    if w == 0 then 0
    else 2 * Bitwise(op, x / 2, y / 2, w - 1) + (if Apply(op, x % 2 == 1, y % 2 == 1) then 1 else 0)
  }

  /** Bit i of a bitwise result is op applied to bit i of the operands. */
  lemma {:induction false} BitwiseBit(op: BitOp, x: nat, y: nat, w: nat, i: nat)
    ensures Bit(Bitwise(op, x, y, w), i) == (i < w && Apply(op, Bit(x, i), Bit(y, i)))
  {
    if w == 0 {
      ZeroBit(i);
    } else {
      var hi := Bitwise(op, x / 2, y / 2, w - 1);
      var lo := if Apply(op, x % 2 == 1, y % 2 == 1) then 1 else 0;
      DivModUnique(2 * hi + lo, 2, hi, lo);
      if i > 0 {
        BitwiseBit(op, x / 2, y / 2, w - 1, i - 1);
      }
    }
  }

  /** A bitwise operation over k + m bits acts separately on the low k bits
      and the high m bits: vx and vy are a and c placed above b and d (t is 2^k). */
  lemma BitwiseConcat(op: BitOp, a: nat, b: nat, c: nat, d: nat, vx: nat, vy: nat, k: nat, m: nat, t: nat)
    requires t == Exp2(k) && b < t && d < t
    requires vx == a * t + b && vy == c * t + d
    ensures Bitwise(op, vx, vy, k + m) == Bitwise(op, a, c, m) * t + Bitwise(op, b, d, k)
  {
    var lhs := Bitwise(op, vx, vy, k + m);
    var hi := Bitwise(op, a, c, m);
    var lo := Bitwise(op, b, d, k);
    var rhs := hi * t + lo;
    ScaleBounds(0, hi, Exp2(m), lo, t);
    Exp2Add(m, k);
    forall i | 0 <= i < k + m
      ensures Bit(lhs, i) == Bit(rhs, i)
    {
      BitwiseConcatBit(op, a, b, c, d, vx, vy, k, m, t, hi, lo, rhs, i);
    }
    BitsExt(lhs, rhs, k + m);
  }

  lemma BitwiseConcatBit(op: BitOp, a: nat, b: nat, c: nat, d: nat, vx: nat, vy: nat,
                         k: nat, m: nat, t: nat, hi: nat, lo: nat, rhs: nat, i: nat)
    requires t == Exp2(k) && b < t && d < t
    requires vx == a * t + b && vy == c * t + d
    requires hi == Bitwise(op, a, c, m) && lo == Bitwise(op, b, d, k) && rhs == hi * t + lo
    ensures Bit(Bitwise(op, vx, vy, k + m), i) == Bit(rhs, i)
  {
    BitwiseBit(op, vx, vy, k + m, i);
    BitOfSum(vx, a, b, k, i);
    BitOfSum(vy, c, d, k, i);
    BitOfSum(rhs, hi, lo, k, i);
    BitwiseBit(op, b, d, k, i);
    if i >= k {
      BitwiseBit(op, a, c, m, i - k);
    }
  }

  /** OR of a multiple of 2^k and a number below 2^k is their sum. */
  lemma OrDisjoint(a: nat, b: nat, k: nat, w: nat)
    requires b < Exp2(k) && a * Exp2(k) + b < Exp2(w)
    ensures Bitwise(OrOp, a * Exp2(k), b, w) == a * Exp2(k) + b
    ensures Bitwise(OrOp, b, a * Exp2(k), w) == a * Exp2(k) + b
  {
    var s := a * Exp2(k) + b;
    forall i | 0 <= i < w
      ensures Bit(Bitwise(OrOp, a * Exp2(k), b, w), i) == Bit(s, i)
      ensures Bit(Bitwise(OrOp, b, a * Exp2(k), w), i) == Bit(s, i)
    {
      BitwiseBit(OrOp, a * Exp2(k), b, w, i);
      BitwiseBit(OrOp, b, a * Exp2(k), w, i);
      BitSplit(a, b, k, i);
      MulExp2Bit(a, k, i);
      if k <= i {
        BitAboveWidth(b, k, i);
      }
    }
    BitsExt(Bitwise(OrOp, a * Exp2(k), b, w), s, w);
    BitsExt(Bitwise(OrOp, b, a * Exp2(k), w), s, w);
  }

  /** AND with 2^k - 1 keeps the value modulo 2^k. */
  lemma AndLowMask(n: nat, k: nat, w: nat)
    requires k <= w
    ensures Bitwise(AndOp, n, Exp2(k) - 1, w) == n % Exp2(k)
  {
    var r := Bitwise(AndOp, n, Exp2(k) - 1, w);
    Exp2Monotone(k, w);
    forall i | 0 <= i < w
      ensures Bit(r, i) == Bit(Low(n, k), i)
    {
      BitwiseBit(AndOp, n, Exp2(k) - 1, w, i);
      OnesBit(k, i);
      ModExp2Bit(n, k, i);
    }
    BitsExt(r, Low(n, k), w);
  }

  /** Every bit of x is also a bit of y, so x <= y. */
  lemma {:induction false} BitsSubset(x: nat, y: nat, w: nat)
    requires x < Exp2(w) && y < Exp2(w)
    requires forall i :: 0 <= i < w && Bit(x, i) ==> Bit(y, i)
    ensures x <= y
  {
    if w > 0 {
      forall i | 0 <= i < w - 1 && Bit(x / 2, i)
        ensures Bit(y / 2, i)
      {
        assert Bit(x, i + 1);
      }
      BitsSubset(x / 2, y / 2, w - 1);
      if x % 2 == 1 {
        assert Bit(x, 0);
      }
    }
  }

  /** The number of binary digits of n: 0 for 0. */
  function BitLength(n: nat): (r: nat)
    ensures n == 0 ==> r == 0
    ensures n > 0 ==> 0 < r && Exp2(r - 1) <= n < Exp2(r)
  {
    if n == 0 then 0 else 1 + BitLength(n / 2)
  }

  /** The bounds of BitLength determine it. */
  lemma BitLengthUnique(n: nat, len: nat)
    requires 0 < len && Exp2(len - 1) <= n < Exp2(len)
    ensures BitLength(n) == len
  {
    var r := BitLength(n);
    if r < len {
      Exp2Monotone(r, len - 1);
    } else if r > len {
      Exp2Monotone(len, r - 1);
    }
  }

  /** A number below 2^w has at most w binary digits, and w - BitLength(v)
      zero bits above them. */
  lemma LeadingZeroBits(v: nat, w: nat, z: nat)
    requires v < Exp2(w) && z + BitLength(v) == w
    ensures v < Exp2(w - z)
    ensures z < w ==> Exp2(w - 1 - z) <= v
  {
  }

  /** Putting k low bits under h adds k to its bit length (t is 2^k). */
  lemma BitLengthConcat(v: nat, h: nat, l: nat, k: nat, t: nat)
    requires h > 0 && t == Exp2(k) && l < t && v == h * t + l
    ensures BitLength(v) == BitLength(h) + k
  {
    var len := BitLength(h);
    ScaleBounds(Exp2(len - 1), h, Exp2(len), l, t);
    Exp2Add(len - 1, k);
    Exp2Add(len, k);
    BitLengthUnique(v, len + k);
  }

  /** Index of the lowest set bit of a non-zero n. */
  function LowestSetBit(n: nat): (r: nat)
    requires n > 0
    ensures Bit(n, r)
    ensures n % Exp2(r) == 0
  {
    if n % 2 == 1 then 0
    else
      var t := LowestSetBit(n / 2);
      DoubleMod(n / 2, t);
      assert n == 2 * (n / 2);
      assert Bit(n, 1 + t) == Bit(n / 2, t);
      1 + t
  }

  lemma DoubleMod(m: nat, t: nat)
    requires m % Exp2(t) == 0
    ensures (2 * m) % Exp2(t + 1) == 0
  {
    ShrLow(m, t);
    var q := Shr(m, t);
    assert 2 * m == q * Exp2(t + 1);
    MulMod(q, Exp2(t + 1));
  }

  /** Scaling by 2^k moves the lowest set bit up by k. */
  lemma LowestBitScaled(h: nat, t: nat, k: nat)
    requires Bit(h, t) && h % Exp2(t) == 0
    ensures Bit(h * Exp2(k), k + t) && (h * Exp2(k)) % Exp2(k + t) == 0
  {
    MulExp2Bit(h, k, k + t);
    MulDivisible(h, Exp2(t), Exp2(k));
    Exp2Add(t, k);
  }
}
