/** The bit array of package `internal/radix` (bitset.go): bytes, most
    significant bit first, so bit i is bit 7 - i % 8 of byte i / 8. The Go
    type is a byte slice; reads take it as an array, and SetTo updates one
    byte of it in place. */
module Bitset {
  import opened Bits
  import opened GoInts
  import opened BigEndian

  /** `div8`: n >> 3 and n & 7, the quotient and remainder of n by 8. */
  function Div8(n: uint64): (r: (uint64, uint64))
    ensures r.0 == n / 8 && r.1 == n % 8
  {
    var q, m := Shr64(n, 3), And64(n, 7);
    assert q * 8 + m == n && m < 8 by {
      assert Exp2(3) == 8;
      ShrLow(n, 3);
      Exp2Constants();
      AndLowMask(n, 3, 64);
    }
    DivModUnique(n, 8, q, m);
    (q, m)
  }

  /** Bit i of the bytes s, most significant bit of each byte first. */
  predicate BitAt(s: seq<byte>, i: nat)
    requires i / 8 < |s|
  {
    Bit(s[i / 8], 7 - i % 8)
  }

  /** The bytes are one big-endian number read from its most significant
      bit: index i of the bit array is bit 8 * |s| - 1 - i of that number. */
  lemma BitAtValue(s: seq<byte>, i: nat)
    requires i / 8 < |s|
    ensures BitAt(s, i) == Bit(BeValue(s), 8 * |s| - 1 - i)
  {
    var j, m := i / 8, i % 8;
    BeValueBit(s, j, 7 - m);
    assert 8 * (|s| - 1 - j) + (7 - m) == 8 * |s| - 1 - i;
  }

  /** (x >> k) & 1 on a byte: bit k of x as 0 or 1. */
  function BitOf(x: byte, k: nat): (r: byte)
    ensures r == if Bit(x, k) then 1 else 0
  {
    var v: byte := Shr(x, k);
    Exp2Constants();
    AndLowMask(v, 1, 8);
    DivExp2Bit(x, k, 0);
    And8(v, 1)
  }

  /** `Get`: bit i as 0 or 1. Go panics when byte i / 8 does not exist. */
  function Get(s: array<byte>, i: uint64): (r: byte)
    reads s
    requires i / 8 < s.Length
    ensures r == if BitAt(s[..], i) then 1 else 0
  {
    var d := Div8(i);
    var x := s[d.0];
    BitAtByte(s[..], i, x, d.1);
    BitOf(x, 7 - d.1)
  }

  lemma BitAtByte(s: seq<byte>, i: nat, x: byte, m: nat)
    requires i / 8 < |s| && x == s[i / 8] && m == i % 8
    ensures BitAt(s, i) == Bit(x, 7 - m)
  {
  }

  /** 1 << k as a byte. */
  function Mask(k: nat): (r: byte)
    requires k < 8
    ensures forall j :: 0 <= j < 8 ==> Bit(r, j) == (j == k)
  {
    Exp2Monotone(k, 7);
    assert Exp2(7) == 128;
    forall j | 0 <= j < 8
      ensures Bit(Exp2(k), j) == (j == k)
    {
      Exp2Bit(k, j);
    }
    Exp2(k)
  }

  /** x with bit k set (b) or cleared (!b): x | m or x &^ m with m = 1 << k. */
  function WithBit(x: byte, k: nat, b: bool): (r: byte)
    requires k < 8
    ensures forall j :: 0 <= j < 8 ==> Bit(r, j) == if j == k then b else Bit(x, j)
  {
    var m := Mask(k);
    var r := if b then Or8(x, m) else AndNot8(x, m);
    forall j | 0 <= j < 8
      ensures Bit(r, j) == if j == k then b else Bit(x, j)
    {
      Exp2Constants();
      BitwiseBit(OrOp, x, m, 8, j);
      BitwiseBit(AndNotOp, x, m, 8, j);
    }
    r
  }

  /** The bytes s with bit i set to b. */
  function Put(s: seq<byte>, i: nat, b: bool): (r: seq<byte>)
    requires i / 8 < |s|
    ensures |r| == |s|
  {
    s[i / 8 := WithBit(s[i / 8], 7 - i % 8, b)]
  }

  /** `SetTo`: sets bit i to bit, which must be 0 or 1 (Go panics on any
      other value, and when byte i / 8 does not exist). */
  method SetTo(s: array<byte>, i: uint64, bit: byte)
    requires i / 8 < s.Length
    requires bit == 0 || bit == 1
    modifies s
    ensures s[..] == Put(old(s[..]), i, bit == 1)
  {
    var d := Div8(i);
    var idx, mod := d.0, d.1;
    var m := Mask(7 - mod);
    if bit == 0 {
      s[idx] := AndNot8(s[idx], m);
    } else {
      s[idx] := Or8(s[idx], m);
    }
  }

  /** `BitLen`: the number of bits held, len(s) << 3. */
  function BitLen(s: array<byte>): (r: nat)
    reads s
    ensures r % 8 == 0
  {
    s.Length * 8
  }

  /** The valid indices for Get and SetTo are exactly those below BitLen. */
  lemma BitLenIndices(s: array<byte>, i: nat)
    ensures i < BitLen(s) <==> i / 8 < s.Length
  {
    DivMod(i, 8);
  }

  /** After setting bit i to b, bit i reads b and every other bit, the
      neighbours in the same byte included, reads as before. */
  lemma PutBit(s: seq<byte>, i: nat, b: bool, j: nat)
    requires i / 8 < |s| && j / 8 < |s|
    ensures BitAt(Put(s, i, b), j) == if j == i then b else BitAt(s, j)
  {
    if j / 8 == i / 8 && j != i {
      DivMod(i, 8);
      DivMod(j, 8);
      assert j % 8 != i % 8;
    }
  }

  /** Setting a bit twice to the same value is setting it once. */
  lemma PutIdempotent(s: seq<byte>, i: nat, b: bool)
    requires i / 8 < |s|
    ensures Put(Put(s, i, b), i, b) == Put(s, i, b)
  {
    var k := 7 - i % 8;
    var x := s[i / 8];
    var once := WithBit(x, k, b);
    var twice := WithBit(once, k, b);
    Exp2Constants();
    BitsExt(twice, once, 8);
  }

  /** The first 16 bits hold 1 exactly at the odd indices below n. */
  predicate OddBelow(s: seq<byte>, n: nat)
    requires |s| == 2
  {
    forall j :: 0 <= j < 16 ==> BitAt(s, j) == (j % 2 == 1 && j < n)
  }

  lemma OddBelowZeros(s: seq<byte>)
    requires s == [0, 0]
    ensures OddBelow(s, 0)
  {
    forall j | 0 <= j < 16
      ensures !BitAt(s, j)
    {
      ZeroBit(7 - j % 8);
    }
  }

  lemma OddBelowStep(s: seq<byte>, i: nat)
    requires |s| == 2 && i < 16 && i % 2 == 1 && OddBelow(s, i)
    ensures OddBelow(Put(s, i, true), i + 2)
  {
    forall j | 0 <= j < 16
      ensures BitAt(Put(s, i, true), j) == (j % 2 == 1 && j < i + 2)
    {
      PutBit(s, i, true, j);
    }
  }

  /** The package's bitset test: setting every odd index of two zero bytes
      gives 01010101 01010101, with each SetTo changing only its own bit. */
  method OddBits() returns (s: array<byte>)
    ensures fresh(s) && s.Length == 2
    ensures OddBelow(s[..], 16)
  {
    s := new byte[2](_ => 0);
    assert s[..] == [0, 0];
    OddBelowZeros(s[..]);
    var i: uint64 := 1;
    while i < 16
      invariant 1 <= i <= 17 && i % 2 == 1
      invariant OddBelow(s[..], i)
    {
      OddBelowStep(s[..], i);
      SetTo(s, i, 1);
      i := i + 2;
    }
  }
}
