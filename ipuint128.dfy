/** The package-private `uint128` of package `iputil`: a `[2]uint64` array
    value, most significant word first, with a big-endian byte codec and
    base-10 conversion through `math/big`. Methods have value receivers, so
    each is a function from the receiver to a new array. */
module IpUint128 {
  import opened Bits
  import opened GoInts
  import opened Wrappers
  import opened Decimal
  import opened BigEndian
  import BigInt

  /** `[2]uint64` */
  type Uint128 = x: seq<uint64> | |x| == 2 witness [0, 0]

  /** `[16]byte` */
  type Block = b: seq<byte> | |b| == 16 witness Zeros(16)

  /** The number the array denotes: x[0] * 2^64 + x[1]. */
  function Value(x: Uint128): (r: nat)
    ensures r < TWO128
  {
    MulLe(x[0] as nat + 1, TWO64, TWO64);
    x[0] * TWO64 + x[1]
  }

  lemma ValueInjective(x: Uint128, y: Uint128)
    ensures Value(x) == Value(y) <==> x == y
  {
    if Value(x) == Value(y) {
      DivModUnique(Value(x), TWO64, x[0], x[1]);
      DivModUnique(Value(y), TWO64, y[0], y[1]);
      assert x == [x[0], x[1]] && y == [y[0], y[1]];
    }
  }

  /** `setBytes`: the first 8 bytes big-endian into x[0], the last 8 into
      x[1]. The receiver's old contents play no part. */
  function SetBytes(x: Uint128, b: Block): (r: Uint128)
    ensures r[0] == BeValue(b[..8]) && r[1] == BeValue(b[8..])
    ensures Value(r) == BeValue(b)
  {
    var r := [Uint64(b[..8]), Uint64(b[8..])];
    assert Value(r) == BeValue(b) by {
      assert b == b[..8] + b[8..];
      BeValueAppend(b[..8], b[8..]);
      Exp2Constants();
    }
    r
  }

  /** `bytes`: the 16 big-endian bytes, x[0]'s first. */
  function ToBytes(x: Uint128): (r: Block)
    ensures r[..8] == PutUint64(x[0]) && r[8..] == PutUint64(x[1])
    ensures BeValue(r) == Value(x)
  {
    var r := PutUint64(x[0]) + PutUint64(x[1]);
    assert BeValue(r) == Value(x) by {
      BeValueAppend(PutUint64(x[0]), PutUint64(x[1]));
      Exp2Constants();
    }
    r
  }

  /** Decoding an encoded array gives it back, whatever the receiver. */
  lemma SetBytesOfBytes(x: Uint128, y: Uint128)
    ensures SetBytes(y, ToBytes(x)) == x
  {
    ValueInjective(SetBytes(y, ToBytes(x)), x);
  }

  /** Encoding a decoded block gives the block back. */
  lemma BytesOfSetBytes(x: Uint128, b: Block)
    ensures ToBytes(SetBytes(x, b)) == b
  {
    BeValueInjective(ToBytes(SetBytes(x, b)), b);
  }

  /** `setDecimalString`: on a string that is not a base-10 integer, or a
      number that needs more than 16 bytes, the receiver comes back
      unchanged with false; otherwise the magnitude is right-aligned in 16
      bytes and decoded. */
  function SetDecimalString(x: Uint128, s: string): (r: (Uint128, bool))
    ensures !IsDecimal(s) ==> r == (x, false)
    ensures IsDecimal(s) && DigitsValue(s) >= TWO128 ==> r == (x, false)
    ensures IsDecimal(s) && DigitsValue(s) < TWO128 ==> r.1 && Value(r.0) == DigitsValue(s)
  {
    match BigInt.SetString(s)
    case None => (x, false)
    case Some(i) =>
      var buf := BigInt.Bytes(i);
      BigInt.BytesFit(i, 16);
      Exp2Constants();
      if |buf| > 16 then (x, false)
      else
        var b := Zeros(16 - |buf|) + buf;
        BeValueZeroPad(16 - |buf|, buf);
        (SetBytes(x, b), true)
  }

  /** `decimalString`: the canonical base-10 form of the value. */
  function DecimalString(x: Uint128): (r: string)
    ensures Canonical(r)
    ensures DigitsValue(r) == Value(x)
  {
    ToDecimal(BeValue(ToBytes(x)))
  }

  /** Parsing the printed form gives the array back and reports success,
      whatever the receiver. */
  lemma DecimalRoundTrip(x: Uint128, y: Uint128)
    ensures SetDecimalString(y, DecimalString(x)) == (x, true)
  {
    ValueInjective(SetDecimalString(y, DecimalString(x)).0, x);
  }
}
