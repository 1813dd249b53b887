/** The part of Go's `math/big` the repository relies on, as maps between
    digit strings, byte buffers and natural numbers: `SetString(s, 10)`,
    `Bytes` (the minimal big-endian magnitude), `SetBytes` (which is
    `BeValue`) and `String` (which is `ToDecimal`). */
module BigInt {
  import opened Bits
  import opened GoInts
  import opened Wrappers
  import opened Decimal
  import opened BigEndian

  /** `new(big.Int).SetString(s, 10)`: the number, or None when s is not a
      base-10 integer. */
  function SetString(s: string): Option<nat>
  {
    if IsDecimal(s) then Some(DigitsValue(s)) else None
  }

  /** `Bytes()`: the shortest big-endian buffer denoting n (empty for 0). */
  function Bytes(n: nat): (r: seq<byte>)
    ensures BeValue(r) == n
    ensures |r| == 0 <==> n == 0
    ensures |r| > 0 ==> r[0] != 0
  {
    if n == 0 then []
    else
      var p := Bytes(n / 256);
      var r := p + [n % 256];
      assert r[..|r| - 1] == p;
      r
  }

  /** The magnitude of n fits in k bytes exactly when n < 2^(8k). */
  lemma BytesFit(n: nat, k: nat)
    ensures |Bytes(n)| <= k <==> n < Exp2(8 * k)
  {
    var r := Bytes(n);
    if |r| <= k {
      Exp2Monotone(8 * |r|, 8 * k);
    } else {
      BeValueFirst(r);
      Exp2Monotone(8 * k, 8 * (|r| - 1));
      MulLe(1, r[0], Exp2(8 * (|r| - 1)));
    }
  }

  /** Parsing the canonical form of n gives n back. */
  lemma SetStringOfDecimal(n: nat)
    ensures SetString(ToDecimal(n)) == Some(n)
  {
  }
}
