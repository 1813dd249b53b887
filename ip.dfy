/** The address helpers of package `iputil` (ip.go): the address family of
    a buffer, the IPv4 and IPv6 tests, and conversion between addresses and
    base-10 integers through `math/big`. A Go `net.IP` is a byte buffer; nil
    is the empty buffer. */
module Ip {
  import opened Bits
  import opened GoInts
  import opened Wrappers
  import opened Decimal
  import opened BigEndian
  import BigInt

  const IPv4Len := 4
  const IPv6Len := 16

  /** `AddressFamily`: 4 for a 4-byte buffer, 6 for a 16-byte buffer, 0 for
      any other length. */
  function AddressFamily(ip: seq<byte>): (r: nat)
    ensures r == 4 <==> |ip| == IPv4Len
    ensures r == 6 <==> |ip| == IPv6Len
    ensures r == 0 <==> |ip| != IPv4Len && |ip| != IPv6Len
  {
    if |ip| == IPv4Len then 4
    else if |ip| == IPv6Len then 6
    else 0
  }

  /** An IPv4-mapped IPv6 address (section 2.5.5.2 of RFC 4291): ten zero
      bytes, two 0xff bytes, then the IPv4 address. */
  predicate IsV4Mapped(ip: seq<byte>)
  {
    |ip| == IPv6Len && ip[..10] == Zeros(10) && ip[10] == 0xFF && ip[11] == 0xFF
  }

  /** `net.IP.To4`: a 4-byte buffer itself, the last 4 bytes of an
      IPv4-mapped address, nil otherwise. */
  function To4(ip: seq<byte>): (r: seq<byte>)
    ensures |ip| == IPv4Len ==> r == ip
    ensures IsV4Mapped(ip) ==> r == ip[12..]
    ensures |ip| != IPv4Len && !IsV4Mapped(ip) ==> r == []
  {
    if |ip| == IPv4Len then ip
    else if IsV4Mapped(ip) then ip[12..]
    else []
  }

  /** `IsIPv4`: a 4-byte address or an IPv4-mapped IPv6 address. */
  function IsIPv4(ip: seq<byte>): (r: bool)
    ensures r <==> |ip| == IPv4Len || IsV4Mapped(ip)
  {
    AddressFamily(To4(ip)) == 4
  }

  /** `IsIPv6`: any 16-byte buffer, IPv4-mapped ones included. */
  function IsIPv6(ip: seq<byte>): (r: bool)
    ensures r <==> |ip| == IPv6Len
  {
    AddressFamily(ip) == 6
  }

  /** The cases of the package's address family test. */
  lemma AddressFamilyCases()
    ensures AddressFamily([]) == 0 && !IsIPv4([]) && !IsIPv6([])
    ensures var v4: seq<byte> := [192, 168, 0, 1];
      AddressFamily(v4) == 4 && IsIPv4(v4) && !IsIPv6(v4)
    ensures var mapped: seq<byte> := [0, 0, 0, 0, 0, 0, 0, 0, 0, 0, 0xFF, 0xFF, 192, 168, 0, 1];
      AddressFamily(mapped) == 6 && IsIPv4(mapped) && IsIPv6(mapped)
    ensures var v6: seq<byte> := [0x20, 0x01, 0x0d, 0xb8, 0, 0, 0, 0, 0, 0, 0, 0, 0, 0, 0, 1];
      AddressFamily(v6) == 6 && !IsIPv4(v6) && IsIPv6(v6)
  {
    var mapped: seq<byte> := [0, 0, 0, 0, 0, 0, 0, 0, 0, 0, 0xFF, 0xFF, 192, 168, 0, 1];
    assert mapped[..10] == Zeros(10);
    var v6: seq<byte> := [0x20, 0x01, 0x0d, 0xb8, 0, 0, 0, 0, 0, 0, 0, 0, 0, 0, 0, 1];
    assert v6[..10] != Zeros(10) by {
      assert v6[..10][0] != Zeros(10)[0];
    }
  }

  /** Go's `copy(dst, src)`: the first min(len(dst), len(src)) bytes of src
      over the start of dst. */
  function Copy(dst: seq<byte>, src: seq<byte>): (r: seq<byte>)
    ensures |r| == |dst|
    ensures forall j | 0 <= j < |r| :: r[j] == if j < |src| then src[j] else dst[j]
  {
    if |src| >= |dst| then src[..|dst|] else src + dst[|src|..]
  }

  /** A fresh w-byte buffer with the minimal big-endian bytes of n copied to
      its front, as ParseDecimal and ParseBigInt build it. When the bytes
      fit, the number is followed by zero bytes, which multiplies it by 2^8
      per byte; otherwise only the w most significant bytes are kept. */
  function LeftAligned(n: nat, w: nat): (r: seq<byte>)
    ensures |r| == w
    ensures |BigInt.Bytes(n)| <= w ==> r == BigInt.Bytes(n) + Zeros(w - |BigInt.Bytes(n)|)
    ensures |BigInt.Bytes(n)| <= w ==> BeValue(r) == n * Exp2(8 * (w - |BigInt.Bytes(n)|))
    ensures |BigInt.Bytes(n)| > w ==> BeValue(r) == Shr(n, 8 * (|BigInt.Bytes(n)| - w))
  {
    var b := BigInt.Bytes(n);
    var r := Copy(Zeros(w), b);
    if |b| <= w then
      assert Zeros(w)[|b|..] == Zeros(w - |b|);
      BeValueZeroTail(b, w - |b|);
      r
    else
      BeValuePrefix(b, w);
      r
  }

  /** The left-aligned buffer denotes n exactly when n is 0 or its minimal
      bytes fill the buffer. */
  lemma LeftAlignedValue(n: nat, w: nat)
    requires w > 0
    ensures BeValue(LeftAligned(n, w)) == n <==> n == 0 || Exp2(8 * (w - 1)) <= n < Exp2(8 * w)
  {
    var k := |BigInt.Bytes(n)|;
    BigInt.BytesFit(n, w);
    BigInt.BytesFit(n, w - 1);
    if 0 < k < w {
      ScaleGrows(n, 8 * (w - k));
    } else if k > w {
      ShrShrinks(n, 8 * (k - w));
    }
  }

  /** Shifting a positive number left by at least one bit changes it. */
  lemma ScaleGrows(n: nat, s: nat)
    requires n > 0 && s > 0
    ensures n * Exp2(s) > n
  {
    Exp2Monotone(0, s);
    MulLe(2, Exp2(s), n);
  }

  /** Shifting a positive number right by at least one bit changes it. */
  lemma ShrShrinks(n: nat, s: nat)
    requires n > 0 && s > 0
    ensures Shr(n, s) < n
  {
    ShrLow(n, s);
    Exp2Monotone(0, s);
    var q: int, e: int := Shr(n, s), Exp2(s);
    MulLe(2, e, q);
    assert 2 * q <= q * e <= n;
  }

  /** The width of the addresses of a family: 4 or 16 bytes, none for
      another family. */
  function ByteLen(af: nat): (r: Option<nat>)
    ensures af == 4 <==> r == Some(IPv4Len)
    ensures af == 6 <==> r == Some(IPv6Len)
    ensures af != 4 && af != 6 <==> r == None
  {
    match af
    case 4 => Some(IPv4Len)
    case 6 => Some(IPv6Len)
    case _ => None
  }

  /** `ParseDecimal` as written: nil for a family other than 4 or 6 and for
      a string that is not a base-10 integer; otherwise a fresh buffer of
      the family's width with the number's bytes copied to its front. */
  function ParseDecimal(s: string, af: nat): (r: Option<seq<byte>>)
    ensures ByteLen(af).None? || !IsDecimal(s) <==> r == None
    ensures r.Some? ==> r.value == LeftAligned(DigitsValue(s), ByteLen(af).value)
  {
    match ByteLen(af)
    case None => None
    case Some(byteLen) =>
      match BigInt.SetString(s)
      case None => None
      case Some(i) => Some(Copy(Zeros(byteLen), BigInt.Bytes(i)))
  }

  /** `DecimalString`: the canonical base-10 form of the buffer read as a
      big-endian unsigned integer. */
  function DecimalString(ip: seq<byte>): (r: string)
    ensures Canonical(r)
    ensures DigitsValue(r) == BeValue(ip)
  {
    ToDecimal(BeValue(ip))
  }

  /** ParseDecimal gives an address back from its decimal form exactly when
      its first byte is non-zero or the address is all zeros. */
  lemma ParseDecimalRoundTrip(ip: seq<byte>)
    requires |ip| == IPv4Len || |ip| == IPv6Len
    ensures ParseDecimal(DecimalString(ip), AddressFamily(ip)) == Some(ip) <==> ip[0] != 0 || BeValue(ip) == 0
  {
    ParseDecimalString(ip);
    LeftAlignedSelf(ip);
  }

  /** The decimal form of an address parses, and ParseDecimal left-aligns
      the address's value in a buffer of the address's width. */
  lemma ParseDecimalString(ip: seq<byte>)
    requires |ip| == IPv4Len || |ip| == IPv6Len
    ensures ParseDecimal(DecimalString(ip), AddressFamily(ip)) == Some(LeftAligned(BeValue(ip), |ip|))
  {
    var s := DecimalString(ip);
    assert ByteLen(AddressFamily(ip)) == Some(|ip|);
    assert IsDecimal(s) && DigitsValue(s) == BeValue(ip);
  }

  /** Left-aligning the value of a buffer in a buffer of the same width
      gives it back exactly when its first byte is non-zero or its value
      is 0. */
  lemma LeftAlignedSelf(ip: seq<byte>)
    requires |ip| > 0
    ensures LeftAligned(BeValue(ip), |ip|) == ip <==> ip[0] != 0 || BeValue(ip) == 0
  {
    var n, w := BeValue(ip), |ip|;
    var r := LeftAligned(n, w);
    LeftAlignedValue(n, w);
    LeadingByte(ip);
    if ip[0] != 0 || n == 0 {
      assert BeValue(r) == n;
      BeValueInjective(r, ip);
    }
  }

  /** The cases of the package's test whose expected addresses are all zeros,
      and the inputs that give nil. */
  lemma ParseDecimalCases()
    ensures ParseDecimal("", 4) == None && ParseDecimal("", 6) == None
    ensures ParseDecimal("0", 0) == None
    ensures ParseDecimal("0", 4) == Some(Zeros(4))
    ensures ParseDecimal("0", 6) == Some(Zeros(16))
  {
    assert "0"[..0] == [];
    assert BigInt.SetString("0") == Some(0);
    assert BigInt.Bytes(0) == [];
    assert Copy(Zeros(4), []) == Zeros(4);
    assert Copy(Zeros(16), []) == Zeros(16);
  }

  /** "1" as an IPv4 address is 1.0.0.0, whose value is 2^24, not 1. */
  lemma ParseDecimalMisaligned()
    ensures ParseDecimal("1", 4) == Some([1, 0, 0, 0])
    ensures BeValue([1, 0, 0, 0]) == 0x100_0000
  {
    ParseOne();
    assert Copy(Zeros(4), [1]) == [1, 0, 0, 0];
    OneThenZeros();
  }

  lemma ParseOne()
    ensures BigInt.SetString("1") == Some(1)
    ensures BigInt.Bytes(1) == [1]
  {
    assert "1"[..0] == [];
    assert BigInt.Bytes(0) == [];
  }

  lemma OneThenZeros()
    ensures BeValue([1, 0, 0, 0]) == 0x100_0000
  {
    assert [1] + Zeros(3) == [1, 0, 0, 0];
    BeValueZeroTail([1], 3);
    assert BeValue([1]) == 1 by {
      assert [1][..0] == [];
    }
    Exp2Of24();
  }

  /** ParseDecimal with the number's bytes right-aligned, so that the buffer
      denotes the number; a number too large for the family is invalid. */
  function ParseDecimalRightAligned(s: string, af: nat): (r: Option<seq<byte>>)
    ensures ByteLen(af).None? || !IsDecimal(s) ==> r == None
    ensures ByteLen(af).Some? && IsDecimal(s) ==>
      (r.Some? <==> DigitsValue(s) < Exp2(8 * ByteLen(af).value))
    ensures r.Some? ==> |r.value| == ByteLen(af).value && BeValue(r.value) == DigitsValue(s)
  {
    match ByteLen(af)
    case None => None
    case Some(byteLen) =>
      match BigInt.SetString(s)
      case None => None
      case Some(i) =>
        var b := BigInt.Bytes(i);
        BigInt.BytesFit(i, byteLen);
        if |b| > byteLen then None
        else
          BeValueZeroPad(byteLen - |b|, b);
          Some(Zeros(byteLen - |b|) + b)
  }

  /** Every 4- and 16-byte address comes back from its decimal form. */
  lemma ParseDecimalRightAlignedRoundTrip(ip: seq<byte>)
    requires |ip| == IPv4Len || |ip| == IPv6Len
    ensures ParseDecimalRightAligned(DecimalString(ip), AddressFamily(ip)) == Some(ip)
  {
    var r := ParseDecimalRightAligned(DecimalString(ip), AddressFamily(ip));
    BeValueInjective(r.value, ip);
  }
}
