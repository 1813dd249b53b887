/** The integer conversions of the `IPv6` type of package `iputil`
    (ipv6.go): a `[16]byte` address to and from a `math/big` integer. */
module Ipv6 {
  import opened Bits
  import opened GoInts
  import opened BigEndian
  import Big = BigInt
  import Ip

  /** `IPv6`: 16 bytes. */
  type IPv6 = b: seq<byte> | |b| == 16 witness Zeros(16)

  /** `ParseBigInt` as written: a fresh zero address with the minimal
      big-endian bytes of i copied to its front, cut to 16 bytes. */
  function ParseBigInt(i: nat): (r: IPv6)
    ensures |Big.Bytes(i)| <= 16 ==> r[..|Big.Bytes(i)|] == Big.Bytes(i)
    ensures forall j :: |Big.Bytes(i)| <= j < 16 ==> r[j] == 0
    ensures |Big.Bytes(i)| > 16 ==> r == Big.Bytes(i)[..16]
  {
    var r := Ip.Copy(Zeros(16), Big.Bytes(i));
    assert |Big.Bytes(i)| <= 16 ==> r == Ip.LeftAligned(i, 16);
    r
  }

  /** `BigInt`: the address read as a big-endian unsigned integer. */
  function BigInt(ip: IPv6): (r: nat)
    ensures r < Exp2(128)
  {
    BeValue(ip)
  }

  /** The round trip through ParseBigInt keeps i exactly when i is 0 or
      has exactly 16 significant bytes, 2^120 <= i < 2^128. */
  lemma BigIntOfParseBigInt(i: nat)
    ensures BigInt(ParseBigInt(i)) == i <==> i == 0 || Exp2(120) <= i < Exp2(128)
  {
    assert ParseBigInt(i) == Ip.LeftAligned(i, 16);
    Ip.LeftAlignedValue(i, 16);
  }

  /** ParseBigInt(0) is the all-zeros address "::". */
  lemma ParseBigIntZero()
    ensures ParseBigInt(0) == Zeros(16)
  {
    assert Big.Bytes(0) == [];
  }

  /** An address comes back from its integer exactly when its first byte is
      non-zero or it is "::". */
  lemma ParseBigIntOfBigInt(ip: IPv6)
    ensures ParseBigInt(BigInt(ip)) == ip <==> ip[0] != 0 || ip == Zeros(16)
  {
    var n := BeValue(ip);
    BigIntOfParseBigInt(n);
    LeadingByte(ip);
    BeValueZeros(16);
    if BeValue(ParseBigInt(n)) == n {
      BeValueInjective(ParseBigInt(n), ip);
    }
    if n == 0 {
      BeValueInjective(ip, Zeros(16));
    }
  }

  /** ParseBigInt with the bytes right-aligned: the address denotes i modulo
      2^128. */
  function ParseBigIntRightAligned(i: nat): (r: IPv6)
    ensures BeValue(r) == i % Exp2(128)
  {
    BeBytes(i, 16)
  }

  /** With the bytes right-aligned both round trips hold for every address. */
  lemma RightAlignedRoundTrips(i: nat, ip: IPv6)
    ensures i < Exp2(128) ==> BigInt(ParseBigIntRightAligned(i)) == i
    ensures ParseBigIntRightAligned(BigInt(ip)) == ip
  {
    if i < Exp2(128) {
      ModSmall(i, Exp2(128));
    }
    ModSmall(BeValue(ip), Exp2(128));
    BeValueInjective(ParseBigIntRightAligned(BigInt(ip)), ip);
  }
}
