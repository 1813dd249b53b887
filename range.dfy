/** The address range of package `iputil` (range.go): an address family and
    two 128-bit ends, built once by NewRange and only read afterwards. */
module IpRange {
  import opened Bits
  import opened GoInts
  import opened Wrappers
  import opened BigEndian
  import opened UInt128
  import Ip

  datatype Range = Range(af: nat, first: Int, last: Int)

  /** The number NewFromBytes gives a buffer when its error is ignored:
      the big-endian value for 1 to 16 bytes, Zero otherwise. */
  function Num(ip: seq<byte>): (r: nat)
    ensures r == Value(NewFromBytes(ip).0)
  {
    if 0 < |ip| <= 16 then BeValue(ip) else 0
  }

  /** `NewRange`: the two ends must have the same address family and the
      first must be strictly below the last; decode errors are ignored. */
  function NewRange(first: seq<byte>, last: seq<byte>): (r: Option<Range>)
    ensures r.Some? <==> Ip.AddressFamily(first) == Ip.AddressFamily(last) && Num(first) < Num(last)
    ensures r.Some? ==> r.value.af == Ip.AddressFamily(first)
    ensures r.Some? ==> Value(r.value.first) == Num(first) && Value(r.value.last) == Num(last)
  {
    if Ip.AddressFamily(first) != Ip.AddressFamily(last) then None
    else
      var f := NewFromBytes(first).0;
      var l := NewFromBytes(last).0;
      if !IsLessThan(f, l) then None
      else Some(Range(Ip.AddressFamily(first), f, l))
  }

  /** The width First and Last give: 16 bytes for family 6, 4 otherwise. */
  function ByteLen(af: nat): (r: nat)
    ensures r == 4 || r == 16
  {
    if af == 6 then Ip.IPv6Len else Ip.IPv4Len
  }

  /** The last byteLen bytes of the 16-byte encoding of x. */
  function Tail(x: Int, byteLen: nat): (r: seq<byte>)
    requires byteLen <= 16
    ensures |r| == byteLen
    ensures BeValue(r) == Value(x) % Exp2(8 * byteLen)
  {
    BeValueSuffix(Bytes(x), byteLen);
    Bytes(x)[16 - byteLen..]
  }

  /** `First`: the first address, re-encoded at the family's width. */
  function First(r: Range): (ip: seq<byte>)
    ensures |ip| == ByteLen(r.af)
    ensures BeValue(ip) == Value(r.first) % Exp2(8 * ByteLen(r.af))
  {
    Tail(r.first, ByteLen(r.af))
  }

  /** `Last`: the last address, re-encoded at the family's width. */
  function Last(r: Range): (ip: seq<byte>)
    ensures |ip| == ByteLen(r.af)
    ensures BeValue(ip) == Value(r.last) % Exp2(8 * ByteLen(r.af))
  {
    Tail(r.last, ByteLen(r.af))
  }

  /** `Contains`: inclusive at both ends; ip is decoded like the ends, with
      no family check. */
  function Contains(r: Range, ip: seq<byte>): (b: bool)
    ensures b <==> Value(r.first) <= Num(ip) <= Value(r.last)
  {
    var x := NewFromBytes(ip).0;
    !(IsLessThan(x, r.first) || IsGreaterThan(x, r.last))
  }

  /** For 4- and 16-byte ends, First and Last give the ends back, and the
      range contains both. */
  lemma EndsOfNewRange(first: seq<byte>, last: seq<byte>)
    requires |first| == Ip.IPv4Len || |first| == Ip.IPv6Len
    requires NewRange(first, last).Some?
    ensures var r := NewRange(first, last).value;
      First(r) == first && Last(r) == last && Contains(r, first) && Contains(r, last)
  {
    var r := NewRange(first, last).value;
    var w := |first|;
    assert ByteLen(r.af) == w;
    ModSmall(BeValue(first), Exp2(8 * w));
    ModSmall(BeValue(last), Exp2(8 * w));
    BeValueInjective(First(r), first);
    BeValueInjective(Last(r), last);
  }

  /** A single address is not a range; two empty buffers both decode to
      Zero and are refused; two 3-byte buffers (family 0) in order are
      accepted. */
  lemma NewRangeCases(a: seq<byte>)
    ensures NewRange(a, a) == None
    ensures NewRange([], []) == None
    ensures NewRange([0, 0, 1], [0, 0, 2]).Some?
  {
    assert Num([0, 0, 1]) < Num([0, 0, 2]) by {
      BeValueSnoc([0, 0], 1);
      BeValueSnoc([0, 0], 2);
      assert [0, 0] + [1] == [0, 0, 1] && [0, 0] + [2] == [0, 0, 2];
    }
  }

  /** The value of a 4-byte address a.b.c.d. */
  lemma Dotted(a: byte, b: byte, c: byte, d: byte)
    ensures BeValue([a, b, c, d]) == ((a * 256 + b) * 256 + c) * 256 + d
  {
    BeValueSnoc([], a);
    BeValueSnoc([a], b);
    BeValueSnoc([a, b], c);
    BeValueSnoc([a, b, c], d);
    assert [] + [a] == [a] && [a] + [b] == [a, b];
    assert [a, b] + [c] == [a, b, c] && [a, b, c] + [d] == [a, b, c, d];
  }

  /** The IPv4 cases of the package's range test: 192.168.0.100 to
      192.168.0.199 contains its ends and 192.168.0.123, but not
      192.168.0.99 or 192.168.0.200. */
  lemma ContainsCases()
    ensures var r := NewRange([192, 168, 0, 100], [192, 168, 0, 199]);
      r.Some? &&
      !Contains(r.value, [192, 168, 0, 99]) &&
      Contains(r.value, [192, 168, 0, 100]) &&
      Contains(r.value, [192, 168, 0, 123]) &&
      Contains(r.value, [192, 168, 0, 199]) &&
      !Contains(r.value, [192, 168, 0, 200])
  {
    Dotted(192, 168, 0, 99);
    Dotted(192, 168, 0, 100);
    Dotted(192, 168, 0, 123);
    Dotted(192, 168, 0, 199);
    Dotted(192, 168, 0, 200);
  }
}
