/** The subnet helpers of package `iputil` (subnet.go): the network and
    broadcast addresses of a `net.IPNet`, whose IP and Mask are byte
    buffers. */
module Subnet {
  import opened Bits
  import opened GoInts
  import opened BigEndian

  /** `net.IPNet`: an address and a mask. */
  datatype IPNet = IPNet(IP: seq<byte>, Mask: seq<byte>)

  /** `NetworkAddr`: the subnet's own address, unchanged. */
  function NetworkAddr(subnet: IPNet): (r: seq<byte>)
    ensures |r| == |subnet.IP| && BeValue(r) == BeValue(subnet.IP)
  {
    subnet.IP
  }

  /** Byte i of the broadcast address: ip | ^mask. */
  function BroadcastByte(ip: byte, mask: byte): (r: byte)
    ensures forall b :: 0 <= b < 8 ==> Bit(r, b) == (!Bit(mask, b) || Bit(ip, b))
  {
    forall b | 0 <= b < 8
      ensures Bit(Or8(ip, Not8(mask)), b) == (!Bit(mask, b) || Bit(ip, b))
    {
      Exp2Constants();
      BitwiseBit(OrOp, ip, Not8(mask), 8, b);
      Not8Bit(mask, b);
    }
    Or8(ip, Not8(mask))
  }

  /** The broadcast address of an IP and a mask of the same length. */
  function Broadcast(ip: seq<byte>, mask: seq<byte>): (r: seq<byte>)
    requires |ip| == |mask|
    ensures |r| == |ip|
    ensures forall i :: 0 <= i < |r| ==> r[i] == BroadcastByte(ip[i], mask[i])
  {
    seq(|ip|, i requires 0 <= i < |ip| => BroadcastByte(ip[i], mask[i]))
  }

  /** `BroadcastAddr`: nil when the IP and the mask differ in length;
      otherwise a fresh buffer whose byte i is IP[i] | ^Mask[i]. The inputs
      are not modified. */
  method BroadcastAddr(ip: array<byte>, mask: array<byte>) returns (addr: array?<byte>)
    ensures ip.Length != mask.Length ==> addr == null
    ensures ip.Length == mask.Length ==>
      addr != null && fresh(addr) && addr[..] == Broadcast(ip[..], mask[..])
  {
    var n := ip.Length;
    if n != mask.Length {
      return null;
    }
    addr := new byte[n];
    var i := 0;
    while i < n
      invariant 0 <= i <= n
      invariant forall j :: 0 <= j < i ==> addr[j] == Or8(ip[j], Not8(mask[j]))
    {
      addr[i] := Or8(ip[i], Not8(mask[i]));
      i := i + 1;
    }
  }

  /** The broadcast address keeps the bits of the IP under the mask's 1
      bits and has every other bit set. */
  lemma BroadcastBit(ip: seq<byte>, mask: seq<byte>, i: nat, b: nat)
    requires |ip| == |mask| && i < |ip| && b < 8
    ensures Bit(Broadcast(ip, mask)[i], b) == if Bit(mask[i], b) then Bit(ip[i], b) else true
  {
  }

  /** Of all addresses that agree with the IP under the mask, the broadcast
      address is the greatest; the network address is one of them. */
  lemma BroadcastIsLast(ip: seq<byte>, mask: seq<byte>, a: seq<byte>)
    requires |ip| == |mask| == |a|
    requires forall i, b :: 0 <= i < |a| && 0 <= b < 8 && Bit(mask[i], b) ==> Bit(a[i], b) == Bit(ip[i], b)
    ensures BeValue(a) <= BeValue(Broadcast(ip, mask))
  {
    var r := Broadcast(ip, mask);
    forall i | 0 <= i < |a|
      ensures a[i] <= r[i]
    {
      BroadcastByteIsLast(ip[i], mask[i], a[i]);
    }
    BeValueMonotone(a, r);
  }

  /** The same for one byte. */
  lemma BroadcastByteIsLast(ip: byte, mask: byte, a: byte)
    requires forall b :: 0 <= b < 8 && Bit(mask, b) ==> Bit(a, b) == Bit(ip, b)
    ensures a <= BroadcastByte(ip, mask)
  {
    Exp2Constants();
    BitsSubset(a, BroadcastByte(ip, mask), 8);
  }

  /** The network address is at most the broadcast address. */
  lemma SubnetBounds(subnet: IPNet)
    requires |subnet.IP| == |subnet.Mask|
    ensures BeValue(NetworkAddr(subnet)) <= BeValue(Broadcast(subnet.IP, subnet.Mask))
  {
    BroadcastIsLast(subnet.IP, subnet.Mask, subnet.IP);
  }

  /** Byte-wise order of buffers of equal length implies numeric order. */
  lemma {:induction false} BeValueMonotone(a: seq<byte>, b: seq<byte>)
    requires |a| == |b|
    requires forall i :: 0 <= i < |a| ==> a[i] <= b[i]
    ensures BeValue(a) <= BeValue(b)
  {
    if |a| > 0 {
      var a', b' := a[..|a| - 1], b[..|b| - 1];
      BeValueMonotone(a', b');
      BeValueSnoc(a', a[|a| - 1]);
      BeValueSnoc(b', b[|b| - 1]);
      assert a == a' + [a[|a| - 1]] && b == b' + [b[|b| - 1]];
    }
  }
}
