/** Big-endian byte buffers read as natural numbers, and fixed-width
    big-endian encodings (the role of Go's `encoding/binary.BigEndian`). */
module BigEndian {
  import opened Bits
  import opened GoInts

  /** The natural number whose big-endian bytes are s (0 for the empty buffer). */
  function BeValue(s: seq<byte>): (r: nat)
    ensures r < Exp2(8 * |s|)
  {
    if |s| == 0 then 0
    else
      var p := BeValue(s[..|s| - 1]);
      assert p * 256 + s[|s| - 1] < Exp2(8 * |s|) by {
        Exp2Constants();
        Exp2Add(8 * (|s| - 1), 8);
        MulLe(p, Exp2(8 * (|s| - 1)) - 1, 256);
      }
      p * 256 + s[|s| - 1]
  }

  /** The w-byte big-endian encoding of n modulo 2^(8w). */
  function BeBytes(n: nat, w: nat): (r: seq<byte>)
    ensures |r| == w
    ensures BeValue(r) == n % Exp2(8 * w)
  {
    if w == 0 then []
    else
      var p := BeBytes(n / 256, w - 1);
      BeValueSnoc(p, n % 256);
      BeBytesStep(n, w);
      p + [n % 256]
  }

  lemma BeBytesStep(n: nat, w: nat)
    requires w > 0
    ensures (n / 256) % Exp2(8 * (w - 1)) * 256 + n % 256 == n % Exp2(8 * w)
  {
    var e := Exp2(8 * (w - 1));
    Exp2Add(8, 8 * (w - 1));
    assert 8 + 8 * (w - 1) == 8 * w;
    Exp2Constants();
    assert Exp2(8 * w) == 256 * e;
    ModSplit(n, 256, e);
  }

  /** k zero bytes. */
  function Zeros(k: nat): (r: seq<byte>)
    ensures |r| == k
    ensures forall i :: 0 <= i < k ==> r[i] == 0
  {
    seq(k, _ => 0)
  }

  lemma ModSplit(n: nat, b: nat, c: nat)
    requires b > 0 && c > 0
    ensures ((n / b) % c) * b + n % b == n % (b * c)
  {
    var q, r := n / b, n % b;
    var q1, r1 := q / c, q % c;
    DivMod(n, b);
    DivMod(q, c);
    assert n == q1 * (b * c) + (r1 * b + r);
    MulLe(r1, c - 1, b);
    DivModUnique(n, b * c, q1, r1 * b + r);
  }

  /** Appending one byte multiplies the value by 256 and adds the byte. */
  lemma BeValueSnoc(p: seq<byte>, x: byte)
    ensures BeValue(p + [x]) == BeValue(p) * 256 + x
  {
    assert (p + [x])[..|p|] == p;
  }

  lemma Distrib(va: nat, e: nat, vb: nat, x: nat)
    ensures (va * e + vb) * 256 + x == va * (e * 256) + (vb * 256 + x)
  {
  }

  /** Appending bytes shifts the value of the prefix left by 8 bits per byte. */
  lemma {:induction false} BeValueAppend(a: seq<byte>, b: seq<byte>)
    ensures BeValue(a + b) == BeValue(a) * Exp2(8 * |b|) + BeValue(b)
    decreases |b|
  {
    if |b| == 0 {
      assert a + b == a;
    } else {
      var b' := b[..|b| - 1];
      var last := b[|b| - 1];
      assert a + b == (a + b') + [last];
      assert b == b' + [last];
      BeValueSnoc(a + b', last);
      BeValueSnoc(b', last);
      BeValueAppend(a, b');
      var e := Exp2(8 * |b'|);
      Exp2Add(8 * |b'|, 8);
      assert 8 * |b'| + 8 == 8 * |b|;
      Exp2Constants();
      assert Exp2(8 * |b|) == e * 256;
      Distrib(BeValue(a), e, BeValue(b'), last);
    }
  }

  lemma {:induction false} BeValueZeros(k: nat)
    ensures BeValue(Zeros(k)) == 0
  {
    if k > 0 {
      assert Zeros(k)[..k - 1] == Zeros(k - 1);
      BeValueZeros(k - 1);
    }
  }

  /** Leading zero bytes do not change the value. */
  lemma BeValueZeroPad(k: nat, s: seq<byte>)
    ensures BeValue(Zeros(k) + s) == BeValue(s)
  {
    BeValueAppend(Zeros(k), s);
    BeValueZeros(k);
  }

  /** The fixed-width encoding of a buffer's own value gives the buffer back. */
  lemma {:induction false} BeBytesOfValue(s: seq<byte>)
    ensures BeBytes(BeValue(s), |s|) == s
  {
    if |s| > 0 {
      var p := s[..|s| - 1];
      BeBytesOfValue(p);
      var v := BeValue(s);
      assert v / 256 == BeValue(p) && v % 256 == s[|s| - 1];
      assert s == p + [s[|s| - 1]];
    }
  }

  /** Buffers of equal length are equal when their values are. */
  lemma BeValueInjective(a: seq<byte>, b: seq<byte>)
    requires |a| == |b| && BeValue(a) == BeValue(b)
    ensures a == b
  {
    BeBytesOfValue(a);
    BeBytesOfValue(b);
  }

  /** The encoding of a value that fits gives the value back. */
  lemma BeValueOfBytes(n: nat, w: nat)
    requires n < Exp2(8 * w)
    ensures BeValue(BeBytes(n, w)) == n
  {
    DivModUnique(n, Exp2(8 * w), 0, n);
  }

  /** A buffer's value is at least its first byte times the weight of that byte. */
  lemma BeValueFirst(s: seq<byte>)
    requires |s| > 0
    ensures BeValue(s) >= s[0] * Exp2(8 * (|s| - 1))
  {
    assert s == [s[0]] + s[1..];
    BeValueAppend([s[0]], s[1..]);
    assert BeValue([s[0]]) == s[0] by {
      assert [s[0]][..0] == [];
    }
  }

  /** The first byte is non-zero exactly when the value reaches the weight
      of that byte. */
  lemma LeadingByte(s: seq<byte>)
    requires |s| > 0
    ensures s[0] != 0 <==> Exp2(8 * (|s| - 1)) <= BeValue(s)
  {
    if s[0] == 0 {
      LeadingZero(s);
    } else {
      LeadingNonZero(s);
    }
  }

  lemma LeadingZero(s: seq<byte>)
    requires |s| > 0 && s[0] == 0
    ensures BeValue(s) < Exp2(8 * (|s| - 1))
  {
    var t := s[1..];
    assert s == Zeros(1) + t;
    BeValueZeroPad(1, t);
  }

  lemma LeadingNonZero(s: seq<byte>)
    requires |s| > 0 && s[0] != 0
    ensures BeValue(s) >= Exp2(8 * (|s| - 1))
  {
    BeValueFirst(s);
    var h: int, e: int := s[0], Exp2(8 * (|s| - 1));
    MulLe(1, h, e);
  }

  /** Trailing zero bytes shift the value left by 8 bits each. */
  lemma BeValueZeroTail(s: seq<byte>, k: nat)
    ensures BeValue(s + Zeros(k)) == BeValue(s) * Exp2(8 * k)
  {
    BeValueAppend(s, Zeros(k));
    BeValueZeros(k);
  }

  /** The value of the first w bytes of s is the value of s without its
      last |s| - w bytes. */
  lemma BeValuePrefix(s: seq<byte>, w: nat)
    requires w <= |s|
    ensures BeValue(s[..w]) == Shr(BeValue(s), 8 * (|s| - w))
  {
    assert s == s[..w] + s[w..];
    BeValueAppend(s[..w], s[w..]);
    var n := 8 * (|s| - w);
    ShrLow(BeValue(s), n);
    DivModUnique(BeValue(s), Exp2(n), BeValue(s[..w]), BeValue(s[w..]));
    DivModUnique(BeValue(s), Exp2(n), Shr(BeValue(s), n), Low(BeValue(s), n));
  }

  /** The value of the last w bytes of s is the value of s modulo 2^(8w). */
  lemma BeValueSuffix(s: seq<byte>, w: nat)
    requires w <= |s|
    ensures BeValue(s[|s| - w..]) == BeValue(s) % Exp2(8 * w)
  {
    var k := |s| - w;
    var a, b := s[..k], s[k..];
    assert s == a + b;
    BeValueAppend(a, b);
    var q: int, r: int, d: int := BeValue(a), BeValue(b), Exp2(8 * |b|);
    assert BeValue(s) == q * d + r && r < d;
    DivModUnique(BeValue(s), d, q, r);
  }

  /** Bit b of byte j of s is bit 8 * (|s| - 1 - j) + b of the buffer's value:
      bytes are most significant first, bits within a byte least significant first. */
  lemma BeValueBit(s: seq<byte>, j: nat, b: nat)
    requires j < |s| && b < 8
    ensures Bit(BeValue(s), 8 * (|s| - 1 - j) + b) == Bit(s[j], b)
  {
    var head, tail := s[..j + 1], s[j + 1..];
    assert s == head + tail;
    BeValueAppend(head, tail);
    assert head == s[..j] + [s[j]];
    BeByteBit(s[..j], s[j], b);
    BitOfSum(BeValue(s), BeValue(head), BeValue(tail), 8 * |tail|, 8 * |tail| + b);
  }


  /** Bit b of the last byte is bit b of the buffer's value. */
  lemma BeByteBit(p: seq<byte>, x: byte, b: nat)
    requires b < 8
    ensures Bit(BeValue(p + [x]), b) == Bit(x, b)
  {
    BeValueSnoc(p, x);
    Exp2Constants();
    BitSplit(BeValue(p), x, 8, b);
  }

  /** `binary.BigEndian.Uint64`: the value of 8 big-endian bytes. */
  function Uint64(s: seq<byte>): (r: uint64)
    requires |s| == 8
    ensures r == BeValue(s)
  {
    Exp2Constants();
    BeValue(s)
  }

  /** `binary.BigEndian.PutUint64`: the 8 big-endian bytes of v. */
  function PutUint64(v: uint64): (r: seq<byte>)
    ensures |r| == 8 && BeValue(r) == v
  {
    Exp2Constants();
    BeValueOfBytes(v, 8);
    BeBytes(v, 8)
  }
}
