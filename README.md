# iputil in Dafny

A model of the arithmetic core of the Go package `github.com/ericyan/iputil`.
It covers six parts.

- **`internal/uint128`**: the 128-bit unsigned `Int{Hi, Lo}`, modelled in
  `uint128.dfy`, and its `Itoa`/`Atoi` twins, in `strconv.dfy`. Every
  operation is proved against the natural number `Value(x) = Hi * 2^64 + Lo`:
  - `Add` and `Sub` work modulo 2^128;
  - the bitwise operations are proved bit by bit;
  - `Lsh` and `Rsh` multiply or divide by 2^n, with their 64- and 128-bit
    special cases;
  - the bit counts, the comparisons and parity are covered;
  - the byte codec and the decimal codec are covered.
- **The root package's `uint128` (`[2]uint64`)**, in `ipuint128.dfy`: the
  16-byte codec and the decimal codec, which leaves the receiver unchanged on
  failure.
- **Address helpers**:
  - in `ip.dfy`: the address family of a buffer, the IPv4 and IPv6 tests
    (with `net.IP.To4` written out), and the conversion between an address
    and its base-10 integer;
  - in `ipv6.dfy`: the `IPv6` integer conversions;
  - in `subnet.dfy`: the network and broadcast addresses of a subnet.
    `BroadcastAddr` fills a fresh array in a loop.
- **Address range**, in `range.dfy`: `NewRange`, `First`, `Last` and
  `Contains`.
- **Radix bit set**, in `bitset.dfy`: MSB-first bits over a byte array.
  `SetTo` updates one byte in place.
- **Radix tree**, in `tree.dfy`: a byte-keyed trie of heap nodes whose edge
  lists are appended in place. A ghost index maps every path to its node,
  edges and value. `Tree.Valid()` ties that index to the heap, and
  `Tree.Contents()` (the keys whose nodes hold a value) is what `Get` and
  `Set` are specified against.

Go's library calls are modelled in these modules:

- `goints.dfy`: Go's fixed-width integer operators. A shift by 64 or more
  gives 0.
- `bits.dfy`: bits of naturals, `math/bits`.
- `bigendian.dfy`: `encoding/binary.BigEndian`.
- `decimal.dfy` and `bigint.dfy`: base-10 strings and the minimal big-endian
  bytes of `math/big`.

Go panics become preconditions. A nil result becomes `None`, or `null` for an
array. A nil slice is the empty sequence.

## Model

| member | source | states |
|---|---|---|
| UInt128.ValueInjective | internal/uint128/uint128.go:20-22 | two Ints are equal exactly when the numbers they denote are equal |
| UInt128.NewFromBytes | internal/uint128/uint128.go:25-41 | an empty buffer gives (Zero, ErrEmptySlice); more than 16 bytes give (Zero, ErrOverflow); otherwise no error, and the value is the buffer read big-endian (left zero padding) |
| UInt128.NewFromString | internal/uint128/uint128.go:44-56 | a non-decimal string gives (Zero, ErrInvalidString); a number of 2^128 or more gives (Zero, ErrOverflow); otherwise no error, and the value is the number |
| UInt128.Pow2 | internal/uint128/uint128.go:59-65 | n >= 128 gives (Zero, ErrOverflow); otherwise no error and the value 2^n |
| UInt128.Add | internal/uint128/uint128.go:68-76 | the value of the result is (x + y) mod 2^128: the carry from the low half is right |
| UInt128.Sub | internal/uint128/uint128.go:79-87 | the value of the result is (x - y) mod 2^128: the borrow from the low half is right |
| UInt128.AddSub | internal/uint128/uint128.go:68-87 | subtracting y after adding y gives x back, for all x and y |
| UInt128.SubAdd | internal/uint128/uint128.go:68-87 | adding y after subtracting y gives x back, for all x and y |
| UInt128.MaxPlusOne | internal/uint128/uint128_test.go:56-57 | the maximum value plus one wraps to Zero |
| UInt128.BitwiseHalves | internal/uint128/uint128.go:90-102 | a 128-bit bitwise operation is the same operation on the high halves and on the low halves |
| UInt128.And | internal/uint128/uint128.go:90-92 | the result is the bitwise AND of the two 128-bit values |
| UInt128.Or | internal/uint128/uint128.go:95-97 | the result is the bitwise OR of the two 128-bit values |
| UInt128.Xor | internal/uint128/uint128.go:100-102 | the result is the bitwise XOR of the two 128-bit values |
| UInt128.Not | internal/uint128/uint128.go:105-107 | the value of the result is 2^128 - 1 - x |
| UInt128.NotNot | internal/uint128/uint128_test.go:194-197 | Not is its own inverse, and Not(Zero) is the all-ones value |
| UInt128.LshBit | internal/uint128/uint128.go:110-120 | bit i of x << n is bit i - n of x when n <= i and 0 below, in all three branches |
| UInt128.LshBitWide | internal/uint128/uint128.go:115-116 | the same for 64 <= n < 128, where only the low half moves up |
| UInt128.LshBitNarrow | internal/uint128/uint128.go:119 | the same for n < 64, where the bits leaving Lo enter Hi; n = 0 relies on Go's shift by 64 giving 0 |
| UInt128.Lsh | internal/uint128/uint128.go:110-120 | the value of x << n is (x * 2^n) mod 2^128 in all three branches, so a shift by 128 or more gives 0 |
| UInt128.RshBit | internal/uint128/uint128.go:123-133 | bit i of x >> n is bit i + n of x, in all three branches |
| UInt128.RshBitWide | internal/uint128/uint128.go:128-129 | the same for 64 <= n < 128 |
| UInt128.RshBitNarrow | internal/uint128/uint128.go:132 | the same for n < 64, where the bits leaving Hi enter Lo |
| UInt128.Rsh | internal/uint128/uint128.go:123-133 | the value of x >> n is x div 2^n in all three branches, so a shift by 128 or more gives 0 |
| UInt128.ShiftByZero | internal/uint128/uint128_test.go:219-221 | shifting by 0 either way gives x back |
| UInt128.BitLen | internal/uint128/uint128.go:136-142 | the result is the bit length of the value (0 for Zero), at most 128 |
| UInt128.BitLenLo | internal/uint128/uint128.go:137-138 | with Hi = 0, Len64(Lo) is the bit length of the value |
| UInt128.BitLenHi | internal/uint128/uint128.go:141 | with Hi != 0, 64 + Len64(Hi) is the bit length of the value |
| UInt128.LeadingZeros | internal/uint128/uint128.go:145-147 | r leading zeros mean value < 2^(128-r) and, when r < 128, value >= 2^(127-r) |
| UInt128.TrailingZeros | internal/uint128/uint128.go:150-156 | 128 exactly for Zero; otherwise r < 128, bit r is set and 2^r divides the value |
| UInt128.LowestBitHi | internal/uint128/uint128.go:151-152 | when Lo is 0, 64 + TrailingZeros64(Hi) is the lowest set bit of the value |
| UInt128.LowestBitLo | internal/uint128/uint128.go:155 | the lowest set bit of Lo is the lowest set bit of the value |
| UInt128.HiDominates | internal/uint128/uint128.go:161-166 | a smaller high half means a smaller value, whatever the low halves |
| UInt128.Cmp | internal/uint128/uint128.go:160-177 | the result is -1, 0 or 1, exactly when x < y, x = y and x > y respectively |
| UInt128.IsGreaterThan | internal/uint128/uint128.go:180-182 | true exactly when x > y |
| UInt128.IsLessThan | internal/uint128/uint128.go:185-187 | true exactly when x < y |
| UInt128.IsEqualTo | internal/uint128/uint128.go:190-196 | true exactly when the values are equal, and exactly when Cmp is 0 |
| UInt128.Trichotomy | internal/uint128/uint128_test.go:28-41 | exactly one of IsLessThan, IsEqualTo and IsGreaterThan holds |
| UInt128.AndOne | internal/uint128/uint128.go:199-206 | x AND One is x mod 2, which is the parity of Lo |
| UInt128.IsEven | internal/uint128/uint128.go:199-201 | true exactly when the value is even, which is decided by bit 0 of Lo |
| UInt128.IsOdd | internal/uint128/uint128.go:204-206 | true exactly when the value is odd, the complement of IsEven |
| UInt128.Bytes | internal/uint128/uint128.go:209-214 | 16 bytes whose big-endian value is x: the first 8 encode Hi and the last 8 encode Lo |
| UInt128.BytesRoundTrip | internal/uint128/uint128.go:209-214 | NewFromBytes(Bytes(x)) is (x, no error), and Bytes gives back every 16-byte buffer NewFromBytes decodes |
| UInt128.String | internal/uint128/uint128.go:217-219 | the canonical base-10 form (no leading zero, "0" for Zero) of the value |
| UInt128.StringRoundTrip | internal/uint128/uint128.go:217-219 | NewFromString(String(x)) is (x, no error) for every x |
| Strconv.Itoa | internal/uint128/strconv.go:6-8 | the canonical base-10 form of the value |
| Strconv.Atoi | internal/uint128/strconv.go:11-23 | the three outcomes of NewFromString: invalid string, overflow at 2^128, or the number |
| Strconv.AtoiItoa | internal/uint128/strconv.go:6-23 | Atoi(Itoa(x)) is (x, no error) for every x |
| Strconv.ItoaAtoi | internal/uint128/strconv.go:6-23 | a canonical decimal below 2^128 parses without error and prints back as itself |
| Strconv.AtoiLeadingZero | internal/uint128/strconv.go:12-20 | a leading "0" changes nothing: "0123456" parses as "123456" |
| Strconv.StrconvCases | internal/uint128/strconv_test.go:11-16 | "" is invalid; "0" is Zero and prints "0"; 2^128 - 1 parses to the maximum; 2^128 gives (Zero, ErrOverflow) |
| IpUint128.ValueInjective | uint128.go:9 | two [2]uint64 values are equal exactly when the numbers they denote are |
| IpUint128.SetBytes | uint128.go:13-17 | x[0] is the first 8 bytes and x[1] the last 8 read big-endian, whatever the receiver held |
| IpUint128.ToBytes | uint128.go:20-25 | 16 bytes whose big-endian value is x, x[0] first |
| IpUint128.SetBytesOfBytes | uint128.go:13-25 | setBytes(x.bytes()) is x, on any receiver |
| IpUint128.BytesOfSetBytes | uint128.go:13-25 | bytes(setBytes(b)) is b for every 16-byte array |
| IpUint128.SetDecimalString | uint128.go:29-43 | a non-decimal string or a number of 2^128 or more gives (receiver unchanged, false); otherwise (the number, true) |
| IpUint128.DecimalString | uint128.go:46-49 | the canonical base-10 form of x[0] * 2^64 + x[1] |
| IpUint128.DecimalRoundTrip | uint128.go:29-49 | setDecimalString(x.decimalString()) is (x, true) on any receiver |
| Ip.AddressFamily | ip.go:10-19 | 4 exactly for 4 bytes, 6 exactly for 16 bytes, 0 for every other length |
| Ip.To4 | ip.go:23-25 | net.IP.To4: a 4-byte buffer itself, the last 4 bytes of an IPv4-mapped address, nil otherwise |
| Ip.IsIPv4 | ip.go:21-25 | true exactly for 4-byte buffers and IPv4-mapped 16-byte addresses |
| Ip.IsIPv6 | ip.go:27-30 | true exactly for 16-byte buffers, mapped ones included |
| Ip.AddressFamilyCases | ip_test.go:15-18 | the family, IPv4 and IPv6 answers for nil, a 4-byte, a mapped and a native IPv6 address |
| Ip.Copy | ip.go:51-52 | Go's copy: the buffer keeps its length, its first min(len(dst), len(src)) bytes come from src and the rest are dst's own |
| Ip.LeftAligned | ip.go:51-52 | the buffer ParseDecimal builds: the number's bytes then zeros when they fit (value n * 2^(8k)), else its w most significant bytes |
| Ip.LeftAlignedValue | ip.go:51-52 | the left-aligned buffer denotes n exactly when n is 0 or has exactly w significant bytes |
| Ip.ByteLen | ip.go:36-44 | family 4 means 4 bytes, family 6 means 16 bytes, and no other family is accepted |
| Ip.ParseDecimal | ip.go:35-55 | nil exactly when the family is not 4 or 6 or the string is not base 10; otherwise the left-aligned buffer of the number |
| Ip.DecimalString | ip.go:58-60 | the canonical base-10 form of the buffer read as a big-endian integer |
| Ip.ParseDecimalString | ip.go:35-60 | the decimal form of a 4- or 16-byte address parses, to the left-aligned buffer of its value |
| Ip.LeftAlignedSelf | ip.go:51-52 | left-aligning a buffer's own value gives the buffer back exactly when its first byte is non-zero or it is all zeros |
| Ip.ParseDecimalRoundTrip | ip.go:35-60 | ParseDecimal(DecimalString(ip)) gives ip back exactly when ip's first byte is non-zero or ip is all zeros |
| Ip.ParseDecimalCases | ip_test.go:42-46 | "" gives nil for both families, family 0 gives nil, "0" gives 0.0.0.0 and :: |
| Ip.ParseDecimalMisaligned | ip.go:51-52 | "1" as an IPv4 address is 1.0.0.0, whose value is 2^24 |
| Ip.ParseDecimalRightAligned | ip.go:35-55 | the corrected parse: nil for a bad family or string and for a number too wide for the family; otherwise a buffer of the family's width that denotes the number |
| Ip.ParseDecimalRightAlignedRoundTrip | ip.go:35-60 | the corrected parse gives every 4- and 16-byte address back from its decimal form |
| Ipv6.ParseBigInt | ipv6.go:24-28 | the minimal bytes of i at the front and zeros after, or the 16 most significant bytes of i when it is wider |
| Ipv6.BigInt | ipv6.go:31-34 | the address read big-endian, below 2^128 |
| Ipv6.BigIntOfParseBigInt | ipv6.go:24-34 | BigInt(ParseBigInt(i)) is i exactly when i is 0 or 2^120 <= i < 2^128 |
| Ipv6.ParseBigIntZero | ipv6_test.go:50 | ParseBigInt(0) is ::, all zeros |
| Ipv6.ParseBigIntOfBigInt | ipv6.go:24-34 | ParseBigInt(ip.BigInt()) is ip exactly when ip's first byte is non-zero or ip is :: |
| Ipv6.ParseBigIntRightAligned | ipv6.go:24-28 | the corrected conversion: the address denotes i mod 2^128 |
| Ipv6.RightAlignedRoundTrips | ipv6.go:24-34 | with the corrected conversion both round trips hold: every i below 2^128 and every address come back |
| Subnet.NetworkAddr | subnet.go:7-9 | the subnet's own IP, same length and value |
| Subnet.BroadcastByte | subnet.go:21 | a bit under a 1 mask bit copies the IP bit; a bit under a 0 mask bit is set |
| Subnet.Broadcast | subnet.go:19-22 | byte i is IP[i] OR NOT Mask[i], for every i, at the IP's length |
| Subnet.BroadcastAddr | subnet.go:13-25 | nil when the IP and mask lengths differ; otherwise a fresh array holding the broadcast address, with the inputs unmodified |
| Subnet.BroadcastBit | subnet.go:21 | every bit of the broadcast address keeps the IP under the mask and is set elsewhere |
| Subnet.BroadcastIsLast | subnet.go:13-25 | every address that agrees with the IP under the mask is at most the broadcast address |
| Subnet.SubnetBounds | subnet.go:7-25 | the network address is at most the broadcast address |
| IpRange.Num | range.go:55 | NewFromBytes with its error ignored: the value of a 1- to 16-byte buffer, Zero otherwise |
| IpRange.NewRange | range.go:18-31 | a range exactly when both ends have the same family and the first is strictly below the last; it holds the first end's family and both decoded ends |
| IpRange.ByteLen | range.go:35-38 | First and Last use 4 or 16 bytes |
| IpRange.Tail | range.go:40 | the last k bytes of the 16-byte encoding denote the value mod 2^(8k) |
| IpRange.First | range.go:34-41 | the first end at the family's width: 16 bytes for family 6, 4 otherwise |
| IpRange.Last | range.go:44-51 | the last end at the family's width: 16 bytes for family 6, 4 otherwise |
| IpRange.Contains | range.go:54-62 | true exactly when first <= ip <= last, both ends included; ip is decoded with no family check |
| IpRange.EndsOfNewRange | range.go:18-51 | for 4- and 16-byte ends, First and Last give the ends back and the range contains both |
| IpRange.NewRangeCases | range.go:19-28 | a single-address range and two empty buffers are refused, while two 3-byte buffers are accepted |
| IpRange.ContainsCases | range_test.go:17-21 | the range 192.168.0.100-192.168.0.199 excludes .99 and .200 and includes .100, .123 and .199 |
| Bitset.BitAtValue | internal/radix/bitset.go:7-8 | the byte slice is one big-endian number: index i of the bit array is bit 8 * len(s) - 1 - i of that number |
| Bitset.Div8 | internal/radix/bitset.go:12-14 | n >> 3 and n & 7 are the quotient and remainder of n by 8 |
| Bitset.BitOf | internal/radix/bitset.go:23 | (x >> k) & 1 is 1 exactly when bit k of x is set, and 0 otherwise |
| Bitset.Get | internal/radix/bitset.go:20-24 | 1 exactly when bit 7 - i mod 8 of byte i / 8 is set, else 0; the byte must exist |
| Bitset.Mask | internal/radix/bitset.go:35 | 1 << k has bit k set and no other |
| Bitset.WithBit | internal/radix/bitset.go:33-37 | x &^ m and x OR m set bit k to the requested value and keep the other seven |
| Bitset.SetTo | internal/radix/bitset.go:30-41 | the array afterwards is the old contents with bit i set to the bit; the bit must be 0 or 1 and the byte must exist |
| Bitset.BitLen | internal/radix/bitset.go:44-46 | a multiple of 8 |
| Bitset.BitLenIndices | internal/radix/bitset.go:44-46 | the indices Get and SetTo accept are exactly those below BitLen |
| Bitset.PutBit | internal/radix/bitset.go:33-37 | after setting bit i, bit i reads the new value and every other bit reads as before, neighbours in the byte included |
| Bitset.PutIdempotent | internal/radix/bitset.go:35-37 | setting a bit twice to the same value is setting it once |
| Bitset.OddBits | internal/radix/bitset_test.go:15 | setting bits 1, 3, ..., 15 of two zero bytes sets exactly the odd bits |
| RadixNode.Lookup | internal/radix/tree.go:25-33 | null exactly when no edge has the label; otherwise some edge with that label leads to the result |
| RadixNode.LookupAppend | internal/radix/tree.go:35-39 | appending an edge for an unused label makes that label lead to the new node, changes no other label and keeps labels distinct |
| RadixNode.Node.constructor | internal/radix/tree.go:36 | a new node has no value and no edges |
| RadixNode.Node.FindChild | internal/radix/tree.go:25-33 | the loop returns the node of the first edge with the label, or null |
| RadixNode.Node.IsLeaf | internal/radix/tree.go:41-43 | a node is a leaf exactly when it holds a value (Go's non-nil interface value) |
| RadixNode.Node.NewChild | internal/radix/tree.go:35-39 | a fresh empty node, with an edge to it appended to the node's edges |
| RadixIndex.ExtendParent | internal/radix/tree.go:37 | appending the edge for a new path keeps the parent's edges exactly its one-byte extensions, one edge per label |
| RadixIndex.ExtendShape | internal/radix/tree.go:89-92 | hanging a new node under an unused label keeps the paths closed under prefixes and the edges exact |
| RadixIndex.StoreLeaves | internal/radix/tree.go:97 | storing a value at a path adds or replaces that key; storing nil removes it |
| RadixIndex.GrowInv | internal/radix/tree.go:89-92 | growing the index by a new node at an unused label keeps the trie invariant |
| RadixIndex.GrowLeaves | internal/radix/tree.go:91 | a new node holds no value, so the contents do not change |
| RadixIndex.GrowAgree | internal/radix/tree.go:37 | after newChild the heap nodes agree with the grown index |
| RadixIndex.StoreAgree | internal/radix/tree.go:97 | after the value of one node is replaced the heap nodes agree with the updated index |
| Radix.Tree.constructor | internal/radix/tree.go:51-55 | a valid tree with empty contents |
| Radix.Tree.Get | internal/radix/tree.go:58-78 | ErrInvalidKey for the empty key; the stored value for a stored key; ErrNotFound for every other key, including a missing path and a prefix with no value |
| Radix.Tree.Set | internal/radix/tree.go:82-99 | ErrInvalidKey with the contents unchanged for the empty key; otherwise no error and key now maps to the value, every other key unchanged; nil removes the key |
| Radix.Tree.Walk | internal/radix/tree.go:87-95 | the walk ends at the node of the whole key, creating missing nodes, with the contents unchanged |
| Radix.Tree.Descend | internal/radix/tree.go:89-94 | one step of the walk: the child by the label, found or created, is the node of the extended path |
| Radix.Tree.Hang | internal/radix/tree.go:91 | newChild under an unused label gives the node of the extended path and leaves the contents unchanged |
| Radix.Tree.Store | internal/radix/tree.go:97 | assigning the node's value stores the key (or removes it for nil) and changes no other key |
| Radix.Tree.TestGetMissing | internal/radix/tree_test.go:24-27 | on an empty tree "hello" is not found |
| Radix.Tree.TestInsert | internal/radix/tree_test.go:28-29 | after setting "hello" to "world" it reads "world" |
| Radix.Tree.TestGetPrefix | internal/radix/tree_test.go:30 | the prefix "he" of the stored "hello" is not found |
| Radix.Tree.TestUpdate | internal/radix/tree_test.go:33-34 | setting "hello" again overwrites its value |
| Radix.Tree.TestErrors | internal/radix/tree_test.go:37-38 | Set and Get refuse the empty key, and the tree is unchanged |
| BigEndian.Uint64 | internal/uint128/uint128.go:38-39 | binary.BigEndian.Uint64 is the value of 8 big-endian bytes |
| BigEndian.PutUint64 | internal/uint128/uint128.go:211-212 | binary.BigEndian.PutUint64 gives 8 bytes that denote the value |
| BigEndian.BeValueInjective | internal/uint128/uint128.go:209-214 | buffers of equal length with equal values are equal |
| BigInt.Bytes | ip.go:52 | big.Int.Bytes gives the minimal big-endian bytes: value n, empty exactly for 0, non-zero first byte |
| BigInt.BytesFit | uint128.go:36 | the bytes of n fit in k bytes exactly when n < 2^(8k) |
| BigInt.SetStringOfDecimal | uint128.go:30 | SetString parses the canonical decimal form of every n back to n |
| Decimal.ToDecimal | internal/uint128/uint128.go:218 | big.Int.String gives a canonical base-10 string that denotes n |
| Decimal.CanonicalUnique | internal/uint128/strconv.go:6-8 | a canonical decimal string is the printed form of its own value |
| GoInts.Len64Bounds | internal/uint128/uint128.go:138 | bits.Len64 is the bit length of its argument, at most 64 |
| GoInts.TrailingZeros64Bounds | internal/uint128/uint128.go:152 | bits.TrailingZeros64 is 64 for 0, and otherwise the index of the lowest set bit |

## Left out

- interface.go is not part of this model. It lists the operating system's network interfaces, which is I/O.
- Text parsing and formatting, which wrap `net` and `fmt`, are not part of this model:
  - `ParseIPv4` (ipv4.go:9-18);
  - `ParseIPv6` and `IPv6.String` (ipv6.go:12-21, 37-39);
  - `Range.String` and `Range.Network` (range.go:64-72);
  - `bitset.String` (internal/radix/bitset.go:48-51).

  Their test vectors are written as bytes where they appear: ContainsCases, AddressFamilyCases and OddBits.
- `math/big` is not modelled as an algorithm. `SetString` and `String` become a mapping between ASCII digit strings and naturals, and `Bytes` becomes the minimal big-endian bytes. `SetString` also accepts a leading `+` or `-`, and `Bytes` drops the sign; neither is modelled.
- BigInt.SetString: its contract is only its definition, which accepts exactly non-empty strings of ASCII digits.
- `Mul` is not modelled. The package's tests exercise it (internal/uint128/uint128_test.go:75-97), but internal/uint128/uint128.go does not define it.
- Go panics become preconditions:
  - `bitset.Get` and `SetTo` require byte i / 8 to exist;
  - `SetTo` requires the bit to be 0 or 1.
- Go's `interface{}` tree values are a type parameter V, and nil is `None`. Two non-nil values count as the same when they are equal as Dafny values.
- The source names a type that does not exist, and the model reads it as follows:
  - range.go:13-14 names `uint128.Uint128`; it is read as the package's `Int`;
  - range.go:36 and 46 compare `r.af` with the type `IPv6`; this is read as `af == 6`;
  - range_test.go:9-10 builds a `Range` from values that match none of its fields, so IpRange.ContainsCases builds the IPv4 range with NewRange.
- The IPv6 vectors of range_test.go:22-26 are not stated as a lemma.
- The CIDR vectors of subnet_test.go:14-15 are not stated as a lemma. Subnet.BroadcastBit states the rule they exercise.
- internal/uint128/strconv_test.go:16 expects the maximum value together with ErrOverflow for 2^128. `Atoi` returns Zero there, as the sibling test internal/uint128/uint128_test.go:135 expects for NewFromString. The model follows the code (Strconv.StrconvCases).
- The 39-digit test strings are written as `ToDecimal(2^128 - 1)` and `ToDecimal(2^128)` rather than as literals.
- `net.IP.Equal` treats a 4-byte address as equal to its IPv4-mapped form. ip_test.go:45-46 compare with such addresses. Ip.ParseDecimalCases states the 4-byte and 16-byte buffers ParseDecimal itself builds.
- Radix.Tree.Set: the walk down the key is the recursive Walk and Descend, not Go's `for` loop. The steps are the same, with the same lookups and the same nodes created.
- The radix tree's meaning is its ghost index (paths to nodes, edges and values). It is not the raw object graph, so sharing of nodes between trees is not modelled: each tree owns the nodes it reaches.

## Findings

| source | as written | input that shows it | evidently intended | confidence | as-written member | corrected member |
|---|---|---|---|---|---|---|
| ip.go:51-52 | `copy(ip, i.Bytes())` puts the number's minimal bytes at the front of the address | `ParseDecimal("1", 4)` gives 1.0.0.0, whose value is 16777216, not 1; so `DecimalString` does not invert it | the number right-aligned, so that the address denotes the number and `ParseDecimal(DecimalString(ip))` gives every address back | not executed | Ip.ParseDecimalMisaligned | Ip.ParseDecimalRightAlignedRoundTrip |
| ipv6.go:26 | `copy(ip6[:], i.Bytes())` puts the integer's minimal bytes at the front of the address | `ParseBigInt(1)` gives 100:: (2^120), not ::1; the round trip holds only for 0 and 2^120 <= i < 2^128 | the integer right-aligned, so that `BigInt(ParseBigInt(i)) == i` for every i below 2^128 | not executed | Ipv6.BigIntOfParseBigInt | Ipv6.RightAlignedRoundTrips |
