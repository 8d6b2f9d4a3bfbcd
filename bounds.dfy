/**
 * How the bounds of a range are obtained from text: the address family
 * a text selects, the last address of a CIDR network, and the bound
 * comparison of string initialisation as the source writes it.
 */
module Bounds {
  import opened RangeTypes
  import opened AddressMath

  /** A text containing a colon is an IPv6 address; any other is IPv4. */
  function FamilyOf(text: string): (f: Family)
    ensures f == Inet6 <==> ':' in text
    ensures f == Inet <==> ':' !in text
  {
    if ':' in text then Inet6 else Inet
  }

  function Pow2(m: nat): (p: nat)
    ensures p >= 1
  {
    if m == 0 then 1 else 2 * Pow2(m - 1)
  }

  lemma {:induction false} Pow2Table()
    ensures Pow2(1) == 2 && Pow2(2) == 4 && Pow2(3) == 8 && Pow2(4) == 16
    ensures Pow2(5) == 32 && Pow2(6) == 64 && Pow2(7) == 128 && Pow2(8) == 256
  {
    assert Pow2(1) == 2 && Pow2(2) == 4 && Pow2(3) == 8;
    assert Pow2(4) == 16 && Pow2(5) == 32 && Pow2(6) == 64;
  }

  /**
   * The byte 0xff shifted right by r bits (an unsigned shift): the mask
   * of the 8 - r low bits of a byte.
   */
  function HostMask(r: nat): (m: Byte)
    requires r < 8
    ensures m + 1 == Pow2(8 - r)
  {
    Pow2Table();
    match r
    case 0 => 255
    case 1 => 127
    case 2 => 63
    case 3 => 31
    case 4 => 15
    case 5 => 7
    case 6 => 3
    case 7 => 1
  }

  /**
   * The byte x with its low bits under the mask HostMask(r) set, that is
   * x | (0xff >> r): the r high bits of x are kept and the rest are one.
   */
  function OrMask(x: Byte, r: nat): (y: Byte)
    requires r < 8
    ensures x <= y
    ensures y / Pow2(8 - r) == x / Pow2(8 - r)
    ensures y % Pow2(8 - r) == HostMask(r)
  {
    var m := Pow2(8 - r);
    assert m == HostMask(r) + 1;
    OrMaskBound(x, r);
    x - x % m + (m - 1)
  }

  lemma {:induction false} OrMaskBound(x: Byte, r: nat)
    requires r < 8
    ensures FillsLowBits(x, Pow2(8 - r))
  {
    Pow2Table();
    match r
    case 0 => FillsLowBits256(x);
    case 1 => FillsLowBits128(x);
    case 2 => FillsLowBits64(x);
    case 3 => FillsLowBits32(x);
    case 4 => FillsLowBits16(x);
    case 5 => FillsLowBits8(x);
    case 6 => FillsLowBits4(x);
    case 7 => FillsLowBits2(x);
  }

  /**
   * Setting the bits of x below the power of two m gives a byte with the
   * quotient of x and the greatest remainder.
   */
  ghost predicate FillsLowBits(x: Byte, m: nat)
    requires m > 0
  {
    && x - x % m + (m - 1) < 256
    && (x - x % m + (m - 1)) / m == x / m
    && (x - x % m + (m - 1)) % m == m - 1
  }

  // One lemma per power of two: with the modulus a literal the solver
  // settles each case quickly, where one lemma over a symbolic modulus
  // does not finish.
  lemma {:induction false} FillsLowBits256(x: Byte)
    ensures FillsLowBits(x, 256)
  {
  }

  lemma {:induction false} FillsLowBits128(x: Byte)
    ensures FillsLowBits(x, 128)
  {
  }

  lemma {:induction false} FillsLowBits64(x: Byte)
    ensures FillsLowBits(x, 64)
  {
  }

  lemma {:induction false} FillsLowBits32(x: Byte)
    ensures FillsLowBits(x, 32)
  {
  }

  lemma {:induction false} FillsLowBits16(x: Byte)
    ensures FillsLowBits(x, 16)
  {
  }

  lemma {:induction false} FillsLowBits8(x: Byte)
    ensures FillsLowBits(x, 8)
  {
  }

  lemma {:induction false} FillsLowBits4(x: Byte)
    ensures FillsLowBits(x, 4)
  {
  }

  lemma {:induction false} FillsLowBits2(x: Byte)
    ensures FillsLowBits(x, 2)
  {
  }

  /**
   * The last address of the network first/bits: the bytes before byte
   * bits / 8 are copied, that byte has its host bits set, and every
   * byte after it is 0xff. With bits == 8 * |first| nothing is set.
   */
  function NetworkLast(first: Address, bits: nat): (last: Address)
    requires bits <= 8 * |first|
    ensures |last| == |first|
    ensures last[..bits / 8] == first[..bits / 8]
    ensures forall k :: 0 <= k < |first| ==> first[k] <= last[k]
  {
    var offset := bits / 8;
    seq(|first|, k requires 0 <= k < |first| =>
      if k < offset then first[k]
      else if k == offset then OrMask(first[k], bits % 8)
      else 255)
  }

  /**
   * a lies in the network of prefix length bits that contains b: the
   * two agree on every whole prefix byte and on the prefix bits of the
   * byte where the prefix ends.
   */
  ghost predicate SamePrefix(a: Address, b: Address, bits: nat)
  {
    && |a| == |b|
    && (forall k :: 0 <= k < bits / 8 && k < |a| ==> a[k] == b[k])
    && (bits / 8 < |a| ==> a[bits / 8] / Pow2(8 - bits % 8) == b[bits / 8] / Pow2(8 - bits % 8))
  }

  /**
   * The computed last address is in the network of first, and no
   * address of that network is above it: it is the network's greatest
   * address, and first is not above it.
   */
  lemma {:induction false} NetworkLastIsGreatest(first: Address, bits: nat, a: Address)
    requires bits <= 8 * |first|
    requires SamePrefix(a, first, bits)
    ensures SamePrefix(NetworkLast(first, bits), first, bits)
    ensures ToNat(a) <= ToNat(NetworkLast(first, bits))
  {
    var last := NetworkLast(first, bits);
    var offset := bits / 8;
    forall k | 0 <= k < |a|
      ensures a[k] <= last[k]
    {
      if k == offset {
        var m := Pow2(8 - bits % 8);
        var y := OrMask(first[k], bits % 8);
        assert a[k] / m == y / m && y % m == m - 1;
        DivBelow(a[k], y, m);
      }
    }
    ToNatMonotone(a, last);
  }

  /** Two values with the same quotient: the one with the greatest remainder is not below. */
  lemma {:induction false} DivBelow(x: nat, y: nat, m: nat)
    requires m >= 1 && x / m == y / m && y % m == m - 1
    ensures x <= y
  {
    assert x == x / m * m + x % m;
    assert y == y / m * m + y % m;
  }

  /** The bound pair a CIDR text yields is ordered: first is not above last. */
  lemma {:induction false} NetworkFirstNotAboveLast(first: Address, bits: nat)
    requires bits <= 8 * |first|
    ensures ToNat(first) <= ToNat(NetworkLast(first, bits))
  {
    NetworkLastIsGreatest(first, bits, first);
  }

  /** A full-length prefix is a one-address network; a zero-length one spans everything. */
  lemma {:induction false} NetworkLastExtremes(first: Address)
    ensures NetworkLast(first, 8 * |first|) == first
    ensures |first| > 0 ==> ToNat(NetworkLast(first, 0)) + 1 == Pow256(|first|)
  {
    NetworkLastFull(first);
    if |first| > 0 {
      NetworkLastZero(first);
      AllOnes(|first|);
    }
  }

  lemma {:induction false} NetworkLastFull(first: Address)
    ensures NetworkLast(first, 8 * |first|) == first
  {
    var n := |first|;
    assert 8 * n / 8 == n;
    var last := NetworkLast(first, 8 * n);
    assert forall k :: 0 <= k < n ==> last[k] == first[k];
  }

  lemma {:induction false} NetworkLastZero(first: Address)
    requires |first| > 0
    ensures NetworkLast(first, 0) == Repeat(255, |first|)
  {
    Pow2Table();
    var y := OrMask(first[0], 0);
    assert y % 256 == 255;
    var last := NetworkLast(first, 0);
    assert forall k :: 0 <= k < |first| ==> last[k] == 255;
  }

  /** The address of n bytes of 0xff is the greatest of n bytes. */
  lemma {:induction false} AllOnes(n: nat)
    ensures ToNat(Repeat(255, n)) + 1 == Pow256(n)
  {
    if n > 0 {
      var r := Repeat(255, n);
      assert r[..n - 1] == Repeat(255, n - 1);
      AllOnes(n - 1);
    }
  }

  /** 10.0.0.0/24 ends at 10.0.0.255, 10.0.0.0/23 at 10.0.1.255. */
  lemma {:induction false} NetworkLastExamples()
    ensures NetworkLast([10, 0, 0, 0], 24) == [10, 0, 0, 255]
    ensures NetworkLast([10, 0, 0, 0], 23) == [10, 0, 1, 255]
    ensures NetworkLast([192, 168, 4, 0], 22) == [192, 168, 7, 255]
    ensures NetworkLast([10, 0, 0, 5], 24) == [10, 0, 0, 255]
  {
    assert OrMask(0, 7) == 1;
    assert OrMask(4, 6) == 7;
    assert OrMask(0, 0) == 255;
  }

  /**
   * Where the CIDR initialisation ORs the host mask into its 16-byte
   * last-address buffer, as the source writes it: always at index
   * bits / 8, with no check that the index is inside the buffer. None
   * stands for a write outside the buffer.
   */
  function CidrMaskIndexAsWritten(bits: nat): (r: Option<nat>)
    ensures r.None? <==> bits >= 8 * IpAddrSize
    ensures r.Some? ==> r.value < IpAddrSize
  {
    if bits / 8 < IpAddrSize then Some(bits / 8) else None
  }

  /** An IPv6 /128 network makes that write land past the buffer's end. */
  lemma {:induction false} FullIpv6PrefixWritesPastBuffer()
    ensures CidrMaskIndexAsWritten(8 * AddrLen(Inet6)) == None
    ensures CidrMaskIndexAsWritten(8 * AddrLen(Inet)) == Some(AddrLen(Inet))
  {
  }

  /** The first n characters of a text, as the bytes a byte comparison reads. */
  function TextBytes(t: string, n: nat): (b: Address)
    requires n <= |t|
    ensures |b| == n
  {
    seq(n, k requires 0 <= k < n => (t[k] as int) % 256)
  }

  /**
   * The bound check of string initialisation as the source writes it:
   * a byte comparison of the first n characters of the two input texts,
   * not of the parsed addresses. (Texts shorter than n are read past
   * their end; the model does not cover those.)
   */
  function TextBoundRejectsAsWritten(firstText: string, lastText: string, n: nat): (rejects: bool)
    requires n <= |firstText| && n <= |lastText|
    ensures rejects <==> ToNat(TextBytes(firstText, n)) > ToNat(TextBytes(lastText, n))
  {
    CompareIsNumericOrder(TextBytes(firstText, n), TextBytes(lastText, n));
    Compare(TextBytes(firstText, n), TextBytes(lastText, n)) > 0
  }

  /**
   * The text check disagrees with the parsed addresses both ways: it
   * rejects 9.0.0.0 - 10.0.0.0, an ordered pair, and accepts
   * 10.0.0.5 - 10.0.0.1, a reversed one.
   */
  lemma {:induction false} TextBoundDisagrees()
    ensures TextBoundRejectsAsWritten("9.0.0.0", "10.0.0.0", AddrLen(Inet))
    ensures ToNat([9, 0, 0, 0]) <= ToNat([10, 0, 0, 0])
    ensures !TextBoundRejectsAsWritten("10.0.0.5", "10.0.0.1", AddrLen(Inet))
    ensures ToNat([10, 0, 0, 5]) > ToNat([10, 0, 0, 1])
  {
    assert TextBytes("9.0.0.0", 4) == [57, 46, 48, 46];
    assert TextBytes("10.0.0.0", 4) == [49, 48, 46, 48];
    assert TextBytes("10.0.0.5", 4) == TextBytes("10.0.0.1", 4);
    CompareIsNumericOrder(TextBytes("10.0.0.5", 4), TextBytes("10.0.0.1", 4));
    CompareIsNumericOrder([9, 0, 0, 0], [10, 0, 0, 0]);
    CompareIsNumericOrder([10, 0, 0, 5], [10, 0, 0, 1]);
  }
}
