/**
 * Big-endian address arithmetic over the significant bytes of an
 * address buffer: the numeric value of an address, the byte-wise
 * comparison the allocator uses (memcmp), and increment/decrement by
 * one with carry/borrow and overflow signalling.
 */
module AddressMath {
  import opened RangeTypes

  function Pow256(n: nat): (p: nat)
    ensures p >= 1
  {
    if n == 0 then 1 else 256 * Pow256(n - 1)
  }

  /** The unsigned big-endian value of the bytes of a. */
  function ToNat(a: Address): nat
  {
    if |a| == 0 then 0 else ToNat(a[..|a| - 1]) * 256 + a[|a| - 1]
  }

  /** n copies of the byte b. */
  function Repeat(b: Byte, n: nat): (r: Address)
    ensures |r| == n
    ensures forall k :: 0 <= k < n ==> r[k] == b
  {
    seq(n, k => b)
  }

  lemma {:induction false} ToNatBound(a: Address)
    ensures ToNat(a) < Pow256(|a|)
  {
    if |a| > 0 {
      ToNatBound(a[..|a| - 1]);
    }
  }

  /** The value of a concatenation: the left part shifted by the right part's width. */
  lemma {:induction false} ToNatAppend(a: Address, b: Address)
    ensures ToNat(a + b) == ToNat(a) * Pow256(|b|) + ToNat(b)
  {
    if |b| == 0 {
      assert a + b == a;
    } else {
      var b' := b[..|b| - 1];
      var x := b[|b| - 1];
      assert (a + b)[..|a + b| - 1] == a + b';
      assert (a + b)[|a + b| - 1] == x;
      ToNatAppend(a, b');
      assert ToNat(a + b) == ToNat(a + b') * 256 + x;
      assert ToNat(b) == ToNat(b') * 256 + x;
      ShiftByte(ToNat(a), Pow256(|b'|), ToNat(b'), x);
    }
  }

  lemma {:induction false} ShiftByte(hi: nat, p: nat, lo: nat, x: nat)
    ensures (hi * p + lo) * 256 + x == hi * (256 * p) + (lo * 256 + x)
  {
  }

  /** The value of an address seen from its most significant byte. */
  lemma {:induction false} ToNatFront(a: Address)
    requires |a| > 0
    ensures ToNat(a) == a[0] * Pow256(|a| - 1) + ToNat(a[1..])
  {
    var head: Address := [a[0]];
    var tail := a[1..];
    assert a == head + tail;
    ToNatAppend(head, tail);
    assert head[..0] == [];
    assert ToNat(head) == a[0];
  }

  /** If every byte of a is at most the byte of b at the same place, so is the value. */
  lemma {:induction false} ToNatMonotone(a: Address, b: Address)
    requires |a| == |b|
    requires forall k :: 0 <= k < |a| ==> a[k] <= b[k]
    ensures ToNat(a) <= ToNat(b)
  {
    if |a| > 0 {
      ToNatMonotone(a[..|a| - 1], b[..|b| - 1]);
    }
  }

  lemma {:induction false} MulMonotone(x: nat, y: nat, p: nat)
    requires x <= y
    ensures x * p <= y * p
  {
  }

  /**
   * Byte-wise lexicographic comparison of two buffers of equal length,
   * the way memcmp orders them: the sign of the first differing byte.
   */
  function Compare(a: Address, b: Address): (c: int)
    requires |a| == |b|
    ensures -1 <= c <= 1
    ensures c == 0 <==> a == b
  {
    if |a| == 0 then 0
    else if a[0] < b[0] then -1
    else if a[0] > b[0] then 1
    else Compare(a[1..], b[1..])
  }

  /** memcmp's order on equal-length buffers is the numeric order of their values. */
  lemma {:induction false} CompareIsNumericOrder(a: Address, b: Address)
    requires |a| == |b|
    ensures Compare(a, b) < 0 <==> ToNat(a) < ToNat(b)
    ensures Compare(a, b) == 0 <==> a == b
    ensures Compare(a, b) > 0 <==> ToNat(a) > ToNat(b)
  {
    if |a| > 0 {
      var p := Pow256(|a| - 1);
      var ta, tb := a[1..], b[1..];
      ToNatFront(a);
      ToNatFront(b);
      ToNatBound(ta);
      ToNatBound(tb);
      CompareIsNumericOrder(ta, tb);
      assert a == [a[0]] + ta && b == [b[0]] + tb;
      if a[0] < b[0] {
        FirstByteDecides(a[0], ToNat(ta), b[0], ToNat(tb), p);
      } else if a[0] > b[0] {
        FirstByteDecides(b[0], ToNat(tb), a[0], ToNat(ta), p);
      }
    }
  }

  /** A smaller leading digit gives a smaller number, whatever the lower digits. */
  lemma {:induction false} FirstByteDecides(x: nat, lx: nat, y: nat, ly: nat, p: nat)
    requires x < y && lx < p
    ensures x * p + lx < y * p + ly
  {
    MulMonotone(x + 1, y, p);
  }

  /** Two addresses of one length with the same value are the same address. */
  lemma {:induction false} ToNatInjective(a: Address, b: Address)
    requires |a| == |b| && ToNat(a) == ToNat(b)
    ensures a == b
  {
    CompareIsNumericOrder(a, b);
  }

  /**
   * Increment by one with carry from the last byte leftwards. The flag
   * is false exactly when the carry leaves the most significant byte.
   */
  function Inc(a: Address): (r: (Address, bool))
    ensures |r.0| == |a|
    ensures !r.1 <==> forall k :: 0 <= k < |a| ==> a[k] == 255
    ensures !r.1 ==> r.0 == Repeat(0, |a|)
  {
    if |a| == 0 then ([], false)
    else if a[|a| - 1] < 255 then (a[..|a| - 1] + [a[|a| - 1] + 1], true)
    else var p := Inc(a[..|a| - 1]); (p.0 + [0], p.1)
  }

  /**
   * Decrement by one with borrow from the last byte leftwards. The flag
   * is false exactly when the borrow leaves the most significant byte.
   */
  function Dec(a: Address): (r: (Address, bool))
    ensures |r.0| == |a|
    ensures !r.1 <==> forall k :: 0 <= k < |a| ==> a[k] == 0
    ensures !r.1 ==> r.0 == Repeat(255, |a|)
  {
    if |a| == 0 then ([], false)
    else if a[|a| - 1] > 0 then (a[..|a| - 1] + [a[|a| - 1] - 1], true)
    else var p := Dec(a[..|a| - 1]); (p.0 + [255], p.1)
  }

  /** Inc adds one to the value, and overflows (to all zeros) only from all-0xFF. */
  lemma {:induction false} IncValue(a: Address)
    ensures Inc(a).1 <==> ToNat(a) + 1 < Pow256(|a|)
    ensures ToNat(Inc(a).0) == if Inc(a).1 then ToNat(a) + 1 else 0
  {
    if |a| > 0 {
      var init := a[..|a| - 1];
      ToNatBound(init);
      if a[|a| - 1] < 255 {
        var r := init + [a[|a| - 1] + 1];
        assert r[..|r| - 1] == init;
      } else {
        IncValue(init);
        var r := Inc(init).0 + [0];
        assert r[..|r| - 1] == Inc(init).0;
      }
    }
  }

  /** Dec subtracts one from the value, and overflows (to all 0xFF) only from all zeros. */
  lemma {:induction false} DecValue(a: Address)
    ensures Dec(a).1 <==> ToNat(a) > 0
    ensures ToNat(Dec(a).0) == if Dec(a).1 then ToNat(a) - 1 else Pow256(|a|) - 1
  {
    if |a| > 0 {
      var init := a[..|a| - 1];
      if a[|a| - 1] > 0 {
        var r := init + [a[|a| - 1] - 1];
        assert r[..|r| - 1] == init;
      } else {
        DecValue(init);
        var r := Dec(init).0 + [255];
        assert r[..|r| - 1] == Dec(init).0;
      }
    }
  }

  /**
   * Adds one to the big-endian value held in the first addrLen bytes of
   * the buffer ip, in place, propagating the carry from the last byte
   * towards the first; reports Overflow when the carry leaves the first
   * byte, in which case the bytes are all zero.
   */
  method IncAddress(ip: array<Byte>, addrLen: nat) returns (err: ErrorCode)
    requires addrLen <= ip.Length
    modifies ip
    ensures ip[..addrLen] == Inc(old(ip[..addrLen])).0
    ensures ip[addrLen..] == old(ip[addrLen..])
    ensures err == Ok <==> ToNat(old(ip[..addrLen])) + 1 < Pow256(addrLen)
    ensures err == Ok || err == Overflow
    ensures ToNat(ip[..addrLen]) == if err == Ok then ToNat(old(ip[..addrLen])) + 1 else 0
  {
    ghost var a := ip[..addrLen];
    IncValue(a);
    var k := addrLen;
    while k > 0
      invariant 0 <= k <= addrLen
      invariant forall j :: 0 <= j < k ==> ip[j] == a[j]
      invariant forall j :: k <= j < addrLen ==> ip[j] == 0 && a[j] == 255
      invariant ip[addrLen..] == old(ip[addrLen..])
    {
      if ip[k - 1] != 255 {
        ip[k - 1] := ip[k - 1] + 1;
        IncBelowTrailingOnes(a, k);
        assert ip[..addrLen] == Inc(a).0 by {
          assert forall j :: 0 <= j < addrLen ==> ip[..addrLen][j] == Inc(a).0[j];
        }
        err := Ok;
        return;
      }
      ip[k - 1] := 0;
      k := k - 1;
    }
    IncAllOnes(a);
    assert ip[..addrLen] == Inc(a).0 by {
      assert forall j :: 0 <= j < addrLen ==> ip[..addrLen][j] == Inc(a).0[j];
    }
    err := Overflow;
  }

  /**
   * When the bytes after position k - 1 are all 0xFF and byte k - 1 is
   * not, the increment adds one at k - 1 and clears the bytes after it.
   */
  lemma {:induction false} IncBelowTrailingOnes(a: Address, k: nat)
    requires 0 < k <= |a| && a[k - 1] != 255
    requires forall j :: k <= j < |a| ==> a[j] == 255
    ensures Inc(a) == (a[..k - 1] + [a[k - 1] + 1] + Repeat(0, |a| - k), true)
  {
    if k < |a| {
      var init := a[..|a| - 1];
      assert init[..k - 1] == a[..k - 1] && init[k - 1] == a[k - 1];
      IncBelowTrailingOnes(init, k);
      assert Inc(a) == (Inc(init).0 + [0], Inc(init).1);
      assert Repeat(0, |a| - k) == Repeat(0, |init| - k) + [0];
      var p := a[..k - 1] + [a[k - 1] + 1];
      assert p + Repeat(0, |init| - k) + [0] == p + Repeat(0, |a| - k);
    } else {
      assert a[..k - 1] + [a[k - 1] + 1] + Repeat(0, 0) == a[..k - 1] + [a[k - 1] + 1];
    }
  }

  /** The increment of all-0xFF bytes overflows to all zeros. */
  lemma {:induction false} IncAllOnes(a: Address)
    requires forall j :: 0 <= j < |a| ==> a[j] == 255
    ensures Inc(a) == (Repeat(0, |a|), false)
  {
    if |a| > 0 {
      var init := a[..|a| - 1];
      IncAllOnes(init);
      assert Repeat(0, |a|) == Repeat(0, |init|) + [0];
    }
  }

  /**
   * Subtracts one from the big-endian value held in the first addrLen
   * bytes of the buffer ip, in place, propagating the borrow from the
   * last byte towards the first; reports Overflow when the borrow leaves
   * the first byte, in which case the bytes are all 0xFF.
   */
  method DecAddress(ip: array<Byte>, addrLen: nat) returns (err: ErrorCode)
    requires addrLen <= ip.Length
    modifies ip
    ensures ip[..addrLen] == Dec(old(ip[..addrLen])).0
    ensures ip[addrLen..] == old(ip[addrLen..])
    ensures err == Ok <==> ToNat(old(ip[..addrLen])) > 0
    ensures err == Ok || err == Overflow
    ensures ToNat(ip[..addrLen]) ==
              if err == Ok then ToNat(old(ip[..addrLen])) - 1 else Pow256(addrLen) - 1
  {
    ghost var a := ip[..addrLen];
    DecValue(a);
    var k := addrLen;
    while k > 0
      invariant 0 <= k <= addrLen
      invariant forall j :: 0 <= j < k ==> ip[j] == a[j]
      invariant forall j :: k <= j < addrLen ==> ip[j] == 255 && a[j] == 0
      invariant ip[addrLen..] == old(ip[addrLen..])
    {
      if ip[k - 1] != 0 {
        ip[k - 1] := ip[k - 1] - 1;
        DecAboveTrailingZeros(a, k);
        assert ip[..addrLen] == Dec(a).0 by {
          assert forall j :: 0 <= j < addrLen ==> ip[..addrLen][j] == Dec(a).0[j];
        }
        err := Ok;
        return;
      }
      ip[k - 1] := 255;
      k := k - 1;
    }
    DecAllZeros(a);
    assert ip[..addrLen] == Dec(a).0 by {
      assert forall j :: 0 <= j < addrLen ==> ip[..addrLen][j] == Dec(a).0[j];
    }
    err := Overflow;
  }

  /**
   * When the bytes after position k - 1 are all zero and byte k - 1 is
   * not, the decrement subtracts one at k - 1 and fills the bytes after
   * it with 0xFF.
   */
  lemma {:induction false} DecAboveTrailingZeros(a: Address, k: nat)
    requires 0 < k <= |a| && a[k - 1] != 0
    requires forall j :: k <= j < |a| ==> a[j] == 0
    ensures Dec(a) == (a[..k - 1] + [a[k - 1] - 1] + Repeat(255, |a| - k), true)
  {
    if k < |a| {
      var init := a[..|a| - 1];
      assert init[..k - 1] == a[..k - 1] && init[k - 1] == a[k - 1];
      DecAboveTrailingZeros(init, k);
      assert Dec(a) == (Dec(init).0 + [255], Dec(init).1);
      assert Repeat(255, |a| - k) == Repeat(255, |init| - k) + [255];
      var p := a[..k - 1] + [a[k - 1] - 1];
      assert p + Repeat(255, |init| - k) + [255] == p + Repeat(255, |a| - k);
    } else {
      assert a[..k - 1] + [a[k - 1] - 1] + Repeat(255, 0) == a[..k - 1] + [a[k - 1] - 1];
    }
  }

  /** The decrement of all-zero bytes overflows to all 0xFF. */
  lemma {:induction false} DecAllZeros(a: Address)
    requires forall j :: 0 <= j < |a| ==> a[j] == 0
    ensures Dec(a) == (Repeat(255, |a|), false)
  {
    if |a| > 0 {
      var init := a[..|a| - 1];
      DecAllZeros(init);
      assert Repeat(255, |a|) == Repeat(255, |init|) + [255];
    }
  }

  /** The value of an address one above a, computed in an address buffer. */
  method Incremented(a: Address) returns (r: Address)
    requires |a| <= IpAddrSize
    requires ToNat(a) + 1 < Pow256(|a|)
    ensures |r| == |a| && ToNat(r) == ToNat(a) + 1
    ensures r == Inc(a).0
  {
    var buf := new Byte[IpAddrSize](k => if 0 <= k < |a| then a[k] else 0);
    assert buf[..|a|] == a;
    var err := IncAddress(buf, |a|);
    r := buf[..|a|];
  }

  /** The value of an address one below a, computed in an address buffer. */
  method Decremented(a: Address) returns (r: Address)
    requires |a| <= IpAddrSize
    requires ToNat(a) > 0
    ensures |r| == |a| && ToNat(r) == ToNat(a) - 1
    ensures r == Dec(a).0
  {
    var buf := new Byte[IpAddrSize](k => if 0 <= k < |a| then a[k] else 0);
    assert buf[..|a|] == a;
    var err := DecAddress(buf, |a|);
    r := buf[..|a|];
  }

  /**
   * The increment loop as the source writes it: its byte position never
   * moves off the last byte, so a last byte of 0xFF is first cleared and
   * then incremented to 0x01, and success is always reported.
   */
  function IncAsWritten(a: Address): (r: (Address, bool))
    requires |a| > 0
    ensures r.1
    ensures |r.0| == |a| && r.0[..|a| - 1] == a[..|a| - 1]
    ensures r.0[|a| - 1] != 0
  {
    var x := a[|a| - 1];
    (a[..|a| - 1] + [if x != 255 then x + 1 else 1], true)
  }

  /**
   * The decrement loop as the source writes it: a last byte of 0x00 is
   * first set to 0xFF and then decremented to 0xFE, and success is
   * always reported.
   */
  function DecAsWritten(a: Address): (r: (Address, bool))
    requires |a| > 0
    ensures r.1
    ensures |r.0| == |a| && r.0[..|a| - 1] == a[..|a| - 1]
    ensures r.0[|a| - 1] != 255
  {
    var x := a[|a| - 1];
    (a[..|a| - 1] + [if x != 0 then x - 1 else 254], true)
  }

  /** The literal increment agrees with Inc exactly when no carry is needed. */
  lemma {:induction false} IncAsWrittenAgreement(a: Address)
    requires |a| > 0
    ensures IncAsWritten(a) == Inc(a) <==> a[|a| - 1] != 255
  {
    if a[|a| - 1] == 255 {
      assert IncAsWritten(a).0[|a| - 1] == 1 != 0 == Inc(a).0[|a| - 1];
    }
  }

  /** Without the carry, a last byte of 0xFF makes the value drop by 254. */
  lemma {:induction false} IncAsWrittenMissesCarry(a: Address)
    requires |a| > 0 && a[|a| - 1] == 255
    ensures ToNat(IncAsWritten(a).0) == ToNat(a) - 254
    ensures IncAsWritten(a).1 && (ToNat(a) + 1 == Pow256(|a|) ==> !Inc(a).1)
  {
    var r := IncAsWritten(a).0;
    assert r[..|r| - 1] == a[..|a| - 1];
    IncValue(a);
  }

  /** The literal decrement agrees with Dec exactly when no borrow is needed. */
  lemma {:induction false} DecAsWrittenAgreement(a: Address)
    requires |a| > 0
    ensures DecAsWritten(a) == Dec(a) <==> a[|a| - 1] != 0
  {
    if a[|a| - 1] == 0 {
      assert DecAsWritten(a).0[|a| - 1] == 254 != 255 == Dec(a).0[|a| - 1];
    }
  }

  /** Without the borrow, a last byte of 0x00 makes the value rise by 254. */
  lemma {:induction false} DecAsWrittenMissesBorrow(a: Address)
    requires |a| > 0 && a[|a| - 1] == 0
    ensures ToNat(DecAsWritten(a).0) == ToNat(a) + 254
    ensures DecAsWritten(a).1 && (ToNat(a) == 0 ==> !Dec(a).1)
  {
    var r := DecAsWritten(a).0;
    assert r[..|r| - 1] == a[..|a| - 1];
    DecValue(a);
  }
}
