/**
 * The range map and its iterators: a contiguous bound of addresses of
 * one family, and the interval list recording which of them are free
 * and which are held, with the operations that initialise the bound,
 * occupy, free and look up an address, and walk the list.
 */
module RangeMap {
  import opened RangeTypes
  import opened AddressMath
  import opened IntervalList
  import opened Bounds

  /** The holder of every address value of [lo, hi] that the list xs records. */
  ghost function StatusMap(xs: seq<Node>, lo: nat, hi: nat): map<nat, Option<string>>
  {
    map a: nat | lo <= a <= hi :: StatusAt(xs, a)
  }

  /** A list change that changes the status of k alone updates the status map at k alone. */
  lemma {:induction false} StatusMapUpdate(xs: seq<Node>, ys: seq<Node>, lo: nat, hi: nat, k: nat, v: Option<string>)
    requires lo <= k <= hi
    requires forall a: nat :: StatusAt(ys, a) == if a == k then v else StatusAt(xs, a)
    ensures StatusMap(ys, lo, hi) == StatusMap(xs, lo, hi)[k := v]
  {
    var m, m' := StatusMap(xs, lo, hi), StatusMap(ys, lo, hi);
    assert m'.Keys == m[k := v].Keys;
    forall a | a in m'
      ensures m'[a] == m[k := v][a]
    {
    }
  }

  /**
   * The nodes that replace the free span x when key inside it becomes
   * held: the occupied node, and the span's remainder on either side
   * whose ends are computed with the address increment and decrement.
   */
  method SplitSpan(x: Node, key: Address, host: string) returns (mid: seq<Node>)
    requires x.FreeRange? && |x.first| == |key| && |x.last| == |key| && |key| <= IpAddrSize
    requires ToNat(x.first) <= ToNat(key) <= ToNat(x.last)
    ensures mid == SplitNodes(x, key, host)
  {
    var held := OccupiedIp(key, Truncate(host));
    ToNatBound(x.last);
    CompareIsNumericOrder(x.first, key);
    CompareIsNumericOrder(x.last, key);
    CompareIsNumericOrder(x.first, x.last);
    if Compare(x.first, key) == 0 {
      if Compare(x.first, x.last) == 0 {
        mid := [held];
      } else {
        var f := Incremented(x.first);
        mid := [held, FreeRange(f, x.last)];
      }
    } else if Compare(x.last, key) == 0 {
      var l := Decremented(x.last);
      mid := [FreeRange(x.first, l), held];
    } else {
      var l := Decremented(key);
      var f := Incremented(key);
      mid := [FreeRange(x.first, l), held, FreeRange(f, x.last)];
    }
  }

  /**
   * Sets the host bits of the n-byte converted address at the front of the
   * buffer p: the mask 0xff >> (bits % 8) is ORed into byte bits / 8 and
   * every later byte below n is set to 0xff. For a full-length prefix
   * the OR lands on byte n, just past the address, and is skipped when
   * that index falls outside the buffer.
   */
  method FillHostBits(p: array<Byte>, n: nat, bits: nat)
    requires n <= p.Length && bits <= 8 * n
    modifies p
    ensures p[..n] == NetworkLast(old(p[..n]), bits)
    ensures forall k :: n <= k < p.Length ==>
              p[k] == if k == bits / 8 then OrMask(old(p[k]), bits % 8) else old(p[k])
  {
    ghost var net := p[..n];
    var offset := bits / 8;
    if offset < p.Length {
      p[offset] := OrMask(p[offset], bits % 8);
    }
    offset := offset + 1;
    while offset < n
      invariant bits / 8 + 1 <= offset
      invariant offset <= n || offset == bits / 8 + 1
      invariant forall k :: 0 <= k < n ==>
                  p[k] == if k < bits / 8 then net[k]
                          else if k == bits / 8 then OrMask(net[k], bits % 8)
                          else if k < offset then 255
                          else net[k]
      invariant forall k :: n <= k < p.Length ==>
                  p[k] == if k == bits / 8 then OrMask(old(p[k]), bits % 8) else old(p[k])
    {
      p[offset] := 255;
      offset := offset + 1;
    }
  }

  /**
   * The last-address buffer of a CIDR network: the converted address net
   * copied in front of the buffer's old bytes tail, with the host bits
   * then filled by FillHostBits.
   */
  method LastOfNetwork(net: Address, tail: seq<Byte>, bits: nat) returns (l: seq<Byte>)
    requires |net| + |tail| == IpAddrSize && bits <= 8 * |net|
    ensures |l| == IpAddrSize
    ensures l[..|net|] == NetworkLast(net, bits)
  {
    var buf := net + tail;
    var p := new Byte[IpAddrSize](k => if 0 <= k < |buf| then buf[k] else 0);
    assert p[..|net|] == net;
    FillHostBits(p, |net|, bits);
    l := p[..];
  }

  /**
   * A range map. first and last are the two 16-byte address buffers of
   * the bound, of which the first addrLen bytes are significant; items
   * is the interval list, empty while the map is uninitialised.
   */
  class Range {
    var family: Family
    var addrLen: nat
    var first: seq<Byte>
    var last: seq<Byte>
    var items: seq<Node>

    /**
     * The bound buffers have their fixed size and the address length
     * fits them: all that the initialisers need, whatever the list holds.
     */
    ghost predicate Buffers()
      reads this
    {
      addrLen <= IpAddrSize && |first| == IpAddrSize && |last| == IpAddrSize
    }

    /**
     * Buffers have their fixed size, and an initialised map's list
     * covers exactly its bound with nodes of its address length.
     */
    ghost predicate Valid()
      reads this
    {
      && Buffers()
      && (items != [] ==>
            && addrLen == AddrLen(family)
            && Covers(items, Low(), High(), addrLen))
    }

    /** The value of the lower bound. */
    ghost function Low(): nat
      reads this
      requires addrLen <= |first|
    {
      ToNat(first[..addrLen])
    }

    /** The value of the upper bound. */
    ghost function High(): nat
      reads this
      requires addrLen <= |last|
    {
      ToNat(last[..addrLen])
    }

    /** key is an address of the map's length within its bound. */
    ghost predicate InBounds(key: Address)
      reads this
      requires Valid()
    {
      |key| == addrLen && Low() <= ToNat(key) <= High()
    }

    /** The holder of every address of the bound, None for a free one. */
    ghost function Status(): map<nat, Option<string>>
      reads this
      requires Valid()
    {
      StatusMap(items, Low(), High())
    }

    /** The zero-filled map a caller declares: uninitialised, with no list. */
    constructor ()
      ensures Valid()
      ensures items == [] && addrLen == 0
      ensures first == Repeat(0, IpAddrSize) && last == Repeat(0, IpAddrSize)
    {
      family := Inet;
      addrLen := 0;
      first := Repeat(0, IpAddrSize);
      last := Repeat(0, IpAddrSize);
      items := [];
    }

    /**
     * Makes the list one free span from the bound's first address to its
     * last; with no address length yet, the whole buffers are copied.
     */
    method InitFirstRange()
      requires Buffers()
      modifies this
      ensures family == old(family) && addrLen == old(addrLen)
      ensures first == old(first) && last == old(last)
      ensures var n := if addrLen != 0 then addrLen else IpAddrSize;
              items == [FreeRange(first[..n], last[..n])]
    {
      var n := if addrLen != 0 then addrLen else IpAddrSize;
      items := [FreeRange(first[..n], last[..n])];
    }

    /** After a successful initialisation every address of the bound is free. */
    lemma {:induction false} FreshListAllFree()
      requires Valid() && items != []
      requires items == [FreeRange(first[..addrLen], last[..addrLen])]
      ensures forall a :: a in Status() ==> Status()[a] == None
    {
      forall a | a in Status()
        ensures Status()[a] == None
      {
        assert StatusAt(items, a) == StatusAt(items[1..], a);
      }
    }

    /**
     * Initialises the map from two binary addresses of the family:
     * rejects a first address above the last and otherwise sets the
     * bound and a single free span over it.
     */
    method InitFromIp(fam: Family, firstIp: seq<Byte>, lastIp: seq<Byte>) returns (err: ErrorCode)
      requires Buffers() && |firstIp| == IpAddrSize && |lastIp| == IpAddrSize
      modifies this
      ensures Buffers()
      ensures var n := AddrLen(fam);
              err == BadRange <==> ToNat(firstIp[..n]) > ToNat(lastIp[..n])
      ensures err == Ok || err == BadRange
      ensures err == BadRange ==>
                family == old(family) && addrLen == old(addrLen) && first == old(first)
                && last == old(last) && items == old(items)
      ensures err == Ok ==>
                && Valid()
                && family == fam && addrLen == AddrLen(fam)
                && first == firstIp[..addrLen] + old(first)[addrLen..]
                && last == lastIp[..addrLen] + old(last)[addrLen..]
                && items == [FreeRange(firstIp[..addrLen], lastIp[..addrLen])]
                && (forall a :: a in Status() ==> Status()[a] == None)
    {
      var n := AddrLen(fam);
      CompareIsNumericOrder(firstIp[..n], lastIp[..n]);
      if Compare(firstIp[..n], lastIp[..n]) > 0 {
        return BadRange;
      }
      family := fam;
      addrLen := n;
      first := firstIp[..n] + first[n..];
      last := lastIp[..n] + last[n..];
      assert first[..n] == firstIp[..n] && last[..n] == lastIp[..n];
      InitFirstRange();
      FreshListAllFree();
      err := Ok;
    }

    /**
     * Initialises the map from two address texts. The family comes from
     * each text (a colon means IPv6); firstParsed and lastParsed are what
     * the system's text-to-address conversion makes of each text in that
     * family, None where it fails. Family and length are stored before
     * the texts are converted, and each converted bound is stored as
     * soon as it is obtained, so a later failure leaves them written.
     */
    method InitFromStr(firstText: string, lastText: string,
                       firstParsed: Option<Address>, lastParsed: Option<Address>) returns (err: ErrorCode)
      requires Buffers()
      requires firstParsed.Some? ==> |firstParsed.value| == AddrLen(FamilyOf(firstText))
      requires lastParsed.Some? ==> |lastParsed.value| == AddrLen(FamilyOf(lastText))
      modifies this
      ensures Buffers()
      ensures err == MixedRange <==> FamilyOf(firstText) != FamilyOf(lastText)
      ensures err == MixedRange ==>
                family == old(family) && addrLen == old(addrLen) && first == old(first) && last == old(last)
      ensures err != MixedRange ==> family == FamilyOf(firstText) && addrLen == AddrLen(family)
      ensures err == UnparsableAddr <==>
                FamilyOf(firstText) == FamilyOf(lastText) && (firstParsed.None? || lastParsed.None?)
      ensures err == BadRange <==>
                && FamilyOf(firstText) == FamilyOf(lastText)
                && firstParsed.Some? && lastParsed.Some?
                && ToNat(firstParsed.value) > ToNat(lastParsed.value)
      ensures err in {Ok, MixedRange, UnparsableAddr, BadRange}
      ensures err != MixedRange && firstParsed.Some? ==>
                first == firstParsed.value + old(first)[addrLen..]
      ensures err != MixedRange && firstParsed.Some? && lastParsed.Some? ==>
                last == lastParsed.value + old(last)[addrLen..]
      ensures err == UnparsableAddr && firstParsed.None? ==> first == old(first) && last == old(last)
      ensures err == UnparsableAddr && lastParsed.None? ==> last == old(last)
      ensures err != Ok ==> items == old(items)
      ensures err != Ok && old(items) == [] ==> Valid()
      ensures err == Ok ==>
                && Valid()
                && items == [FreeRange(firstParsed.value, lastParsed.value)]
                && (forall a :: a in Status() ==> Status()[a] == None)
    {
      var af := FamilyOf(firstText);
      var afLast := FamilyOf(lastText);
      if af != afLast {
        return MixedRange;
      }
      family := af;
      addrLen := AddrLen(af);
      if firstParsed.None? {
        return UnparsableAddr;
      }
      first := firstParsed.value + first[addrLen..];
      if lastParsed.None? {
        return UnparsableAddr;
      }
      last := lastParsed.value + last[addrLen..];
      assert first[..addrLen] == firstParsed.value && last[..addrLen] == lastParsed.value;
      CompareIsNumericOrder(first[..addrLen], last[..addrLen]);
      if Compare(first[..addrLen], last[..addrLen]) > 0 {
        return BadRange;
      }
      InitFirstRange();
      FreshListAllFree();
      err := Ok;
    }

    /**
     * Initialises the map from a CIDR text. parsed is what the system's
     * network-text conversion yields in the text's family: the address
     * as written, host bits included, and the prefix length, or None
     * where it fails. It is stored as first unmasked. The last address
     * is that address with every host bit set: the mask
     * 0xff >> (bits % 8) is ORed into byte bits / 8 and every later
     * significant byte is set to 0xff. The OR is skipped when bits / 8
     * falls outside the 16-byte buffer (an IPv6 /128).
     */
    method InitFromCidr(cidr: string, parsed: Option<(Address, nat)>) returns (err: ErrorCode)
      requires Buffers()
      requires parsed.Some? ==>
                 |parsed.value.0| == AddrLen(FamilyOf(cidr)) && parsed.value.1 <= 8 * AddrLen(FamilyOf(cidr))
      modifies this
      ensures Buffers()
      ensures family == FamilyOf(cidr) && addrLen == AddrLen(family)
      ensures err == UnparsableCidr <==> parsed.None?
      ensures err == Ok || err == UnparsableCidr
      ensures err == UnparsableCidr ==> last == old(last) && items == old(items)
      ensures err == UnparsableCidr && old(items) == [] ==> Valid()
      ensures err == Ok ==>
                && Valid()
                && first == parsed.value.0 + old(first)[addrLen..]
                && last[..addrLen] == NetworkLast(parsed.value.0, parsed.value.1)
                && items == [FreeRange(parsed.value.0, NetworkLast(parsed.value.0, parsed.value.1))]
                && (forall a :: a in Status() ==> Status()[a] == None)
    {
      var af := FamilyOf(cidr);
      family := af;
      addrLen := AddrLen(af);
      if parsed.None? {
        return UnparsableCidr;
      }
      var net := parsed.value.0;
      var bits := parsed.value.1;
      first := net + first[addrLen..];
      assert first[..addrLen] == net;

      last := LastOfNetwork(net, last[addrLen..], bits);
      NetworkFirstNotAboveLast(net, bits);
      InitFirstRange();
      FreshListAllFree();
      err := Ok;
    }

    /**
     * The check every address operation starts with: the map must be
     * initialised and ip within its bound.
     */
    method CheckBounds(ip: seq<Byte>) returns (err: ErrorCode)
      requires Valid() && |ip| == IpAddrSize
      ensures err == Uninitialized <==> items == []
      ensures err == NotInRange <==> items != [] && !InBounds(ip[..addrLen])
      ensures err == Ok <==> items != [] && InBounds(ip[..addrLen])
    {
      if items == [] {
        return Uninitialized;
      }
      var key := ip[..addrLen];
      CompareIsNumericOrder(first[..addrLen], key);
      CompareIsNumericOrder(last[..addrLen], key);
      if Compare(first[..addrLen], key) > 0 {
        return NotInRange;
      }
      if Compare(last[..addrLen], key) < 0 {
        return NotInRange;
      }
      err := Ok;
    }

    /**
     * The scan of occupy: the position of the first free span that does
     * not end below key, or |items| when there is none. Held addresses
     * are skipped whatever their value.
     */
    method SeekFree(key: Address) returns (i: nat)
      requires Valid() && items != [] && |key| == addrLen
      ensures i <= |items|
      ensures forall j :: 0 <= j < i ==> items[j].OccupiedIp? || Hi(items[j]) < ToNat(key)
      ensures i < |items| ==> items[i].FreeRange? && ToNat(key) <= Hi(items[i])
    {
      i := 0;
      while i < |items|
        invariant i <= |items|
        invariant forall j :: 0 <= j < i ==> items[j].OccupiedIp? || Hi(items[j]) < ToNat(key)
      {
        var x := items[i];
        if x.FreeRange? {
          assert NodeOk(x, addrLen);
          CompareIsNumericOrder(x.last, key);
          if Compare(x.last, key) >= 0 {
            return;
          }
        }
        i := i + 1;
      }
    }

    /**
     * The scan of free and lookup: the position of the node covering
     * key, found by stopping at the first free span that does not end
     * below key or the first held address equal to key.
     */
    method SeekNode(key: Address) returns (i: nat)
      requires Valid() && items != [] && InBounds(key)
      ensures i < |items| && Lo(items[i]) <= ToNat(key) <= Hi(items[i])
    {
      ghost var a := ToNat(key);
      i := 0;
      while i < |items|
        invariant i <= |items|
        invariant i < |items| ==> Lo(items[i]) <= a
        invariant 0 < i ==> Hi(items[i - 1]) < a
      {
        var x := items[i];
        assert NodeOk(x, addrLen);
        if x.FreeRange? {
          CompareIsNumericOrder(x.last, key);
          if Compare(x.last, key) >= 0 {
            return;
          }
        } else {
          CompareIsNumericOrder(x.ip, key);
          if Compare(x.ip, key) == 0 {
            return;
          }
        }
        i := i + 1;
      }
      assert false;
    }

    /**
     * Marks the address ip as held by host. Fails when the map is
     * uninitialised or ip is outside the bound. The list is scanned for
     * the first free span ending at or after ip: if the span contains ip
     * it is split around ip; if it starts above ip, ip is already held
     * and Occupied is reported; if there is no such span, ip is held and
     * NotInRange is reported.
     */
    method Occupy(ip: seq<Byte>, host: string) returns (err: ErrorCode)
      requires Valid() && |ip| == IpAddrSize
      modifies this
      ensures Valid()
      ensures family == old(family) && addrLen == old(addrLen) && first == old(first) && last == old(last)
      ensures err in {Ok, Uninitialized, NotInRange, Occupied}
      ensures err == Uninitialized <==> old(items) == []
      ensures old(items) != [] && !InBounds(ip[..addrLen]) ==> err == NotInRange
      ensures err == Ok <==>
                old(items) != [] && InBounds(ip[..addrLen]) && old(Status())[ToNat(ip[..addrLen])] == None
      ensures err == Occupied <==>
                && old(items) != [] && InBounds(ip[..addrLen])
                && old(Status())[ToNat(ip[..addrLen])].Some?
                && FreeAbove(old(items), ToNat(ip[..addrLen]))
      ensures err == Ok ==> Status() == old(Status())[ToNat(ip[..addrLen]) := Some(Truncate(host))]
      ensures err == Ok ==>
                exists j :: 0 <= j < |old(items)| && old(items)[j].FreeRange?
                            && items == OccupyAt(old(items), j, ip[..addrLen], host)
      ensures err != Ok ==> items == old(items)
    {
      err := CheckBounds(ip);
      if err != Ok {
        return;
      }
      var key := ip[..addrLen];
      ghost var a := ToNat(key);
      assert a in Status() && Status()[a] == StatusAt(items, a);
      var i := SeekFree(key);
      if i == |items| {
        HeldBeforeScanStop(items, Low(), High(), addrLen, i, a);
        assert !FreeAbove(items, a) by {
          forall j | 0 <= j < |items| && items[j].FreeRange?
            ensures Lo(items[j]) <= a
          {
            NodeSpan(items[j], addrLen);
          }
        }
        return NotInRange;
      }
      var x := items[i];
      assert NodeOk(x, addrLen);
      CompareIsNumericOrder(x.first, key);
      if Compare(x.first, key) > 0 {
        HeldBeforeScanStop(items, Low(), High(), addrLen, i, a);
        return Occupied;
      }
      StatusInNode(items, Low(), High(), addrLen, i, a);
      ghost var xs := items;
      SplitRange(i, key, host);
      assert xs[i].FreeRange? && items == OccupyAt(xs, i, key, host);
      err := Ok;
    }

    /**
     * Replaces the free span items[i], which contains key, by the node
     * holding key for host and what is left of the span on either side,
     * computing the new span ends with the address increment and
     * decrement.
     */
    method SplitRange(i: nat, key: Address, host: string)
      requires Valid() && items != [] && i < |items| && items[i].FreeRange? && |key| == addrLen
      requires Lo(items[i]) <= ToNat(key) <= Hi(items[i])
      modifies this
      ensures items == OccupyAt(old(items), i, key, host)
      ensures Valid()
      ensures family == old(family) && addrLen == old(addrLen) && first == old(first) && last == old(last)
      ensures Status() == old(Status())[ToNat(key) := Some(Truncate(host))]
    {
      ghost var xs := items;
      assert NodeOk(items[i], addrLen);
      var mid := SplitSpan(items[i], key, host);
      items := items[..i] + mid + items[i + 1..];
      OccupyAtCorrect(xs, Low(), High(), addrLen, i, key, host);
      WithinBounds(xs, Low(), High(), addrLen, i);
      StatusMapUpdate(xs, items, Low(), High(), ToNat(key), Some(Truncate(host)));
    }

    /**
     * Frees the held address ip. Fails when the map is uninitialised or
     * ip is outside the bound; scanning the list, a free span ending at
     * or after ip first means ip is free (NotFound). The node holding ip
     * is merged into the free span just before it, or else into the free
     * span just after it, or else replaced by a one-address free span.
     */
    method Free(ip: seq<Byte>) returns (err: ErrorCode)
      requires Valid() && |ip| == IpAddrSize
      modifies this
      ensures Valid()
      ensures family == old(family) && addrLen == old(addrLen) && first == old(first) && last == old(last)
      ensures err in {Ok, Uninitialized, NotInRange, NotFound}
      ensures err == Uninitialized <==> old(items) == []
      ensures err == NotInRange <==> old(items) != [] && !InBounds(ip[..addrLen])
      ensures err == Ok <==>
                old(items) != [] && InBounds(ip[..addrLen]) && old(Status())[ToNat(ip[..addrLen])].Some?
      ensures err == Ok ==> Status() == old(Status())[ToNat(ip[..addrLen]) := None]
      ensures err == Ok ==>
                exists j :: 0 <= j < |old(items)| && old(items)[j].OccupiedIp? && old(items)[j].ip == ip[..addrLen]
                            && items == Release(old(items), j)
      ensures err != Ok ==> items == old(items)
    {
      err := CheckBounds(ip);
      if err != Ok {
        return;
      }
      var key := ip[..addrLen];
      ghost var a := ToNat(key);
      assert a in Status() && Status()[a] == StatusAt(items, a);
      var i := SeekNode(key);
      StatusInNode(items, Low(), High(), addrLen, i, a);
      if items[i].FreeRange? {
        return NotFound;
      }
      assert NodeOk(items[i], addrLen);
      ToNatInjective(items[i].ip, key);
      ghost var xs := items;
      ReleaseAt(i, key);
      assert xs[i].OccupiedIp? && xs[i].ip == key && items == Release(xs, i);
      err := Ok;
    }

    /**
     * Frees the occupied node items[i], which holds key, as the free
     * operation relinks the list.
     */
    method ReleaseAt(i: nat, key: Address)
      requires Valid() && items != [] && i < |items| && items[i].OccupiedIp? && items[i].ip == key
      modifies this
      ensures items == Release(old(items), i)
      ensures Valid()
      ensures family == old(family) && addrLen == old(addrLen) && first == old(first) && last == old(last)
      ensures Status() == old(Status())[ToNat(key) := None]
    {
      ghost var before := Status();
      ghost var xs := items;
      assert NodeOk(items[i], addrLen);
      ToNatBound(key);
      if i > 0 && items[i - 1].FreeRange? {
        var p := items[i - 1];
        assert NodeOk(p, addrLen);
        var l := Incremented(p.last);
        items := items[..i - 1] + [FreeRange(p.first, l)] + items[i + 1..];
      } else if i + 1 < |items| && items[i + 1].FreeRange? {
        var q := items[i + 1];
        assert NodeOk(q, addrLen);
        var f := Decremented(q.first);
        items := items[..i] + [FreeRange(f, q.last)] + items[i + 2..];
      } else {
        items := items[..i] + [FreeRange(key, key)] + items[i + 1..];
      }
      ReleaseCorrect(xs, Low(), High(), addrLen, i);
      WithinBounds(xs, Low(), High(), addrLen, i);
      StatusMapUpdate(xs, items, Low(), High(), ToNat(key), None);
    }

    /**
     * Looks up the address ip. Fails when the map is uninitialised or ip
     * is outside the bound; otherwise answers with the occupied node
     * holding ip, or with no node when ip is free.
     */
    method Lookup(ip: seq<Byte>) returns (err: ErrorCode, res: Option<Node>)
      requires Valid() && |ip| == IpAddrSize
      ensures err == Uninitialized <==> items == []
      ensures err == NotInRange <==> items != [] && !InBounds(ip[..addrLen])
      ensures err == Ok <==> items != [] && InBounds(ip[..addrLen])
      ensures err == Ok ==>
                res == if Status()[ToNat(ip[..addrLen])].Some?
                       then Some(OccupiedIp(ip[..addrLen], Status()[ToNat(ip[..addrLen])].value))
                       else None
      ensures err != Ok ==> res == None
    {
      res := None;
      err := CheckBounds(ip);
      if err != Ok {
        return;
      }
      var key := ip[..addrLen];
      ghost var a := ToNat(key);
      assert a in Status() && Status()[a] == StatusAt(items, a);
      var i := SeekNode(key);
      StatusInNode(items, Low(), High(), addrLen, i, a);
      if items[i].OccupiedIp? {
        assert NodeOk(items[i], addrLen);
        ToNatInjective(items[i].ip, key);
        res := Some(items[i]);
      }
    }
  }

  /**
   * An iterator over the nodes of a map's list of one status. next is
   * the part of the list not yet walked.
   */
  class RangeIterator {
    var family: Family
    var kind: nat
    var next: seq<Node>

    /** An iterator over the free spans of m. */
    constructor FreeAddrs(m: Range)
      ensures family == m.family && kind == IteratorFree && next == m.items
    {
      family := m.family;
      kind := IteratorFree;
      next := m.items;
    }

    /** An iterator over the held addresses of m. */
    constructor OccupiedAddrs(m: Range)
      ensures family == m.family && kind == IteratorOccupied && next == m.items
    {
      family := m.family;
      kind := IteratorOccupied;
      next := m.items;
    }

    /**
     * Skips nodes of the other status and yields the next node of the
     * iterator's status, or None when there is none left.
     */
    method Next() returns (item: Option<Node>)
      modifies this
      ensures family == old(family) && kind == old(kind)
      ensures Matching(old(next), kind) == (if item.Some? then [item.value] else []) + Matching(next, kind)
      ensures item.None? <==> Matching(old(next), kind) == []
      ensures item.None? ==> next == []
      ensures item.Some? ==> StatusOf(item.value) == kind
    {
      while next != [] && kind != StatusOf(next[0])
        invariant Matching(next, kind) == Matching(old(next), kind)
        invariant family == old(family) && kind == old(kind)
        decreases |next|
      {
        next := next[1..];
      }
      if next == [] {
        return None;
      }
      item := Some(next[0]);
      next := next[1..];
    }
  }
}
