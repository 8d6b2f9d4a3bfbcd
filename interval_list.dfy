/**
 * The interval list of a range: a sequence of nodes, each a free span
 * or one occupied address, sorted, disjoint and covering the range's
 * bound. This module states the list invariant, the status of each
 * address that the list encodes, and the splices that occupying and
 * freeing an address perform, with their correctness lemmas.
 */
module IntervalList {
  import opened RangeTypes
  import opened AddressMath

  /** The lowest address value a node covers. */
  function Lo(x: Node): nat
  {
    match x
    case FreeRange(f, _) => ToNat(f)
    case OccupiedIp(ip, _) => ToNat(ip)
  }

  /** The highest address value a node covers. */
  function Hi(x: Node): nat
  {
    match x
    case FreeRange(_, l) => ToNat(l)
    case OccupiedIp(ip, _) => ToNat(ip)
  }

  /**
   * A node for addresses of n bytes: a free span is never empty, and a
   * stored holder has at most MaxHostLen bytes.
   */
  ghost predicate NodeOk(x: Node, n: nat)
  {
    match x
    case FreeRange(f, l) => |f| == n && |l| == n && ToNat(f) <= ToNat(l)
    case OccupiedIp(ip, h) => |ip| == n && |h| <= MaxHostLen
  }

  /**
   * The list invariant: the nodes follow each other with no gap and no
   * overlap, from lo to hi; hence they are sorted and disjoint and
   * together cover exactly [lo, hi].
   */
  ghost predicate Covers(xs: seq<Node>, lo: nat, hi: nat, n: nat)
  {
    && |xs| > 0
    && Lo(xs[0]) == lo
    && Hi(xs[|xs| - 1]) == hi
    && (forall j :: 0 <= j < |xs| ==> NodeOk(xs[j], n))
    && (forall j :: 0 < j < |xs| ==> Lo(xs[j]) == Hi(xs[j - 1]) + 1)
  }

  /** The holder a node records for the addresses it covers. */
  function NodeStatus(x: Node): Option<string>
  {
    if x.OccupiedIp? then Some(x.host) else None
  }

  /** The holder of address value a: that of the first occupied node at a, if any. */
  function StatusAt(xs: seq<Node>, a: nat): Option<string>
  {
    if xs == [] then None
    else if xs[0].OccupiedIp? && ToNat(xs[0].ip) == a then Some(xs[0].host)
    else StatusAt(xs[1..], a)
  }

  lemma {:induction false} NodeSpan(x: Node, n: nat)
    requires NodeOk(x, n)
    ensures Lo(x) <= Hi(x)
  {
  }

  lemma {:induction false} StatusConcat(p: seq<Node>, q: seq<Node>, a: nat)
    ensures StatusAt(p + q, a) == if StatusAt(p, a).Some? then StatusAt(p, a) else StatusAt(q, a)
  {
    if p == [] {
      assert p + q == q;
    } else {
      assert (p + q)[1..] == p[1..] + q;
      StatusConcat(p[1..], q, a);
    }
  }

  /** Nodes that do not cover a say nothing about a. */
  lemma {:induction false} StatusAbsent(xs: seq<Node>, a: nat)
    requires forall j :: 0 <= j < |xs| ==> a < Lo(xs[j]) || Hi(xs[j]) < a
    ensures StatusAt(xs, a) == None
  {
    if xs != [] {
      StatusAbsent(xs[1..], a);
    }
  }

  /** Under the invariant, every node lies wholly below every later node. */
  lemma {:induction false} Ordered(xs: seq<Node>, lo: nat, hi: nat, n: nat, j: nat, k: nat)
    requires Covers(xs, lo, hi, n)
    requires j < k < |xs|
    ensures Hi(xs[j]) < Lo(xs[k])
    decreases k - j
  {
    if j < k - 1 {
      Ordered(xs, lo, hi, n, j, k - 1);
      NodeSpan(xs[k - 1], n);
    }
  }

  /** Under the invariant, every node lies within [lo, hi]. */
  lemma {:induction false} WithinBounds(xs: seq<Node>, lo: nat, hi: nat, n: nat, j: nat)
    requires Covers(xs, lo, hi, n)
    requires j < |xs|
    ensures lo <= Lo(xs[j]) <= Hi(xs[j]) <= hi
  {
    NodeSpan(xs[j], n);
    if 0 < j {
      Ordered(xs, lo, hi, n, 0, j);
      NodeSpan(xs[0], n);
    }
    if j < |xs| - 1 {
      Ordered(xs, lo, hi, n, j, |xs| - 1);
      NodeSpan(xs[|xs| - 1], n);
    }
  }

  /** The node covering a decides the status of a. */
  lemma {:induction false} StatusInNode(xs: seq<Node>, lo: nat, hi: nat, n: nat, j: nat, a: nat)
    requires Covers(xs, lo, hi, n)
    requires j < |xs| && Lo(xs[j]) <= a <= Hi(xs[j])
    ensures StatusAt(xs, a) == NodeStatus(xs[j])
  {
    var before, rest := xs[..j], xs[j + 1..];
    forall i | 0 <= i < |before|
      ensures a < Lo(before[i]) || Hi(before[i]) < a
    {
      Ordered(xs, lo, hi, n, i, j);
    }
    forall i | 0 <= i < |rest|
      ensures a < Lo(rest[i]) || Hi(rest[i]) < a
    {
      Ordered(xs, lo, hi, n, j, j + 1 + i);
    }
    assert xs == before + [xs[j]] + rest;
    StatusBetween(before, [xs[j]], rest, a);
    assert [xs[j]][1..] == [];
  }

  /** Every address of [lo, hi] is covered by some node. */
  lemma {:induction false} Locate(xs: seq<Node>, lo: nat, hi: nat, n: nat, a: nat) returns (j: nat)
    requires Covers(xs, lo, hi, n)
    requires lo <= a <= hi
    ensures j < |xs| && Lo(xs[j]) <= a <= Hi(xs[j])
  {
    j := 0;
    while Hi(xs[j]) < a
      invariant j < |xs| && Lo(xs[j]) <= a
      decreases |xs| - j
    {
      j := j + 1;
    }
  }

  /**
   * Replacing the nodes xs[s..e] by nodes that cover exactly the same
   * addresses keeps the invariant.
   */
  lemma {:induction false} SpliceCovers(xs: seq<Node>, lo: nat, hi: nat, n: nat, s: nat, e: nat, mid: seq<Node>)
    requires Covers(xs, lo, hi, n)
    requires s < e <= |xs|
    requires Covers(mid, Lo(xs[s]), Hi(xs[e - 1]), n)
    ensures Covers(xs[..s] + mid + xs[e..], lo, hi, n)
  {
    var ys := xs[..s] + mid + xs[e..];
    var m := |mid|;
    forall j | 0 <= j < |ys|
      ensures NodeOk(ys[j], n)
    {
      SpliceAt(xs, s, e, mid, j);
    }
    forall j | 0 < j < |ys|
      ensures Lo(ys[j]) == Hi(ys[j - 1]) + 1
    {
      SpliceAt(xs, s, e, mid, j);
      SpliceAt(xs, s, e, mid, j - 1);
      if j == s {
        assert Lo(mid[0]) == Lo(xs[s]);
      } else if j == s + m {
        assert Hi(mid[m - 1]) == Hi(xs[e - 1]);
      }
    }
    SpliceAt(xs, s, e, mid, 0);
    SpliceAt(xs, s, e, mid, |ys| - 1);
  }

  /** The node at position j of the list xs with xs[s..e] replaced by mid. */
  lemma {:induction false} SpliceAt(xs: seq<Node>, s: nat, e: nat, mid: seq<Node>, j: nat)
    requires s <= e <= |xs| && j < |xs| - (e - s) + |mid|
    ensures |xs[..s] + mid + xs[e..]| == |xs| - (e - s) + |mid|
    ensures (xs[..s] + mid + xs[e..])[j] ==
              if j < s then xs[j]
              else if j < s + |mid| then mid[j - s]
              else xs[j - s - |mid| + e]
  {
  }

  /** Nodes wholly on one side of a say nothing about a. */
  lemma {:induction false} SliceAbsent(xs: seq<Node>, lo: nat, hi: nat, n: nat, s: nat, e: nat, a: nat)
    requires Covers(xs, lo, hi, n)
    requires s < e <= |xs|
    requires a < Lo(xs[s]) || Hi(xs[e - 1]) < a
    ensures StatusAt(xs[s..e], a) == None
  {
    var q := xs[s..e];
    forall i | 0 <= i < |q|
      ensures a < Lo(q[i]) || Hi(q[i]) < a
    {
      assert q[i] == xs[s + i];
      NodeSpan(xs[s + i], n);
      if 0 < i {
        Ordered(xs, lo, hi, n, s, s + i);
        NodeSpan(xs[s], n);
      }
      if s + i < e - 1 {
        Ordered(xs, lo, hi, n, s + i, e - 1);
        NodeSpan(xs[e - 1], n);
      }
    }
    StatusAbsent(q, a);
  }

  /**
   * After the same splice, an address of the replaced nodes gets the
   * status the new nodes give it.
   */
  lemma {:induction false} SpliceStatusInside(xs: seq<Node>, lo: nat, hi: nat, n: nat, s: nat, e: nat, mid: seq<Node>, a: nat)
    requires Covers(xs, lo, hi, n)
    requires s < e <= |xs|
    requires Lo(xs[s]) <= a <= Hi(xs[e - 1])
    ensures StatusAt(xs[..s] + mid + xs[e..], a) == StatusAt(mid, a)
    ensures StatusAt(xs, a) == StatusAt(xs[s..e], a)
  {
    var p, q, r := xs[..s], xs[s..e], xs[e..];
    forall i | 0 <= i < |p|
      ensures a < Lo(p[i]) || Hi(p[i]) < a
    {
      Ordered(xs, lo, hi, n, i, s);
    }
    forall i | 0 <= i < |r|
      ensures a < Lo(r[i]) || Hi(r[i]) < a
    {
      Ordered(xs, lo, hi, n, e - 1, e + i);
    }
    StatusBetween(p, mid, r, a);
    assert xs == p + q + r;
    StatusBetween(p, q, r, a);
  }

  /** Nodes on either side of m that do not cover a leave m to decide its status. */
  lemma {:induction false} StatusBetween(p: seq<Node>, m: seq<Node>, r: seq<Node>, a: nat)
    requires forall i :: 0 <= i < |p| ==> a < Lo(p[i]) || Hi(p[i]) < a
    requires forall i :: 0 <= i < |r| ==> a < Lo(r[i]) || Hi(r[i]) < a
    ensures StatusAt(p + m + r, a) == StatusAt(m, a)
  {
    assert p + m + r == p + (m + r);
    StatusConcat(p, m + r, a);
    StatusConcat(m, r, a);
    StatusAbsent(p, a);
    StatusAbsent(r, a);
  }

  /** After the same splice, every address outside the replaced nodes keeps its status. */
  lemma {:induction false} SpliceStatusOutside(xs: seq<Node>, lo: nat, hi: nat, n: nat, s: nat, e: nat, mid: seq<Node>, a: nat)
    requires Covers(xs, lo, hi, n)
    requires s < e <= |xs|
    requires Covers(mid, Lo(xs[s]), Hi(xs[e - 1]), n)
    requires a < Lo(xs[s]) || Hi(xs[e - 1]) < a
    ensures StatusAt(xs[..s] + mid + xs[e..], a) == StatusAt(xs, a)
  {
    var p, q, r := xs[..s], xs[s..e], xs[e..];
    forall i | 0 <= i < |mid|
      ensures a < Lo(mid[i]) || Hi(mid[i]) < a
    {
      WithinBounds(mid, Lo(xs[s]), Hi(xs[e - 1]), n, i);
    }
    StatusAbsent(mid, a);
    SliceAbsent(xs, lo, hi, n, s, e, a);
    StatusSkip(p, mid, r, a);
    assert xs == p + q + r;
    StatusSkip(p, q, r, a);
  }

  /** Nodes with nothing to say about a can be dropped from the middle of a list. */
  lemma {:induction false} StatusSkip(p: seq<Node>, m: seq<Node>, r: seq<Node>, a: nat)
    requires StatusAt(m, a) == None
    ensures StatusAt(p + m + r, a) == StatusAt(p + r, a)
  {
    assert p + m + r == p + (m + r);
    StatusConcat(p, m + r, a);
    StatusConcat(m, r, a);
    StatusConcat(p, r, a);
  }

  /**
   * The nodes that replace the free span x when the address key inside
   * it becomes held by host: the span loses its first address, its last
   * address, or is cut in two around key; a one-address span is replaced
   * by the occupied node alone.
   */
  function SplitNodes(x: Node, key: Address, host: string): (r: seq<Node>)
    requires x.FreeRange?
    ensures 1 <= |r| <= 3 && SplitIndex(x, key) < |r|
    ensures r[SplitIndex(x, key)] == OccupiedIp(key, Truncate(host))
    ensures forall j :: 0 <= j < |r| && j != SplitIndex(x, key) ==> r[j].FreeRange?
  {
    var held := OccupiedIp(key, Truncate(host));
    if key == x.first then
      if x.first == x.last then [held] else [held, FreeRange(Inc(x.first).0, x.last)]
    else if key == x.last then
      [FreeRange(x.first, Dec(x.last).0), held]
    else
      [FreeRange(x.first, Dec(key).0), held, FreeRange(Inc(key).0, x.last)]
  }

  /** Where the occupied node stands among SplitNodes(x, key, host). */
  function SplitIndex(x: Node, key: Address): nat
    requires x.FreeRange?
  {
    if key == x.first then 0 else 1
  }

  /** The list after the address key of the free span xs[i] becomes held by host. */
  function OccupyAt(xs: seq<Node>, i: nat, key: Address, host: string): (r: seq<Node>)
    requires i < |xs| && xs[i].FreeRange?
    ensures |xs| <= |r| <= |xs| + 2
    ensures r[..i] == xs[..i]
    ensures i + SplitIndex(xs[i], key) < |r| - (|xs| - i - 1)
    ensures r[i + SplitIndex(xs[i], key)] == OccupiedIp(key, Truncate(host))
    ensures r[|r| - (|xs| - i - 1)..] == xs[i + 1..]
  {
    xs[..i] + SplitNodes(xs[i], key, host) + xs[i + 1..]
  }

  /** The status of a two-node list. */
  lemma {:induction false} StatusPair(x: Node, y: Node, a: nat)
    ensures StatusAt([x, y], a) == if StatusAt([x], a).Some? then StatusAt([x], a) else StatusAt([y], a)
  {
    StatusConcat([x], [y], a);
    assert [x] + [y] == [x, y];
  }

  /** Occupying the first address of a span of two or more. */
  lemma {:induction false} SplitFirst(f: Address, l: Address, host: string, n: nat)
    requires |f| == n && |l| == n && ToNat(f) < ToNat(l)
    ensures var held := OccupiedIp(f, Truncate(host));
            var mid := [held, FreeRange(Inc(f).0, l)];
            && Covers(mid, ToNat(f), ToNat(l), n)
            && forall a: nat :: StatusAt(mid, a) == if a == ToNat(f) then Some(Truncate(host)) else None
  {
    ToNatBound(l);
    IncValue(f);
    var held := OccupiedIp(f, Truncate(host));
    forall a: nat
      ensures StatusAt([held, FreeRange(Inc(f).0, l)], a) == if a == ToNat(f) then Some(Truncate(host)) else None
    {
      StatusPair(held, FreeRange(Inc(f).0, l), a);
    }
  }

  /** Occupying the last address of a span of two or more. */
  lemma {:induction false} SplitLast(f: Address, l: Address, host: string, n: nat)
    requires |f| == n && |l| == n && ToNat(f) < ToNat(l)
    ensures var held := OccupiedIp(l, Truncate(host));
            var mid := [FreeRange(f, Dec(l).0), held];
            && Covers(mid, ToNat(f), ToNat(l), n)
            && forall a: nat :: StatusAt(mid, a) == if a == ToNat(l) then Some(Truncate(host)) else None
  {
    DecValue(l);
    var held := OccupiedIp(l, Truncate(host));
    forall a: nat
      ensures StatusAt([FreeRange(f, Dec(l).0), held], a) == if a == ToNat(l) then Some(Truncate(host)) else None
    {
      StatusPair(FreeRange(f, Dec(l).0), held, a);
    }
  }

  /** Occupying an address strictly inside a span. */
  lemma {:induction false} SplitInterior(f: Address, key: Address, l: Address, host: string, n: nat)
    requires |f| == n && |key| == n && |l| == n && ToNat(f) < ToNat(key) < ToNat(l)
    ensures var held := OccupiedIp(key, Truncate(host));
            var mid := [FreeRange(f, Dec(key).0), held, FreeRange(Inc(key).0, l)];
            && Covers(mid, ToNat(f), ToNat(l), n)
            && forall a: nat :: StatusAt(mid, a) == if a == ToNat(key) then Some(Truncate(host)) else None
  {
    ToNatBound(l);
    IncValue(key);
    DecValue(key);
    var held := OccupiedIp(key, Truncate(host));
    var mid := [FreeRange(f, Dec(key).0), held, FreeRange(Inc(key).0, l)];
    forall a: nat
      ensures StatusAt(mid, a) == if a == ToNat(key) then Some(Truncate(host)) else None
    {
      StatusPair(held, FreeRange(Inc(key).0, l), a);
      StatusConcat([mid[0]], [held, FreeRange(Inc(key).0, l)], a);
      assert [mid[0]] + [held, FreeRange(Inc(key).0, l)] == mid;
    }
  }

  /**
   * In each of the three split cases the new nodes cover exactly the
   * span they replace, create no empty span, and hold only key; the
   * increments and decrements never overflow.
   */
  lemma {:induction false} SplitCovers(x: Node, key: Address, host: string, n: nat)
    requires x.FreeRange? && NodeOk(x, n) && |key| == n
    requires Lo(x) <= ToNat(key) <= Hi(x)
    ensures Covers(SplitNodes(x, key, host), Lo(x), Hi(x), n)
    ensures forall a: nat :: StatusAt(SplitNodes(x, key, host), a) ==
                               if a == ToNat(key) then Some(Truncate(host)) else None
    ensures SplitIndex(x, key) < |SplitNodes(x, key, host)|
    ensures SplitNodes(x, key, host)[SplitIndex(x, key)] == OccupiedIp(key, Truncate(host))
  {
    var f, l := x.first, x.last;
    CompareIsNumericOrder(f, key);
    CompareIsNumericOrder(key, l);
    CompareIsNumericOrder(f, l);
    if key == f {
      if f != l {
        SplitFirst(f, l, host, n);
      }
    } else if key == l {
      SplitLast(f, l, host, n);
    } else {
      SplitInterior(f, key, l, host, n);
    }
  }

  /**
   * Occupying an address of a free span keeps the list invariant, makes
   * that address held by the truncated host and leaves every other
   * address as it was.
   */
  lemma {:induction false} OccupyAtCorrect(xs: seq<Node>, lo: nat, hi: nat, n: nat, i: nat, key: Address, host: string)
    requires Covers(xs, lo, hi, n)
    requires i < |xs| && xs[i].FreeRange? && |key| == n
    requires Lo(xs[i]) <= ToNat(key) <= Hi(xs[i])
    ensures Covers(OccupyAt(xs, i, key, host), lo, hi, n)
    ensures forall a: nat :: StatusAt(OccupyAt(xs, i, key, host), a) ==
                               if a == ToNat(key) then Some(Truncate(host)) else StatusAt(xs, a)
  {
    var mid := SplitNodes(xs[i], key, host);
    var ys := OccupyAt(xs, i, key, host);
    assert ys == xs[..i] + mid + xs[i + 1..];
    SplitCovers(xs[i], key, host, n);
    SpliceCovers(xs, lo, hi, n, i, i + 1, mid);
    forall a: nat
      ensures StatusAt(ys, a) == if a == ToNat(key) then Some(Truncate(host)) else StatusAt(xs, a)
    {
      assert StatusAt(mid, a) == if a == ToNat(key) then Some(Truncate(host)) else None;
      SpliceHoldsAt(xs, lo, hi, n, i, mid, ToNat(key), Truncate(host), a);
    }
  }

  /**
   * Replacing the free node xs[i] by nodes covering the same span that
   * hold only address k makes k held by h and changes nothing else.
   */
  lemma {:induction false} SpliceHoldsAt(xs: seq<Node>, lo: nat, hi: nat, n: nat, i: nat, mid: seq<Node>, k: nat, h: string, a: nat)
    requires Covers(xs, lo, hi, n)
    requires i < |xs| && xs[i].FreeRange? && Lo(xs[i]) <= k <= Hi(xs[i])
    requires Covers(mid, Lo(xs[i]), Hi(xs[i]), n)
    requires StatusAt(mid, a) == if a == k then Some(h) else None
    ensures StatusAt(xs[..i] + mid + xs[i + 1..], a) == if a == k then Some(h) else StatusAt(xs, a)
  {
    if Lo(xs[i]) <= a <= Hi(xs[i]) {
      SpliceStatusInside(xs, lo, hi, n, i, i + 1, mid, a);
      StatusInNode(xs, lo, hi, n, i, a);
    } else {
      SpliceStatusOutside(xs, lo, hi, n, i, i + 1, mid, a);
    }
  }

  /**
   * The list after the occupied node xs[i] is freed: the free span just
   * before it is extended by one address; or else the free span just
   * after it is extended down by one address; or else a one-address
   * free span takes its place. A free span after it is never merged
   * with one before it.
   */
  function Release(xs: seq<Node>, i: nat): (r: seq<Node>)
    requires i < |xs| && xs[i].OccupiedIp?
    ensures |xs| - 1 <= |r| <= |xs|
    ensures i > 0 ==> r[..i - 1] == xs[..i - 1]
    ensures forall j :: 0 <= j < |r| && r[j].OccupiedIp? ==> r[j] in xs[..i] || r[j] in xs[i + 1..]
  {
    if i > 0 && xs[i - 1].FreeRange? then
      xs[..i - 1] + [FreeRange(xs[i - 1].first, Inc(xs[i - 1].last).0)] + xs[i + 1..]
    else if i + 1 < |xs| && xs[i + 1].FreeRange? then
      xs[..i] + [FreeRange(Dec(xs[i + 1].first).0, xs[i + 1].last)] + xs[i + 2..]
    else
      xs[..i] + [FreeRange(xs[i].ip, xs[i].ip)] + xs[i + 1..]
  }

  /**
   * Replacing the nodes xs[s..e] (all free except the occupied xs[i]) by
   * free nodes covering the same span frees xs[i]'s address and changes
   * nothing else.
   */
  lemma {:induction false} ReleaseSplice(xs: seq<Node>, lo: nat, hi: nat, n: nat, s: nat, e: nat, i: nat, mid: seq<Node>, ys: seq<Node>)
    requires Covers(xs, lo, hi, n)
    requires s <= i < e <= |xs| && xs[i].OccupiedIp?
    requires forall k :: s <= k < e && k != i ==> xs[k].FreeRange?
    requires |mid| == 1 && mid[0].FreeRange?
    requires Covers(mid, Lo(xs[s]), Hi(xs[e - 1]), n)
    requires ys == xs[..s] + mid + xs[e..]
    ensures Covers(ys, lo, hi, n)
    ensures forall a: nat :: StatusAt(ys, a) == if a == ToNat(xs[i].ip) then None else StatusAt(xs, a)
  {
    SpliceCovers(xs, lo, hi, n, s, e, mid);
    forall a: nat
      ensures StatusAt(ys, a) == if a == ToNat(xs[i].ip) then None else StatusAt(xs, a)
    {
      ReleaseSpliceAt(xs, lo, hi, n, s, e, i, mid, a);
    }
  }

  lemma {:induction false} ReleaseSpliceAt(xs: seq<Node>, lo: nat, hi: nat, n: nat, s: nat, e: nat, i: nat, mid: seq<Node>, a: nat)
    requires Covers(xs, lo, hi, n)
    requires s <= i < e <= |xs| && xs[i].OccupiedIp?
    requires forall k :: s <= k < e && k != i ==> xs[k].FreeRange?
    requires |mid| == 1 && mid[0].FreeRange?
    requires Covers(mid, Lo(xs[s]), Hi(xs[e - 1]), n)
    ensures StatusAt(xs[..s] + mid + xs[e..], a) == if a == ToNat(xs[i].ip) then None else StatusAt(xs, a)
  {
    if Lo(xs[s]) <= a <= Hi(xs[e - 1]) {
      SpliceStatusInside(xs, lo, hi, n, s, e, mid, a);
      assert StatusAt(mid, a) == StatusAt(mid[1..], a);
      if a != ToNat(xs[i].ip) {
        FreedSpanWasFree(xs, lo, hi, n, s, e, i, a);
      }
    } else {
      SpliceStatusOutside(xs, lo, hi, n, s, e, mid, a);
      InsideSpan(xs, lo, hi, n, s, e, i);
    }
  }

  /** The replaced nodes xs[s..e] lie between Lo(xs[s]) and Hi(xs[e - 1]). */
  lemma {:induction false} InsideSpan(xs: seq<Node>, lo: nat, hi: nat, n: nat, s: nat, e: nat, i: nat)
    requires Covers(xs, lo, hi, n)
    requires s <= i < e <= |xs|
    ensures Lo(xs[s]) <= Lo(xs[i]) <= Hi(xs[i]) <= Hi(xs[e - 1])
  {
    NodeSpan(xs[s], n);
    NodeSpan(xs[i], n);
    NodeSpan(xs[e - 1], n);
    if s < i {
      Ordered(xs, lo, hi, n, s, i);
    }
    if i < e - 1 {
      Ordered(xs, lo, hi, n, i, e - 1);
    }
  }

  /** Within the replaced nodes, every address but the held one was free. */
  lemma {:induction false} FreedSpanWasFree(xs: seq<Node>, lo: nat, hi: nat, n: nat, s: nat, e: nat, i: nat, a: nat)
    requires Covers(xs, lo, hi, n)
    requires s <= i < e <= |xs| && xs[i].OccupiedIp?
    requires forall k :: s <= k < e && k != i ==> xs[k].FreeRange?
    requires Lo(xs[s]) <= a <= Hi(xs[e - 1]) && a != ToNat(xs[i].ip)
    ensures StatusAt(xs, a) == None
  {
    WithinBounds(xs, lo, hi, n, s);
    WithinBounds(xs, lo, hi, n, e - 1);
    var j := Locate(xs, lo, hi, n, a);
    StatusInNode(xs, lo, hi, n, j, a);
    if j < s {
      Ordered(xs, lo, hi, n, j, s);
    } else if e <= j {
      Ordered(xs, lo, hi, n, e - 1, j);
    }
  }

  /**
   * Freeing an occupied node keeps the list invariant, makes its address
   * free and leaves every other address as it was.
   */
  lemma {:induction false} ReleaseCorrect(xs: seq<Node>, lo: nat, hi: nat, n: nat, i: nat)
    requires Covers(xs, lo, hi, n)
    requires i < |xs| && xs[i].OccupiedIp?
    ensures Covers(Release(xs, i), lo, hi, n)
    ensures forall a: nat :: StatusAt(Release(xs, i), a) ==
                               if a == ToNat(xs[i].ip) then None else StatusAt(xs, a)
  {
    if i > 0 && xs[i - 1].FreeRange? {
      ReleaseIntoPrevious(xs, lo, hi, n, i);
    } else if i + 1 < |xs| && xs[i + 1].FreeRange? {
      ReleaseIntoNext(xs, lo, hi, n, i);
    } else {
      var ip := xs[i].ip;
      ReleaseSplice(xs, lo, hi, n, i, i + 1, i, [FreeRange(ip, ip)], Release(xs, i));
    }
  }

  /** The free span before the freed node grows by one address. */
  lemma {:induction false} ReleaseIntoPrevious(xs: seq<Node>, lo: nat, hi: nat, n: nat, i: nat)
    requires Covers(xs, lo, hi, n)
    requires 0 < i < |xs| && xs[i].OccupiedIp? && xs[i - 1].FreeRange?
    ensures Covers(Release(xs, i), lo, hi, n)
    ensures forall a: nat :: StatusAt(Release(xs, i), a) ==
                               if a == ToNat(xs[i].ip) then None else StatusAt(xs, a)
  {
    var p := xs[i - 1];
    var l := Inc(p.last).0;
    assert NodeOk(xs[i], n) && NodeOk(p, n) && Lo(xs[i]) == Hi(p) + 1;
    ToNatBound(xs[i].ip);
    IncValue(p.last);
    OneSpanCovers(p.first, l, n);
    ReleaseSplice(xs, lo, hi, n, i - 1, i + 1, i, [FreeRange(p.first, l)], Release(xs, i));
  }

  /** The free span after the freed node grows down by one address. */
  lemma {:induction false} ReleaseIntoNext(xs: seq<Node>, lo: nat, hi: nat, n: nat, i: nat)
    requires Covers(xs, lo, hi, n)
    requires i + 1 < |xs| && xs[i].OccupiedIp? && xs[i + 1].FreeRange?
    requires i == 0 || xs[i - 1].OccupiedIp?
    ensures Covers(Release(xs, i), lo, hi, n)
    ensures forall a: nat :: StatusAt(Release(xs, i), a) ==
                               if a == ToNat(xs[i].ip) then None else StatusAt(xs, a)
  {
    var q := xs[i + 1];
    var f := Dec(q.first).0;
    assert NodeOk(xs[i], n) && NodeOk(q, n) && Lo(q) == Hi(xs[i]) + 1;
    DecValue(q.first);
    OneSpanCovers(f, q.last, n);
    ReleaseSplice(xs, lo, hi, n, i, i + 2, i, [FreeRange(f, q.last)], Release(xs, i));
  }

  /** A single free span covers exactly its own addresses. */
  lemma {:induction false} OneSpanCovers(f: Address, l: Address, n: nat)
    requires |f| == n && |l| == n && ToNat(f) <= ToNat(l)
    ensures Covers([FreeRange(f, l)], ToNat(f), ToNat(l), n)
  {
  }

  /**
   * Occupying a free address and then freeing it restores the status of
   * every address.
   */
  lemma {:induction false} OccupyThenReleaseRestoresStatus(xs: seq<Node>, lo: nat, hi: nat, n: nat, i: nat, key: Address, host: string)
    requires Covers(xs, lo, hi, n)
    requires i < |xs| && xs[i].FreeRange? && |key| == n
    requires Lo(xs[i]) <= ToNat(key) <= Hi(xs[i])
    ensures var ys := OccupyAt(xs, i, key, host);
            var j := i + SplitIndex(xs[i], key);
            && j < |ys| && ys[j] == OccupiedIp(key, Truncate(host))
            && forall a: nat :: StatusAt(Release(ys, j), a) == StatusAt(xs, a)
  {
    var ys := OccupyAt(xs, i, key, host);
    var j := i + SplitIndex(xs[i], key);
    SplitCovers(xs[i], key, host, n);
    assert ys[j] == SplitNodes(xs[i], key, host)[SplitIndex(xs[i], key)];
    OccupyAtCorrect(xs, lo, hi, n, i, key, host);
    ReleaseCorrect(ys, lo, hi, n, j);
    StatusInNode(xs, lo, hi, n, i, ToNat(key));
  }

  /**
   * The span boundaries are not restored: occupying the middle address
   * of a three-address span and freeing it again leaves two adjacent
   * free spans.
   */
  lemma {:induction false} RoundTripKeepsSplit()
    ensures var xs := [FreeRange([10, 0, 0, 0], [10, 0, 0, 2])];
            var r := Release(OccupyAt(xs, 0, [10, 0, 0, 1], "h"), 1);
            && r == [FreeRange([10, 0, 0, 0], [10, 0, 0, 1]), FreeRange([10, 0, 0, 2], [10, 0, 0, 2])]
            && r != xs
  {
    var xs := [FreeRange([10, 0, 0, 0], [10, 0, 0, 2])];
    var key: Address := [10, 0, 0, 1];
    assert Dec(key).0 == [10, 0, 0, 0];
    assert Inc(key).0 == [10, 0, 0, 2];
    var ys := OccupyAt(xs, 0, key, "h");
    assert ys == [FreeRange([10, 0, 0, 0], [10, 0, 0, 0]), OccupiedIp(key, "h"), FreeRange([10, 0, 0, 2], [10, 0, 0, 2])];
    assert Inc([10, 0, 0, 0]).0 == [10, 0, 0, 1];
  }

  /**
   * Freeing as the source writes it: the freed node is unlinked through
   * its predecessor's next link in every branch, so when it is the
   * first node of the list (no predecessor) the write goes through a
   * null reference and no list results.
   */
  function ReleaseAsWritten(xs: seq<Node>, i: nat): (r: Option<seq<Node>>)
    requires i < |xs| && xs[i].OccupiedIp?
    ensures r.None? <==> i == 0
    ensures r.Some? ==> r.value == Release(xs, i)
  {
    if i == 0 then None else Some(Release(xs, i))
  }

  /**
   * A first node that is occupied arises from occupying the first
   * address of a list; freeing it fails as written, while Release
   * relinks the head and makes the address free again.
   */
  lemma {:induction false} ReleaseHeadAsWrittenFails(xs: seq<Node>, lo: nat, hi: nat, n: nat, host: string)
    requires Covers(xs, lo, hi, n) && xs[0].FreeRange?
    ensures var ys := OccupyAt(xs, 0, xs[0].first, host);
            && ys[0] == OccupiedIp(xs[0].first, Truncate(host))
            && ReleaseAsWritten(ys, 0) == None
            && Covers(Release(ys, 0), lo, hi, n)
            && forall a: nat :: StatusAt(Release(ys, 0), a) == StatusAt(xs, a)
  {
    NodeSpan(xs[0], n);
    OccupyThenReleaseRestoresStatus(xs, lo, hi, n, 0, xs[0].first, host);
    OccupyAtCorrect(xs, lo, hi, n, 0, xs[0].first, host);
    ReleaseCorrect(OccupyAt(xs, 0, xs[0].first, host), lo, hi, n, 0);
  }

  /** Some free span of xs lies wholly above address value a. */
  ghost predicate FreeAbove(xs: seq<Node>, a: nat)
  {
    exists j :: 0 <= j < |xs| && xs[j].FreeRange? && a < Lo(xs[j])
  }

  /**
   * If no free span before position i reaches a, and the node at i (if
   * any) starts above a, then a is held.
   */
  lemma {:induction false} HeldBeforeScanStop(xs: seq<Node>, lo: nat, hi: nat, n: nat, i: nat, a: nat)
    requires Covers(xs, lo, hi, n) && lo <= a <= hi
    requires i <= |xs|
    requires forall j :: 0 <= j < i ==> xs[j].OccupiedIp? || Hi(xs[j]) < a
    requires i < |xs| ==> a < Lo(xs[i])
    ensures StatusAt(xs, a).Some?
  {
    var j := Locate(xs, lo, hi, n, a);
    if i <= j {
      if i < j {
        Ordered(xs, lo, hi, n, i, j);
        NodeSpan(xs[i], n);
      }
    }
    StatusInNode(xs, lo, hi, n, j, a);
  }

  /** The nodes of xs whose status code is kind, in list order. */
  function Matching(xs: seq<Node>, kind: nat): (r: seq<Node>)
    ensures forall k :: 0 <= k < |r| ==> StatusOf(r[k]) == kind
    ensures multiset(r) <= multiset(xs)
  {
    if xs == [] then []
    else
      assert xs == [xs[0]] + xs[1..];
      (if StatusOf(xs[0]) == kind then [xs[0]] else []) + Matching(xs[1..], kind)
  }

  /**
   * The free-node and occupied-node filters together yield every node
   * of the list exactly once.
   */
  lemma {:induction false} MatchingPartition(xs: seq<Node>)
    ensures multiset(Matching(xs, IteratorFree)) + multiset(Matching(xs, IteratorOccupied)) == multiset(xs)
    ensures |Matching(xs, IteratorFree)| + |Matching(xs, IteratorOccupied)| == |xs|
  {
    if xs != [] {
      assert xs == [xs[0]] + xs[1..];
      MatchingPartition(xs[1..]);
    }
  }

  /** A node is yielded by the kind filter exactly when it is in the list with that status. */
  lemma {:induction false} MatchingMembers(xs: seq<Node>, kind: nat, y: Node)
    ensures y in Matching(xs, kind) <==> y in xs && StatusOf(y) == kind
  {
    if xs != [] {
      assert xs == [xs[0]] + xs[1..];
      MatchingMembers(xs[1..], kind, y);
    }
  }

  /**
   * Under the invariant, the free spans the free filter yields cover
   * exactly the free addresses of the bound.
   */
  lemma {:induction false} FreeSpansCoverFreeAddresses(xs: seq<Node>, lo: nat, hi: nat, n: nat, a: nat)
    requires Covers(xs, lo, hi, n) && lo <= a <= hi
    ensures StatusAt(xs, a) == None <==>
              exists y :: y in Matching(xs, IteratorFree) && Lo(y) <= a <= Hi(y)
  {
    var j := Locate(xs, lo, hi, n, a);
    StatusInNode(xs, lo, hi, n, j, a);
    MatchingMembers(xs, IteratorFree, xs[j]);
    if y :| y in Matching(xs, IteratorFree) && Lo(y) <= a <= Hi(y) {
      MatchingMembers(xs, IteratorFree, y);
      var k :| 0 <= k < |xs| && xs[k] == y;
      StatusInNode(xs, lo, hi, n, k, a);
    }
  }

  /**
   * Under the invariant, the nodes the occupied filter yields are
   * exactly the held addresses of the bound, each with its holder.
   */
  lemma {:induction false} HeldNodesAreHeldAddresses(xs: seq<Node>, lo: nat, hi: nat, n: nat, ip: Address, h: string)
    requires Covers(xs, lo, hi, n) && |ip| == n && lo <= ToNat(ip) <= hi
    ensures StatusAt(xs, ToNat(ip)) == Some(h) <==> OccupiedIp(ip, h) in Matching(xs, IteratorOccupied)
  {
    var a := ToNat(ip);
    var j := Locate(xs, lo, hi, n, a);
    StatusInNode(xs, lo, hi, n, j, a);
    MatchingMembers(xs, IteratorOccupied, OccupiedIp(ip, h));
    if xs[j].OccupiedIp? {
      ToNatInjective(xs[j].ip, ip);
    }
    if OccupiedIp(ip, h) in xs {
      var k :| 0 <= k < |xs| && xs[k] == OccupiedIp(ip, h);
      StatusInNode(xs, lo, hi, n, k, a);
    }
  }
}
