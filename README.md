# Net-IP-Range address pool, modelled in Dafny

This project models the allocator of the `Net--IP--Range` C library. A
range map holds a contiguous bound of IPv4 or IPv6 addresses `[first,
last]` and a sorted interval list. Each node of the list is either a
span of free addresses or a single address held by a named host. The
map supports these operations:

- initialising the bound from two binary addresses, from two address
  texts, or from a CIDR text;
- occupying, freeing and looking up an address;
- walking the free spans or the held addresses with an iterator.

Modules:

- `RangeTypes` (`types.dfy`) covers the header: the 16-byte address
  buffer, the two node shapes, the status, iterator and error codes, and
  the truncation of host names to 255 bytes.
- `AddressMath` (`address.dfy`) covers addresses as big-endian byte
  sequences. It has their numeric value, the `memcmp` comparison and the
  in-place increment and decrement loops over a buffer.
- `IntervalList` (`interval_list.dfy`) covers the list invariant
  (`Covers`: the nodes follow each other from `first` to `last` with no
  gap and no overlap) and the status each address has under it. It
  defines the occupy splice (`OccupyAt`), the free splice (`Release`) and
  the filters the iterators apply.
- `Bounds` (`bounds.dfy`) covers how a text selects the family, the last
  address of a CIDR network, and the bound check of text
  initialisation as written.
- `RangeMap` (`range.dfy`) holds the `Range` class: the map whose
  methods update its fields in place. It also holds the `RangeIterator`
  class, whose cursor `Next` advances.

The list is a sequence of nodes. An uninitialised map (a null list) is
the empty sequence. Each operation is stated against `Status()`, a map
from every address value of the bound to its holder (`None` when free).

Three places where the model follows the code rather than what an
address pool would be expected to do:

- Freeing an address extends the free span before it, or else the one
  after it, but never merges the two. A pool that coalesces would join
  the two neighbouring free spans into one. After a free, two adjacent
  free spans can remain (`IntervalList.RoundTripKeepsSplit`).
- Occupying an address that is already held returns `NotInRange`, not
  the expected `Occupied`, when no free span lies above it. The scan at
  src/range.c:185-203 looks only at free spans. It answers `Occupied`
  only on reaching a free span above the address, and otherwise falls
  off the end of the list.
- A CIDR text with host bits set, such as 10.0.0.5/24, is accepted. A
  strict parser would reject it as not a network address. Here `first`
  keeps the host bits as converted (src/range.c:116), and `last` is
  10.0.0.255 (`Bounds.NetworkLastExamples`), so the pool is
  10.0.0.5-10.0.0.255.

## Model

| member | source | states |
|---|---|---|
| RangeTypes.AddrLen | src/range.h:11 | an IPv4 address has 4 significant bytes, an IPv6 address all 16 of the buffer |
| RangeTypes.StatusOf | src/range.h:13-30 | a node's status code is STATUS_FREE exactly for a free span and STATUS_OCCUPIED exactly for a held address |
| RangeTypes.FilterCodesAreStatusCodes | src/range.h:51-63 | ITERATOR_FREE selects exactly the free spans and ITERATOR_OCCUPIED exactly the held addresses, so next can compare them with the status |
| RangeTypes.Code | src/range.h:69-81 | ERR_OK is 0 and only ERR_OK is 0; every code is at most 10 |
| RangeTypes.CodeInjective | src/range.h:69-81 | distinct error codes have distinct values |
| RangeTypes.Truncate | src/range.c:477 | the stored host is the prefix of the given one whose length is the given length capped at 255, so it equals the given host when that is short enough |
| AddressMath.Compare | src/range.c:180-183 | the memcmp comparison of two equal-length buffers is -1, 0 or 1, and 0 exactly when the buffers are equal |
| AddressMath.Inc | src/range.c:544-560 | the carrying increment keeps the length, fails exactly when every byte is 0xFF, and then wraps to all zeros |
| AddressMath.Dec | src/range.c:564-580 | the borrowing decrement keeps the length, fails exactly when every byte is 0x00, and then wraps to all-0xFF |
| AddressMath.IncAsWritten | src/range.c:549-559 | the increment loop as written always reports success, changes only the last byte, and never leaves it 0x00 |
| AddressMath.DecAsWritten | src/range.c:569-579 | the decrement loop as written always reports success, changes only the last byte, and never leaves it 0xFF |
| AddressMath.ToNatBound | src/range.h:11 | the value of n bytes is below 256^n |
| AddressMath.ToNatMonotone | src/range.c:124-133 | an address that is bytewise not above another has a value not above it |
| AddressMath.CompareIsNumericOrder | src/range.c:40 | the memcmp comparison of two equal-length addresses is negative, zero or positive exactly as their values are ordered |
| AddressMath.ToNatInjective | src/range.c:486 | addresses of equal length and equal value are equal |
| AddressMath.IncValue | src/range.c:544-560 | the carrying increment adds one to the value and overflows only from all-0xFF |
| AddressMath.DecValue | src/range.c:564-580 | the borrowing decrement subtracts one and overflows only from all-0x00 |
| AddressMath.IncAddress | src/range.c:544-560 | adds one in place to the first addrLen bytes of the buffer; reports Overflow exactly when the value was the greatest; bytes after addrLen are unchanged |
| AddressMath.DecAddress | src/range.c:564-580 | subtracts one in place; reports Overflow exactly when the value was zero; bytes after addrLen are unchanged |
| AddressMath.IncBelowTrailingOnes | src/range.c:549-557 | below a run of trailing 0xFF bytes, the increment adds one to the first byte that is not 0xFF and clears the run |
| AddressMath.IncAllOnes | src/range.c:544-560 | the increment of all-0xFF overflows to all zeros |
| AddressMath.DecAboveTrailingZeros | src/range.c:569-577 | below a run of trailing zero bytes, the decrement subtracts one from the first nonzero byte and fills the run with 0xFF |
| AddressMath.DecAllZeros | src/range.c:564-580 | the decrement of all zeros overflows to all-0xFF |
| AddressMath.Incremented | src/range.c:495 | the address one above a, computed in a buffer by the increment loop, when a is not the greatest |
| AddressMath.Decremented | src/range.c:513 | the address one below a, computed in a buffer by the decrement loop, when a is not zero |
| AddressMath.IncAsWrittenAgreement | src/range.c:549-557 | the increment loop as written agrees with the carrying increment exactly when the last byte is not 0xFF |
| AddressMath.IncAsWrittenMissesCarry | src/range.c:549-559 | as written, a last byte of 0xFF makes the value drop by 254 and success is reported even from all-0xFF |
| AddressMath.DecAsWrittenAgreement | src/range.c:569-577 | the decrement loop as written agrees with the borrowing decrement exactly when the last byte is not 0x00 |
| AddressMath.DecAsWrittenMissesBorrow | src/range.c:569-579 | as written, a last byte of 0x00 makes the value rise by 254 and success is reported even from zero |
| IntervalList.NodeSpan | src/range.h:18-23 | a well-formed free span has first not above last |
| IntervalList.Ordered | src/range.c:185-202 | under the list invariant every node lies wholly below every later node |
| IntervalList.WithinBounds | src/range.c:178-183 | under the list invariant every node lies within the bound |
| IntervalList.StatusInNode | src/range.c:186-195 | the node covering an address decides its status |
| IntervalList.Locate | src/range.c:226-268 | every address of the bound is covered by some node |
| IntervalList.SplitNodes | src/range.c:486-538 | a free span split at an address becomes one to three nodes: the address held by the truncated host at the split index, and only free spans around it |
| IntervalList.OccupyAt | src/range.c:486-538 | occupying in the free span at index i keeps the nodes before and after it, and grows the list by at most two nodes, with the held node at i plus the split index |
| IntervalList.Release | src/range.c:238-262 | freeing the node at index i shrinks the list by at most one node, keeps the nodes before its predecessor, and adds no held node |
| IntervalList.ReleaseAsWritten | src/range.c:238-256 | freeing as written fails exactly when the node is first in the list, and otherwise gives the same list as Release |
| IntervalList.SplitCovers | src/range.c:486-538 | in each of the three split cases the new nodes cover exactly the old span, create no empty span, hold only the address, and need no overflowing increment or decrement |
| IntervalList.OccupyAtCorrect | src/range.c:468-540 | splitting a free span at an address keeps the list invariant, makes that address held by the truncated host and leaves every other address unchanged |
| IntervalList.ReleaseCorrect | src/range.c:233-262 | freeing an occupied node keeps the list invariant, makes its address free and leaves every other address unchanged |
| IntervalList.ReleaseIntoPrevious | src/range.c:238-242 | the free span before the freed node grows by one address, with the same two effects |
| IntervalList.ReleaseIntoNext | src/range.c:243-248 | the free span after the freed node grows down by one address, with the same two effects |
| IntervalList.OccupyThenReleaseRestoresStatus | src/range.c:233-262 | occupying a free address and freeing it again restores the status of every address |
| IntervalList.RoundTripKeepsSplit | src/range.c:238-242 | the span boundaries are not restored: freeing the middle of 10.0.0.0-10.0.0.2 leaves two adjacent free spans |
| IntervalList.ReleaseHeadAsWrittenFails | src/range.c:238-256 | when the occupied node is first in the list, freeing as written goes through a null predecessor, while Release frees the address |
| IntervalList.HeldBeforeScanStop | src/range.c:186-204 | when the scan finds no free span reaching the address before a node that starts above it, the address is held |
| IntervalList.Matching | src/range.c:421-423 | the filter yields only nodes of its status, and each node at most as often as the list holds it |
| IntervalList.MatchingPartition | src/range.c:383-410 | the free and occupied filters together yield every node of the list exactly once |
| IntervalList.MatchingMembers | src/range.c:418-430 | a node is yielded by a filter exactly when it is in the list with that status |
| IntervalList.FreeSpansCoverFreeAddresses | src/range.c:383-392 | under the list invariant an address is free exactly when a free span the free filter yields contains it |
| IntervalList.HeldNodesAreHeldAddresses | src/range.c:401-410 | under the list invariant an address is held by h exactly when the occupied filter yields its node with host h |
| Bounds.FamilyOf | src/range.c:67-68 | a text containing ':' selects IPv6 and any other text IPv4 |
| Bounds.HostMask | src/range.c:127-128 | 0xff shifted right by r bits is 2^(8-r) - 1 |
| Bounds.OrMask | src/range.c:129 | ORing the host mask keeps the prefix bits of the byte, sets all host bits, and never lowers it |
| Bounds.NetworkLast | src/range.c:121-133 | the last address of a network keeps the length and the whole prefix bytes of the network address, and lowers no byte |
| Bounds.NetworkLastIsGreatest | src/range.c:121-133 | the computed last address shares the network prefix with first, and no address of the network is above it |
| Bounds.NetworkFirstNotAboveLast | src/range.c:121-133 | the network address is not above the computed last address, so the seeded span is never empty |
| Bounds.NetworkLastExtremes | src/range.c:124-133 | a full-length prefix yields first itself; a zero-length prefix yields all-0xFF |
| Bounds.NetworkLastExamples | src/range.c:124-133 | 10.0.0.0/24 ends at 10.0.0.255, 10.0.0.0/23 at 10.0.1.255, 192.168.4.0/22 at 192.168.7.255, and 10.0.0.5/24, with host bits set, also at 10.0.0.255 |
| Bounds.CidrMaskIndexAsWritten | src/range.c:124-129 | the mask write lands outside the 16-byte buffer exactly when the prefix is at least 128 bits long |
| Bounds.FullIpv6PrefixWritesPastBuffer | src/range.c:124-129 | the mask write of an IPv6 /128 lands past the 16-byte buffer, while an IPv4 /32 lands on byte 4 inside it |
| Bounds.TextBoundRejectsAsWritten | src/range.c:87 | the bound check as written rejects exactly when the leading bytes of the first text, read as a number, exceed those of the last text |
| Bounds.TextBoundDisagrees | src/range.c:87 | comparing the texts rejects 9.0.0.0 - 10.0.0.0, which is ordered, and accepts 10.0.0.5 - 10.0.0.1, which is reversed |
| RangeMap.StatusMapUpdate | src/range.c:468-540 | a list change that alters only the status of address k alters the status map at k alone |
| RangeMap.SplitSpan | src/range.c:486-538 | the nodes replacing a free span when an address inside it is occupied, computed with the address increment and decrement, are exactly SplitNodes |
| RangeMap.FillHostBits | src/range.c:124-133 | the first n bytes of the buffer become the network's last address; the mask at byte bits/8 is skipped when that index is outside the buffer; other bytes are unchanged |
| RangeMap.LastOfNetwork | src/range.c:121-133 | the last-address buffer keeps its 16 bytes, and its significant bytes are the network's last address |
| RangeMap.Range.constructor | src/range.h:32-38 | a fresh map is uninitialised, with zeroed buffers and no list |
| RangeMap.Range.InitFirstRange | src/range.c:450-464 | the list becomes the one free span from first to last over addrLen bytes, or over 16 bytes when addrLen is 0 |
| RangeMap.Range.FreshListAllFree | src/range.c:450-464 | after seeding, every address of the bound is free |
| RangeMap.Range.InitFromIp | src/range.c:34-52 | accepts any map with its fixed buffers, a stale list included; BadRange exactly when first is above last, with nothing changed; otherwise the bound is stored, the list is one free span over it, and every address is free |
| RangeMap.Range.InitFromStr | src/range.c:63-94 | accepts any map with its fixed buffers, a stale list included; MixedRange exactly when the texts select different families; UnparsableAddr when either text does not convert; BadRange exactly when the converted first is above the converted last; otherwise one free span and every address free; family, length and converted bounds written before a later failure stay written, and a bound whose conversion failed, or that comes after it, stays as it was |
| RangeMap.Range.InitFromCidr | src/range.c:103-138 | accepts any map with its fixed buffers, a stale list included; family and length are written in every case; UnparsableCidr exactly when the text does not convert, with last and the list unchanged; otherwise first is the converted address, host bits included, last is that address with every host bit set, and the list is one free span with every address free |
| RangeMap.Range.CheckBounds | src/range.c:178-183 | Uninitialized exactly when there is no list; NotInRange exactly when the address is outside the bound; otherwise Ok |
| RangeMap.Range.SeekFree | src/range.c:185-202 | the occupy scan stops at the first free span not ending below the address, or at the end; every node before it is held or ends below the address |
| RangeMap.Range.SeekNode | src/range.c:293-312 | the free and lookup scan, for an address in the bound, always stops, at the node that covers the address |
| RangeMap.Range.Occupy | src/range.c:173-205 | Ok exactly when the address is in the bound and free; then only that address changes, to the truncated host, by a split of its free span; Occupied exactly when it is held and a free span lies above it; NotInRange when it is held with no free span above it; failures change nothing |
| RangeMap.Range.SplitRange | src/range.c:468-540 | the list becomes the split at the free span; the invariant holds; the status map changes at the address alone |
| RangeMap.Range.Free | src/range.c:214-271 | Ok exactly when the address is in the bound and held; then only that address becomes free, by Release of its node; NotFound exactly when it is free; failures change nothing |
| RangeMap.Range.ReleaseAt | src/range.c:238-262 | the list becomes the release of the node; the invariant holds; the status map changes at the address alone |
| RangeMap.Range.Lookup | src/range.c:280-315 | changes nothing; for an address in the bound, answers the node holding it with its host, or no node when it is free; the early errors are those of CheckBounds |
| RangeMap.RangeIterator.FreeAddrs | src/range.c:383-392 | a free-span iterator starts at the head of the map's list, with the map's family |
| RangeMap.RangeIterator.OccupiedAddrs | src/range.c:401-410 | a held-address iterator starts at the head of the map's list, with the map's family |
| RangeMap.RangeIterator.Next | src/range.c:418-430 | yields the first node of the iterator's status not yet walked, in list order, and consumes it; returns none exactly when no such node remains, and then stays at the end |

## Left out

- Text conversion by `inet_pton` and `inet_net_pton` is a system library call. The converted addresses and the prefix length are parameters of `InitFromStr` and `InitFromCidr`. Bytes the conversion leaves unwritten past the network part are not modelled; the parameter is the converted address as written, host bits included.
- `range_init_from_ip` takes any integer family and treats all but `AF_INET` as IPv6. The model takes the two-valued `Family`.
- `range_destroy`, `range_iterator_destroy`, `range_dump` and `_dump_address` only release memory or print. The allocation and `malloc` failure paths of every operation are left out too.
- A null map argument is not modelled. Every method works on an allocated `Range`.
- The final `ERR_NOT_IN_RANGE` of free and lookup is unreachable under the list invariant; the model proves the scan always stops before it.
- RangeMap.Range.Lookup: the source leaves `*res` unwritten on an error return; the model answers none.
- RangeMap.RangeIterator.Next: the cursor walks a snapshot of the list taken when the iterator is made. Changes to the map made later, while the iterator is live, are not seen, and no aliasing between iterator and list is modelled.
- RangeMap.Range.InitFromStr and RangeMap.Range.InitFromCidr: after a failed re-initialisation of a map that already has a list, the model states which fields were written but not `Valid()`. The family, length and bounds may no longer match the stale list, as in the source. Such a map can still be initialised again: the three initialisers require only `Buffers()`, the fixed buffer sizes, which every initialiser keeps.
- Bounds.TextBoundRejectsAsWritten reads only texts at least as long as the address length. The source reads past the end of shorter texts; that is not modelled.
- RangeTypes.Truncate: the host is a sequence of Dafny characters and the cap counts characters. `strndup` counts bytes, so a host with multi-byte characters keeps 255 characters here where the source keeps 255 bytes.
- RangeMap.Range.InitFromCidr: on UnparsableCidr the model does not say what `first` holds. The conversion writes into `first` directly and may have stored some bytes before it failed.
- Concurrency: the library has no locking, and the model is sequential.
- `ERR_BUFFER_FULL` is declared but never produced; it exists only as an `ErrorCode`.

## Findings

| source | as written | input that shows it | evidently intended | confidence | as-written member | corrected member |
|---|---|---|---|---|---|---|
| src/range.c:549-557 | the byte position never moves, so there is no carry and ERR_OVERFLOW is never returned | 10.0.0.255 increments to 10.0.0.1 | add one with carry, overflow only from all-0xFF | high, not executed | AddressMath.IncAsWrittenMissesCarry | AddressMath.IncAddress |
| src/range.c:569-577 | the byte position never moves, so there is no borrow and ERR_OVERFLOW is never returned | 10.0.1.0 decrements to 10.0.1.254 | subtract one with borrow, overflow only from zero | high, not executed | AddressMath.DecAsWrittenMissesBorrow | AddressMath.DecAddress |
| src/range.c:87 | the bound check compares the input texts, not the converted addresses | "9.0.0.0" - "10.0.0.0" is rejected; "10.0.0.5" - "10.0.0.1" is accepted | compare the converted first and last addresses | high, not executed | Bounds.TextBoundDisagrees | RangeMap.Range.InitFromStr |
| src/range.c:238-256 | a freed node with no predecessor is unlinked through a null predecessor | occupy the first address of a fresh map, then free it | relink the list head | high, not executed | IntervalList.ReleaseHeadAsWrittenFails | IntervalList.ReleaseCorrect |
| src/range.c:124-129 | the host mask is ORed at byte bits/8 even when that is past the 16-byte buffer | the CIDR text ::/128, on a C library whose inet_net_pton accepts AF_INET6 (glibc's returns -1 for AF_INET6, so there the text ends in ERR_UNPARSABLE_CIDR) | no mask write outside the 16-byte buffer | medium, not executed | Bounds.FullIpv6PrefixWritesPastBuffer | RangeMap.FillHostBits |
