/**
 * The types and constants of the address-range allocator: address
 * buffers, the two node shapes of the interval list, the status and
 * iterator codes and the error codes.
 */
module RangeTypes {

  /** One byte of an address buffer, as an unsigned value. */
  type Byte = b: int | 0 <= b < 256

  /** The significant bytes of an address, most significant first. */
  type Address = seq<Byte>

  /** Capacity of every address buffer: an IPv6 address (16 bytes). */
  const IpAddrSize: nat := 16

  /** Holder names are stored with at most this many bytes. */
  const MaxHostLen: nat := 255

  datatype Option<T> = None | Some(value: T)

  datatype Family = Inet | Inet6

  /** Number of significant bytes of an address of the family. */
  function AddrLen(f: Family): (n: nat)
    ensures n <= IpAddrSize
    ensures f == Inet ==> n == 4
    ensures f == Inet6 ==> n == IpAddrSize
  {
    match f
    case Inet => 4
    case Inet6 => 16
  }

  /**
   * A node of the interval list: either a span of free addresses
   * [first, last] or a single address held by a host.
   */
  datatype Node =
    | FreeRange(first: Address, last: Address)
    | OccupiedIp(ip: Address, host: string)

  const StatusFree: nat := 0
  const StatusOccupied: nat := 1

  const IteratorFree: nat := 0
  const IteratorOccupied: nat := 1

  /** The status tag the node carries. */
  function StatusOf(x: Node): (s: nat)
    ensures s == StatusFree <==> x.FreeRange?
    ensures s == StatusOccupied <==> x.OccupiedIp?
  {
    if x.FreeRange? then StatusFree else StatusOccupied
  }

  /** The iterator filter codes are the status codes they select. */
  lemma {:induction false} FilterCodesAreStatusCodes(x: Node)
    ensures StatusOf(x) == IteratorFree <==> x.FreeRange?
    ensures StatusOf(x) == IteratorOccupied <==> x.OccupiedIp?
  {
  }

  datatype ErrorCode =
    | Ok
    | BadRange
    | MixedRange
    | UnparsableAddr
    | UnparsableCidr
    | Uninitialized
    | NotInRange
    | Overflow
    | Occupied
    | BufferFull
    | NotFound

  /** The integer the enumeration assigns to each error code. */
  function Code(e: ErrorCode): (c: nat)
    ensures c == 0 <==> e == Ok
    ensures c <= 10
  {
    match e
    case Ok => 0
    case BadRange => 1
    case MixedRange => 2
    case UnparsableAddr => 3
    case UnparsableCidr => 4
    case Uninitialized => 5
    case NotInRange => 6
    case Overflow => 7
    case Occupied => 8
    case BufferFull => 9
    case NotFound => 10
  }

  /** Distinct error codes have distinct integer values. */
  lemma {:induction false} CodeInjective(e1: ErrorCode, e2: ErrorCode)
    ensures Code(e1) == Code(e2) <==> e1 == e2
  {
  }

  /** The holder as stored: a copy of at most MaxHostLen characters. */
  function Truncate(host: string): (h: string)
    ensures |h| <= MaxHostLen
    ensures |h| == if |host| <= MaxHostLen then |host| else MaxHostLen
    ensures |host| <= MaxHostLen ==> h == host
    ensures h == host[..|h|]
  {
    if |host| <= MaxHostLen then host else host[..MaxHostLen]
  }
}
