/** The stored address of a session: picking a resolver result, and the port in it. */
module SessionAddress {
  const AF_INET := 2
  const AF_INET6 := 23

  type Byte = b: int | 0 <= b < 256
  type UShort = n: int | 0 <= n < 0x1_0000

  /** sizeof sockaddr_storage, sockaddr_in and sockaddr_in6. */
  const STORAGE := 128
  const IN_SIZE := 16
  const IN6_SIZE := 28

  /** Offsets of sin_port and sin6_port. */
  const IN_PORT := 2
  const IN6_PORT := 2

  /** One ADDRINFOW: its family and the bytes its ai_addr points at. */
  datatype AddrInfo = AddrInfo(family: int, addr: seq<Byte>)

  function SizeFor(family: int): nat {
    if family == AF_INET then IN_SIZE else IN6_SIZE
  }

  predicate Usable(p: AddrInfo) { p.family == AF_INET || p.family == AF_INET6 }

  /** The resolver gives a whole address of the family it names. */
  predicate Complete(p: AddrInfo) {
    Usable(p) ==> SizeFor(p.family) <= |p.addr| && FamilyOf(p.addr) == p.family
  }

  /** ss_family, the first field of an address. */
  function FamilyOf(b: seq<Byte>): UShort
    requires 2 <= |b|
  {
    UShortAt(b, 0)
  }

  /** htons and ntohs on a little-endian host. */
  function Swap(n: UShort): UShort { (n % 256) * 256 + n / 256 }

  /** A USHORT in memory, low byte first. */
  function UShortAt(b: seq<Byte>, at: nat): UShort
    requires at + 2 <= |b|
  {
    b[at] as int + 256 * (b[at + 1] as int)
  }

  function WithUShort(b: seq<Byte>, at: nat, n: UShort): (r: seq<Byte>)
    requires at + 2 <= |b|
    ensures |r| == |b|
  {
    b[at := n % 256][at + 1 := n / 256]
  }

  function PortOffset(family: int): nat {
    if family == AF_INET then IN_PORT else IN6_PORT
  }

  /** The storage after copying a result over its front and writing the port into it. */
  function StoredAddress(old_: seq<Byte>, p: AddrInfo, port: UShort): (r: seq<Byte>)
    requires |old_| == STORAGE && Usable(p) && Complete(p)
    ensures |r| == STORAGE
  {
    var n := SizeFor(p.family);
    WithUShort(p.addr[..n] + old_[n..], PortOffset(p.family), Swap(port))
  }

  function PortOf(b: seq<Byte>): UShort
    requires |b| == STORAGE
  {
    Swap(UShortAt(b, PortOffset(FamilyOf(b))))
  }

  lemma SwapTwice(n: UShort)
    ensures Swap(Swap(n)) == n
  {
    Halves(n % 256, n / 256);
  }

  lemma Halves(high: int, low: int)
    requires 0 <= low < 256
    ensures (high * 256 + low) / 256 == high && (high * 256 + low) % 256 == low
  {
  }

  /** The port in network order, as it stands in an address. */
  lemma PortBytes(b: seq<Byte>)
    requires |b| == STORAGE
    ensures PortOf(b) == 256 * (b[2] as int) + b[3] && PortOf(b) / 256 == b[2] && PortOf(b) % 256 == b[3]
  {
    var low: UShort, high: UShort := b[2], b[3];
    Halves(high, low);
    Halves(low, high);
  }

  /** Whatever the layout, the port read back is the port stored, and on the way it stands in
      network order: high byte first. The family is that of the entry, so that Open finds it. */
  lemma PortRoundTrip(before: seq<Byte>, p: AddrInfo, port: UShort)
    requires |before| == STORAGE && Usable(p) && Complete(p)
    ensures PortOf(StoredAddress(before, p, port)) == port
    ensures FamilyOf(StoredAddress(before, p, port)) == p.family
    ensures StoredAddress(before, p, port)[2] == port / 256 && StoredAddress(before, p, port)[3] == port % 256
  {
    var b := StoredAddress(before, p, port);
    assert UShortAt(b, 2) == Swap(port);
    SwapTwice(port);
  }

  /** Byte by byte: the entry's address over the front, 16 bytes for IPv4 and 28 for IPv6, the port in
      its place, and what was there before behind. */
  lemma StoredBytes(before: seq<Byte>, p: AddrInfo, port: UShort)
    requires |before| == STORAGE && Usable(p) && Complete(p)
    ensures |StoredAddress(before, p, port)| == 128
    ensures forall k :: 0 <= k < 128 ==>
              StoredAddress(before, p, port)[k]
              == if k == 2 then port / 256 else if k == 3 then port % 256
                 else if k < (if p.family == 2 then 16 else 28) then p.addr[k] else before[k]
  {
    PortRoundTrip(before, p, port);
  }
}
