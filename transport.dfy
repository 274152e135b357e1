/**
 * What a receive call hands back to the protocol code. The network itself is
 * not modelled: each call's outcome is a value supplied from outside.
 */
module Transport {
  import opened Basics

  /** The first `len` bytes of `data`: all a single receive into a `len`-byte buffer can return. */
  function Truncate(data: seq<byte>, len: nat): (r: seq<byte>)
    ensures |r| <= len
    ensures r <= data
    ensures |data| <= len ==> r == data
  {
    if |data| <= len then data else data[..len]
  }

  // ---------------------------------------------------------------------------
  // Stream sockets (`recv` on a connected TCP socket)
  // ---------------------------------------------------------------------------

  /**
   * The outcome of one `recv`: an error, or the bytes the connection delivers
   * (none at all once the peer has closed its end).
   */
  datatype Delivery = RecvError | Delivered(data: seq<byte>)

  /** The return value of `recv(sock, buf, len, 0)`: -1 on error, else the number of bytes placed in `buf`. */
  function Count(d: Delivery, len: nat): (n: int)
    ensures d.RecvError? <==> n == -1
    ensures n <= len
    ensures d.Delivered? ==> n == |Truncate(d.data, len)|
  {
    match d
    case RecvError => -1
    case Delivered(data) => |Truncate(data, len)|
  }

  /** The bytes `recv(sock, buf, len, 0)` places in `buf`. */
  function Received(d: Delivery, len: nat): (r: seq<byte>)
    ensures Count(d, len) >= 0 ==> |r| == Count(d, len)
    ensures d.Delivered? ==> r <= d.data && (|d.data| <= len ==> r == d.data)
  {
    match d
    case RecvError => []
    case Delivered(data) => Truncate(data, len)
  }

  // ---------------------------------------------------------------------------
  // Datagram sockets (`recvfrom` on a UDP socket)
  // ---------------------------------------------------------------------------

  /** An IPv4 socket address, the part of `struct sockaddr_in` the programs use. */
  datatype Addr = Addr(host: nat, port: nat)

  /**
   * The outcome of one `recvfrom`: an error, or one datagram together with the
   * address of the peer that sent it (possibly an empty datagram).
   */
  datatype Arrival = RecvFromError | Datagram(from: Addr, payload: seq<byte>)

  /**
   * The return value of `recvfrom(sock, buf, len, ...)`: -1 on error, else the
   * number of bytes placed in `buf` (a longer datagram is cut to `len`).
   */
  function DatagramCount(a: Arrival, len: nat): (n: int)
    ensures a.RecvFromError? <==> n == -1
    ensures n <= len
    ensures a.Datagram? ==> n == |Truncate(a.payload, len)|
  {
    match a
    case RecvFromError => -1
    case Datagram(_, payload) => |Truncate(payload, len)|
  }

  /** The bytes `recvfrom(sock, buf, len, ...)` places in `buf`. */
  function DatagramBytes(a: Arrival, len: nat): (r: seq<byte>)
    ensures DatagramCount(a, len) >= 0 ==> |r| == DatagramCount(a, len)
    ensures a.Datagram? ==> r <= a.payload && (|a.payload| <= len ==> r == a.payload)
  {
    match a
    case RecvFromError => []
    case Datagram(_, payload) => Truncate(payload, len)
  }

  /** A datagram a program hands to `sendto`, with the destination address it passes. */
  datatype Outgoing = Outgoing(to: Addr, payload: seq<byte>)
}
