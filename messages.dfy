/**
 * Values shared by the three energy-aware routers: hosts, messages, the
 * per-connection snapshot of a neighbour, forwarding offers, the receive
 * status codes and the base-layer actions a router asks for.
 */
module Messages {

  datatype Option<T> = None | Some(value: T)

  /** A simulated host: its address and the name its `toString` prints. */
  datatype Host = Host(address: nat, name: string)

  /** A message as a router sees it in its buffer. */
  datatype Message = Message(
    id: string,
    from: Host,
    to: Host,
    hops: seq<Host>,
    receiveTime: real,
    size: int)

  /** Size -1 marks an in-band delivery acknowledgement. */
  const ACK_SIZE: int := -1

  predicate IsAck(m: Message) {
    m.size == ACK_SIZE
  }

  /** Receive status codes (those of the simulator's message router). */
  const RCV_OK: int := 0
  const DENIED_OLD: int := -1
  const DENIED_POLICY: int := -5

  /** Java `int`: the delivery counters are 32-bit and `++` wraps. */
  newtype int32 = x: int | -0x8000_0000 <= x < 0x8000_0000

  const INT32_MAX: int32 := 0x7fff_ffff
  const INT32_MIN: int32 := -0x8000_0000

  /** `++cnt` on a Java `int`: one more, modulo 2^32 (two's-complement wrap). */
  function Inc32(v: int32): (r: int32)
    ensures (r as int - v as int - 1) % 0x1_0000_0000 == 0
  {
    if v == INT32_MAX then INT32_MIN else v + 1
  }

  /** The wrap-around congruence leaves exactly one 32-bit value: `Inc32` is Java's `++`. */
  lemma Inc32Determined(v: int32, r: int32)
    requires (r as int - v as int - 1) % 0x1_0000_0000 == 0
    ensures r == Inc32(v)
  {
    var q := (r as int - v as int - 1) / 0x1_0000_0000;
    assert r as int - v as int - 1 == q * 0x1_0000_0000;
    assert r as int == Inc32(v) as int;
  }

  /**
   * What a router reads about the host at the other end of one of its
   * connections during one decision: whether that host's router is
   * transferring, its residual energy, the ids in its buffer and its
   * `delivered` map.
   */
  datatype Neighbour = Neighbour(
    host: Host,
    transferring: bool,
    energy: real,
    holds: set<string>,
    delivered: map<string, int32>)

  /** One (message, connection) pair of a candidate list; the connection is named by its other end. */
  datatype Offer = Offer(msg: Message, peer: Host)

  /**
   * The calls a router makes into the base layer, in the order it makes
   * them. The model claims nothing about what the base layer then does,
   * except that `DeleteMessage` removes the id from the buffer.
   */
  datatype Action =
    | BaseUpdate
    | ExchangeDeliverable
    | TryMessagesForConnected(offers: seq<Offer>)
    | TryAllMessagesToAllConnections
    | DeleteMessage(id: string, drop: bool)
    | AckSent(to: Host, sender: Host, ackId: string)

  /**
   * What `receiveMessage` ends with: a status code, or the
   * ArrayIndexOutOfBoundsException that `split(...)[0]` raises when an
   * acknowledgement id consists of separators only.
   */
  datatype Reply = Code(value: int) | IndexOutOfBounds
}
