/**
 * The three messages nodes exchange (`Message` in src/protocol/messages.rs), as
 * values. Their byte encoding is done by a serialisation library and is not part of
 * this model.
 */
module Messages {

  /** The number of `u32` values. */
  const U32Modulus: nat := 0x1_0000_0000

  /** Rust's `u32`. */
  type U32 = x: nat | x < 0x1_0000_0000

  /** A `SocketAddr`: a host and a port. */
  datatype SocketAddr = SocketAddr(host: string, port: nat)

  /** `Message`: a direct probe, its answer, and a request to probe a target on the sender's behalf. */
  datatype Message =
    | Ping(seqNo: U32, from: SocketAddr)
    | Ack(seqNo: U32, from: SocketAddr)
    | PingReq(seqNo: U32, from: SocketAddr, target: SocketAddr)
}
