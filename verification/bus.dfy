/**
  The two-wire bus as an oracle. The driver only ever issues two kinds of
  transaction (`write` and `write_read`); what the bus answers is decided by an
  oracle that sees the whole history of transactions before the current one, so a
  test can script any device behaviour, including faults at any point.
 */
module Bus {
  import opened Bits

  /** The transport's own error value, carried through the driver unchanged. */
  datatype BusError = BusError(code: nat)

  /** A bus transaction as emitted by the driver: target address and the bytes written. */
  datatype Txn =
    | Write(addr: Byte, bytes: seq<Byte>)
    | WriteRead(addr: Byte, bytes: seq<Byte>, readLen: nat)

  /**
    The bus's answer to one transaction: a fault, or completion. For a `write_read`,
    `fill` is the bytes the transport stores into the read buffer, in order.
   */
  datatype Reply = Fault(error: BusError) | Done(fill: seq<Byte>)

  /** The device behind the bus: the reply to a transaction given everything sent before it. */
  type Oracle = (seq<Txn>, Txn) -> Reply

  /** Rust's `Result<T, E>`. */
  datatype Result<+T, +E> = Success(value: T) | Failure(error: E)

  /** The `nb` crate's non-blocking result: a value, "not yet", or a hard error. */
  datatype Nb<+T, +E> = Ok(value: T) | WouldBlock | Other(error: E)

  /**
    The read buffer after a completed `write_read`: the transport stores its bytes
    from the front, and any position it does not reach keeps the caller's byte.
   */
  function Deliver(buf: seq<Byte>, fill: seq<Byte>): (r: seq<Byte>)
    ensures |r| == |buf|
    ensures |fill| >= |buf| ==> r == fill[..|buf|]
    ensures forall i :: 0 <= i < |buf| && i < |fill| ==> r[i] == fill[i]
    ensures forall i :: |fill| <= i < |buf| ==> r[i] == buf[i]
  {
    seq(|buf|, i requires 0 <= i < |buf| => if i < |fill| then fill[i] else buf[i])
  }

  /**
    The byte a one-byte register read returns for a completed transaction: the
    buffer starts as `[0]`, so a transport that stores nothing leaves 0.
   */
  function RegisterByte(fill: seq<Byte>): (b: Byte)
    ensures |fill| > 0 ==> b == fill[0]
    ensures |fill| == 0 ==> b == 0
  {
    Deliver([0], fill)[0]
  }
}
