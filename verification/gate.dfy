/**
  The readiness gate shared by both generations of `read_proximity`: a status read,
  then either "would block", a hard error, or the payload read. Stated once here as
  a reference definition that the two implementations are proved against.
 */
module Gate {
  import opened Bits
  import opened Bus
  import opened Device

  /**
    Reference semantics of a readiness-gated one-byte read, from the history `before`:
    read `status`; a fault ends the call as `Other` of the wrapped fault; a byte with
    no bit of `mask` set ends it as `WouldBlock`; otherwise read `payload` and return
    its byte, or `Other` of its wrapped fault. `after` is the history at the end.
   */
  ghost predicate GatedRead<E>(bus: Oracle, before: seq<Txn>, status: Byte, mask: Byte, payload: Byte,
                               wrap: BusError -> E, out: Nb<Byte, E>, after: seq<Txn>)
  {
    var t0 := ReadTxn(status, 1);
    match bus(before, t0)
    case Fault(e) => out == Other(wrap(e)) && after == before + [t0]
    case Done(fill) =>
      if !Is(RegisterByte(fill), mask) then
        out == WouldBlock && after == before + [t0]
      else
        var t1 := ReadTxn(payload, 1);
        && after == before + [t0, t1]
        && match bus(before + [t0], t1)
           case Fault(e) => out == Other(wrap(e))
           case Done(fill') => out == Ok(RegisterByte(fill'))
  }

  /**
    The three outcomes of a gated read, told apart by the bus alone: `WouldBlock`
    exactly when the status read completed with the mask clear (and then the payload
    register is never read), `Other` exactly when one of the two reads faulted, and
    `Ok` only after a second transaction, the payload read.
   */
  lemma GateOutcomes<E>(bus: Oracle, before: seq<Txn>, status: Byte, mask: Byte, payload: Byte,
                        wrap: BusError -> E, out: Nb<Byte, E>, after: seq<Txn>)
    requires GatedRead(bus, before, status, mask, payload, wrap, out, after)
    ensures var t0 := ReadTxn(status, 1);
            var r0 := bus(before, t0);
            && |after| > |before| && after[..|before|] == before && after[|before|] == t0
            && (out.WouldBlock? <==> r0.Done? && !Is(RegisterByte(r0.fill), mask))
            && (out.WouldBlock? ==> after == before + [t0])
            && (out.Other? <==>
                  || r0.Fault?
                  || (Is(RegisterByte(r0.fill), mask) && bus(before + [t0], ReadTxn(payload, 1)).Fault?))
            && (out.Ok? ==> after == before + [t0, ReadTxn(payload, 1)])
  {
  }
}
