/**
  Reading (src/reading.rs), the generation of the driver written against the
  blocking `WriteRead` trait: every transport error comes back wrapped as
  `Error::I2C`, and data retrieval is gated on the status bits PVALID and GVALID.
 */
module Reading {
  import opened Bits
  import opened Bus
  import opened Device
  import opened Gate

  /** The driver's `Error<E>`: a transport error wrapped as `Error::I2C(e)`. */
  datatype Error = I2C(cause: BusError)

  /** The result of `read_gesture_data`: its `nb` outcome and the caller's buffer afterwards. */
  datatype Burst = Burst(out: Nb<(), Error>, data: seq<Byte>)

  function Min(a: int, b: int): int
  {
    if a <= b then a else b
  }

  /**
    `read_data(register, buf)`: one `write_read` sending the register address and
    reading `|buf|` bytes; a transport error becomes `Error::I2C` of the same error.
   */
  function ReadData(bus: Oracle, dev: Apds, reg: Byte, buf: seq<Byte>): (r: Step<Result<seq<Byte>, Error>>)
    ensures Emitted(dev, r.dev, [ReadTxn(reg, |buf|)])
    ensures match bus(dev.trace, ReadTxn(reg, |buf|))
            case Fault(e) => r.out == Failure(I2C(e))
            case Done(fill) => r.out.Success? && |r.out.value| == |buf|
                               && r.out.value == Deliver(buf, fill)
  {
    var w := I2cWriteRead(bus, dev, [reg], buf);
    match w.out
    case Failure(e) => Step(Failure(I2C(e)), w.dev)
    case Success(filled) => Step(Success(filled), w.dev)
  }

  /**
    `read_register(register)`: `read_data` into the one-byte buffer `[0]`, returning
    that byte.
   */
  function ReadRegister(bus: Oracle, dev: Apds, reg: Byte): (r: Step<Result<Byte, Error>>)
    ensures Emitted(dev, r.dev, [ReadTxn(reg, 1)])
    ensures match bus(dev.trace, ReadTxn(reg, 1))
            case Fault(e) => r.out == Failure(I2C(e))
            case Done(fill) => r.out == Success(RegisterByte(fill))
  {
    var d := ReadData(bus, dev, reg, [0]);
    match d.out
    case Failure(e) => Step(Failure(e), d.dev)
    case Success(data) => Step(Success(data[0]), d.dev)
  }

  /** `is_proximity_data_valid()`: one STATUS read; true when the PVALID bit is set. */
  function IsProximityDataValid(bus: Oracle, dev: Apds): (r: Step<Result<bool, Error>>)
    ensures Emitted(dev, r.dev, [ReadTxn(STATUS, 1)])
    ensures match bus(dev.trace, ReadTxn(STATUS, 1))
            case Fault(e) => r.out == Failure(I2C(e))
            case Done(fill) => r.out == Success(RegisterByte(fill) & PVALID != 0)
  {
    var s := ReadRegister(bus, dev, STATUS);
    match s.out
    case Failure(e) => Step(Failure(e), s.dev)
    case Success(status) => Step(Success(Is(status, PVALID)), s.dev)
  }

  /**
    `read_proximity()`: the PDATA byte once PVALID is set, `WouldBlock` while it is
    clear, `Other(Error::I2C(e))` when either read faults.
   */
  function ReadProximity(bus: Oracle, dev: Apds): (r: Step<Nb<Byte, Error>>)
    ensures r.dev.shadow == dev.shadow
    ensures GatedRead(bus, dev.trace, STATUS, PVALID, PDATA, (e: BusError) => I2C(e), r.out, r.dev.trace)
  {
    var v := IsProximityDataValid(bus, dev);
    match v.out
    case Failure(e) => Step(Other(e), v.dev)
    case Success(valid) =>
      if !valid then Step(WouldBlock, v.dev)
      else
        var p := ReadRegister(bus, v.dev, PDATA);
        match p.out
        case Failure(e) => Step(Other(e), p.dev)
        case Success(b) => Step(Ok(b), p.dev)
  }

  /** `read_gesture_data_level()`: one GFLVL read, the number of datasets in the FIFO. */
  function ReadGestureDataLevel(bus: Oracle, dev: Apds): (r: Step<Result<Byte, Error>>)
    ensures Emitted(dev, r.dev, [ReadTxn(GFLVL, 1)])
    ensures match bus(dev.trace, ReadTxn(GFLVL, 1))
            case Fault(e) => r.out == Failure(I2C(e))
            case Done(fill) => r.out == Success(RegisterByte(fill))
  {
    ReadRegister(bus, dev, GFLVL)
  }

  /** `is_gesture_data_valid()`: one GSTATUS read; true when the GVALID bit is set. */
  function IsGestureDataValid(bus: Oracle, dev: Apds): (r: Step<Result<bool, Error>>)
    ensures Emitted(dev, r.dev, [ReadTxn(GSTATUS, 1)])
    ensures match bus(dev.trace, ReadTxn(GSTATUS, 1))
            case Fault(e) => r.out == Failure(I2C(e))
            case Done(fill) => r.out == Success(RegisterByte(fill) & GVALID != 0)
  {
    var s := ReadRegister(bus, dev, GSTATUS);
    match s.out
    case Failure(e) => Step(Failure(e), s.dev)
    case Success(status) => Step(Success(Is(status, GVALID)), s.dev)
  }

  /** `read_device_id()`: one ID read. */
  function ReadDeviceId(bus: Oracle, dev: Apds): (r: Step<Result<Byte, Error>>)
    ensures Emitted(dev, r.dev, [ReadTxn(ID, 1)])
    ensures match bus(dev.trace, ReadTxn(ID, 1))
            case Fault(e) => r.out == Failure(I2C(e))
            case Done(fill) => r.out == Success(RegisterByte(fill))
  {
    ReadRegister(bus, dev, ID)
  }

  /**
    Reference semantics of a gesture FIFO burst from the history `before` into the
    buffer `data`: read GSTATUS (a fault is `Other`, GVALID clear is `WouldBlock`);
    read GFLVL (a fault is `Other`); then read `min(|data|, 4 * level)` bytes from
    GFIFO_U into the front of the buffer (a fault is `Other`). Only a completed FIFO
    read changes the buffer, and never beyond the bytes it read.
   */
  ghost predicate BurstRead(bus: Oracle, before: seq<Txn>, data: seq<Byte>, res: Burst, after: seq<Txn>)
  {
    var t0 := ReadTxn(GSTATUS, 1);
    match bus(before, t0)
    case Fault(e) => res == Burst(Other(I2C(e)), data) && after == before + [t0]
    case Done(f0) =>
      if !Is(RegisterByte(f0), GVALID) then
        res == Burst(WouldBlock, data) && after == before + [t0]
      else
        var t1 := ReadTxn(GFLVL, 1);
        match bus(before + [t0], t1)
        case Fault(e) => res == Burst(Other(I2C(e)), data) && after == before + [t0, t1]
        case Done(f1) =>
          var n := Min(|data|, 4 * (RegisterByte(f1) as int));
          var t2 := ReadTxn(GFIFO_U, n);
          && after == before + [t0, t1, t2]
          && match bus(before + [t0, t1], t2)
             case Fault(e) => res == Burst(Other(I2C(e)), data)
             case Done(f2) =>
               && res.out == Ok(())
               && |res.data| == |data|
               && res.data[..n] == Deliver(data[..n], f2)
               && res.data[n..] == data[n..]
  }

  /**
    `read_gesture_data(data)`: the readiness-gated FIFO burst. The buffer keeps its
    length, and is only changed by a call that returns `Ok`.
   */
  function ReadGestureData(bus: Oracle, dev: Apds, data: seq<Byte>): (r: Step<Burst>)
    ensures r.dev.shadow == dev.shadow
    ensures |r.out.data| == |data|
    ensures !r.out.out.Ok? ==> r.out.data == data
    ensures BurstRead(bus, dev.trace, data, r.out, r.dev.trace)
  {
    var v := IsGestureDataValid(bus, dev);
    match v.out
    case Failure(e) => Step(Burst(Other(e), data), v.dev)
    case Success(valid) =>
      if !valid then Step(Burst(WouldBlock, data), v.dev)
      else
        var l := ReadGestureDataLevel(bus, v.dev);
        match l.out
        case Failure(e) => Step(Burst(Other(e), data), l.dev)
        case Success(level) =>
          var n := Min(|data|, 4 * (level as int));
          assert l.dev.trace == dev.trace + [ReadTxn(GSTATUS, 1), ReadTxn(GFLVL, 1)];
          var d := ReadData(bus, l.dev, GFIFO_U, data[..n]);
          assert d.dev.trace == dev.trace + [ReadTxn(GSTATUS, 1), ReadTxn(GFLVL, 1), ReadTxn(GFIFO_U, n)];
          match d.out
          case Failure(e) => Step(Burst(Other(e), data), d.dev)
          case Success(prefix) => Step(Burst(Ok(()), prefix + data[n..]), d.dev)
  }

  /**
    The outcomes of a burst, told apart by the bus alone: `WouldBlock` exactly when
    GSTATUS was read with GVALID clear, and then nothing else is read; a fault on any
    of the three reads is `Other`, never `WouldBlock`.
   */
  lemma BurstOutcomes(bus: Oracle, before: seq<Txn>, data: seq<Byte>, res: Burst, after: seq<Txn>)
    requires BurstRead(bus, before, data, res, after)
    ensures var t0 := ReadTxn(GSTATUS, 1);
            var r0 := bus(before, t0);
            && |after| > |before| && after[..|before|] == before && after[|before|] == t0
            && (res.out.WouldBlock? <==> r0.Done? && !Is(RegisterByte(r0.fill), GVALID))
            && (res.out.WouldBlock? ==> after == before + [t0] && res.data == data)
            && (r0.Fault? ==> res.out.Other?)
            && (r0.Done? && Is(RegisterByte(r0.fill), GVALID) ==>
                  |after| >= |before| + 2 && after[|before| + 1] == ReadTxn(GFLVL, 1))
            && (res.out.Other? ==> res.data == data)
  {
  }

  /**
    A successful burst reads exactly `min(|data|, 4 * level)` bytes in its third
    transaction: as many as the buffer holds when the FIFO has more (silent
    truncation), as many as the FIFO holds otherwise, and every buffer byte past
    that count is left as it was.
   */
  lemma BurstByteCount(bus: Oracle, before: seq<Txn>, data: seq<Byte>, res: Burst, after: seq<Txn>)
    requires BurstRead(bus, before, data, res, after)
    requires res.out.Ok?
    ensures |after| == |before| + 3
    ensures var level := RegisterByte(bus(before + [after[|before|]], ReadTxn(GFLVL, 1)).fill) as int;
            var n := after[|before| + 2].readLen;
            && after[|before| + 2] == ReadTxn(GFIFO_U, n)
            && n <= |data| && n <= 4 * level
            && (n == |data| || n == 4 * level)
            && |res.data| == |data|
            && (forall i :: n <= i < |data| ==> res.data[i] == data[i])
  {
    var t0 := ReadTxn(GSTATUS, 1);
    var t1 := ReadTxn(GFLVL, 1);
    assert after[|before|] == t0;
    var level := RegisterByte(bus(before + [t0], t1).fill) as int;
    var n := Min(|data|, 4 * level);
    assert after == before + [t0, t1, ReadTxn(GFIFO_U, n)];
    assert res.data[n..] == data[n..];
    forall i | n <= i < |data|
      ensures res.data[i] == data[i]
    {
      assert res.data[i] == res.data[n..][i - n];
    }
  }

  /**
    The buffer's first `n` bytes after a successful burst are what the FIFO read
    supplied, byte for byte; where the transport supplied fewer than `n` bytes the
    rest of that prefix keeps the caller's bytes. A FIFO read supplying at least `n`
    bytes therefore leaves exactly those bytes in front.
   */
  lemma BurstPrefixIsFifoData(bus: Oracle, before: seq<Txn>, data: seq<Byte>, res: Burst, after: seq<Txn>)
    requires BurstRead(bus, before, data, res, after)
    requires res.out.Ok?
    ensures var n := after[|before| + 2].readLen;
            var reply := bus(before + after[|before|..|before| + 2], after[|before| + 2]);
            && reply.Done? && n <= |data| == |res.data|
            && (forall i :: 0 <= i < n ==>
                  res.data[i] == if i < |reply.fill| then reply.fill[i] else data[i])
            && (|reply.fill| >= n ==> res.data[..n] == reply.fill[..n])
  {
    BurstByteCount(bus, before, data, res, after);
    var t0 := ReadTxn(GSTATUS, 1);
    var t1 := ReadTxn(GFLVL, 1);
    assert after[|before|..|before| + 2] == [t0, t1];
    var n := after[|before| + 2].readLen;
    forall i | 0 <= i < n
      ensures res.data[i] == res.data[..n][i]
    {
    }
  }
}
