/**
  Proximity (src/proximity.rs), the generation of the driver written against the
  `embedded_hal::i2c::I2c` trait, whose operations return the transport error `E`
  as it is.
 */
module Proximity {
  import opened Bits
  import opened Bus
  import opened Device
  import opened Config
  import opened Gate

  /**
    `read_register(register)` of this generation: one `write_read` sending the
    register address and reading one byte into a buffer that starts as `[0]`.
   */
  function ReadRegister(bus: Oracle, dev: Apds, reg: Byte): (r: Step<Result<Byte, BusError>>)
    ensures Emitted(dev, r.dev, [ReadTxn(reg, 1)])
    ensures match bus(dev.trace, ReadTxn(reg, 1))
            case Fault(e) => r.out == Failure(e)
            case Done(fill) => r.out == Success(RegisterByte(fill))
  {
    var w := I2cWriteRead(bus, dev, [reg], [0]);
    match w.out
    case Failure(e) => Step(Failure(e), w.dev)
    case Success(data) => Step(Success(data[0]), w.dev)
  }

  /** `is_proximity_data_valid()`: one STATUS read; true when the PVALID bit is set. */
  function IsProximityDataValid(bus: Oracle, dev: Apds): (r: Step<Result<bool, BusError>>)
    ensures Emitted(dev, r.dev, [ReadTxn(STATUS, 1)])
    ensures match bus(dev.trace, ReadTxn(STATUS, 1))
            case Fault(e) => r.out == Failure(e)
            case Done(fill) => r.out == Success(RegisterByte(fill) & PVALID != 0)
  {
    var s := ReadRegister(bus, dev, STATUS);
    match s.out
    case Failure(e) => Step(Failure(e), s.dev)
    case Success(status) => Step(Success(Is(status, PVALID)), s.dev)
  }

  /**
    `read_proximity()`: the PDATA byte once PVALID is set, `WouldBlock` while it is
    clear, the transport error of either read as `Other`.
   */
  function ReadProximity(bus: Oracle, dev: Apds): (r: Step<Nb<Byte, BusError>>)
    ensures r.dev.shadow == dev.shadow
    ensures GatedRead(bus, dev.trace, STATUS, PVALID, PDATA, (e: BusError) => e, r.out, r.dev.trace)
  {
    var v := IsProximityDataValid(bus, dev);
    match v.out
    case Failure(e) => Step(Other(e), v.dev)
    case Success(valid) =>
      if !valid then Step(WouldBlock, v.dev)
      else
        var p := ReadRegister(bus, v.dev, PDATA);
        match p.out
        case Failure(e) => Step(Other(e), p.dev)
        case Success(b) => Step(Ok(b), p.dev)
  }

  /**
    `set_proximity_persistence_filter(triggers)`: read the persistence register,
    keep its low nibble, put the low nibble of `triggers` in the high nibble, and
    write it back. A failed read ends the call before any write.
   */
  function SetProximityPersistenceFilter(bus: Oracle, dev: Apds, triggers: Byte)
    : (r: Step<Result<(), BusError>>)
    ensures r.dev.shadow == dev.shadow
    ensures match bus(dev.trace, ReadTxn(PERS, 1))
            case Fault(e) =>
              r.out == Failure(e) && r.dev.trace == dev.trace + [ReadTxn(PERS, 1)]
            case Done(fill) =>
              && |r.dev.trace| == |dev.trace| + 2
              && r.dev.trace[..|dev.trace| + 1] == dev.trace + [ReadTxn(PERS, 1)]
              && var t := r.dev.trace[|dev.trace| + 1];
              && t.Write? && t.addr == DEV_ADDR && |t.bytes| == 2 && t.bytes[0] == PERS
              && SameUnder(t.bytes[1], RegisterByte(fill), 0x0F)
              && t.bytes[1] >> 4 == triggers & 0x0F
              && (r.out.Failure? <==> bus(dev.trace + [ReadTxn(PERS, 1)], t).Fault?)
              && (r.out.Failure? ==> r.out.error == bus(dev.trace + [ReadTxn(PERS, 1)], t).error)
  {
    var c := ReadRegister(bus, dev, PERS);
    match c.out
    case Failure(e) => Step(Failure(e), c.dev)
    case Success(current) => WriteRegister(bus, c.dev, PERS, SpliceHighNibble(current, triggers))
  }

  /** `get_proximity_interupt()`: whether bit 5 of register 0x93 is set. */
  function GetProximityInterupt(bus: Oracle, dev: Apds): (r: Step<Result<bool, BusError>>)
    ensures Emitted(dev, r.dev, [ReadTxn(PINT_STATUS, 1)])
    ensures match bus(dev.trace, ReadTxn(PINT_STATUS, 1))
            case Fault(e) => r.out == Failure(e)
            case Done(fill) => r.out == Success(Bit(RegisterByte(fill), 5))
  {
    var s := ReadRegister(bus, dev, PINT_STATUS);
    match s.out
    case Failure(e) => Step(Failure(e), s.dev)
    case Success(status) => Step(Success(status & PINT > 0), s.dev)
  }

  /** `set_proximity_up_right_offset(offset)`: the two's-complement byte of `offset` to POFFSET_UR. */
  function SetProximityUpRightOffset(bus: Oracle, dev: Apds, offset: I8): (r: Step<Result<(), BusError>>)
    ensures |r.dev.trace| == |dev.trace| + 1 && r.dev.trace[..|dev.trace|] == dev.trace
    ensures r.dev.shadow == dev.shadow
    ensures var t := r.dev.trace[|dev.trace|];
            && t.Write? && t.addr == DEV_ADDR && |t.bytes| == 2 && t.bytes[0] == POFFSET_UR
            && EncodesI8(t.bytes[1], offset.Value())
            && (r.out.Failure? <==> bus(dev.trace, t).Fault?)
            && (r.out.Failure? ==> r.out.error == bus(dev.trace, t).error)
  {
    WriteRegister(bus, dev, POFFSET_UR, AsU8(offset))
  }

  /** `set_proximity_down_left_offset(offset)`: the two's-complement byte of `offset` to POFFSET_DL. */
  function SetProximityDownLeftOffset(bus: Oracle, dev: Apds, offset: I8): (r: Step<Result<(), BusError>>)
    ensures |r.dev.trace| == |dev.trace| + 1 && r.dev.trace[..|dev.trace|] == dev.trace
    ensures r.dev.shadow == dev.shadow
    ensures var t := r.dev.trace[|dev.trace|];
            && t.Write? && t.addr == DEV_ADDR && |t.bytes| == 2 && t.bytes[0] == POFFSET_DL
            && EncodesI8(t.bytes[1], offset.Value())
            && (r.out.Failure? <==> bus(dev.trace, t).Fault?)
            && (r.out.Failure? ==> r.out.error == bus(dev.trace, t).error)
  {
    WriteRegister(bus, dev, POFFSET_DL, AsU8(offset))
  }

  /**
    `set_proximity_offsets(up_right, down_left)`: one write of three bytes starting at
    POFFSET_UR, the two offsets as two's-complement bytes in that order.
   */
  function SetProximityOffsets(bus: Oracle, dev: Apds, upRight: I8, downLeft: I8)
    : (r: Step<Result<(), BusError>>)
    ensures |r.dev.trace| == |dev.trace| + 1 && r.dev.trace[..|dev.trace|] == dev.trace
    ensures r.dev.shadow == dev.shadow
    ensures var t := r.dev.trace[|dev.trace|];
            && t.Write? && t.addr == DEV_ADDR && |t.bytes| == 3 && t.bytes[0] == POFFSET_UR
            && EncodesI8(t.bytes[1], upRight.Value())
            && EncodesI8(t.bytes[2], downLeft.Value())
            && (r.out.Failure? <==> bus(dev.trace, t).Fault?)
            && (r.out.Failure? ==> r.out.error == bus(dev.trace, t).error)
  {
    I2cWrite(bus, dev, [POFFSET_UR, AsU8(upRight), AsU8(downLeft)])
  }

  /** `set_proximity_low_threshold(threshold)`: the threshold to PILT unchanged. */
  function SetProximityLowThreshold(bus: Oracle, dev: Apds, threshold: Byte): (r: Step<Result<(), BusError>>)
    ensures Emitted(dev, r.dev, [Write(DEV_ADDR, [PILT, threshold])])
    ensures r.out.Failure? <==> bus(dev.trace, Write(DEV_ADDR, [PILT, threshold])).Fault?
    ensures r.out.Failure? ==> r.out.error == bus(dev.trace, Write(DEV_ADDR, [PILT, threshold])).error
  {
    WriteRegister(bus, dev, PILT, threshold)
  }

  /** `set_proximity_high_threshold(threshold)`: the threshold to PIHT unchanged. */
  function SetProximityHighThreshold(bus: Oracle, dev: Apds, threshold: Byte): (r: Step<Result<(), BusError>>)
    ensures Emitted(dev, r.dev, [Write(DEV_ADDR, [PIHT, threshold])])
    ensures r.out.Failure? <==> bus(dev.trace, Write(DEV_ADDR, [PIHT, threshold])).Fault?
    ensures r.out.Failure? ==> r.out.error == bus(dev.trace, Write(DEV_ADDR, [PIHT, threshold])).error
  {
    WriteRegister(bus, dev, PIHT, threshold)
  }

  /** `clear_proximity_interrupt()`: touch PICLEAR. */
  function ClearProximityInterrupt(bus: Oracle, dev: Apds): (r: Step<Result<(), BusError>>)
    ensures Emitted(dev, r.dev, [Write(DEV_ADDR, [PICLEAR])])
    ensures r.out.Failure? <==> bus(dev.trace, Write(DEV_ADDR, [PICLEAR])).Fault?
    ensures r.out.Failure? ==> r.out.error == bus(dev.trace, Write(DEV_ADDR, [PICLEAR])).error
  {
    TouchRegister(bus, dev, PICLEAR)
  }

  /** `enable_proximity()`: set `Enable::PEN`. */
  function EnableProximity(bus: Oracle, dev: Apds): (r: Step<Result<(), BusError>>)
    ensures FlagWrite(bus, dev, EnableReg, PEN, true, r)
    ensures OnlyChanges(dev.shadow, r.dev.shadow, EnableReg)
  {
    SetFlag(bus, dev, EnableReg, PEN, true)
  }

  /** `disable_proximity()`: clear `Enable::PEN`. */
  function DisableProximity(bus: Oracle, dev: Apds): (r: Step<Result<(), BusError>>)
    ensures FlagWrite(bus, dev, EnableReg, PEN, false, r)
    ensures OnlyChanges(dev.shadow, r.dev.shadow, EnableReg)
  {
    SetFlag(bus, dev, EnableReg, PEN, false)
  }

  /** `enable_proximity_interrupts()`: set `Enable::PIEN`. */
  function EnableProximityInterrupts(bus: Oracle, dev: Apds): (r: Step<Result<(), BusError>>)
    ensures FlagWrite(bus, dev, EnableReg, PIEN, true, r)
    ensures OnlyChanges(dev.shadow, r.dev.shadow, EnableReg)
  {
    SetFlag(bus, dev, EnableReg, PIEN, true)
  }

  /** `disable_proximity_interrupts()`: clear `Enable::PIEN`. */
  function DisableProximityInterrupts(bus: Oracle, dev: Apds): (r: Step<Result<(), BusError>>)
    ensures FlagWrite(bus, dev, EnableReg, PIEN, false, r)
    ensures OnlyChanges(dev.shadow, r.dev.shadow, EnableReg)
  {
    SetFlag(bus, dev, EnableReg, PIEN, false)
  }

  /** `enable_proximity_saturation_interrupts()`: set `Config2::PSIEN`. */
  function EnableProximitySaturationInterrupts(bus: Oracle, dev: Apds): (r: Step<Result<(), BusError>>)
    ensures FlagWrite(bus, dev, Config2Reg, PSIEN, true, r)
    ensures OnlyChanges(dev.shadow, r.dev.shadow, Config2Reg)
  {
    SetFlag(bus, dev, Config2Reg, PSIEN, true)
  }

  /** `disable_proximity_saturation_interrupts()`: clear `Config2::PSIEN`. */
  function DisableProximitySaturationInterrupts(bus: Oracle, dev: Apds): (r: Step<Result<(), BusError>>)
    ensures FlagWrite(bus, dev, Config2Reg, PSIEN, false, r)
    ensures OnlyChanges(dev.shadow, r.dev.shadow, Config2Reg)
  {
    SetFlag(bus, dev, Config2Reg, PSIEN, false)
  }
}
