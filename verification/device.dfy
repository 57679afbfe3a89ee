/**
  The device handle: the register map it talks to, the shadow copies of the four
  write-only flag registers, and the two bus primitives every operation is built on.

  The device address, the register addresses and the flag masks are not fixed
  here: each is a constant of unspecified value, so every property proved below
  holds whatever the register map is. Only the values the driver code spells out
  literally (`PERS`, `PINT_STATUS`, `PINT`) are given.
 */
module Device {
  import opened Bits
  import opened Bus

  /** `DEV_ADDR`: the bus address of the sensor. */
  const DEV_ADDR: Byte

  // Flag registers kept as shadows.
  const ENABLE: Byte
  const CONFIG1: Byte
  const CONFIG2: Byte
  const GCONFIG4: Byte

  // Plain registers (`Register::*`).
  const WTIME: Byte
  const IFORCE: Byte
  const AICLEAR: Byte
  const PILT: Byte
  const PIHT: Byte
  const POFFSET_UR: Byte
  const POFFSET_DL: Byte
  const PICLEAR: Byte
  const PDATA: Byte
  const STATUS: Byte
  const GSTATUS: Byte
  const GFLVL: Byte
  const GFIFO_U: Byte
  const ID: Byte

  /** The proximity persistence register, addressed literally by the driver. */
  const PERS: Byte := 0x8C
  /** The status register read literally by the proximity-interrupt query. */
  const PINT_STATUS: Byte := 0x93
  /** Bit 5 of `PINT_STATUS`: a proximity interrupt is pending. */
  const PINT: Byte := 0x20

  // Flag masks (`Enable::*`, `Config1::*`, `Config2::*`, `Status::*`, `GStatus::*`).
  const PON: Byte
  const WEN: Byte
  const PEN: Byte
  const PIEN: Byte
  const ALL: Byte
  const WLONG: Byte
  const PSIEN: Byte
  const PVALID: Byte
  const GVALID: Byte

  /** The registers the driver tracks with a shadow copy. */
  datatype FlagReg = EnableReg | Config1Reg | Config2Reg | GConfig4Reg

  /** `T::ADDRESS` of each shadowed register. */
  function Address(reg: FlagReg): Byte
  {
    match reg
    case EnableReg => ENABLE
    case Config1Reg => CONFIG1
    case Config2Reg => CONFIG2
    case GConfig4Reg => GCONFIG4
  }

  /** The cached last-written value of each flag register. */
  datatype Shadows = Shadows(enable: Byte, config1: Byte, config2: Byte, gconfig4: Byte)
  {
    function Get(reg: FlagReg): Byte
    {
      match reg
      case EnableReg => enable
      case Config1Reg => config1
      case Config2Reg => config2
      case GConfig4Reg => gconfig4
    }

    /** The shadows with `reg` replaced by `v` and the other three kept. */
    function Set(reg: FlagReg, v: Byte): (s: Shadows)
      ensures s.Get(reg) == v
      ensures forall other :: other != reg ==> s.Get(other) == Get(other)
    {
      match reg
      case EnableReg => this.(enable := v)
      case Config1Reg => this.(config1 := v)
      case Config2Reg => this.(config2 := v)
      case GConfig4Reg => this.(gconfig4 := v)
    }
  }

  /** `s'` differs from `s` at most in the shadow of `reg`. */
  predicate OnlyChanges(s: Shadows, s': Shadows, reg: FlagReg)
  {
    s' == s.Set(reg, s'.Get(reg))
  }

  /** The driver handle `Apds9960`: its shadows and everything it has sent on the bus so far. */
  datatype Apds = Apds(shadow: Shadows, trace: seq<Txn>)

  /** What one driver call yields: its return value and the handle afterwards. */
  datatype Step<+T> = Step(out: T, dev: Apds)

  /** `dev'` is `dev` after sending exactly `txns`, with the shadows untouched. */
  predicate Emitted(dev: Apds, dev': Apds, txns: seq<Txn>)
  {
    dev'.shadow == dev.shadow && dev'.trace == dev.trace + txns
  }

  /** The transaction a one-register read sends: the register address, then `n` bytes back. */
  function ReadTxn(reg: Byte, n: nat): Txn
  {
    WriteRead(DEV_ADDR, [reg], n)
  }

  /** `i2c.write(DEV_ADDR, bytes)`. */
  function I2cWrite(bus: Oracle, dev: Apds, bytes: seq<Byte>): (r: Step<Result<(), BusError>>)
    ensures Emitted(dev, r.dev, [Write(DEV_ADDR, bytes)])
    ensures r.out.Failure? <==> bus(dev.trace, Write(DEV_ADDR, bytes)).Fault?
    ensures r.out.Failure? ==> r.out.error == bus(dev.trace, Write(DEV_ADDR, bytes)).error
  {
    var t := Write(DEV_ADDR, bytes);
    var dev' := dev.(trace := dev.trace + [t]);
    match bus(dev.trace, t)
    case Fault(e) => Step(Failure(e), dev')
    case Done(_) => Step(Success(()), dev')
  }

  /**
    `i2c.write_read(DEV_ADDR, bytes, buf)`: on success the filled buffer, which always
    has the caller's length.
   */
  function I2cWriteRead(bus: Oracle, dev: Apds, bytes: seq<Byte>, buf: seq<Byte>)
    : (r: Step<Result<seq<Byte>, BusError>>)
    ensures Emitted(dev, r.dev, [WriteRead(DEV_ADDR, bytes, |buf|)])
    ensures r.out.Failure? <==> bus(dev.trace, WriteRead(DEV_ADDR, bytes, |buf|)).Fault?
    ensures r.out.Failure? ==> r.out.error == bus(dev.trace, WriteRead(DEV_ADDR, bytes, |buf|)).error
    ensures r.out.Success? ==> |r.out.value| == |buf|
    ensures r.out.Success? ==> r.out.value == Deliver(buf, bus(dev.trace, WriteRead(DEV_ADDR, bytes, |buf|)).fill)
  {
    var t := WriteRead(DEV_ADDR, bytes, |buf|);
    var dev' := dev.(trace := dev.trace + [t]);
    match bus(dev.trace, t)
    case Fault(e) => Step(Failure(e), dev')
    case Done(fill) => Step(Success(Deliver(buf, fill)), dev')
  }
}
