/**
  Common configuration (src/config.rs): the register-write primitives and the
  shadow-register read-modify-write that every flag setter goes through.

  Every operation returns the transport's `Result<(), E>` and the handle after the
  call; the transport error is returned as it came from the bus.
 */
module Config {
  import opened Bits
  import opened Bus
  import opened Device

  /** `write_register(address, value)`: one write of the two bytes `[address, value]`. */
  function WriteRegister(bus: Oracle, dev: Apds, address: Byte, value: Byte)
    : (r: Step<Result<(), BusError>>)
    ensures Emitted(dev, r.dev, [Write(DEV_ADDR, [address, value])])
    ensures r.out.Failure? <==> bus(dev.trace, Write(DEV_ADDR, [address, value])).Fault?
    ensures r.out.Failure? ==> r.out.error == bus(dev.trace, Write(DEV_ADDR, [address, value])).error
  {
    I2cWrite(bus, dev, [address, value])
  }

  /**
    `write_double_register(start, value)`: one write of three bytes, the start
    register followed by the low and then the high byte of `value`.
   */
  function WriteDoubleRegister(bus: Oracle, dev: Apds, start: Byte, value: Word)
    : (r: Step<Result<(), BusError>>)
    ensures |r.dev.trace| == |dev.trace| + 1 && r.dev.shadow == dev.shadow
    ensures r.dev.trace[..|dev.trace|] == dev.trace
    ensures var t := r.dev.trace[|dev.trace|];
            && t.Write? && t.addr == DEV_ADDR && |t.bytes| == 3 && t.bytes[0] == start
            && (t.bytes[2] as Word) * 0x100 + t.bytes[1] as Word == value
            && (r.out.Failure? <==> bus(dev.trace, t).Fault?)
            && (r.out.Failure? ==> r.out.error == bus(dev.trace, t).error)
  {
    LowHighRoundTrip(value);
    I2cWrite(bus, dev, [start, LowByte(value), HighByte(value)])
  }

  /** `touch_register(address)`: one write of the address alone, with no payload byte. */
  function TouchRegister(bus: Oracle, dev: Apds, address: Byte): (r: Step<Result<(), BusError>>)
    ensures Emitted(dev, r.dev, [Write(DEV_ADDR, [address])])
    ensures r.out.Failure? <==> bus(dev.trace, Write(DEV_ADDR, [address])).Fault?
    ensures r.out.Failure? ==> r.out.error == bus(dev.trace, Write(DEV_ADDR, [address])).error
  {
    I2cWrite(bus, dev, [address])
  }

  /** `config_register(&value)`: writes `value` to the flag register's own address. */
  function ConfigRegister(bus: Oracle, dev: Apds, reg: FlagReg, value: Byte)
    : (r: Step<Result<(), BusError>>)
    ensures Emitted(dev, r.dev, [Write(DEV_ADDR, [Address(reg), value])])
    ensures r.out.Failure? <==> bus(dev.trace, Write(DEV_ADDR, [Address(reg), value])).Fault?
    ensures r.out.Failure? ==> r.out.error == bus(dev.trace, Write(DEV_ADDR, [Address(reg), value])).error
  {
    WriteRegister(bus, dev, Address(reg), value)
  }

  /**
    What a flag setter must do: emit exactly one write `[address of reg, new]` where
    `new` is the shadow with the bits of `flag` set to `value` and every other bit
    kept; report the transport's verdict; and commit `new` to the shadow of `reg`
    (and only there) exactly when the write succeeded.
   */
  predicate FlagWrite(bus: Oracle, dev: Apds, reg: FlagReg, flag: Byte, value: bool,
                      r: Step<Result<(), BusError>>)
  {
    && |r.dev.trace| == |dev.trace| + 1
    && r.dev.trace[..|dev.trace|] == dev.trace
    && var t := r.dev.trace[|dev.trace|];
    && t.Write? && t.addr == DEV_ADDR && |t.bytes| == 2 && t.bytes[0] == Address(reg)
    && SameUnder(t.bytes[1], dev.shadow.Get(reg), !flag)
    && t.bytes[1] & flag == (if value then flag else 0)
    && (r.out.Failure? <==> bus(dev.trace, t).Fault?)
    && (r.out.Failure? ==> r.out.error == bus(dev.trace, t).error && r.dev.shadow == dev.shadow)
    && (r.out.Success? ==> r.dev.shadow == dev.shadow.Set(reg, t.bytes[1]))
  }

  /**
    The four `set_flag_*` setters generated by `impl_set_flag_reg!`, one per shadowed
    register: compute the new value from the shadow, write it, and assign the shadow
    only after the write returned `Ok`.
   */
  function SetFlag(bus: Oracle, dev: Apds, reg: FlagReg, flag: Byte, value: bool)
    : (r: Step<Result<(), BusError>>)
    ensures FlagWrite(bus, dev, reg, flag, value, r)
    ensures OnlyChanges(dev.shadow, r.dev.shadow, reg)
  {
    var updated := With(dev.shadow.Get(reg), flag, value);
    var w := ConfigRegister(bus, dev, reg, updated);
    match w.out
    case Failure(e) => Step(Failure(e), w.dev)
    case Success(_) => Step(Success(()), w.dev.(shadow := w.dev.shadow.Set(reg, updated)))
  }

  /** `enable()`: set `Enable::PON`; on success the enable shadow gains PON and nothing else changes. */
  function Enable(bus: Oracle, dev: Apds): (r: Step<Result<(), BusError>>)
    ensures FlagWrite(bus, dev, EnableReg, PON, true, r)
    ensures OnlyChanges(dev.shadow, r.dev.shadow, EnableReg)
    ensures r.out.Success? ==> r.dev.shadow.enable & PON == PON
  {
    SetFlag(bus, dev, EnableReg, PON, true)
  }

  /** `disable()`: clear every bit of `Enable::ALL` in the enable shadow. */
  function Disable(bus: Oracle, dev: Apds): (r: Step<Result<(), BusError>>)
    ensures FlagWrite(bus, dev, EnableReg, ALL, false, r)
    ensures OnlyChanges(dev.shadow, r.dev.shadow, EnableReg)
    ensures r.out.Success? ==> r.dev.shadow.enable & ALL == 0
  {
    SetFlag(bus, dev, EnableReg, ALL, false)
  }

  /** `enable_wait()`: set `Enable::WEN`. */
  function EnableWait(bus: Oracle, dev: Apds): (r: Step<Result<(), BusError>>)
    ensures FlagWrite(bus, dev, EnableReg, WEN, true, r)
    ensures OnlyChanges(dev.shadow, r.dev.shadow, EnableReg)
  {
    SetFlag(bus, dev, EnableReg, WEN, true)
  }

  /** `disable_wait()`: clear `Enable::WEN`. */
  function DisableWait(bus: Oracle, dev: Apds): (r: Step<Result<(), BusError>>)
    ensures FlagWrite(bus, dev, EnableReg, WEN, false, r)
    ensures OnlyChanges(dev.shadow, r.dev.shadow, EnableReg)
  {
    SetFlag(bus, dev, EnableReg, WEN, false)
  }

  /** `enable_wait_long()`: set `Config1::WLONG`; the enable shadow is not touched. */
  function EnableWaitLong(bus: Oracle, dev: Apds): (r: Step<Result<(), BusError>>)
    ensures FlagWrite(bus, dev, Config1Reg, WLONG, true, r)
    ensures OnlyChanges(dev.shadow, r.dev.shadow, Config1Reg)
  {
    SetFlag(bus, dev, Config1Reg, WLONG, true)
  }

  /** `disable_wait_long()`: clear `Config1::WLONG`; the enable shadow is not touched. */
  function DisableWaitLong(bus: Oracle, dev: Apds): (r: Step<Result<(), BusError>>)
    ensures FlagWrite(bus, dev, Config1Reg, WLONG, false, r)
    ensures OnlyChanges(dev.shadow, r.dev.shadow, Config1Reg)
  {
    SetFlag(bus, dev, Config1Reg, WLONG, false)
  }

  /** `set_wait_time(value)`: the value goes to WTIME unchanged. */
  function SetWaitTime(bus: Oracle, dev: Apds, value: Byte): (r: Step<Result<(), BusError>>)
    ensures Emitted(dev, r.dev, [Write(DEV_ADDR, [WTIME, value])])
    ensures r.out.Failure? <==> bus(dev.trace, Write(DEV_ADDR, [WTIME, value])).Fault?
    ensures r.out.Failure? ==> r.out.error == bus(dev.trace, Write(DEV_ADDR, [WTIME, value])).error
  {
    WriteRegister(bus, dev, WTIME, value)
  }

  /** `force_interrupt()`: touch IFORCE. */
  function ForceInterrupt(bus: Oracle, dev: Apds): (r: Step<Result<(), BusError>>)
    ensures Emitted(dev, r.dev, [Write(DEV_ADDR, [IFORCE])])
    ensures r.out.Failure? <==> bus(dev.trace, Write(DEV_ADDR, [IFORCE])).Fault?
    ensures r.out.Failure? ==> r.out.error == bus(dev.trace, Write(DEV_ADDR, [IFORCE])).error
  {
    TouchRegister(bus, dev, IFORCE)
  }

  /** `clear_interrupts()`: touch AICLEAR. */
  function ClearInterrupts(bus: Oracle, dev: Apds): (r: Step<Result<(), BusError>>)
    ensures Emitted(dev, r.dev, [Write(DEV_ADDR, [AICLEAR])])
    ensures r.out.Failure? <==> bus(dev.trace, Write(DEV_ADDR, [AICLEAR])).Fault?
    ensures r.out.Failure? ==> r.out.error == bus(dev.trace, Write(DEV_ADDR, [AICLEAR])).error
  {
    TouchRegister(bus, dev, AICLEAR)
  }

  /** One call of a flag setter, as a caller issues it. */
  datatype FlagOp = FlagOp(reg: FlagReg, flag: Byte, value: bool)

  /**
    A caller issuing the flag setters `ops` one after another on the same handle,
    keeping every outcome (a failed call does not stop the next one).
   */
  function SetFlags(bus: Oracle, dev: Apds, ops: seq<FlagOp>): (r: Step<seq<Result<(), BusError>>>)
    ensures |r.out| == |ops|
    ensures |r.dev.trace| == |dev.trace| + |ops|
    ensures r.dev.trace[..|dev.trace|] == dev.trace
    decreases |ops|
  {
    if |ops| == 0 then Step([], dev)
    else
      var s := SetFlag(bus, dev, ops[0].reg, ops[0].flag, ops[0].value);
      var rest := SetFlags(bus, s.dev, ops[1..]);
      Step([s.out] + rest.out, rest.dev)
  }

  /** The shadows after one setter call whose write succeeded. */
  function ApplyOp(sh: Shadows, op: FlagOp): Shadows
  {
    sh.Set(op.reg, With(sh.Get(op.reg), op.flag, op.value))
  }

  /**
    Reference semantics of a setter sequence on the shadows alone: replay the calls
    in order, committing exactly those whose write succeeded (`ok`).
   */
  function Replay(sh: Shadows, ops: seq<FlagOp>, ok: seq<bool>): Shadows
    requires |ok| == |ops|
    decreases |ops|
  {
    if |ops| == 0 then sh
    else Replay(if ok[0] then ApplyOp(sh, ops[0]) else sh, ops[1..], ok[1..])
  }

  /** Which calls of a setter sequence succeeded. */
  function Succeeded(outs: seq<Result<(), BusError>>): (ok: seq<bool>)
    ensures |ok| == |outs|
    ensures forall j :: 0 <= j < |outs| ==> ok[j] == outs[j].Success?
  {
    seq(|outs|, j requires 0 <= j < |outs| => outs[j].Success?)
  }

  /** The handle's shadows after a setter sequence are the replay of its successful calls. */
  lemma {:induction false} SetFlagsReplays(bus: Oracle, dev: Apds, ops: seq<FlagOp>)
    ensures var r := SetFlags(bus, dev, ops);
            r.dev.shadow == Replay(dev.shadow, ops, Succeeded(r.out))
    decreases |ops|
  {
    if |ops| > 0 {
      var op := ops[0];
      var s := SetFlag(bus, dev, op.reg, op.flag, op.value);
      var rest := SetFlags(bus, s.dev, ops[1..]);
      var all := SetFlags(bus, dev, ops);
      assert all.out == [s.out] + rest.out && all.dev == rest.dev;
      assert s.dev.shadow == if s.out.Success? then ApplyOp(dev.shadow, op) else dev.shadow;
      SetFlagsReplays(bus, s.dev, ops[1..]);
      assert Succeeded(all.out)[1..] == Succeeded(rest.out);
    }
  }

  /** A committed call `op` leaves bits `m` of register `reg` alone. */
  predicate Avoids(op: FlagOp, reg: FlagReg, m: Byte)
  {
    op.reg != reg || op.flag & m == 0
  }

  /** Bits `m` of a register survive a replay in which no committed call on it touches `m`. */
  lemma {:induction false} ReplayKeepsUntouchedBits(sh: Shadows, ops: seq<FlagOp>, ok: seq<bool>,
                                                    reg: FlagReg, m: Byte)
    requires |ok| == |ops|
    requires forall j :: 0 <= j < |ops| && ok[j] ==> Avoids(ops[j], reg, m)
    ensures SameUnder(Replay(sh, ops, ok).Get(reg), sh.Get(reg), m)
    decreases |ops|
  {
    if |ops| > 0 {
      var sh1 := if ok[0] then ApplyOp(sh, ops[0]) else sh;
      if ok[0] && ops[0].reg == reg {
        WithKeepsDisjoint(sh.Get(reg), ops[0].flag, ops[0].value, m);
      }
      assert SameUnder(sh1.Get(reg), sh.Get(reg), m);
      assert forall j :: 0 <= j < |ops[1..]| ==> ops[1..][j] == ops[j + 1] && ok[1..][j] == ok[j + 1];
      ReplayKeepsUntouchedBits(sh1, ops[1..], ok[1..], reg, m);
      SameUnderTransitive(Replay(sh1, ops[1..], ok[1..]).Get(reg), sh1.Get(reg), sh.Get(reg), m);
    }
  }

  /** The first call of a replay, committed and covering `m`, decides `m` if no later commit touches it. */
  lemma ReplayFirstWriteSticks(sh: Shadows, ops: seq<FlagOp>, ok: seq<bool>, reg: FlagReg, m: Byte)
    requires |ok| == |ops| && 0 < |ops|
    requires ok[0] && ops[0].reg == reg && ops[0].flag & m == m
    requires forall j :: 0 < j < |ops| && ok[j] ==> Avoids(ops[j], reg, m)
    ensures Decides(Replay(sh, ops, ok).Get(reg), m, ops[0].value)
  {
    var sh1 := ApplyOp(sh, ops[0]);
    assert Decides(sh1.Get(reg), m, ops[0].value) by {
      WithCovers(sh.Get(reg), ops[0].flag, ops[0].value, m);
    }
    assert forall j :: 0 <= j < |ops[1..]| ==> ops[1..][j] == ops[j + 1] && ok[1..][j] == ok[j + 1];
    ReplayKeepsUntouchedBits(sh1, ops[1..], ok[1..], reg, m);
    SameUnderDecides(Replay(sh1, ops[1..], ok[1..]).Get(reg), sh1.Get(reg), m, ops[0].value);
  }

  /**
    In a replay the last committed call touching bits `m` of a register decides them,
    provided that call covers all of `m`.
   */
  lemma {:induction false} ReplayLastWriteWins(sh: Shadows, ops: seq<FlagOp>, ok: seq<bool>,
                                               reg: FlagReg, m: Byte, k: nat)
    requires |ok| == |ops| && k < |ops|
    requires ok[k] && ops[k].reg == reg && ops[k].flag & m == m
    requires forall j :: k < j < |ops| && ok[j] ==> Avoids(ops[j], reg, m)
    ensures Decides(Replay(sh, ops, ok).Get(reg), m, ops[k].value)
    decreases k
  {
    if k == 0 {
      ReplayFirstWriteSticks(sh, ops, ok, reg, m);
    } else {
      var sh1 := if ok[0] then ApplyOp(sh, ops[0]) else sh;
      assert forall j :: 0 <= j < |ops[1..]| ==> ops[1..][j] == ops[j + 1] && ok[1..][j] == ok[j + 1];
      ReplayLastWriteWins(sh1, ops[1..], ok[1..], reg, m, k - 1);
    }
  }

  /**
    Read-modify-write correctness: setters that never name bits `m` of a register
    leave those bits of its shadow exactly as they were, whatever the bus answers.
   */
  lemma SetFlagsFrame(bus: Oracle, dev: Apds, ops: seq<FlagOp>, reg: FlagReg, m: Byte)
    requires forall j :: 0 <= j < |ops| && ops[j].reg == reg ==> ops[j].flag & m == 0
    ensures SameUnder(SetFlags(bus, dev, ops).dev.shadow.Get(reg), dev.shadow.Get(reg), m)
  {
    var r := SetFlags(bus, dev, ops);
    SetFlagsReplays(bus, dev, ops);
    ReplayKeepsUntouchedBits(dev.shadow, ops, Succeeded(r.out), reg, m);
  }

  /**
    A failed setter call leaves no trace in the shadows: bits `m` survive any
    sequence in which every call on the register that touches `m` failed.
   */
  lemma SetFlagsFailedCallsInvisible(bus: Oracle, dev: Apds, ops: seq<FlagOp>, reg: FlagReg, m: Byte)
    requires forall j :: 0 <= j < |ops| && ops[j].reg == reg && ops[j].flag & m != 0 ==>
               SetFlags(bus, dev, ops).out[j].Failure?
    ensures SameUnder(SetFlags(bus, dev, ops).dev.shadow.Get(reg), dev.shadow.Get(reg), m)
  {
    var r := SetFlags(bus, dev, ops);
    SetFlagsReplays(bus, dev, ops);
    ReplayKeepsUntouchedBits(dev.shadow, ops, Succeeded(r.out), reg, m);
  }

  /**
    The last write wins: if call `k` set bits `m` of `reg` and succeeded, and every
    later call on `reg` touching `m` failed, the shadow holds call `k`'s value there.
   */
  lemma SetFlagsLastWriteWins(bus: Oracle, dev: Apds, ops: seq<FlagOp>, reg: FlagReg, m: Byte, k: nat)
    requires k < |ops| && ops[k].reg == reg && ops[k].flag & m == m
    requires SetFlags(bus, dev, ops).out[k].Success?
    requires forall j :: k < j < |ops| && ops[j].reg == reg && ops[j].flag & m != 0 ==>
               SetFlags(bus, dev, ops).out[j].Failure?
    ensures Decides(SetFlags(bus, dev, ops).dev.shadow.Get(reg), m, ops[k].value)
  {
    var r := SetFlags(bus, dev, ops);
    SetFlagsReplays(bus, dev, ops);
    ReplayLastWriteWins(dev.shadow, ops, Succeeded(r.out), reg, m, k);
  }
}
