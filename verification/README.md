# APDS-9960 driver: register protocol model

This is a Dafny model of the register protocol of the `apds9960` Rust driver for the
Avago APDS-9960 proximity/gesture/colour sensor. It covers the three core files:

- `src/config.rs` holds the write primitives and the shadowed read-modify-write flag setters.
- `src/proximity.rs` holds the proximity API of the `embedded_hal::i2c::I2c` generation. There, errors are the transport's `E`.
- `src/reading.rs` holds the readiness-gated reads of the older blocking `WriteRead` generation. There, errors are wrapped as `Error::I2C(e)`.

The I2C bus is an oracle. It is a function from the history of transactions already
sent and the current transaction to a reply. The reply is either a fault carrying the
transport error, or completion with the bytes the transport stores into the read buffer.
The driver handle `Apds` holds two things:

- the shadow copies of the four write-only flag registers (ENABLE, CONFIG1, CONFIG2, GCONFIG4);
- the trace of transactions sent so far.

Every operation is a pure function. It returns its Rust result together with the handle after the call.

Files:

- `bits.dfy` covers the `BitFlags` set/clear semantics on bytes, the `i8 as u8` cast, the little-endian split of a `u16`, and the persistence nibble splice.
- `bus.dfy` defines transactions, replies, the oracle, `Result`, `nb::Result`, and how a transport fills a read buffer.
- `device.dfy` defines the register map constants, the shadow registers, the handle, and the `write` and `write_read` primitives.
- `config.dfy`, `proximity.dfy` and `reading.dfy` model the three source files.
- `gate.dfy` is the reference definition of a readiness-gated one-byte read. Both `read_proximity` implementations are proved against it.
- `scenarios.dfy` holds worked examples on concrete buses.

The device address, register addresses and flag masks are constants of unspecified
value. Every property holds for any register map. Only the literals the driver spells
out are fixed: 0x8C (persistence), 0x93 (interrupt status) and `0b0010_0000` (its bit 5).

Readiness of a proximity sample is the `Status::PVALID` mask of `src/register.rs`,
tested on the STATUS register. Bit 5 (`0b0010_0000`) of register 0x93 is the proximity
interrupt bit that `get_proximity_interupt` tests (`src/proximity.rs:62`).

## Model

| member | source | states |
|---|---|---|
| Config.WriteRegister | src/config.rs:97-99 | exactly one write `[address, value]` to the device address; fails exactly when the bus faults; shadows untouched; on failure the error is the bus's own, unchanged |
| Config.WriteDoubleRegister | src/config.rs:101-108 | one three-byte write `[start, lo, hi]` whose bytes reassemble to the 16-bit value as `hi * 256 + lo` (little-endian); fails exactly when the bus faults; on failure the error is the bus's own, unchanged |
| Config.TouchRegister | src/config.rs:110-112 | one write of the register address alone, no payload; on failure the error is the bus's own, unchanged |
| Config.ConfigRegister | src/config.rs:93-95 | writes the given byte to the flag register's own address; on failure the error is the bus's own, unchanged |
| Config.SetFlag | src/config.rs:7-16 | one write to the register's address; the byte equals the shadow outside `flag` and `value` inside it; on failure the error is the bus's and no shadow changes; on success exactly that register's shadow becomes the written byte |
| Config.Enable | src/config.rs:24-26 | the flag write for `Enable::PON` set; on success PON is set in the enable shadow; other registers untouched |
| Config.Disable | src/config.rs:29-31 | the flag write for `Enable::ALL` cleared; on success every bit of ALL is clear in the enable shadow |
| Config.EnableWait | src/config.rs:39-41 | the flag write setting `Enable::WEN`, only the enable shadow may change |
| Config.DisableWait | src/config.rs:44-46 | the flag write clearing `Enable::WEN`, only the enable shadow may change |
| Config.EnableWaitLong | src/config.rs:54-56 | the flag write setting `Config1::WLONG`, only the config1 shadow may change |
| Config.DisableWaitLong | src/config.rs:59-61 | the flag write clearing `Config1::WLONG`, only the config1 shadow may change |
| Config.SetWaitTime | src/config.rs:74-76 | the value is written to WTIME unchanged; on failure the error is the bus's own, unchanged |
| Config.ForceInterrupt | src/config.rs:79-81 | a bare write of IFORCE; on failure the error is the bus's own, unchanged |
| Config.ClearInterrupts | src/config.rs:84-86 | a bare write of AICLEAR; on failure the error is the bus's own, unchanged |
| Config.SetFlags | src/config.rs:9-13 | a sequence of setter calls emits one transaction per call, appended after the existing trace, and yields one result per call |
| Config.SetFlagsReplays | src/config.rs:9-13 | after any sequence of setter calls the shadows equal the replay of exactly the calls whose write succeeded, in order |
| Config.ReplayKeepsUntouchedBits | src/config.rs:9-13 | bits of a register that no committed call names keep their original value through a replay |
| Config.ReplayFirstWriteSticks | src/config.rs:9-13 | a committed first call covering bits `m` decides them when no later commit touches them |
| Config.ReplayLastWriteWins | src/config.rs:9-13 | the last committed call covering bits `m` decides them in the replayed shadow |
| Config.SetFlagsFrame | src/config.rs:9-13 | setters that never name bits `m` of a register leave those shadow bits as they were, whatever the bus answers |
| Config.SetFlagsFailedCallsInvisible | src/config.rs:11-12 | a setter call whose write failed leaves no mark on the shadow, since the assignment follows the `?` |
| Config.SetFlagsLastWriteWins | src/config.rs:9-13 | if call `k` covering bits `m` succeeded and every later call touching them failed, the shadow holds call `k`'s value on `m` |
| Bits.With | src/config.rs:10 | every bit of the flag becomes `value` and every other bit of the old byte is kept |
| Bits.WithThenIs | src/config.rs:10 | setting a non-empty flag reads back as set through `is`, clearing reads back as clear |
| Bits.WithIdempotent | src/config.rs:10 | repeating the same flag update changes nothing |
| Bits.WithBitwise | src/config.rs:10 | per bit, the new value is `value` inside the flag and the old bit outside it |
| Bits.WithKeepsDisjoint | src/config.rs:10 | bits disjoint from the flag are untouched |
| Bits.WithCovers | src/config.rs:10 | bits inside the flag all equal `value` |
| Bits.LowByte | src/config.rs:107 | `value as u8` is the 16-bit value modulo 256 |
| Bits.HighByte | src/config.rs:107 | `(value >> 8) as u8` is the 16-bit value divided by 256 |
| Bits.LowHighRoundTrip | src/config.rs:107 | high byte times 256 plus low byte gives back the 16-bit value |
| Bits.LowHighInjective | src/config.rs:107 | distinct 16-bit values never produce the same byte pair |
| Bits.AsU8 | src/proximity.rs:85-86 | the byte sent is the two's-complement encoding of the signed offset (congruent modulo 256, in 0..255) |
| Bits.AsU8SignBit | src/proximity.rs:67 | the top bit of the byte sent is set exactly when the offset is negative |
| Bits.SpliceHighNibble | src/proximity.rs:55-56 | the new byte keeps the current low nibble and has the low nibble of `triggers` as its high nibble |
| Bits.SpliceIgnoresHighTriggerBits | src/proximity.rs:56 | `triggers` values that differ only in their high nibble write the same byte |
| Proximity.ReadRegister | src/proximity.rs:54 | one single-byte read of the register; the bus's error as it is, or the byte the transport stored (0 if it stored none) |
| Proximity.IsProximityDataValid | src/proximity.rs:111-114 | one STATUS read; true exactly when a PVALID bit is set; errors passed through |
| Proximity.ReadProximity | src/proximity.rs:99-105 | satisfies the gated-read reference with the raw transport error: fault is `Other(e)`, PVALID clear is `WouldBlock` after one read, otherwise the PDATA byte after a second read |
| Proximity.SetProximityPersistenceFilter | src/proximity.rs:53-58 | a failed read of 0x8C ends the call with no write; otherwise one write to 0x8C keeping the read low nibble and carrying `triggers`' low nibble on top; on failure the error is the bus's own, unchanged |
| Proximity.GetProximityInterupt | src/proximity.rs:61-63 | one read of 0x93; true exactly when bit 5 is set |
| Proximity.SetProximityUpRightOffset | src/proximity.rs:66-68 | one write to POFFSET_UR of the two's-complement byte of the offset; on failure the error is the bus's own, unchanged |
| Proximity.SetProximityDownLeftOffset | src/proximity.rs:71-73 | one write to POFFSET_DL of the two's-complement byte of the offset; on failure the error is the bus's own, unchanged |
| Proximity.SetProximityOffsets | src/proximity.rs:76-89 | one three-byte write from POFFSET_UR: up/right then down/left, each in two's complement; on failure the error is the bus's own, unchanged |
| Proximity.SetProximityLowThreshold | src/proximity.rs:43-45 | the threshold written to PILT unchanged; on failure the error is the bus's own, unchanged |
| Proximity.SetProximityHighThreshold | src/proximity.rs:48-50 | the threshold written to PIHT unchanged; on failure the error is the bus's own, unchanged |
| Proximity.ClearProximityInterrupt | src/proximity.rs:92-94 | a bare write of PICLEAR; on failure the error is the bus's own, unchanged |
| Proximity.EnableProximity | src/proximity.rs:13-15 | the flag write setting `Enable::PEN`, only the enable shadow may change |
| Proximity.DisableProximity | src/proximity.rs:18-20 | the flag write clearing `Enable::PEN` |
| Proximity.EnableProximityInterrupts | src/proximity.rs:23-25 | the flag write setting `Enable::PIEN` |
| Proximity.DisableProximityInterrupts | src/proximity.rs:28-30 | the flag write clearing `Enable::PIEN` |
| Proximity.EnableProximitySaturationInterrupts | src/proximity.rs:33-35 | the flag write setting `Config2::PSIEN`, only the config2 shadow may change |
| Proximity.DisableProximitySaturationInterrupts | src/proximity.rs:38-40 | the flag write clearing `Config2::PSIEN` |
| Gate.GateOutcomes | src/proximity.rs:99-105 | `WouldBlock` exactly when the status read completed with the mask clear, and then the payload is never read; `Other` exactly when one of the reads faulted; `Ok` only after the payload read |
| Reading.ReadData | src/reading.rs:77-81 | one `write_read` of the buffer's length; a fault becomes `Error::I2C` of the same error; otherwise a buffer of the same length filled from the front |
| Reading.ReadRegister | src/reading.rs:71-75 | `read_data` into `[0]`: the byte the transport stored, or 0 if it stored none |
| Reading.IsProximityDataValid | src/reading.rs:26-29 | one STATUS read; true exactly when a PVALID bit is set; errors wrapped |
| Reading.ReadProximity | src/reading.rs:14-20 | satisfies the gated-read reference with errors wrapped as `Error::I2C` |
| Reading.ReadGestureDataLevel | src/reading.rs:32-34 | one GFLVL read returning its byte |
| Reading.IsGestureDataValid | src/reading.rs:38-41 | one GSTATUS read; true exactly when a GVALID bit is set |
| Reading.ReadDeviceId | src/reading.rs:67-69 | one ID read returning its byte |
| Reading.ReadGestureData | src/reading.rs:54-62 | satisfies the burst reference; the buffer keeps its length and changes only when the call returns `Ok` |
| Reading.BurstOutcomes | src/reading.rs:55-57 | `WouldBlock` exactly when GSTATUS completed with GVALID clear, and then only one read is sent; a GSTATUS fault is `Other`; `Other` leaves the buffer as it was |
| Reading.BurstByteCount | src/reading.rs:58-60 | an `Ok` burst sends three reads, the third of `min(len, 4 * level)` bytes from GFIFO_U; buffer bytes past that count are untouched |
| Reading.BurstPrefixIsFifoData | src/reading.rs:59-60 | after an `Ok` burst each of the first `n` buffer bytes is the byte the FIFO read supplied at that position, or the caller's byte where the transport supplied fewer than `n`; a full supply leaves exactly the FIFO bytes in front |
| Scenarios.WideWriteIsLittleEndian | src/config.rs:106-107 | writing 0x1234 sends `[start, 0x34, 0x12]` |
| Scenarios.GestureBurstTruncates | src/reading.rs:58-60 | level 3 into an 8-byte buffer reads 8 bytes: the buffer gets the first 8 FIFO bytes |
| Scenarios.GestureBurstLeavesTail | src/reading.rs:58-60 | level 3 into a 16-byte buffer reads 12 bytes and the last 4 buffer bytes keep their old value |
| Scenarios.ProximityInterruptBit | src/proximity.rs:62 | 0x93 reading 0x20 reports an interrupt, reading 0 does not |
| Scenarios.ProximityNotReady | src/reading.rs:15-17 | a status of 0 gives `WouldBlock` after a single STATUS read, in both generations |
| Scenarios.OffsetsTwosComplement | src/proximity.rs:81-88 | offsets -1 and 5 go out as 0xFF and 0x05 |
| Scenarios.EnableOnBrokenBus | src/config.rs:11-12 | `enable()` on a faulting bus returns the fault and leaves every shadow as it was |

## Left out

- The real transport, the HAL traits and the `Apds9960` constructor and `destroy` are not modelled. The bus is an oracle over the transaction history.
- `src/register.rs` (the `BitFlags` trait and the register and mask values) is not part of this model. The `with` and `is` semantics are stated as set/clear-under-mask and any-bit-set. Addresses and masks are constants of unspecified value.
- `proximity.rs`'s own `read_register` is not part of this model. `Proximity.ReadRegister` assumes it is a one-byte `write_read` that returns the transport error unwrapped, as the `Result<_, E>` signatures of its callers require.
- A transport that faults part-way through a `write_read` is modelled as leaving the read buffer unchanged. Partial writes into the buffer before an error are not modelled.
- Timing is not modelled: the meaning of wait times, the 2.78 ms cycle and long wait. `SetWaitTime` only states the byte written.
- The device changing state between the status read and the data read is covered only through the oracle's history argument. The model says nothing about what the hardware does meanwhile.
- The flag-setter macro instance for GCONFIG4 (`set_flag_gconfig4`) has no public caller in the three files. It is covered by `Config.SetFlag` with `GConfig4Reg`.
- `4*level as usize` cannot overflow in Rust, because `level` is a `u8` widened before the multiplication. The model uses unbounded integers there, which is the same value.
