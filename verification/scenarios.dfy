/**
  Worked examples on concrete bus behaviour: the byte order of a 16-bit write, the
  silent truncation of a gesture burst, the proximity-interrupt bit, the two's
  complement offsets, and a faulting flag write.
 */
module Scenarios {
  import opened Bits
  import opened Bus
  import opened Device
  import Config
  import Proximity
  import Reading

  /** A bus that completes every transaction and returns no bytes. */
  function Silent(): Oracle
  {
    (h: seq<Txn>, t: Txn) => Done([])
  }

  /** A bus that faults on every transaction. */
  function Broken(e: BusError): Oracle
  {
    (h: seq<Txn>, t: Txn) => Fault(e)
  }

  /** Twelve FIFO bytes: three datasets of up, down, left, right. */
  const FIFO: seq<Byte> := [1, 2, 3, 4, 5, 6, 7, 8, 9, 10, 11, 12]

  /** A device with gesture data ready: GSTATUS reads 0xFF, GFLVL reads 3, the FIFO holds `FIFO`. */
  function GestureReady(): Oracle
  {
    (h: seq<Txn>, t: Txn) =>
      if |h| == 0 then Done([0xFF]) else if |h| == 1 then Done([3]) else Done(FIFO)
  }

  /** `write_double_register(start, 0x1234)` sends `[start, 0x34, 0x12]`. */
  lemma WideWriteIsLittleEndian(dev: Apds, start: Byte)
    ensures Config.WriteDoubleRegister(Silent(), dev, start, 0x1234).dev.trace
              == dev.trace + [Write(DEV_ADDR, [start, 0x34, 0x12])]
  {
  }

  /** Level 3 into an 8-byte buffer: 8 bytes are read, the other 4 datasets' bytes stay queued. */
  lemma GestureBurstTruncates(sh: Shadows)
    requires GVALID != 0
    ensures var r := Reading.ReadGestureData(GestureReady(), Apds(sh, []), seq(8, _ => 0));
            && r.out.out == Ok(())
            && r.dev.trace[2] == ReadTxn(GFIFO_U, 8)
            && r.out.data == FIFO[..8]
  {
    var bus := GestureReady();
    var buf: seq<Byte> := seq(8, _ => 0);
    var r := Reading.ReadGestureData(bus, Apds(sh, []), buf);
    var t0, t1 := ReadTxn(GSTATUS, 1), ReadTxn(GFLVL, 1);
    assert bus([], t0) == Done([0xFF]) && Is(RegisterByte([0xFF]), GVALID);
    assert bus([t0], t1) == Done([3]) && RegisterByte([3]) as int == 3;
    assert Reading.Min(|buf|, 4 * 3) == 8;
    assert bus([t0, t1], ReadTxn(GFIFO_U, 8)) == Done(FIFO);
    assert Deliver(buf[..8], FIFO) == FIFO[..8];
    assert r.out.data[..8] == FIFO[..8] && |r.out.data| == 8;
  }

  /** Level 3 into a 16-byte buffer: 12 bytes are read and the last 4 are untouched. */
  lemma GestureBurstLeavesTail(sh: Shadows)
    requires GVALID != 0
    ensures var r := Reading.ReadGestureData(GestureReady(), Apds(sh, []), seq(16, _ => 0xEE));
            && r.out.out == Ok(())
            && r.dev.trace[2] == ReadTxn(GFIFO_U, 12)
            && r.out.data == FIFO + [0xEE, 0xEE, 0xEE, 0xEE]
  {
    var bus := GestureReady();
    var buf: seq<Byte> := seq(16, _ => 0xEE);
    var r := Reading.ReadGestureData(bus, Apds(sh, []), buf);
    var t0, t1 := ReadTxn(GSTATUS, 1), ReadTxn(GFLVL, 1);
    assert bus([], t0) == Done([0xFF]) && Is(RegisterByte([0xFF]), GVALID);
    assert bus([t0], t1) == Done([3]) && RegisterByte([3]) as int == 3;
    assert Reading.Min(|buf|, 4 * 3) == 12;
    assert bus([t0, t1], ReadTxn(GFIFO_U, 12)) == Done(FIFO);
    assert Deliver(buf[..12], FIFO) == FIFO;
    assert r.out.data[..12] == FIFO && r.out.data[12..] == buf[12..];
    assert r.out.data == r.out.data[..12] + r.out.data[12..];
  }

  /** Register 0x93 reading 0b0010_0000 reports a proximity interrupt; reading 0 does not. */
  lemma ProximityInterruptBit(dev: Apds)
    ensures Proximity.GetProximityInterupt((h: seq<Txn>, t: Txn) => Done([0x20]), dev).out == Success(true)
    ensures Proximity.GetProximityInterupt((h: seq<Txn>, t: Txn) => Done([0x00]), dev).out == Success(false)
  {
  }

  /** A status byte of 0 never lets a proximity sample through, in either generation. */
  lemma ProximityNotReady(dev: Apds)
    ensures var r := Proximity.ReadProximity((h: seq<Txn>, t: Txn) => Done([0]), dev);
            r.out == WouldBlock && r.dev.trace == dev.trace + [ReadTxn(STATUS, 1)]
    ensures var r := Reading.ReadProximity((h: seq<Txn>, t: Txn) => Done([0]), dev);
            r.out == WouldBlock && r.dev.trace == dev.trace + [ReadTxn(STATUS, 1)]
  {
  }

  /** Offsets -1 and 5 go out as the bytes 0xFF and 0x05. */
  lemma OffsetsTwosComplement(dev: Apds)
    ensures I8(0xFF).Value() == -1 && I8(0x05).Value() == 5
    ensures Proximity.SetProximityOffsets(Silent(), dev, I8(0xFF), I8(0x05)).dev.trace
              == dev.trace + [Write(DEV_ADDR, [POFFSET_UR, 0xFF, 0x05])]
  {
  }

  /** `enable()` on a faulting bus reports the fault and leaves every shadow as it was. */
  lemma EnableOnBrokenBus(dev: Apds, e: BusError)
    ensures var r := Config.Enable(Broken(e), dev);
            r.out == Failure(e) && r.dev.shadow == dev.shadow
  {
  }
}
