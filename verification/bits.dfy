/**
  Byte-level vocabulary of the driver: 8-bit flag masks with the read-modify-write
  semantics of the `BitFlags` helper, Rust's same-width casts between `i8` and `u8`,
  the little-endian split of a `u16`, and the nibble splice used for the proximity
  persistence register.
 */
module Bits {

  type Byte = bv8
  type Word = bv16

  /** Rust's `i8`, held as its two's-complement bits. */
  datatype I8 = I8(bits: Byte)
  {
    /** The signed number the bits stand for. */
    function Value(): (v: int)
      ensures -128 <= v < 128
    {
      if bits < 0x80 then bits as int else bits as int - 256
    }
  }

  /** The single-bit masks, bit 0 (least significant) first. */
  const BitMasks: seq<Byte> := [0x01, 0x02, 0x04, 0x08, 0x10, 0x20, 0x40, 0x80]

  /** True when bit `i` (0 = least significant) of `v` is set. */
  predicate Bit(v: Byte, i: nat)
    requires i < 8
  {
    v & BitMasks[i] != 0
  }

  /** `v` and `w` agree on every bit that `mask` selects. */
  predicate SameUnder(v: Byte, w: Byte, mask: Byte)
  {
    v & mask == w & mask
  }

  /** Agreeing under a mask chains. */
  lemma SameUnderTransitive(u: Byte, v: Byte, w: Byte, mask: Byte)
    requires SameUnder(u, v, mask) && SameUnder(v, w, mask)
    ensures SameUnder(u, w, mask)
  {
  }

  /**
    `BitFlags::with(flag, value)`: every bit of `flag` becomes `value`, every other
    bit of `v` is kept. The flag may select several bits (`Enable::ALL`).
   */
  function With(v: Byte, flag: Byte, value: bool): (r: Byte)
    ensures SameUnder(r, v, !flag)
    ensures value ==> r & flag == flag
    ensures !value ==> r & flag == 0
  {
    if value then v | flag else v & !flag
  }

  /** `BitFlags::is(flag, true)`: at least one bit of `flag` is set in `v`. */
  predicate Is(v: Byte, flag: Byte)
  {
    v & flag != 0
  }

  /** Setting a non-empty flag makes it read back as set; clearing makes it read back clear. */
  lemma WithThenIs(v: Byte, flag: Byte, value: bool)
    requires flag != 0
    ensures Is(With(v, flag, value), flag) == value
  {
  }

  /** `With` only depends on the old value outside the flag: applying it twice is applying it once. */
  lemma WithIdempotent(v: Byte, flag: Byte, value: bool)
    ensures With(With(v, flag, value), flag, value) == With(v, flag, value)
  {
  }

  /** The per-bit reading of `With`: bit `i` is `value` inside the flag and unchanged outside it. */
  lemma WithBitwise(v: Byte, flag: Byte, value: bool, i: nat)
    requires i < 8
    ensures Bit(With(v, flag, value), i) == (if Bit(flag, i) then value else Bit(v, i))
  {
    var m := BitMasks[i];
    assert m == 0x01 || m == 0x02 || m == 0x04 || m == 0x08 || m == 0x10 || m == 0x20 || m == 0x40 || m == 0x80;
  }

  /** `With` leaves alone any bits disjoint from the flag. */
  lemma WithKeepsDisjoint(v: Byte, flag: Byte, value: bool, m: Byte)
    requires flag & m == 0
    ensures SameUnder(With(v, flag, value), v, m)
  {
  }

  /** Inside the flag, `With` leaves exactly `value`. */
  lemma WithCovers(v: Byte, flag: Byte, value: bool, m: Byte)
    requires flag & m == m
    ensures Decides(With(v, flag, value), m, value)
  {
  }

  /** Bits `m` of `v` all equal `value`. */
  predicate Decides(v: Byte, m: Byte, value: bool)
  {
    v & m == (if value then m else 0)
  }

  /** Agreeing with a byte under `m` inherits what that byte holds in `m`. */
  lemma SameUnderDecides(u: Byte, v: Byte, m: Byte, value: bool)
    requires SameUnder(u, v, m) && Decides(v, m, value)
    ensures Decides(u, m, value)
  {
  }

  /** `b` is the two's-complement byte of the number `v` (its residue modulo 256). */
  predicate EncodesI8(b: Byte, v: int)
  {
    if v >= 0 then b as int == v else b as int == v + 256
  }

  /**
    Rust's `x as u8` for `x: i8`: the same eight bits read as unsigned, that is the
    byte congruent to `x` modulo 256 (two's complement).
   */
  function AsU8(x: I8): (r: Byte)
    ensures EncodesI8(r, x.Value())
  {
    x.bits
  }

  /** A negative offset, and only a negative one, sets the top bit of the byte sent. */
  lemma AsU8SignBit(x: I8)
    ensures x.Value() < 0 <==> AsU8(x) & 0x80 != 0
  {
  }

  /** `value as u8`: the low byte of a `u16`. */
  function LowByte(w: Word): (r: Byte)
    ensures r as Word == w % 0x100
  {
    (w & 0xFF) as Byte
  }

  /** `(value >> 8) as u8`: the high byte of a `u16`. */
  function HighByte(w: Word): (r: Byte)
    ensures r as Word == w / 0x100
  {
    (w >> 8) as Byte
  }

  /** Reassembling the two bytes, high byte weighted by 256, gives the original word. */
  lemma LowHighRoundTrip(w: Word)
    ensures (HighByte(w) as Word) * 0x100 + LowByte(w) as Word == w
  {
  }

  /** The split is injective: distinct words never emit the same byte pair. */
  lemma LowHighInjective(w: Word, w': Word)
    requires LowByte(w) == LowByte(w') && HighByte(w) == HighByte(w')
    ensures w == w'
  {
    LowHighRoundTrip(w);
    LowHighRoundTrip(w');
  }

  /**
    The persistence-register update: keep the low nibble of `current`, put the low
    nibble of `triggers` into the high nibble (`triggers << 4` drops its high nibble).
   */
  function SpliceHighNibble(current: Byte, triggers: Byte): (r: Byte)
    ensures SameUnder(r, current, 0x0F)
    ensures r >> 4 == triggers & 0x0F
  {
    (current & 0x0F) | ((triggers << 4) & 0xF0)
  }

  /** Two triggers values with the same low nibble produce the same register byte. */
  lemma SpliceIgnoresHighTriggerBits(current: Byte, t: Byte, t': Byte)
    requires t & 0x0F == t' & 0x0F
    ensures SpliceHighNibble(current, t) == SpliceHighNibble(current, t')
  {
  }
}
