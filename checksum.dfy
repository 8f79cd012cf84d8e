/** The checksum as the driver uses it: `calcCRC([hi, lo])` on the integer
    bytes of one 16-bit word, and the check a received word must pass. */
module Checksum {
  import opened Wire
  import Crc8

  /** `calcCRC([hi, lo])`: the checksum byte of one 16-bit word. */
  function CalcCrc(hi: Byte, lo: Byte): Byte
  {
    Crc8.WordCrc(hi as bv8, lo as bv8) as int
  }

  /** A received word {high, low, crc} is intact when its third byte is the
      checksum of the first two. */
  predicate WordValid(w: seq<Byte>)
    requires |w| == 3
  {
    w[2] == CalcCrc(w[0], w[1])
  }

  /** A byte converted to a bit-vector and back is unchanged. */
  lemma ByteAsBv(x: Byte)
    ensures (x as bv8) as int == x
  {
    assert x % 256 == x;
  }

  /** A bit-vector converted to an integer and back is unchanged. */
  lemma BvAsByte(b: bv8)
    ensures (b as int) as bv8 == b
  {
  }

  /** `calcCRC` is the CRC-8 with polynomial 0x31, initial value 0xFF, no
      reflection and final XOR 0x00 over the two bytes of the word. */
  lemma CalcCrcIsCrc8(hi: Byte, lo: Byte)
    ensures CalcCrc(hi, lo) == Crc8.ReferenceCrc(Crc8.Scd30Params, [hi as bv8, lo as bv8]) as int
  {
    Crc8.WordCrcIsReference(hi as bv8, lo as bv8);
  }

  /** Sensirion's check value: the word 0xBEEF has checksum 0x92. */
  lemma KnownVector()
    ensures CalcCrc(0xBE, 0xEF) == 0x92
  {
    Crc8.KnownVector();
    assert (0xBE as bv8) == 0xBE && (0xEF as bv8) == 0xEF;
  }

  /** Corrupting exactly one of the two data bytes of a word (in particular
      flipping any single bit of it) without recomputing the checksum makes
      the word fail the check. */
  lemma CorruptedWordRejected(w: seq<Byte>, hi: Byte, lo: Byte)
    requires |w| == 3 && WordValid(w)
    requires (hi != w[0] && lo == w[1]) || (hi == w[0] && lo != w[1])
    ensures !WordValid([hi, lo, w[2]])
  {
    var h, l, h', l' := w[0] as bv8, w[1] as bv8, hi as bv8, lo as bv8;
    ByteAsBv(w[0]);
    ByteAsBv(w[1]);
    ByteAsBv(hi);
    ByteAsBv(lo);
    Crc8.WordCrcDetectsChange(h, l, h', l');
    BvAsByte(Crc8.WordCrc(h, l));
    BvAsByte(Crc8.WordCrc(h', l'));
  }
}
