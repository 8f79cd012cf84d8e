/** Values shared by every layer of the SCD30 driver: bytes as the Python
    code sees them (plain ints in 0..255), big-endian words, and the ways an
    operation of the driver can end. */
module Wire {

  /** A byte on the I2C wire. */
  type Byte = x: int | 0 <= x < 256

  datatype Option<+T> = None | Some(value: T)

  /** The exceptions the driver lets escape. */
  datatype Error =
    | NoActiveException    // a bare `raise` outside an except block (RuntimeError)
    | BusFault             // the pigpio daemon refused a read or a close
    | MissingErrorMethod   // `self.error(...)` on an object without that attribute (AttributeError)
    | NoneSubscripted      // indexing or slicing the None that read_n_bytes may return (TypeError)
    | ByteOutOfRange       // `bytearray` given a value outside 0..255 (ValueError)

  /** An operation either returns a value or raises. */
  datatype Outcome<+T> = Returned(value: T) | Raised(error: Error)

  /** The big-endian 16-bit value of a high and a low byte. */
  function Be16(hi: Byte, lo: Byte): (r: nat)
    ensures r < 0x1_0000
    ensures r / 256 == hi && r % 256 == lo
  {
    hi * 256 + lo
  }

  /** The high byte of the 16-bit value of `x`, as `0xFF & (x >> 8)` computes it
      in Python (floor shift, so negative values wrap like two's complement). */
  function HighByte(x: int): Byte
  {
    (x / 256) % 256
  }

  /** The low byte of `x`, as `0xFF & x` computes it in Python. */
  function LowByte(x: int): Byte
  {
    x % 256
  }

  /** Splitting a value into its two low bytes and joining them again keeps the
      value modulo 2^16. */
  lemma SplitJoin(x: int)
    ensures Be16(HighByte(x), LowByte(x)) == x % 0x1_0000
  {
    var q := x / 256;
    assert x == 256 * q + LowByte(x);
    assert q == 256 * (q / 256) + HighByte(x);
    assert x == 0x1_0000 * (q / 256) + Be16(HighByte(x), LowByte(x));
  }
}
