/** The command encoder: the byte frame each driver operation writes to the
    sensor (raspi_airdata.py:139-299). A frame is a 16-bit command code,
    high byte first, optionally followed by one 16-bit argument word and its
    checksum. */
module Commands {
  import opened Wire
  import opened Checksum

  datatype Command =
    | StartMeasurement(pressureMbar: int)
    | StopMeasurement
    | GetDataReady
    | ReadMeasurement
    | GetMeasInterval
    | SetMeasInterval(seconds: int)
    | GetAscStatus
    | SoftReset
    | ReadFirmwareVersion

  /** The command codes of the SCD30 interface. */
  function Opcode(c: Command): nat
  {
    match c
    case StartMeasurement(_) => 0x0010
    case StopMeasurement => 0x0104
    case GetDataReady => 0x0202
    case ReadMeasurement => 0x0300
    case GetMeasInterval => 0x4600
    case SetMeasInterval(_) => 0x4600
    case GetAscStatus => 0x5306
    case SoftReset => 0xD304
    case ReadFirmwareVersion => 0xD100
  }

  predicate HasArgument(c: Command)
  {
    c.StartMeasurement? || c.SetMeasInterval?
  }

  /** The driver puts the interval into the low byte of the argument word
      only, so it can send values up to 255. */
  predicate Encodable(c: Command)
  {
    c.SetMeasInterval? ==> 0 <= c.seconds < 256
  }

  /** The 16-bit argument a frame carries: the ambient pressure modulo 2^16
      (the driver keeps its two low bytes) or the interval. */
  function Argument(c: Command): int
    requires HasArgument(c)
  {
    if c.StartMeasurement? then c.pressureMbar % 0x1_0000 else c.seconds
  }

  /** The frame the driver writes for `c`. Argument-free frames carry no
      checksum byte. */
  function Encode(c: Command): (frame: seq<Byte>)
    requires Encodable(c)
    ensures |frame| == if HasArgument(c) then 5 else 2
  {
    match c
    case StartMeasurement(pressure) =>
      var lsb := LowByte(pressure);
      var msb := HighByte(pressure);
      [0x00, 0x10, msb, lsb, CalcCrc(msb, lsb)]
    case StopMeasurement => [0x01, 0x04]
    case GetDataReady => [0x02, 0x02]
    case ReadMeasurement => [0x03, 0x00]
    case GetMeasInterval => [0x46, 0x00]
    case SetMeasInterval(seconds) => [0x46, 0x00, 0x00, seconds, CalcCrc(0x00, seconds)]
    case GetAscStatus => [0x53, 0x06]
    case SoftReset => [0xD3, 0x04]
    case ReadFirmwareVersion => [0xD1, 0x00]
  }

  /** A frame starts with the command code, high byte first; for the two
      commands with an argument, the argument word follows, high byte
      first. */
  lemma EncodeWords(c: Command)
    requires Encodable(c)
    ensures Be16(Encode(c)[0], Encode(c)[1]) == Opcode(c)
    ensures HasArgument(c) ==> Be16(Encode(c)[2], Encode(c)[3]) == Argument(c)
  {
    if c.StartMeasurement? {
      SplitJoin(c.pressureMbar);
    }
  }

  /** The argument word of a frame is followed by its checksum. */
  lemma EncodeChecksum(c: Command)
    requires Encodable(c) && HasArgument(c)
    ensures WordValid(Encode(c)[2..5])
  {
  }

  /** Different commands are told apart by their frames: only the interval
      read and the interval write share a command code, and they differ in
      length; two frames of one command differ exactly when their argument
      words differ. */
  lemma EncodeDistinguishes(c: Command, d: Command)
    requires Encodable(c) && Encodable(d)
    ensures Encode(c) == Encode(d) <==>
              (if HasArgument(c) then HasArgument(d) && Opcode(c) == Opcode(d) && Argument(c) == Argument(d)
               else c == d)
  {
    var f, g := Encode(c), Encode(d);
    EncodeWords(c);
    EncodeWords(d);
    if f == g {
      assert Be16(f[0], f[1]) == Be16(g[0], g[1]);
      if HasArgument(c) {
        assert Be16(f[2], f[3]) == Be16(g[2], g[3]);
      }
    }
  }
}
