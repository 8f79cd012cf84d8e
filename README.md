# SCD30 protocol layer of raspi_airdata

This project models, in Dafny, the protocol layer of the driver class `SCD30` in
`raspi_airdata.py`. The class talks to a Sensirion SCD30 CO2 / temperature /
humidity sensor over I2C through a pigpio handle. It:

- frames each command as a 16-bit command code, optionally followed by a
  16-bit argument word and its checksum;
- checks every 3-byte word of a reply (high byte, low byte, CRC-8) before
  using it;
- decodes the measurement interval, the automatic-self-calibration (ASC)
  status and the three measurement floats;
- keeps a failure counter (`fail_counter`, 20 at start) across
  `read_measurements` calls and gives up when it reaches zero.

Modules, one per layer of the driver:

| file | module | what it holds |
|---|---|---|
| `wire.dfy` | `Wire` | bytes as the Python code sees them (ints 0..255), big-endian words, the `Outcome` of an operation (a value or one of the exceptions the driver lets escape) |
| `crc8.dfy` | `Crc8` | the checksum computed byte by byte, as the CRC library does it, and a bit-serial reference definition, proved equal; its error-detection property |
| `checksum.dfy` | `Checksum` | `calcCRC` on integer bytes and the word check built on it |
| `commands.dfy` | `Commands` | the frame each operation writes |
| `replies.dfy` | `Replies` | `read_n_bytes`' checksum walk (a method with a loop, proved equal to a function), the decoders, and the words a correct sensor sends, so that each decoder has an encoder to round-trip with |
| `transport.dfy` | `Transport` | the pigpio handle: a log of written frames, a queue of replies, a "writes fail" flag and a "closed" flag; as a value (`BusState`) and as a class (`I2cHandle`) |
| `scd30.dfy` | `Scd30` | every driver operation as a function from the failure counter and the bus state to the outcome and the new state; the class `Sensor`, whose methods perform the driver's steps on an `I2cHandle` and are proved to produce exactly what those functions say; properties of the measurement cycle over any number of calls |

Python behaviour the model keeps:

- `i2cWrite` returns `True` or -1, and both are true. So `read_firmware_version`
  reads a reply even when its request was not written.
- `read_n_bytes(n)` returns `None` when `n` bytes arrive but `n` is not a
  multiple of three, because the function falls off its end. `None == False`
  is false, so `read_measurements` and `read_asc_status` would then subscript
  `None`. That path is modelled (`NoneSubscripted`). The driver only ever asks
  for 3 or 18 bytes, so the path is never taken, and `ReadMeasurementsSpec`
  states this.
- A bare `raise` with no active exception (the counter at zero) is an error
  outcome of its own (`NoActiveException`).
- `disconnect` calls `self.error`, which does not exist. A failed close
  therefore raises `MissingErrorMethod` instead of the bus error.
- The `while True` in `read_measurements` never repeats, because every path
  through its body returns or raises. The model is straight-line.
- `set_meas_interval(v)` with `v` outside 0..255 raises (`ByteOutOfRange`) in
  `calcCRC`'s `bytearray` before anything is written.
- pigpio raises where its calls fail. The model shows this as a refused write
  (`i2cWrite` catches it and returns -1), a `BusError` reply (which
  `read_n_bytes` re-raises) or a failed close (which `exit_hard` and
  `exit_gracefully` do not catch). Reading from a closed handle, or past the
  sensor's last reply, is refused. Closing a closed handle is refused.

Where the code behaves unexpectedly, the model follows the code:

- A data-ready flag other than 1 does not skip the measurement. The counter is
  reset to 20, lowered to 19, and the 18-byte measurement is still requested
  and returned.
- A rejected 18-byte measurement read does not lower the counter. The counter
  was already reset by the valid data-ready reply.
- Transient failures are not retried inside one call. `read_measurements`
  returns `False`, and the caller calls again.
- Closing is not idempotent. `exit_hard` and `exit_gracefully` raise on a
  closed handle.
- The interval write sends a 16-bit word whose high byte is always 0x00, so
  only intervals up to 255 can be written.

## Model

| member | source | states |
|---|---|---|
| Wire.Be16 | raspi_airdata.py:206 | `b0 * 256 + b1` is a 16-bit value whose high and low bytes are `b0` and `b1` |
| Wire.SplitJoin | raspi_airdata.py:144-145 | `MSB * 256 + LSB` rebuilds the pressure modulo 2^16, for negative values too |
| Crc8.UpdateByteIsClockByte | raspi_airdata.py:85 | XORing a byte into the register and shifting eight times with polynomial 0x31 equals clocking the byte's eight bits into the bit-serial register, most significant first |
| Crc8.WordCrcIsReference | raspi_airdata.py:85 | the word checksum equals the reference CRC-8: polynomial 0x31, initial value 0xFF, no reflection, final XOR 0x00, over the two bytes |
| Crc8.KnownVector | raspi_airdata.py:85 | the word 0xBEEF has checksum 0x92 |
| Crc8.UpdateByteInjective | raspi_airdata.py:85 | the register after one byte determines the register XORed with that byte |
| Crc8.WordCrcDetectsChange | raspi_airdata.py:85 | changing exactly one of the two bytes, in any way, changes the checksum |
| Checksum.CalcCrcIsCrc8 | raspi_airdata.py:103-104 | `calcCRC([hi, lo])` is a byte and equals the reference CRC-8 over `[hi, lo]` |
| Checksum.KnownVector | raspi_airdata.py:103-104 | `calcCRC([0xBE, 0xEF]) == 0x92` |
| Checksum.CorruptedWordRejected | raspi_airdata.py:175-177 | a word with one data byte changed and the old checksum fails the check |
| Commands.Encode | raspi_airdata.py:139-146 | a frame has 2 bytes, or 5 for the two commands with an argument (start, interval write) |
| Commands.EncodeWords | raspi_airdata.py:144-146 | the first two bytes of a frame are the command code, high byte first; the start frame's argument word is the pressure modulo 2^16 and the interval frame's is the interval |
| Commands.EncodeChecksum | raspi_airdata.py:216-217 | the argument word of the start and interval-write frames is followed by its own checksum |
| Commands.EncodeDistinguishes | raspi_airdata.py:139-146 | two frames are equal exactly when they come from the same argument-free command, or from commands with the same code and argument word |
| Replies.CheckRead | raspi_airdata.py:169-185 | the word-by-word loop with its early `return False` returns exactly `CheckReply`: `False` on a wrong count, `None` when the count is right but not a multiple of three, the data when every word's checksum matches |
| Replies.CheckReply | raspi_airdata.py:169-185 | a reply is returned exactly when it has `n` bytes, `n` is a multiple of three and every word's checksum matches, and it is then returned whole |
| Replies.CheckReplyNone | raspi_airdata.py:169-185 | `None` exactly when the reply has `n` bytes and `n` is not a multiple of three; `False` exactly when the count is wrong or some word's checksum fails |
| Replies.CorruptedReplyRejected | raspi_airdata.py:173-181 | changing any data byte of an accepted reply makes the same read return `False`: no partial or corrupted data is returned |
| Replies.IntervalOf | raspi_airdata.py:206 | the interval is a 16-bit value whose high byte is `ret[0]` and whose low byte is `ret[1]` |
| Replies.AscStatusOf | raspi_airdata.py:246-254 | 1 exactly when byte 1 is 1, 0 exactly when it is 0, -1 exactly when it is anything else |
| Replies.DecodeReading | raspi_airdata.py:309-311 | each of CO2, temperature and humidity is four bytes, exactly the data bytes of words 0-1, 2-3 and 4-5 |
| Replies.ReadingIgnoresChecksums | raspi_airdata.py:309-311 | the decoded measurement does not depend on the checksum bytes 2, 5, 8, 11, 14, 17 |
| Replies.IntervalRoundTrip | raspi_airdata.py:204-206 | the word a sensor sends for interval `v` passes the check and decodes to `v` |
| Replies.AscStatusRoundTrip | raspi_airdata.py:246-254 | a valid word decodes to its low byte when that is 0 or 1, and to -1 otherwise, whatever its high byte |
| Replies.FloatRoundTrip | raspi_airdata.py:106-107 | the two words sent for a float pass the check, and `calcFloat`'s byte selection gives back the float's four bytes |
| Replies.ReadingRoundTrip | raspi_airdata.py:301-311 | the 18 bytes sent for a measurement pass `read_n_bytes(18)` and decode to the same three floats |
| Transport.I2cHandle.constructor | raspi_airdata.py:125 | a freshly opened handle has an empty log, is open and holds the sensor's replies |
| Transport.I2cHandle.WriteDevice | raspi_airdata.py:155 | the write succeeds exactly when writes work and the handle is open, and the new state is `AfterWrite` |
| Transport.I2cHandle.ReadDevice | raspi_airdata.py:164 | returns the next reply, or a refusal on a closed handle or an empty queue, and the new state is `AfterRead` |
| Transport.I2cHandle.Close | raspi_airdata.py:133 | succeeds exactly on an open handle, and the handle is closed afterwards |
| Scd30.GoodWordAccepted | raspi_airdata.py:169-182 | `read_n_bytes(3)` returns the reply exactly when it is one 3-byte word with a matching checksum |
| Scd30.ReadNBytesSpec | raspi_airdata.py:162-185 | raises exactly when the bus refuses the read; when bytes are delivered it returns exactly `CheckReply` of them (the data, `False` or `None`); returned data was delivered by the bus and has `n` bytes; one reply is used up |
| Scd30.StopMeasurementSpec | raspi_airdata.py:138-141 | writes `[0x01, 0x04]` when the bus accepts writes, and nothing else changes |
| Scd30.ResetSpec | raspi_airdata.py:266-272 | writes `[0xD3, 0x04]` when the bus accepts writes, and nothing else changes |
| Scd30.DisconnectSpec | raspi_airdata.py:131-136 | the handle ends closed; it raises exactly when it was already closed, and then with the missing-method error |
| Scd30.StartMeasurementSpec | raspi_airdata.py:143-151 | writes exactly `[0x00, 0x10, MSB, LSB, calcCRC([MSB, LSB])]` of the pressure; when the write fails, the handle ends closed with nothing written |
| Scd30.ExitHardSpec | raspi_airdata.py:256-260 | writes the reset frame if it can, then closes; it raises a bus error exactly when the handle was already closed |
| Scd30.ExitGracefullySpec | raspi_airdata.py:262-264 | writes the stop frame if it can, then closes; it raises a bus error exactly when the handle was already closed |
| Scd30.ReadFirmwareVersionSpec | raspi_airdata.py:187-196 | writes `[0xD1, 0x00]` if it can and reads in any case; returns `True` exactly when the reply is a valid word |
| Scd30.GoodWordAcceptedAt | raspi_airdata.py:189-190 | the result of `read_n_bytes(3)` is true exactly when the reply is a valid word |
| Scd30.ReadMeasIntervalSpec | raspi_airdata.py:198-211 | -1 with nothing done when the write fails; otherwise writes `[0x46, 0x00]`; the result is not -1 exactly when the reply is a valid word, and is then `b0 * 256 + b1` |
| Scd30.SetMeasIntervalSpec | raspi_airdata.py:213-230 | an interval that is not a byte raises with nothing written; a failed write gives -1 (or the close's error on a closed handle) with nothing written and the handle closed; otherwise it writes `[0x46, 0x00, 0x00, v, calcCRC([0x00, v])]` and the query, raises exactly on a refused read-back, returns `v` exactly when the read-back is a valid word worth `v`, returns `None` exactly when the read-back is rejected (after writing the reset and closing), and -1 otherwise with the handle open |
| Scd30.SetIntervalFrameCarriesWord | raspi_airdata.py:216-217 | the interval frame is `[0x46, 0x00]` followed by exactly the word a sensor reporting `v` sends |
| Scd30.SetIntervalConfirmed | raspi_airdata.py:213-228 | when the sensor echoes `v`, the call returns `v`, leaves the handle open and has written the setting and then the query |
| Scd30.SetIntervalMismatch | raspi_airdata.py:226-230 | a valid read-back of any other value returns -1 and leaves the handle open |
| Scd30.ReadAscStatusSpec | raspi_airdata.py:232-254 | -1 with nothing done when the write fails; otherwise writes `[0x53, 0x06]` and uses up one reply; 1 exactly when the reply is a valid word with byte 1 equal to 1; 0 exactly when byte 1 is 0; -1 otherwise |
| Scd30.ReadMeasurementsSpec | raspi_airdata.py:274-315 | a counter within 0..20 stays within 0..20; at 0 the call raises and changes nothing; a returned measurement leaves the counter at 20 or 19; the `None` subscript never happens |
| Scd30.MeasureSpec | raspi_airdata.py:298-313 | the counter is what the data-ready reply set; the read-measurement frame is written if possible; raises exactly on a refused read; returns the three floats exactly when the 18-byte reply passes the check, and they are its decoded slices |
| Scd30.FailedReadDecrements | raspi_airdata.py:284-288 | a rejected data-ready reply returns `False`, lowers the counter by one and requests no measurement |
| Scd30.ValidReadResets | raspi_airdata.py:289-299 | a valid data-ready reply sets the counter to 20, or 19 when the flag is not 1, and then the measurement is requested in both cases |
| Scd30.MeasurementDelivered | raspi_airdata.py:274-313 | a sensor that answers both queries correctly gets back exactly the three floats it sent; the counter is 20 or 19 according to the flag, and both replies are used up |
| Scd30.MeasureDelivers | raspi_airdata.py:298-313 | the measurement phase returns the floats of a correctly sent 18-byte reply |
| Scd30.Repeat | raspi_airdata.py:381-382 | successive `read_measurements` calls of the main loop; with the counter at zero the first call raises and nothing changes |
| Scd30.RepeatKeepsBudget | raspi_airdata.py:276-296 | over any number of successive calls, the counter stays within 0..20 |
| Scd30.FailuresAccumulate | raspi_airdata.py:284-288 | `k` rejected data-ready replies in a row lower the counter by `k`, and every call returns `False` |
| Scd30.Exhaustion | raspi_airdata.py:277-279 | starting from `c`, after `c` rejected data-ready replies the next call raises |
| Scd30.NotReadyNeverExhausts | raspi_airdata.py:290-296 | a valid data-ready reply leaves the counter at 19 or more, whatever the flag |
| Scd30.Sensor.constructor | raspi_airdata.py:80-81 | the counter starts at `DEFAULT_ERROR_COUNT` (20) |
| Scd30.Sensor.I2cWrite | raspi_airdata.py:153-160 | returns true exactly when the write goes through; the bus changes as `AfterWrite` says |
| Scd30.Sensor.ReadNBytes | raspi_airdata.py:162-185 | outcome and new bus state are those of `ReadNBytesSpec` |
| Scd30.Sensor.StopMeasurement | raspi_airdata.py:138-141 | new bus state is that of `StopMeasurementSpec` |
| Scd30.Sensor.Reset | raspi_airdata.py:266-272 | new bus state is that of `ResetSpec` |
| Scd30.Sensor.Disconnect | raspi_airdata.py:131-136 | outcome and new bus state are those of `DisconnectSpec` |
| Scd30.Sensor.StartMeasurement | raspi_airdata.py:143-151 | outcome and new bus state are those of `StartMeasurementSpec` |
| Scd30.Sensor.ExitHard | raspi_airdata.py:256-260 | outcome and new bus state are those of `ExitHardSpec` |
| Scd30.Sensor.ExitGracefully | raspi_airdata.py:262-264 | outcome and new bus state are those of `ExitGracefullySpec` |
| Scd30.Sensor.ReadFirmwareVersion | raspi_airdata.py:187-196 | outcome and new bus state are those of `ReadFirmwareVersionSpec` |
| Scd30.Sensor.ReadMeasInterval | raspi_airdata.py:198-211 | outcome and new bus state are those of `ReadMeasIntervalSpec` |
| Scd30.Sensor.SetMeasInterval | raspi_airdata.py:213-230 | outcome and new bus state are those of `SetMeasIntervalSpec` |
| Scd30.Sensor.ReadAscStatus | raspi_airdata.py:232-254 | outcome and new bus state are those of `ReadAscStatusSpec` |
| Scd30.Sensor.ReadMeasurements | raspi_airdata.py:274-315 | outcome, new counter and new bus state are those of `ReadMeasurementsSpec`; the counter stays within 0..20 |

## Left out

- `connect` (raspi_airdata.py:112-128) and the device probe in `__init__` (raspi_airdata.py:91-100). They open the pigpio daemon connection and run `i2cdetect` in a subprocess, which are foreign calls. The model starts from an opened `I2cHandle`, and the constructor takes it as a parameter.
- Signal handler registration (raspi_airdata.py:88-89). It is asynchronous and process-level. `exit_hard` and `exit_gracefully` are modelled as plain calls.
- `main` and the argument parser. They cover configuration, logging setup, the database client, the NaN and non-positive reading filter, and the sampling loop's sleep. `Scd30.Repeat` models only the loop's successive `read_measurements` calls, stopping at the first exception.
- Replies.FloatRoundTrip: `calcFloat`'s `struct.unpack('>f')` is not modelled. IEEE-754 reinterpretation is floating point, so a measurement is kept as the four big-endian bytes of each float.
- `time.sleep` and every logger call. They do not affect any result. The logging arguments cannot raise on the values the model allows.
- The CRC library itself is not part of this model. The checksum is defined from its parameters, as given at raspi_airdata.py:85, and not from the library's table.
- Commands.Encode: its own contract gives only the frame length. The frame contents are stated by `Commands.EncodeWords` and `Commands.EncodeChecksum`, and by each operation's function in `Scd30`, which name the exact bytes written.
- Scd30.SetMeasIntervalSpec: whether a write goes through is fixed for the life of the handle (the `writeFails` flag of `Transport.BusState`), so once one write succeeds every later write on the open handle succeeds, and once one fails every later one fails. Paths that need one write to fail and a later one to succeed, or the reverse, are not modelled: `set_meas_interval` returning `None` because the query write at raspi_airdata.py:200 fails after the setting write succeeded (lines 202, 222-225); `exit_hard`'s reset write at raspi_airdata.py:268 going through after the setting write failed (lines 219, 257); and, in `Scd30.ValidReadResets`, the measurement request at raspi_airdata.py:299 failing on its own after the data-ready query was written. The contracts that say `None` comes only from a rejected read-back, that nothing is written after a failed setting write, and that `[0x03, 0x00]` is always logged hold under this abstraction only.
- A read whose `count` differs from the length of the data delivered is not modelled. pigpio returns them equal, or raises.
