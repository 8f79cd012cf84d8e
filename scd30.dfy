/** The driver object of raspi_airdata.py (class `SCD30`): each operation
    as a function from the failure counter and the bus state to the outcome
    and the new state, and the class `Sensor` whose methods perform the same
    steps on an `I2cHandle` and are proved to match those functions. */
module Scd30 {
  import opened Wire
  import opened Checksum
  import opened Commands
  import opened Replies
  import opened Transport

  /** `DEFAULT_ERROR_COUNT`: consecutive failures tolerated before
      `read_measurements` gives up. */
  const DefaultErrorCount := 20

  /** What one operation returns (or raises) and the bus state it leaves. */
  datatype Step<+T> = Step(out: Outcome<T>, bus: BusState)

  /** What one `read_measurements` call returns (`None` standing for
      `False`), the failure counter it leaves and the bus state. */
  datatype Cycle = Cycle(out: Outcome<Option<Reading>>, counter: int, bus: BusState)

  /** The sensor answers with one 3-byte word whose checksum matches. */
  predicate GoodWord(r: Reply)
  {
    r.Received? && |r.data| == 3 && r.data[2] == CalcCrc(r.data[0], r.data[1])
  }

  lemma GoodWordAccepted(data: seq<Byte>)
    ensures CheckReply(3, data).Accepted? <==> GoodWord(Received(data))
  {
    if |data| == 3 {
      assert |data| / 3 == 1;
      if WordOk(data, 0) {
        assert AllWordsValid(data);
      }
    }
  }

  // ---------------------------------------------------------------------
  // Reading and writing (raspi_airdata.py:153-185)
  // ---------------------------------------------------------------------

  /** `read_n_bytes(n)`: a refused read raises; otherwise the delivered
      bytes are checked. */
  function ReadNBytesSpec(n: int, s: BusState): (r: Step<ReadResult>)
    ensures r.bus == AfterRead(s)
    ensures r.out.Raised? <==> NextReply(s).BusError?
    ensures r.out.Returned? && r.out.value.Accepted? ==>
              NextReply(s) == Received(r.out.value.data) && |r.out.value.data| == n
    ensures NextReply(s).Received? ==> r.out == Returned(CheckReply(n, NextReply(s).data))
  {
    match NextReply(s)
    case BusError => Step(Raised(BusFault), AfterRead(s))
    case Received(data) => Step(Returned(CheckReply(n, data)), AfterRead(s))
  }

  // ---------------------------------------------------------------------
  // Commands without a reply (raspi_airdata.py:131-150, 256-272)
  // ---------------------------------------------------------------------

  /** `stop_measurement`: writes the stop frame; a failure is only logged. */
  function StopMeasurementSpec(s: BusState): (t: BusState)
    ensures t.written == s.written + (if WriteSucceeds(s) then [[0x01, 0x04]] else [])
    ensures t.replies == s.replies && t.closed == s.closed
  {
    AfterWrite(s, Encode(Command.StopMeasurement))
  }

  /** `reset`: writes the soft-reset frame; a failure is only logged. */
  function ResetSpec(s: BusState): (t: BusState)
    ensures t.written == s.written + (if WriteSucceeds(s) then [[0xD3, 0x04]] else [])
    ensures t.replies == s.replies && t.closed == s.closed
  {
    AfterWrite(s, Encode(SoftReset))
  }

  /** `disconnect`: closes the handle; when the close fails the handler's
      call to the missing `self.error` raises instead of the bus error. */
  function DisconnectSpec(s: BusState): (r: Step<()>)
    ensures r.bus.closed && r.bus.written == s.written && r.bus.replies == s.replies
    ensures r.out.Raised? <==> s.closed
    ensures r.out.Raised? ==> r.out.error == MissingErrorMethod
  {
    if CloseSucceeds(s) then Step(Returned(()), AfterClose(s))
    else Step(Raised(MissingErrorMethod), AfterClose(s))
  }

  /** `start_measurement`: writes the start frame carrying the pressure;
      when that write fails, disconnects. */
  function StartMeasurementSpec(pressureMbar: int, s: BusState): (r: Step<()>)
    ensures WriteSucceeds(s) ==>
              r.out.Returned? && !r.bus.closed &&
              r.bus.written == s.written + [[0x00, 0x10, HighByte(pressureMbar), LowByte(pressureMbar),
                                            CalcCrc(HighByte(pressureMbar), LowByte(pressureMbar))]]
    ensures !WriteSucceeds(s) ==> r.bus.closed && r.bus.written == s.written
    ensures r.out.Raised? <==> s.closed
  {
    var frame := Encode(StartMeasurement(pressureMbar));
    if WriteSucceeds(s) then Step(Returned(()), AfterWrite(s, frame))
    else DisconnectSpec(AfterWrite(s, frame))
  }

  /** `exit_hard`: reset, then close; a failing close is not caught. */
  function ExitHardSpec(s: BusState): (r: Step<()>)
    ensures r.bus.closed && r.bus.replies == s.replies
    ensures r.bus.written == s.written + (if WriteSucceeds(s) then [[0xD3, 0x04]] else [])
    ensures r.out.Raised? <==> s.closed
    ensures r.out.Raised? ==> r.out.error == BusFault
  {
    var s1 := ResetSpec(s);
    if CloseSucceeds(s1) then Step(Returned(()), AfterClose(s1))
    else Step(Raised(BusFault), AfterClose(s1))
  }

  /** `exit_gracefully`: stop, then close; a failing close is not caught. */
  function ExitGracefullySpec(s: BusState): (r: Step<()>)
    ensures r.bus.closed && r.bus.replies == s.replies
    ensures r.bus.written == s.written + (if WriteSucceeds(s) then [[0x01, 0x04]] else [])
    ensures r.out.Raised? <==> s.closed
    ensures r.out.Raised? ==> r.out.error == BusFault
  {
    var s1 := StopMeasurementSpec(s);
    if CloseSucceeds(s1) then Step(Returned(()), AfterClose(s1))
    else Step(Raised(BusFault), AfterClose(s1))
  }

  // ---------------------------------------------------------------------
  // Queries (raspi_airdata.py:187-254)
  // ---------------------------------------------------------------------

  /** `read_firmware_version`: the write's result is tested for truth, and
      both `True` and `-1` are true, so the reply is read whether or not the
      request reached the sensor. */
  function ReadFirmwareVersionSpec(s: BusState): (r: Step<bool>)
    ensures r.bus.written == AfterWrite(s, [0xD1, 0x00]).written && r.bus.closed == s.closed
    ensures r.out.Raised? <==> NextReply(s).BusError?
    ensures r.out == Returned(true) <==> GoodWord(NextReply(s))
  {
    var s1 := AfterWrite(s, Encode(ReadFirmwareVersion));
    var rd := ReadNBytesSpec(3, s1);
    GoodWordAcceptedAt(s1);
    match rd.out
    case Raised(e) => Step(Raised(e), rd.bus)
    case Returned(v) => Step(Returned(Truthy(v)), rd.bus)
  }

  /** Whether the next reply passes `read_n_bytes(3)`. */
  lemma GoodWordAcceptedAt(s: BusState)
    ensures var rd := ReadNBytesSpec(3, s);
            rd.out.Returned? ==> (Truthy(rd.out.value) <==> GoodWord(NextReply(s)))
  {
    if NextReply(s).Received? {
      GoodWordAccepted(NextReply(s).data);
    }
  }

  /** `read_meas_interval`: -1 when the request cannot be written or the
      reply is rejected, otherwise the big-endian value of the reply's
      first word. */
  function ReadMeasIntervalSpec(s: BusState): (r: Step<int>)
    ensures !WriteSucceeds(s) ==> r == Step(Returned(-1), s)
    ensures WriteSucceeds(s) ==> r.bus.written == s.written + [[0x46, 0x00]] && r.bus.closed == s.closed
    ensures r.out.Raised? <==> WriteSucceeds(s) && NextReply(s).BusError?
    ensures r.out.Returned? ==> -1 <= r.out.value < 0x1_0000
    ensures r.out.Returned? && r.out.value != -1 <==> WriteSucceeds(s) && GoodWord(NextReply(s))
    ensures r.out.Returned? && r.out.value != -1 ==> r.out.value == Be16(NextReply(s).data[0], NextReply(s).data[1])
  {
    if !WriteSucceeds(s) then Step(Returned(-1), s)
    else
      var s1 := AfterWrite(s, Encode(GetMeasInterval));
      var rd := ReadNBytesSpec(3, s1);
      GoodWordAcceptedAt(s1);
      match rd.out
      case Raised(e) => Step(Raised(e), rd.bus)
      case Returned(v) => Step(Returned(if Truthy(v) then IntervalOf(v.data) else -1), rd.bus)
  }

  /** `set_meas_interval(v)`: writes the new interval, reads it back, and
      returns `v` when the read-back matches, -1 when it differs or the
      write failed (after `exit_hard`), and nothing (`None`) when the
      read-back itself failed (after `exit_hard`). An interval that is not
      a byte makes the checksum computation raise before anything is
      written. */
  function SetMeasIntervalSpec(v: int, s: BusState): (r: Step<Option<int>>)
    ensures !(0 <= v < 256) <==> r.out == Raised(ByteOutOfRange)
    ensures !(0 <= v < 256) ==> r.bus == s
    ensures r.out.Returned? && r.out.value.Some? ==> r.out.value.value == v || r.out.value.value == -1
    ensures r.out == Returned(Some(v)) ==> !r.bus.closed
    ensures r.out == Returned(None) || (0 <= v < 256 && !WriteSucceeds(s)) ==> r.bus.closed
    ensures 0 <= v < 256 && !WriteSucceeds(s) ==>
              r.out == (if s.closed then Raised(BusFault) else Returned(Some(-1))) && r.bus.written == s.written
    ensures 0 <= v < 256 && WriteSucceeds(s) ==>
              (r.out.Raised? <==> NextReply(s).BusError?) &&
              (r.out == Returned(Some(v)) <==>
                 GoodWord(NextReply(s)) && Be16(NextReply(s).data[0], NextReply(s).data[1]) == v) &&
              (r.out == Returned(None) <==> NextReply(s).Received? && !GoodWord(NextReply(s))) &&
              r.bus.written == s.written + [[0x46, 0x00, 0x00, v, CalcCrc(0x00, v)], [0x46, 0x00]] +
                                 (if r.out == Returned(None) then [[0xD3, 0x04]] else [])
    ensures 0 <= v < 256 && WriteSucceeds(s) && r.out == Returned(Some(-1)) ==> !r.bus.closed
  {
    if !(0 <= v < 256) then Step(Raised(ByteOutOfRange), s)
    else
      var frame := Encode(SetMeasInterval(v));
      if !WriteSucceeds(s) then
        var e := ExitHardSpec(AfterWrite(s, frame));
        match e.out
        case Raised(err) => Step(Raised(err), e.bus)
        case Returned(_) => Step(Returned(Some(-1)), e.bus)
      else
        var rb := ReadMeasIntervalSpec(AfterWrite(s, frame));
        match rb.out
        case Raised(err) => Step(Raised(err), rb.bus)
        case Returned(x) =>
          if x == -1 then
            var e := ExitHardSpec(rb.bus);
            match e.out
            case Raised(err) => Step(Raised(err), e.bus)
            case Returned(_) => Step(Returned(None), e.bus)
          else if x == v then Step(Returned(Some(v)), rb.bus)
          else Step(Returned(Some(-1)), rb.bus)
  }

  /** `read_asc_status`: 1 or 0 from byte 1 of a valid reply, -1 for any
      other byte and when the request or the reply fails. */
  function ReadAscStatusSpec(s: BusState): (r: Step<int>)
    ensures !WriteSucceeds(s) ==> r == Step(Returned(-1), s)
    ensures WriteSucceeds(s) ==>
              r.bus.written == s.written + [[0x53, 0x06]] && r.bus.closed == s.closed &&
              r.bus.replies == AfterRead(s).replies
    ensures r.out.Raised? <==> WriteSucceeds(s) && NextReply(s).BusError?
    ensures r.out.Returned? ==> -1 <= r.out.value <= 1
    ensures r.out == Returned(1) <==> WriteSucceeds(s) && GoodWord(NextReply(s)) && NextReply(s).data[1] == 1
    ensures r.out == Returned(0) <==> WriteSucceeds(s) && GoodWord(NextReply(s)) && NextReply(s).data[1] == 0
  {
    if !WriteSucceeds(s) then Step(Returned(-1), s)
    else
      var s1 := AfterWrite(s, Encode(GetAscStatus));
      var rd := ReadNBytesSpec(3, s1);
      GoodWordAcceptedAt(s1);
      match rd.out
      case Raised(e) => Step(Raised(e), rd.bus)
      case Returned(Rejected) => Step(Returned(-1), rd.bus)
      case Returned(NoValue) => Step(Raised(NoneSubscripted), rd.bus)
      case Returned(Accepted(data)) => Step(Returned(AscStatusOf(data)), rd.bus)
  }

  /** The frame `set_meas_interval(v)` writes carries, after the opcode,
      exactly the word a sensor reporting interval `v` sends back. */
  lemma SetIntervalFrameCarriesWord(v: int)
    requires 0 <= v < 256
    ensures Encode(SetMeasInterval(v)) == [0x46, 0x00] + EncodeWord(0x00, v)
  {
    assert [0x46, 0x00] + [0x00, v, CalcCrc(0x00, v)] == [0x46, 0x00, 0x00, v, CalcCrc(0x00, v)];
  }

  /** A sensor that echoes the new interval makes `set_meas_interval(v)`
      return `v`, after writing the new setting and then the query. */
  lemma SetIntervalConfirmed(v: int, s: BusState)
    requires 0 <= v < 256 && WriteSucceeds(s)
    requires NextReply(s) == Received(EncodeWord(0x00, v))
    ensures var r := SetMeasIntervalSpec(v, s);
            r.out == Returned(Some(v)) && !r.bus.closed &&
            r.bus.written == s.written + [[0x46, 0x00] + EncodeWord(0x00, v), [0x46, 0x00]]
  {
    EncodeWordIsValid(0x00, v);
    GoodWordAccepted(EncodeWord(0x00, v));
    var frame := Encode(SetMeasInterval(v));
    SetIntervalFrameCarriesWord(v);
    var s1 := AfterWrite(s, frame);
    assert WriteSucceeds(s1) && NextReply(s1) == NextReply(s);
    assert s.written + [frame] + [[0x46, 0x00]] == s.written + [frame, [0x46, 0x00]];
  }

  /** A valid read-back of any other interval makes it return -1, and the
      handle stays open. */
  lemma SetIntervalMismatch(v: int, hi: Byte, lo: Byte, s: BusState)
    requires 0 <= v < 256 && Be16(hi, lo) != v && WriteSucceeds(s)
    requires NextReply(s) == Received(EncodeWord(hi, lo))
    ensures var r := SetMeasIntervalSpec(v, s);
            r.out == Returned(Some(-1)) && !r.bus.closed
  {
    EncodeWordIsValid(hi, lo);
    GoodWordAccepted(EncodeWord(hi, lo));
  }

  // ---------------------------------------------------------------------
  // The measurement cycle and its failure counter (raspi_airdata.py:274-315)
  // ---------------------------------------------------------------------

  /** One `read_measurements` call with failure counter `c`. The
      `while True` loop never repeats: every path through its body returns
      or raises. */
  function ReadMeasurementsSpec(c: int, s: BusState): (r: Cycle)
    ensures 0 <= c <= DefaultErrorCount ==> 0 <= r.counter <= DefaultErrorCount
    ensures c == 0 ==> r == Cycle(Raised(NoActiveException), 0, s)
    ensures r.out.Returned? && r.out.value.Some? ==> r.counter == DefaultErrorCount || r.counter == DefaultErrorCount - 1
    ensures r.out != Raised(NoneSubscripted)
  {
    if c == 0 then Cycle(Raised(NoActiveException), c, s)
    else
      var pre := if WriteSucceeds(s) then Step(Returned(()), AfterWrite(s, Encode(GetDataReady))) else ExitHardSpec(s);
      match pre.out
      case Raised(e) => Cycle(Raised(e), c, pre.bus)
      case Returned(_) =>
        var rd := ReadNBytesSpec(3, pre.bus);
        match rd.out
        case Raised(e) => Cycle(Raised(e), c, rd.bus)
        case Returned(Rejected) => Cycle(Returned(None), c - 1, rd.bus)
        case Returned(NoValue) => Cycle(Raised(NoneSubscripted), DefaultErrorCount, rd.bus)
        case Returned(Accepted(flag)) =>
          MeasureSpec(if flag[1] == 1 then DefaultErrorCount else DefaultErrorCount - 1, rd.bus)
  }

  /** The second half of `read_measurements`, once the data-ready word was
      accepted and the counter set to `c1`: request the measurement (the
      write's result is ignored), read 18 bytes and slice them into the three
      floats. */
  function MeasureSpec(c1: int, s: BusState): (r: Cycle)
    ensures r.counter == c1
    ensures r.bus.written == AfterWrite(s, [0x03, 0x00]).written && r.bus.closed == s.closed
    ensures r.out.Raised? <==> NextReply(s).BusError?
    ensures r.out.Returned? && r.out.value.Some? <==>
              NextReply(s).Received? && CheckReply(18, NextReply(s).data).Accepted?
    ensures r.out.Returned? && r.out.value.Some? ==> r.out.value.value == DecodeReading(NextReply(s).data)
  {
    var md := ReadNBytesSpec(18, AfterWrite(s, Encode(ReadMeasurement)));
    match md.out
    case Raised(e) => Cycle(Raised(e), c1, md.bus)
    case Returned(Rejected) => Cycle(Returned(None), c1, md.bus)
    case Returned(NoValue) => Cycle(Raised(NoneSubscripted), c1, md.bus)
    case Returned(Accepted(data)) => Cycle(Returned(Some(DecodeReading(data))), c1, md.bus)
  }

  /** The sensor's answer to a data-ready query is rejected by
      `read_n_bytes(3)`: too short, too long or a bad checksum. */
  predicate BadWord(r: Reply)
  {
    r.Received? && CheckReply(3, r.data) == Rejected
  }

  /** A rejected data-ready reply costs one unit of the counter and ends the
      call with `False`, before the measurement is requested. */
  lemma FailedReadDecrements(c: int, s: BusState)
    requires 0 < c && WriteSucceeds(s) && BadWord(NextReply(s))
    ensures ReadMeasurementsSpec(c, s) == Cycle(Returned(None), c - 1, AfterQuery(s))
  {
  }

  /** A valid data-ready reply resets the counter to 20, less one when the
      ready flag (byte 1) is not 1; in both cases the measurement is then
      requested and read. */
  lemma ValidReadResets(c: int, s: BusState)
    requires 0 < c && WriteSucceeds(s) && GoodWord(NextReply(s))
    ensures ReadMeasurementsSpec(c, s) ==
              MeasureSpec(if NextReply(s).data[1] == 1 then DefaultErrorCount else DefaultErrorCount - 1, AfterQuery(s))
    ensures ReadMeasurementsSpec(c, s).bus.written == s.written + [[0x02, 0x02], [0x03, 0x00]]
  {
    GoodWordAccepted(NextReply(s).data);
  }

  /** A sensor that answers both queries correctly yields the three floats
      it sent, byte for byte, and the counter is reset according to the
      ready flag. */
  lemma MeasurementDelivered(c: int, s: BusState, flagHi: Byte, flagLo: Byte, reading: Reading)
    requires 0 < c && WriteSucceeds(s) && WellFormed(reading)
    requires |s.replies| >= 2 && s.replies[0] == Received(EncodeWord(flagHi, flagLo))
    requires s.replies[1] == Received(EncodeReading(reading))
    ensures var r := ReadMeasurementsSpec(c, s);
            r.out == Returned(Some(reading)) &&
            r.counter == (if flagLo == 1 then DefaultErrorCount else DefaultErrorCount - 1) &&
            r.bus.replies == s.replies[2..]
  {
    EncodeWordIsValid(flagHi, flagLo);
    GoodWordAccepted(EncodeWord(flagHi, flagLo));
    ValidReadResets(c, s);
    var q := AfterQuery(s);
    assert q.replies == s.replies[1..];
    assert NextReply(q) == s.replies[1];
    var c1 := if flagLo == 1 then DefaultErrorCount else DefaultErrorCount - 1;
    MeasureDelivers(c1, q, reading);
    assert AfterRead(q).replies == s.replies[2..];
  }

  /** The measurement phase returns the three floats of a reply the sensor
      sent correctly. */
  lemma MeasureDelivers(c1: int, s: BusState, reading: Reading)
    requires WellFormed(reading)
    requires NextReply(s) == Received(EncodeReading(reading))
    ensures var r := MeasureSpec(c1, s);
            r.out == Returned(Some(reading)) && r.bus.replies == AfterRead(s).replies
  {
    ReadingRoundTrip(reading);
  }

  /** `k` successive calls of `call`, each one continuing from the counter
      and the bus state the previous one left, stopping at the first call
      that raises. */
  function Calls(call: (int, BusState) -> Cycle, c: int, s: BusState, k: nat): Cycle
    requires k >= 1
    decreases k
  {
    var first := call(c, s);
    if k == 1 || first.out.Raised? then first
    else Calls(call, first.counter, first.bus, k - 1)
  }

  /** `k` successive `read_measurements` calls, stopping at the first one
      that raises, as the program's main loop makes them. */
  function Repeat(c: int, s: BusState, k: nat): (r: Cycle)
    requires k >= 1
    ensures c == 0 ==> r == Cycle(Raised(NoActiveException), 0, s)
  {
    Calls(ReadMeasurementsSpec, c, s, k)
  }

  /** Calls that each keep the counter within its budget keep it there
      however many of them are made. */
  lemma {:induction false} CallsKeepBudget(call: (int, BusState) -> Cycle, c: int, s: BusState, k: nat)
    requires k >= 1 && 0 <= c <= DefaultErrorCount
    requires forall c', s' :: 0 <= c' <= DefaultErrorCount ==> 0 <= call(c', s').counter <= DefaultErrorCount
    ensures 0 <= Calls(call, c, s, k).counter <= DefaultErrorCount
    decreases k
  {
    if k > 1 {
      var first := call(c, s);
      if !first.out.Raised? {
        CallsKeepBudget(call, first.counter, first.bus, k - 1);
      }
    }
  }

  /** Any number of `read_measurements` calls keeps the counter between 0
      and 20. */
  lemma RepeatKeepsBudget(c: int, s: BusState, k: nat)
    requires k >= 1 && 0 <= c <= DefaultErrorCount
    ensures 0 <= Repeat(c, s, k).counter <= DefaultErrorCount
  {
    forall c', s' | 0 <= c' <= DefaultErrorCount
      ensures 0 <= ReadMeasurementsSpec(c', s').counter <= DefaultErrorCount
    {
    }
    CallsKeepBudget(ReadMeasurementsSpec, c, s, k);
  }

  /** The bus state after a data-ready query was written and its reply
      consumed. */
  function AfterQuery(s: BusState): BusState
  {
    AfterRead(AfterWrite(s, [0x02, 0x02]))
  }

  /** Calls that each lower the counter by one when the reply to their
      data-ready query is `bad` do so `k` times on `k` bad replies in a
      row. */
  lemma {:induction false} CallsFail(call: (int, BusState) -> Cycle, bad: Reply -> bool, c: int, s: BusState, k: nat)
    requires 1 <= k <= c && WriteSucceeds(s) && |s.replies| >= k
    requires forall i :: 0 <= i < k ==> bad(s.replies[i])
    requires forall c', s' :: 0 < c' && WriteSucceeds(s') && bad(NextReply(s')) ==>
               call(c', s') == Cycle(Returned(None), c' - 1, AfterQuery(s'))
    ensures Calls(call, c, s, k).out == Returned(None)
    ensures Calls(call, c, s, k).counter == c - k
    ensures Calls(call, c, s, k).bus.replies == s.replies[k..]
    decreases k
  {
    assert bad(NextReply(s));
    var next := AfterQuery(s);
    if k > 1 {
      assert next.replies == s.replies[1..];
      CallsFail(call, bad, c - 1, next, k - 1);
      assert next.replies[k - 1..] == s.replies[k..];
    }
  }

  /** `k` rejected data-ready replies in a row lower the counter by `k`,
      every call returning `False`. */
  lemma FailuresAccumulate(c: int, s: BusState, k: nat)
    requires 1 <= k <= c && WriteSucceeds(s) && |s.replies| >= k
    requires forall i :: 0 <= i < k ==> BadWord(s.replies[i])
    ensures Repeat(c, s, k).out == Returned(None)
    ensures Repeat(c, s, k).counter == c - k
    ensures Repeat(c, s, k).bus.replies == s.replies[k..]
  {
    forall c', s' | 0 < c' && WriteSucceeds(s') && BadWord(NextReply(s'))
      ensures ReadMeasurementsSpec(c', s') == Cycle(Returned(None), c' - 1, AfterQuery(s'))
    {
      FailedReadDecrements(c', s');
    }
    CallsFail(ReadMeasurementsSpec, BadWord, c, s, k);
  }

  /** One more call after `k` calls that did not raise continues from the
      state those calls left. */
  lemma {:induction false} CallsSplit(call: (int, BusState) -> Cycle, c: int, s: BusState, k: nat)
    requires k >= 1 && Calls(call, c, s, k).out.Returned?
    ensures Calls(call, c, s, k + 1) == call(Calls(call, c, s, k).counter, Calls(call, c, s, k).bus)
    decreases k
  {
    var first := call(c, s);
    if k > 1 {
      CallsSplit(call, first.counter, first.bus, k - 1);
    }
  }

  /** Starting from counter `c`, `c` rejected data-ready replies in a row
      make the next call raise: the counter is exhausted. */
  lemma Exhaustion(c: int, s: BusState)
    requires 0 <= c <= DefaultErrorCount && WriteSucceeds(s) && |s.replies| >= c
    requires forall i :: 0 <= i < c ==> BadWord(s.replies[i])
    ensures Repeat(c, s, c + 1).out == Raised(NoActiveException)
  {
    if c > 0 {
      FailuresAccumulate(c, s, c);
      CallsSplit(ReadMeasurementsSpec, c, s, c);
    }
  }

  /** Not-ready answers alone never exhaust the counter: a call whose
      data-ready reply is valid leaves at least 19. */
  lemma NotReadyNeverExhausts(c: int, s: BusState)
    requires 0 < c && WriteSucceeds(s) && GoodWord(NextReply(s))
    ensures ReadMeasurementsSpec(c, s).counter >= DefaultErrorCount - 1
  {
    ValidReadResets(c, s);
  }

  // ---------------------------------------------------------------------
  // The driver object
  // ---------------------------------------------------------------------

  class Sensor {
    const pressureMbar: int
    var failCounter: int
    const bus: I2cHandle

    /** The counter stays within its initial budget. */
    ghost predicate Valid()
      reads this
    {
      0 <= failCounter <= DefaultErrorCount
    }

    /** `__init__` with the handle `connect` would open (raspi_airdata.py:80-81). */
    constructor(pressureMbar: int, bus: I2cHandle)
      ensures this.pressureMbar == pressureMbar && this.bus == bus
      ensures failCounter == DefaultErrorCount && Valid()
    {
      this.pressureMbar := pressureMbar;
      this.bus := bus;
      this.failCounter := DefaultErrorCount;
    }

    /** `i2cWrite`: `ok` stands for `True`, `!ok` for -1. */
    method I2cWrite(frame: seq<Byte>) returns (ok: bool)
      modifies bus
      ensures ok == WriteSucceeds(old(bus.State()))
      ensures bus.State() == AfterWrite(old(bus.State()), frame)
    {
      ok := bus.WriteDevice(frame);
    }

    method ReadNBytes(n: int) returns (r: Outcome<ReadResult>)
      modifies bus
      ensures Step(r, bus.State()) == ReadNBytesSpec(n, old(bus.State()))
    {
      var reply := bus.ReadDevice();
      match reply
      case BusError =>
        return Raised(BusFault);
      case Received(data) =>
        var checked := CheckRead(n, data);
        return Returned(checked);
    }

    method StopMeasurement()
      modifies bus
      ensures bus.State() == StopMeasurementSpec(old(bus.State()))
    {
      var _ := I2cWrite(Encode(Command.StopMeasurement));
    }

    method Reset()
      modifies bus
      ensures bus.State() == ResetSpec(old(bus.State()))
    {
      var _ := I2cWrite(Encode(SoftReset));
    }

    method Disconnect() returns (r: Outcome<()>)
      modifies bus
      ensures Step(r, bus.State()) == DisconnectSpec(old(bus.State()))
    {
      var ok := bus.Close();
      if !ok {
        return Raised(MissingErrorMethod);
      }
      return Returned(());
    }

    method StartMeasurement() returns (r: Outcome<()>)
      modifies bus
      ensures Step(r, bus.State()) == StartMeasurementSpec(pressureMbar, old(bus.State()))
    {
      var ok := I2cWrite(Encode(Command.StartMeasurement(pressureMbar)));
      if !ok {
        r := Disconnect();
        return;
      }
      return Returned(());
    }

    method ExitHard() returns (r: Outcome<()>)
      modifies bus
      ensures Step(r, bus.State()) == ExitHardSpec(old(bus.State()))
    {
      Reset();
      var ok := bus.Close();
      if !ok {
        return Raised(BusFault);
      }
      return Returned(());
    }

    method ExitGracefully() returns (r: Outcome<()>)
      modifies bus
      ensures Step(r, bus.State()) == ExitGracefullySpec(old(bus.State()))
    {
      StopMeasurement();
      var ok := bus.Close();
      if !ok {
        return Raised(BusFault);
      }
      return Returned(());
    }

    method ReadFirmwareVersion() returns (r: Outcome<bool>)
      modifies bus
      ensures Step(r, bus.State()) == ReadFirmwareVersionSpec(old(bus.State()))
    {
      var _ := I2cWrite(Encode(Command.ReadFirmwareVersion));
      var version := ReadNBytes(3);
      match version
      case Raised(e) =>
        return Raised(e);
      case Returned(v) =>
        return Returned(Truthy(v));
    }

    method ReadMeasInterval() returns (r: Outcome<int>)
      modifies bus
      ensures Step(r, bus.State()) == ReadMeasIntervalSpec(old(bus.State()))
    {
      var ok := I2cWrite(Encode(GetMeasInterval));
      if !ok {
        return Returned(-1);
      }
      var ret := ReadNBytes(3);
      match ret
      case Raised(e) =>
        return Raised(e);
      case Returned(v) =>
        if Truthy(v) {
          return Returned(IntervalOf(v.data));
        }
        return Returned(-1);
    }

    method SetMeasInterval(measInterval: int) returns (r: Outcome<Option<int>>)
      modifies bus
      ensures Step(r, bus.State()) == SetMeasIntervalSpec(measInterval, old(bus.State()))
    {
      if !(0 <= measInterval < 256) {
        return Raised(ByteOutOfRange);
      }
      var ok := I2cWrite(Encode(Command.SetMeasInterval(measInterval)));
      if !ok {
        var e := ExitHard();
        if e.Raised? {
          return Raised(e.error);
        }
        return Returned(Some(-1));
      }
      var ret := ReadMeasInterval();
      if ret.Raised? {
        return Raised(ret.error);
      }
      if ret.value == -1 {
        // The query was written, so the handle is open and exit_hard cannot raise.
        var _ := ExitHard();
        return Returned(None);
      } else if ret.value == measInterval {
        return Returned(Some(measInterval));
      }
      return Returned(Some(-1));
    }

    method ReadAscStatus() returns (r: Outcome<int>)
      modifies bus
      ensures Step(r, bus.State()) == ReadAscStatusSpec(old(bus.State()))
    {
      var ok := I2cWrite(Encode(GetAscStatus));
      if !ok {
        return Returned(-1);
      }
      var data := ReadNBytes(3);
      match data
      case Raised(e) =>
        return Raised(e);
      case Returned(Rejected) =>
        return Returned(-1);
      case Returned(NoValue) =>
        return Raised(NoneSubscripted);
      case Returned(Accepted(bytes)) =>
        return Returned(AscStatusOf(bytes));
    }

    method ReadMeasurements() returns (r: Outcome<Option<Reading>>)
      modifies this, bus
      ensures Cycle(r, failCounter, bus.State()) == ReadMeasurementsSpec(old(failCounter), old(bus.State()))
      ensures old(Valid()) ==> Valid()
    {
      if failCounter == 0 {
        return Raised(NoActiveException);
      }
      var ok := I2cWrite(Encode(GetDataReady));
      if !ok {
        var e := ExitHard();
        if e.Raised? {
          return Raised(e.error);
        }
      }
      var ready := ReadNBytes(3);
      if ready.Raised? {
        return Raised(ready.error);
      }
      match ready.value
      case Rejected =>
        failCounter := failCounter - 1;
        return Returned(None);
      case NoValue =>
        failCounter := DefaultErrorCount;
        return Raised(NoneSubscripted);
      case Accepted(flag) => {
        failCounter := DefaultErrorCount;
        if flag[1] != 1 {
          failCounter := failCounter - 1;
        }
        var _ := I2cWrite(Encode(ReadMeasurement));
        var data := ReadNBytes(18);
        if data.Raised? {
          return Raised(data.error);
        }
        match data.value
        case Rejected =>
          return Returned(None);
        case NoValue =>
          return Raised(NoneSubscripted);
        case Accepted(bytes) =>
          return Returned(Some(DecodeReading(bytes)));
      }
    }
  }
}
