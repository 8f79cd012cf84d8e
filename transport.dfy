/** The pigpio I2C handle the driver talks through, reduced to what the
    driver can observe: the frames that reached the bus, the replies the
    sensor will give, whether writes fail and whether the handle is closed.
    `BusState` is that state as a value; `I2cHandle` is the object the
    driver holds, whose operations are proved to follow the value-level
    functions. */
module Transport {
  import opened Wire

  /** One `i2c_read_device` answer: the bytes delivered (so `count` is their
      number), or a refusal that pigpio reports by raising. */
  datatype Reply = Received(data: seq<Byte>) | BusError

  datatype BusState = BusState(
    written: seq<seq<Byte>>,  // frames accepted by `i2c_write_device`, oldest first
    replies: seq<Reply>,      // answers the next reads will get, in order
    writeFails: bool,         // the bus refuses every write
    closed: bool)             // `i2c_close` has been called on the handle

  /** A write goes through unless the bus refuses writes or the handle is
      closed. */
  predicate WriteSucceeds(s: BusState)
  {
    !s.writeFails && !s.closed
  }

  /** The state after `i2c_write_device(frame)`: a frame that went through is
      appended to the log, a refused one leaves no trace. */
  function AfterWrite(s: BusState, frame: seq<Byte>): (t: BusState)
    ensures t.replies == s.replies && t.writeFails == s.writeFails && t.closed == s.closed
    ensures t.written == if WriteSucceeds(s) then s.written + [frame] else s.written
  {
    if WriteSucceeds(s) then s.(written := s.written + [frame]) else s
  }

  /** What `i2c_read_device` answers: the next queued reply, or a refusal on
      a closed handle or when the sensor has nothing more to say. */
  function NextReply(s: BusState): Reply
  {
    if s.closed || s.replies == [] then BusError else s.replies[0]
  }

  /** The state after a read: on an open handle the queued reply at the
      front is used up, whether it delivered bytes or a refusal; a read on a
      closed handle or past the last reply changes nothing. */
  function AfterRead(s: BusState): (t: BusState)
    ensures t.written == s.written && t.writeFails == s.writeFails && t.closed == s.closed
    ensures NextReply(s).Received? ==> s.replies == [NextReply(s)] + t.replies
    ensures |t.replies| <= |s.replies|
    ensures s.closed || s.replies == [] ==> t == s
    ensures !s.closed && s.replies != [] ==> t.replies == s.replies[1..]
  {
    if s.closed || s.replies == [] then s else s.(replies := s.replies[1..])
  }

  /** `i2c_close` goes through on an open handle and raises on a closed
      one. */
  predicate CloseSucceeds(s: BusState)
  {
    !s.closed
  }

  function AfterClose(s: BusState): (t: BusState)
    ensures t.closed && t.written == s.written && t.replies == s.replies && t.writeFails == s.writeFails
  {
    s.(closed := true)
  }

  class I2cHandle {
    var written: seq<seq<Byte>>
    var replies: seq<Reply>
    const writeFails: bool
    var closed: bool

    function State(): BusState
      reads this
    {
      BusState(written, replies, writeFails, closed)
    }

    /** A freshly opened handle to a sensor that will answer with `replies`. */
    constructor(replies: seq<Reply>, writeFails: bool)
      ensures State() == BusState([], replies, writeFails, false)
    {
      this.written := [];
      this.replies := replies;
      this.writeFails := writeFails;
      this.closed := false;
    }

    /** `i2c_write_device`: `ok` is false where pigpio would raise. */
    method WriteDevice(frame: seq<Byte>) returns (ok: bool)
      modifies this
      ensures ok == WriteSucceeds(old(State()))
      ensures State() == AfterWrite(old(State()), frame)
    {
      ok := !writeFails && !closed;
      if ok {
        written := written + [frame];
      }
    }

    /** `i2c_read_device`: the bytes delivered, or `BusError` where pigpio
        would raise. */
    method ReadDevice() returns (r: Reply)
      modifies this
      ensures r == NextReply(old(State()))
      ensures State() == AfterRead(old(State()))
    {
      if closed || replies == [] {
        return BusError;
      }
      r := replies[0];
      replies := replies[1..];
    }

    /** `i2c_close`: `ok` is false where pigpio would raise. */
    method Close() returns (ok: bool)
      modifies this
      ensures ok == CloseSucceeds(old(State()))
      ensures State() == AfterClose(old(State()))
    {
      ok := !closed;
      closed := true;
    }
  }
}
