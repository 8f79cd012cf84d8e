/** What the driver makes of the bytes it reads back: the checksum test of
    `read_n_bytes` (raspi_airdata.py:162-185) and the decoding of interval,
    ASC status and measurement replies (raspi_airdata.py:206, 246-254,
    106-107, 309-311). Alongside, the words a sensor sends for given values,
    so that each decoder can be checked against an encoder. */
module Replies {
  import opened Wire
  import opened Checksum

  /** What `read_n_bytes(n)` returns: the bytes read (`data`), `False`, or
      `None` when `n` bytes arrived but `n` is not a multiple of three. */
  datatype ReadResult = Accepted(data: seq<Byte>) | Rejected | NoValue

  /** Python truthiness of that value, as `if ret:` tests it. */
  predicate Truthy(r: ReadResult)
  {
    r.Accepted? && |r.data| > 0
  }

  /** Word `i` of `data` (bytes 3i, 3i+1, 3i+2) carries the right checksum. */
  predicate WordOk(data: seq<Byte>, i: nat)
    requires 3 * i + 3 <= |data|
  {
    data[3 * i + 2] == CalcCrc(data[3 * i], data[3 * i + 1])
  }

  /** Every complete 3-byte word of `data` carries the right checksum. */
  predicate AllWordsValid(data: seq<Byte>)
  {
    forall i: nat :: i < |data| / 3 ==> WordOk(data, i)
  }

  /** The outcome of `read_n_bytes(n)` when the bus delivered `data`. */
  function CheckReply(n: int, data: seq<Byte>): (r: ReadResult)
    ensures r.Accepted? <==> |data| == n && n % 3 == 0 && AllWordsValid(data)
    ensures r.Accepted? ==> r.data == data
  {
    if |data| != n then Rejected
    else if n % 3 != 0 then NoValue
    else if AllWordsValid(data) then Accepted(data)
    else Rejected
  }

  /** The checking part of `read_n_bytes`: compare the length, then walk the
      3-byte words and give up at the first bad checksum. */
  method CheckRead(n: int, data: seq<Byte>) returns (r: ReadResult)
    ensures r == CheckReply(n, data)
  {
    if |data| != n {
      return Rejected;
    }
    if n % 3 != 0 {
      return NoValue;
    }
    var i := 0;
    while i < n / 3
      invariant 0 <= i <= n / 3
      invariant forall j: nat :: j < i ==> WordOk(data, j)
    {
      var offset := i * 3;
      if data[offset + 2] != CalcCrc(data[offset + 0], data[offset + 1]) {
        assert !WordOk(data, i);
        return Rejected;
      }
      i := i + 1;
    }
    return Accepted(data);
  }

  /** `None` comes back exactly when the requested number of bytes arrived
      but is not a whole number of words; otherwise a reply that is not
      returned gives `False`. */
  lemma CheckReplyNone(n: int, data: seq<Byte>)
    ensures CheckReply(n, data) == NoValue <==> |data| == n && n % 3 != 0
    ensures CheckReply(n, data) == Rejected <==> |data| != n || (n % 3 == 0 && !AllWordsValid(data))
  {
  }

  /** Changing any one data byte of an accepted reply (not a checksum byte)
      makes the same read fail: no partial or corrupted data is returned. */
  lemma CorruptedReplyRejected(n: int, data: seq<Byte>, k: nat, b: Byte)
    requires CheckReply(n, data).Accepted?
    requires k < |data| && k % 3 != 2 && b != data[k]
    ensures CheckReply(n, data[k := b]) == Rejected
  {
    var i := k / 3;
    assert i < |data| / 3;
    assert WordOk(data, i);
    var w := [data[3 * i], data[3 * i + 1], data[3 * i + 2]];
    var corrupted := data[k := b];
    if k % 3 == 0 {
      assert k == 3 * i;
      CorruptedWordRejected(w, b, w[1]);
    } else {
      assert k == 3 * i + 1;
      CorruptedWordRejected(w, w[0], b);
    }
    assert !WordOk(corrupted, i);
  }

  // ---------------------------------------------------------------------
  // Decoding
  // ---------------------------------------------------------------------

  /** `ret[0] * 256 + ret[1]`: the interval in the first word of a reply. */
  function IntervalOf(data: seq<Byte>): (r: nat)
    requires |data| >= 2
    ensures r < 0x1_0000 && r / 256 == data[0] && r % 256 == data[1]
  {
    Be16(data[0], data[1])
  }

  /** The ASC status in byte 1 of the reply: 1 enabled, 0 disabled, -1 for
      any other value. */
  function AscStatusOf(data: seq<Byte>): (r: int)
    requires |data| >= 2
    ensures r == 1 <==> data[1] == 1
    ensures r == 0 <==> data[1] == 0
    ensures r == -1 <==> data[1] >= 2
  {
    if data[1] == 1 then 1
    else if data[1] == 0 then 0
    else -1
  }

  /** `calcFloat`'s byte selection: bytes 0, 1, 3 and 4 of the slice, in
      that order, are the big-endian IEEE-754 single it unpacks. */
  function PackFloat(slice: seq<Byte>): (r: seq<Byte>)
    requires |slice| >= 5
    ensures r == slice[..2] + slice[3..5]
  {
    [slice[0], slice[1], slice[3], slice[4]]
  }

  /** The three 4-byte float encodings of one measurement. */
  datatype Reading = Reading(co2: seq<Byte>, temperature: seq<Byte>, humidity: seq<Byte>)

  /** The slices `data[0:5]`, `data[6:11]`, `data[12:17]` passed to
      `calcFloat`. They pick exactly the data bytes of words 0-1, 2-3 and
      4-5: the fixed slice bounds take no checksum byte and drop no data
      byte. */
  function DecodeReading(data: seq<Byte>): (r: Reading)
    requires |data| == 18
    ensures WellFormed(r)
    ensures r.co2 == Payload(data, 0) + Payload(data, 1)
    ensures r.temperature == Payload(data, 2) + Payload(data, 3)
    ensures r.humidity == Payload(data, 4) + Payload(data, 5)
  {
    Reading(PackFloat(data[0..5]), PackFloat(data[6..11]), PackFloat(data[12..17]))
  }

  /** The two data bytes of word `j`. */
  function Payload(data: seq<Byte>, j: nat): seq<Byte>
    requires 3 * j + 2 <= |data|
  {
    data[3 * j .. 3 * j + 2]
  }

  /** A decoded measurement does not depend on any checksum position
      (2, 5, 8, 11, 14, 17). */
  lemma ReadingIgnoresChecksums(data: seq<Byte>, other: seq<Byte>)
    requires |data| == 18 && |other| == 18
    requires forall k :: 0 <= k < 18 && k % 3 != 2 ==> data[k] == other[k]
    ensures DecodeReading(data) == DecodeReading(other)
  {
    assert forall k :: k in {0, 1, 3, 4, 6, 7, 9, 10, 12, 13, 15, 16} ==> data[k] == other[k];
  }
  // ---------------------------------------------------------------------
  // What the sensor sends, and round trips through the decoders
  // ---------------------------------------------------------------------

  /** The word the sensor sends for the data bytes `hi`, `lo`: both bytes,
      then their checksum. */
  function EncodeWord(hi: Byte, lo: Byte): seq<Byte>
  {
    [hi, lo, CalcCrc(hi, lo)]
  }

  /** The 4-byte big-endian encodings of the three floats are each 4 bytes
      long. */
  predicate WellFormed(r: Reading)
  {
    |r.co2| == 4 && |r.temperature| == 4 && |r.humidity| == 4
  }

  /** The two words the sensor sends for one float given as its four
      big-endian bytes: the high half first. */
  function EncodeFloat(four: seq<Byte>): seq<Byte>
    requires |four| == 4
  {
    EncodeWord(four[0], four[1]) + EncodeWord(four[2], four[3])
  }

  /** The 18-byte measurement reply: CO2, temperature, humidity. */
  function EncodeReading(r: Reading): seq<Byte>
    requires WellFormed(r)
  {
    EncodeFloat(r.co2) + EncodeFloat(r.temperature) + EncodeFloat(r.humidity)
  }

  lemma EncodeWordIsValid(hi: Byte, lo: Byte)
    ensures AllWordsValid(EncodeWord(hi, lo))
    ensures CheckReply(3, EncodeWord(hi, lo)) == Accepted(EncodeWord(hi, lo))
  {
    assert WordOk(EncodeWord(hi, lo), 0);
  }

  /** A sensor that reports interval `v` gets `v` back from the driver. */
  lemma IntervalRoundTrip(v: nat)
    requires v < 0x1_0000
    ensures CheckReply(3, EncodeWord(HighByte(v), LowByte(v))) == Accepted(EncodeWord(HighByte(v), LowByte(v)))
    ensures IntervalOf(EncodeWord(HighByte(v), LowByte(v))) == v
  {
    var h, l := HighByte(v), LowByte(v);
    EncodeWordIsValid(h, l);
    SplitJoin(v);
    assert IntervalOf(EncodeWord(h, l)) == Be16(h, l);
  }

  /** The ASC status decoder reads the low byte of the word only: the
      sensor's 1 and 0 come back as 1 and 0, and a word whose low byte is
      neither decodes to -1 whatever its high byte. */
  lemma AscStatusRoundTrip(hi: Byte, lo: Byte)
    ensures CheckReply(3, EncodeWord(hi, lo)) == Accepted(EncodeWord(hi, lo))
    ensures lo < 2 ==> AscStatusOf(EncodeWord(hi, lo)) == lo
    ensures lo >= 2 ==> AscStatusOf(EncodeWord(hi, lo)) == -1
  {
    EncodeWordIsValid(hi, lo);
  }

  /** Putting whole valid words after whole valid words keeps every word
      valid. */
  lemma {:induction false} AppendValid(a: seq<Byte>, b: seq<Byte>)
    requires |a| % 3 == 0 && AllWordsValid(a) && AllWordsValid(b)
    ensures AllWordsValid(a + b)
  {
    var ab := a + b;
    forall i: nat | i < |ab| / 3
      ensures WordOk(ab, i)
    {
      if i < |a| / 3 {
        assert WordOk(a, i);
      } else {
        var j: nat := i - |a| / 3;
        assert 3 * j + 3 <= |b|;
        assert WordOk(b, j);
        assert ab[3 * i] == b[3 * j] && ab[3 * i + 1] == b[3 * j + 1] && ab[3 * i + 2] == b[3 * j + 2];
      }
    }
  }

  /** One float: both words are valid and the packed bytes are the float's
      four bytes. */
  lemma FloatRoundTrip(four: seq<Byte>)
    requires |four| == 4
    ensures |EncodeFloat(four)| == 6 && AllWordsValid(EncodeFloat(four))
    ensures PackFloat(EncodeFloat(four)[0..5]) == four
  {
    EncodeWordIsValid(four[0], four[1]);
    EncodeWordIsValid(four[2], four[3]);
    AppendValid(EncodeWord(four[0], four[1]), EncodeWord(four[2], four[3]));
  }

  /** The measurement slices of three 6-byte float encodings in a row are
      the packed bytes of each. */
  lemma DecodeConcat(a: seq<Byte>, b: seq<Byte>, c: seq<Byte>)
    requires |a| == 6 && |b| == 6 && |c| == 6
    ensures DecodeReading(a + b + c) == Reading(PackFloat(a[0..5]), PackFloat(b[0..5]), PackFloat(c[0..5]))
  {
    var data := a + b + c;
    assert data[0..5] == a[0..5];
    assert data[6..11] == b[0..5];
    assert data[12..17] == c[0..5];
  }

  /** Decoding the 18 bytes the sensor sends for three floats passes every
      checksum and yields each float's four bytes unchanged. */
  lemma ReadingRoundTrip(r: Reading)
    requires WellFormed(r)
    ensures CheckReply(18, EncodeReading(r)) == Accepted(EncodeReading(r))
    ensures DecodeReading(EncodeReading(r)) == r
  {
    var a, b, c := EncodeFloat(r.co2), EncodeFloat(r.temperature), EncodeFloat(r.humidity);
    FloatRoundTrip(r.co2);
    FloatRoundTrip(r.temperature);
    FloatRoundTrip(r.humidity);
    AppendValid(a, b);
    AppendValid(a + b, c);
    DecodeConcat(a, b, c);
    CheckReplyNone(18, a + b + c);
  }
}
