/** Error codes, message headers and whole frames, on both transports. */
module Frames {
  import opened Words

  datatype Transport = RTU | TCP

  /** platform.crc_calc: the checksum is a parameter of the engine; nmbs_crc_calc is the default one. */
  type CrcFunction = seq<byte> -> u16

  // nmbs_error: library errors are negative, Modbus exceptions are 1 to 4
  const ERROR_INVALID_REQUEST := -8
  const ERROR_INVALID_UNIT_ID := -7
  const ERROR_INVALID_TCP_MBAP := -6
  const ERROR_CRC := -5
  const ERROR_TIMEOUT := -3
  const ERROR_INVALID_RESPONSE := -2
  const ERROR_INVALID_ARGUMENT := -1
  const ERROR_NONE := 0
  const ILLEGAL_FUNCTION := 1
  const ILLEGAL_DATA_ADDRESS := 2
  const ILLEGAL_DATA_VALUE := 3
  const SERVER_DEVICE_FAILURE := 4

  const BUFFER_SIZE := 260
  const BROADCAST_ADDRESS: byte := 0

  predicate IsException(e: int) {
    0 < e < 5
  }

  /** What identifies a message, besides its data. On RTU the transaction id stays off the wire. */
  datatype Header = Header(transactionId: u16, unitId: byte, fc: byte)

  function HeaderLength(t: Transport): nat {
    if t.RTU? then 2 else 8
  }

  /** The value that a uint16_t holds. */
  function Uint16(n: nat): u16 {
    n % 0x1_0000
  }

  function HeaderBytes(t: Transport, h: Header, dataLength: nat): (s: seq<byte>)
    ensures |s| == HeaderLength(t)
  {
    if t.RTU? then [h.unitId, h.fc]
    else Be(h.transactionId) + Be(0) + Be(Uint16(2 + dataLength)) + [h.unitId, h.fc]
  }

  function TrailerLength(t: Transport): nat {
    if t.RTU? then 2 else 0
  }

  function Trailer(t: Transport, crc: CrcFunction, m: seq<byte>): (s: seq<byte>)
    ensures |s| == TrailerLength(t)
  {
    if t.RTU? then Be(crc(m)) else []
  }

  /** A message closed by its checksum, as it goes on the line. */
  function Sealed(t: Transport, crc: CrcFunction, m: seq<byte>): seq<byte> {
    m + Trailer(t, crc, m)
  }

  /** The whole frame for a header and data. */
  function Frame(t: Transport, crc: CrcFunction, h: Header, data: seq<byte>): seq<byte>
  {
    Sealed(t, crc, HeaderBytes(t, h, |data|) + data)
  }

  /** How a server answers. */
  datatype Outcome = Reply(data: seq<byte>) | Exception(code: byte) | Silent

  /** What goes on the line for an outcome; an exception sets the top bit of the function code. */
  function Emitted(t: Transport, crc: CrcFunction, h: Header, o: Outcome): seq<byte>
  {
    match o
    case Reply(data) => Frame(t, crc, h, data)
    case Exception(code) => Frame(t, crc, h.(fc := (h.fc + 0x80) % 0x100), [code])
    case Silent => []
  }

  lemma SilenceIsEmpty(t: Transport, crc: CrcFunction, h: Header, tx: seq<byte>)
    ensures tx + Emitted(t, crc, h, Silent) == tx
  {}

  /** The trailer that stands in m at position end fits what comes before it. */
  predicate TrailerFits(t: Transport, crc: CrcFunction, m: seq<byte>, end: nat)
    requires end + TrailerLength(t) <= |m|
  {
    t.RTU? ==> WordAt(m, end) == crc(m[..end])
  }

  lemma BeRoundTrip(x: u16)
    ensures WordAt(Be(x), 0) == x
  {}

  /** On TCP the length field counts exactly the bytes that follow it. */
  lemma LengthFieldCountsRest(crc: CrcFunction, h: Header, data: seq<byte>)
    requires |data| <= 0xFFFD
    ensures var f := Frame(TCP, crc, h, data); WordAt(f, 4) == |f[6..]|
  {
    var f := Frame(TCP, crc, h, data);
    assert f[4..6] == Be(2 + |data|);
    assert WordAt(f, 4) == WordAt(f[4..6], 0);
  }
}
