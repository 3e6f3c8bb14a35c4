/** What a client makes of the answers to FC 20 and FC 21. */
module FileResponses {
  import opened Words
  import opened Frames
  import ByteOrder
  import opened Engine
  import opened Responses
  import opened FileRecords

  /** An answer to one sub-request whose two sizes agree, with whole registers. */
  predicate OnePart(t: Transport, m: seq<byte>)
    requires |m| > HeaderLength(t)
  {
    var h := HeaderLength(t);
    m[h] >= 2 && m[h] % 2 == 0 && |m| >= h + 1 + m[h] && m[h + 1] == m[h] - 1
  }

  predicate PartArrived(t: Transport, crc: CrcFunction, req: Header, s: seq<byte>) {
    && ResArrived(t, crc, req, s, COUNTED)
    && (ResHeaderError(t, crc, req, s) == ERROR_NONE && !OverLimit(t, Message(t, s), COUNTED) ==>
         OnePart(t, Message(t, s)))
  }

  function ReadFileError(t: Transport, crc: CrcFunction, req: Header, s: seq<byte>, count: u16): int
    requires PartArrived(t, crc, req, s)
  {
    var e := FormError(t, crc, req, s, COUNTED);
    if e != ERROR_NONE then e
    else
      var m, h := Message(t, s), HeaderLength(t);
      if m[h + 2] != REFERENCE_TYPE || count != (m[h] - 2) / 2 then ERROR_INVALID_RESPONSE else ERROR_NONE
  }

  /** The registers of the answer stand at the beginning of an array that keeps the rest. */
  ghost predicate PartTaken(t: Transport, m: seq<byte>, before: seq<u16>, after: seq<u16>)
    requires |m| > HeaderLength(t) && OnePart(t, m)
  {
    var h := HeaderLength(t);
    var count := (m[h] - 2) / 2;
    count <= |before| && after == WordsOf(m[h + 3..h + 1 + m[h]]) + before[count..]
  }

  lemma TakenFromLine(t: Transport, m: seq<byte>, line: seq<byte>, before: seq<u16>, after: seq<u16>)
    requires |m| > HeaderLength(t) && OnePart(t, m)
    requires var h := HeaderLength(t); line == m[h + 3..h + 1 + m[h]]
    requires |line| / 2 <= |before| && after == WordsOf(line) + before[|line| / 2..]
    ensures PartTaken(t, m, before, after)
  {}

  /** The answer is all there behind its byte count, at which the index stands. */
  ghost predicate BehindCount(n: Nmbs, size: byte)
    reads n`idx, n`avail, n`msg, n`complete, n`rx, n.buf
  {
    && n.Valid() && n.Receiving() && (n.complete <==> n.transport.TCP?)
    && n.idx == HeaderLength(n.transport) + 1 && n.idx + size + TrailerLength(n.transport) <= |n.msg|
    && n.msg[n.idx - 1] == size <= 251
    && (if n.complete then n.idx + size <= n.avail else n.avail == n.idx + size)
  }

  /** The two bytes before the registers, and the footer behind them. */
  method GetPartHeader(n: Nmbs, responseSize: byte) returns (err: int, subreqDataSize: byte, referenceType: byte)
    requires BehindCount(n, responseSize) && OnePart(n.transport, n.msg)
    modifies n`idx, n`avail, n`rx, n.buf
    ensures n.InBody() && n.idx == old(n.idx) + responseSize + TrailerLength(n.transport)
    ensures subreqDataSize == responseSize - 2 && referenceType == n.msg[old(n.idx) + 1]
    ensures var end := old(n.idx) + responseSize;
      && err == (if !TrailerFits(n.transport, n.crc, n.msg, end) then ERROR_CRC else ERROR_NONE)
      && n.rx == LineLeft(n.transport, n.msg, end + TrailerLength(n.transport), old(n.rx))
  {
    hide Nmbs.Receiving, TrailerFits;
    var subreqSize := n.Get1();
    subreqDataSize := subreqSize - 1;
    referenceType := n.Get1();
    n.DiscardN(subreqDataSize);
    err := n.RecvMsgFooter();
    n.BehindFooter();
  }

  /** The sub-response behind the byte count. */
  method GetPart(n: Nmbs, responseSize: byte, registers: array<u16>, count: u16) returns (err: int)
    requires BehindCount(n, responseSize) && OnePart(n.transport, n.msg)
    requires registers as object != n.buf && count <= registers.Length
    modifies n`idx, n`avail, n`rx, n.buf, registers
    ensures n.Valid()
    ensures var at, end := old(n.idx), old(n.idx) + responseSize;
      && err == (if !TrailerFits(n.transport, n.crc, n.msg, end) then ERROR_CRC
                 else if n.msg[at + 1] != REFERENCE_TYPE || count != (responseSize - 2) / 2 then ERROR_INVALID_RESPONSE
                 else ERROR_NONE)
      && n.rx == LineLeft(n.transport, n.msg, end + TrailerLength(n.transport), old(n.rx))
      && (err == ERROR_NONE ==> PartTaken(n.transport, n.msg, old(registers[..]), registers[..]))
      && (err != ERROR_NONE ==> registers[..] == old(registers[..]))
  {
    hide Nmbs.Receiving, WordsOf, PartTaken, TrailerFits;
    var at := n.idx + 2;
    var subreqDataSize, referenceType;
    err, subreqDataSize, referenceType := GetPartHeader(n, responseSize);
    if err != ERROR_NONE {
      return;
    }
    if referenceType != 6 {
      return ERROR_INVALID_RESPONSE;
    }
    if count != subreqDataSize / 2 {
      return ERROR_INVALID_RESPONSE;
    }
    n.Bounds();
    n.InBuffer(at, at + 2 * count);
    ghost var line, before := n.buf[at..at + 2 * count], registers[..];
    CopyInHostOrder(n.buf, at, count, registers);
    TakenFromLine(n.transport, n.msg, line, before, registers[..]);
    err := ERROR_NONE;
  }

  /** Received registers exchanged in place, as the host then sees them. */
  method HostOrder(buf: array<byte>, at: nat, count: nat) returns (data: seq<u16>)
    requires at + 2 * count <= buf.Length
    modifies buf
    ensures data == WordsOf(old(buf[at..at + 2 * count]))
  {
    ghost var line := buf[at..at + 2 * count];
    ByteOrder.SwapRegs(buf, at, count);
    ByteOrder.HostSeesLine(line, buf[at..at + 2 * count]);
    data := ByteOrder.LoadHost(buf, at, count);
  }

  method CopyInHostOrder(buf: array<byte>, at: nat, count: nat, registers: array<u16>)
    requires at + 2 * count <= buf.Length && count <= registers.Length && registers as object != buf
    modifies buf, registers
    ensures registers[..] == WordsOf(old(buf[at..at + 2 * count])) + old(registers[..])[count..]
  {
    var data := HostOrder(buf, at, count);
    forall i | 0 <= i < |data| {
      registers[i] := data[i];
    }
    assert registers[..] == data + old(registers[..])[count..];
  }

  method RecvReadFileRecordRes(n: Nmbs, registers: array<u16>, count: u16) returns (err: int)
    requires n.Valid() && registers as object != n.buf && count <= registers.Length
    requires PartArrived(n.transport, n.crc, n.Head(), n.rx)
    modifies n`idx, n`unitId, n`fc, n`transactionId, n`broadcast, n`ignored, n`complete, n`avail, n`msg, n`rx, n.buf
    modifies registers
    ensures n.Valid()
    ensures err == ReadFileError(n.transport, n.crc, old(n.Head()), old(n.rx), count)
    ensures err == ERROR_NONE ==>
      PartTaken(n.transport, Message(n.transport, old(n.rx)), old(registers[..]), registers[..])
    ensures err != ERROR_NONE ==> registers[..] == old(registers[..])
    ensures n.rx == FormLeft(n.transport, n.crc, old(n.Head()), old(n.rx), COUNTED)
  {
    hide ResHeaderError, ResHeaderArrived, Nmbs.Receiving, PartTaken;
    var responseSize;
    err, responseSize := RecvCounted(n, 250);
    if err != ERROR_NONE {
      return;
    }
    err := GetPart(n, responseSize, registers, count);
  }

  // ----- FC 21

  const ECHO: Form := CountedUpTo(251)

  /** The echo of one sub-request, as long as its own length field says. */
  predicate OneEcho(t: Transport, m: seq<byte>)
    requires |m| > HeaderLength(t)
  {
    var h := HeaderLength(t);
    m[h] >= 7 && |m| >= h + 1 + m[h] && m[h] == 7 + 2 * WordAt(m, h + 6)
  }

  predicate EchoArrived(t: Transport, crc: CrcFunction, req: Header, s: seq<byte>) {
    && ResArrived(t, crc, req, s, ECHO)
    && (ResHeaderError(t, crc, req, s) == ERROR_NONE && !OverLimit(t, Message(t, s), ECHO) ==>
         OneEcho(t, Message(t, s)))
  }

  /** The sub-request that the echo repeats. */
  function Echoed(t: Transport, m: seq<byte>): WriteSub
    requires |m| > HeaderLength(t) && OneEcho(t, m)
  {
    var h := HeaderLength(t);
    WriteSub(m[h + 1], WordAt(m, h + 2), WordAt(m, h + 4), WordsOf(m[h + 8..h + 1 + m[h]]))
  }

  function WriteFileError(t: Transport, crc: CrcFunction, req: Header, s: seq<byte>, sub: WriteSub): int
    requires EchoArrived(t, crc, req, s)
  {
    var e := FormError(t, crc, req, s, ECHO);
    if e != ERROR_NONE then e
    else if Echoed(t, Message(t, s)) != sub then ERROR_INVALID_RESPONSE
    else ERROR_NONE
  }

  /** The four fields in front of the echoed registers, and the footer behind them. */
  method GetEchoHeader(n: Nmbs, responseSize: byte)
    returns (err: int, referenceType: byte, fileNumber: u16, recordNumber: u16, length: u16)
    requires BehindCount(n, responseSize) && OneEcho(n.transport, n.msg)
    modifies n`idx, n`avail, n`rx, n.buf
    ensures n.InBody() && n.idx == old(n.idx) + responseSize + TrailerLength(n.transport)
    ensures var at, end := old(n.idx), old(n.idx) + responseSize;
      && referenceType == n.msg[at] && fileNumber == WordAt(n.msg, at + 1)
      && recordNumber == WordAt(n.msg, at + 3) && length == WordAt(n.msg, at + 5)
      && err == (if !TrailerFits(n.transport, n.crc, n.msg, end) then ERROR_CRC else ERROR_NONE)
      && n.rx == LineLeft(n.transport, n.msg, end + TrailerLength(n.transport), old(n.rx))
  {
    hide Nmbs.Receiving, TrailerFits, WordAt;
    referenceType := n.Get1();
    fileNumber := n.Get2();
    recordNumber := n.Get2();
    length := n.Get2();
    n.DiscardN(2 * length);
    err := n.RecvMsgFooter();
    n.BehindFooter();
  }

  /** The echo behind the byte count. */
  method GetEcho(n: Nmbs, responseSize: byte, fileNumber: u16, recordNumber: u16, registers: seq<u16>)
    returns (err: int)
    requires BehindCount(n, responseSize) && OneEcho(n.transport, n.msg)
    modifies n`idx, n`avail, n`rx, n.buf
    ensures n.Valid()
    ensures var end := old(n.idx) + responseSize;
      && err == (if !TrailerFits(n.transport, n.crc, n.msg, end) then ERROR_CRC
                 else if Echoed(n.transport, n.msg) != WriteSub(REFERENCE_TYPE, fileNumber, recordNumber, registers)
                   then ERROR_INVALID_RESPONSE
                 else ERROR_NONE)
      && n.rx == LineLeft(n.transport, n.msg, end + TrailerLength(n.transport), old(n.rx))
  {
    hide Nmbs.Receiving, WordsOf, TrailerFits, WordAt;
    var at := n.idx + 7;
    var referenceType, subreqFileNumber, subreqRecordNumber, length;
    err, referenceType, subreqFileNumber, subreqRecordNumber, length := GetEchoHeader(n, responseSize);
    if err != ERROR_NONE {
      return;
    }
    if referenceType != 6 {
      return ERROR_INVALID_RESPONSE;
    }
    if subreqFileNumber != fileNumber {
      return ERROR_INVALID_RESPONSE;
    }
    if subreqRecordNumber != recordNumber {
      return ERROR_INVALID_RESPONSE;
    }
    if length != |registers| {
      return ERROR_INVALID_RESPONSE;
    }
    n.Bounds();
    n.InBuffer(at, at + 2 * length);
    var data := HostOrder(n.buf, at, length);
    if registers != data {
      return ERROR_INVALID_RESPONSE;
    }
    err := ERROR_NONE;
  }

  method RecvWriteFileRecordRes(n: Nmbs, fileNumber: u16, recordNumber: u16, registers: seq<u16>) returns (err: int)
    requires n.Valid()
    requires EchoArrived(n.transport, n.crc, n.Head(), n.rx)
    modifies n`idx, n`unitId, n`fc, n`transactionId, n`broadcast, n`ignored, n`complete, n`avail, n`msg, n`rx, n.buf
    ensures n.Valid()
    ensures err == WriteFileError(n.transport, n.crc, old(n.Head()), old(n.rx),
                                  WriteSub(REFERENCE_TYPE, fileNumber, recordNumber, registers))
    ensures n.rx == FormLeft(n.transport, n.crc, old(n.Head()), old(n.rx), ECHO)
  {
    hide ResHeaderError, ResHeaderArrived, Nmbs.Receiving, WordsOf;
    var responseSize;
    err, responseSize := RecvCounted(n, 251);
    if err != ERROR_NONE {
      return;
    }
    err := GetEcho(n, responseSize, fileNumber, recordNumber, registers);
  }
}
