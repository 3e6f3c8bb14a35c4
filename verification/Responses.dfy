/** The recv_*_res functions: what a client, or a server that only listens, makes of a response. */
module Responses {
  import opened Words
  import opened Frames
  import opened Engine

  /**
   * The form of a body: so many fixed bytes, the last of them, if counted, saying how many more follow; a count
   * over the limit is refused at once.
   */
  datatype Form = Form(fixed: nat, counted: bool, limit: nat)

  /** A byte count, which has a limit, and as many bytes. */
  function CountedUpTo(limit: byte): Form {
    Form(1, true, limit)
  }

  const COUNTED: Form := CountedUpTo(250)
  const TWO_WORDS: Form := Form(4, false, 0)

  /** Where the body of a message ends, and its trailer begins. */
  function BodyEnd(t: Transport, m: seq<byte>, f: Form): nat
    requires f.fixed >= 1 && |m| >= HeaderLength(t) + f.fixed
  {
    HeaderLength(t) + f.fixed + if f.counted then m[HeaderLength(t) + f.fixed - 1] else 0
  }

  predicate OverLimit(t: Transport, m: seq<byte>, f: Form)
    requires f.fixed >= 1 && |m| >= HeaderLength(t) + f.fixed
  {
    f.counted && m[HeaderLength(t) + f.fixed - 1] > f.limit
  }

  /** All bytes of the message that will be read are there. */
  predicate BodyArrived(t: Transport, m: seq<byte>, f: Form) {
    && f.fixed >= 1
    && |m| >= HeaderLength(t) + f.fixed
    && (!OverLimit(t, m, f) ==> |m| >= BodyEnd(t, m, f) + TrailerLength(t))
  }

  /** Nothing is on the line, or a whole response is. */
  predicate ResArrived(t: Transport, crc: CrcFunction, req: Header, s: seq<byte>, f: Form) {
    && ResHeaderArrived(t, req, s)
    && (ResHeaderError(t, crc, req, s) == ERROR_NONE ==> BodyArrived(t, Message(t, s), f))
  }

  /** The error that header, form and checksum give, before the contents are compared with the request. */
  function FormError(t: Transport, crc: CrcFunction, req: Header, s: seq<byte>, f: Form): int
    requires ResArrived(t, crc, req, s, f)
  {
    var e := ResHeaderError(t, crc, req, s);
    if e != ERROR_NONE then e
    else if OverLimit(t, Message(t, s), f) then ERROR_INVALID_RESPONSE
    else if !TrailerFits(t, crc, Message(t, s), BodyEnd(t, Message(t, s), f)) then ERROR_CRC
    else ERROR_NONE
  }

  /** What is left on the line behind a response, whatever has come of it. */
  function FormLeft(t: Transport, crc: CrcFunction, req: Header, s: seq<byte>, f: Form): seq<byte>
    requires ResArrived(t, crc, req, s, f)
  {
    if ResHeaderError(t, crc, req, s) != ERROR_NONE then ResHeaderLeft(t, req, s)
    else
      var read := if OverLimit(t, Message(t, s), f) then HeaderLength(t) + f.fixed
                  else BodyEnd(t, Message(t, s), f) + TrailerLength(t);
      LineLeft(t, s, read, s[|Message(t, s)|..])
  }

  /** The response to a write names the address and the value or quantity that were sent. */
  function WrittenError(t: Transport, crc: CrcFunction, req: Header, s: seq<byte>, address: u16, value: u16): int
    requires ResArrived(t, crc, req, s, TWO_WORDS)
  {
    var e := FormError(t, crc, req, s, TWO_WORDS);
    if e != ERROR_NONE then e
    else
      var m, h := Message(t, s), HeaderLength(t);
      if WordAt(m, h) != address || WordAt(m, h + 2) != value then ERROR_INVALID_RESPONSE else ERROR_NONE
  }

  /** The registers that arrived are as many as were asked for. */
  function RegistersError(t: Transport, crc: CrcFunction, req: Header, s: seq<byte>, quantity: u16): int
    requires ResArrived(t, crc, req, s, COUNTED)
  {
    var e := FormError(t, crc, req, s, COUNTED);
    if e != ERROR_NONE then e
    else if Message(t, s)[HeaderLength(t)] != 2 * quantity then ERROR_INVALID_RESPONSE
    else ERROR_NONE
  }

  /** recv_write_single_coil_res and its three copies for the other writes. */
  method RecvWrittenRes(n: Nmbs, address: u16, valueReq: u16) returns (err: int)
    requires n.Valid()
    requires ResArrived(n.transport, n.crc, n.Head(), n.rx, TWO_WORDS)
    modifies n`idx, n`unitId, n`fc, n`transactionId, n`broadcast, n`ignored, n`complete, n`avail, n`msg, n`rx, n.buf
    ensures n.Valid()
    ensures err == WrittenError(n.transport, n.crc, old(n.Head()), old(n.rx), address, valueReq)
    ensures n.rx == FormLeft(n.transport, n.crc, old(n.Head()), old(n.rx), TWO_WORDS)
  {
    hide ResHeaderError, ResHeaderArrived;
    err := n.RecvResHeader();
    if err != ERROR_NONE {
      return;
    }
    var addressRes, valueRes;
    err, addressRes, valueRes := n.RecvTwoWords();
    n.BehindFooter();
    if err != ERROR_NONE {
      return;
    }
    if addressRes != address {
      return ERROR_INVALID_RESPONSE;
    }
    if valueRes != valueReq {
      return ERROR_INVALID_RESPONSE;
    }
    err := ERROR_NONE;
  }

  /** What all counted responses begin with: the header, the byte count and as many bytes. */
  method RecvCounted(n: Nmbs, limit: byte) returns (err: int, count: byte)
    requires n.Valid() && limit <= 251
    requires ResArrived(n.transport, n.crc, n.Head(), n.rx, CountedUpTo(limit))
    modifies n`idx, n`unitId, n`fc, n`transactionId, n`broadcast, n`ignored, n`complete, n`avail, n`msg, n`rx, n.buf
    ensures n.Valid()
    ensures var e := ResHeaderError(n.transport, n.crc, old(n.Head()), old(n.rx));
      err == if e != ERROR_NONE then e
             else if OverLimit(n.transport, Message(n.transport, old(n.rx)), CountedUpTo(limit)) then
               ERROR_INVALID_RESPONSE
             else ERROR_NONE
    ensures err == ERROR_NONE ==>
      && n.Receiving() && (n.complete <==> n.transport.TCP?) && n.idx == HeaderLength(n.transport) + 1
      && n.msg == Message(n.transport, old(n.rx)) && count == n.msg[n.idx - 1] <= limit
      && n.idx + count + TrailerLength(n.transport) <= |n.msg|
      && if n.complete then n.rx == old(n.rx)[|n.msg|..] && n.idx + count <= n.avail else n.avail == n.idx + count
    ensures err != ERROR_NONE ==>
      n.rx == FormLeft(n.transport, n.crc, old(n.Head()), old(n.rx), CountedUpTo(limit))
  {
    hide ResHeaderError, ResHeaderArrived, Nmbs.Receiving;
    count := 0;
    err := n.RecvResHeader();
    if err != ERROR_NONE {
      return;
    }
    err := n.Recv(1);
    if err != ERROR_NONE {
      return;
    }
    count := n.Get1();
    n.BehindFooter();
    if count > limit {
      return ERROR_INVALID_RESPONSE, count;
    }
    err := n.Recv(count);
  }

  /** The loop that takes bytes out of the buffer, into an array if there is one. */
  method GetBytes(n: Nmbs, count: nat, values: array?<byte>)
    requires n.Valid() && n.Receiving() && n.idx + count <= n.avail && values != n.buf
    requires values != null ==> count <= values.Length
    modifies n`idx, values
    ensures n.Valid() && n.Receiving() && n.idx == old(n.idx) + count <= |n.msg|
    ensures values != null ==> values[..] == n.msg[old(n.idx)..n.idx] + old(values[..])[count..]
  {
    ghost var from := n.idx;
    for i := 0 to count
      invariant n.Valid() && n.Receiving() && n.idx == from + i <= n.avail <= |n.msg|
      invariant values != null ==>
        && (forall j :: 0 <= j < i ==> values[j] == n.msg[from + j])
        && values[i..] == old(values[..])[i..]
      modifies n`idx, values
    {
      var coil := n.Get1();
      if values != null {
        values[i] := coil;
      }
    }
    if values != null {
      assert values[..count] == n.msg[from..n.idx];
    }
  }

  /** The same for registers of two bytes. */
  method GetRegisters(n: Nmbs, count: nat, registers: array?<u16>)
    requires n.Valid() && n.Receiving() && n.idx + 2 * count <= n.avail && (registers as object?) != n.buf
    requires registers != null ==> count <= registers.Length
    modifies n`idx, registers
    ensures n.Valid() && n.Receiving() && n.idx == old(n.idx) + 2 * count <= |n.msg|
    ensures registers != null ==>
      registers[..] == WordsOf(n.msg[old(n.idx)..n.idx]) + old(registers[..])[count..]
  {
    ghost var from := n.idx;
    for i := 0 to count
      invariant n.Valid() && n.Receiving() && n.idx == from + 2 * i <= n.avail <= |n.msg|
      invariant registers != null ==>
        && (forall j :: 0 <= j < i ==> registers[j] == WordAt(n.msg, from + 2 * j))
        && registers[i..] == old(registers[..])[i..]
      modifies n`idx, registers
    {
      var reg := n.Get2();
      if registers != null {
        registers[i] := reg;
      }
    }
    if registers != null {
      assert registers[..count] == WordsOf(n.msg[from..n.idx]);
    }
  }

  /** Received bytes taken out of the buffer, and the footer behind them. */
  method GetBytesThenFooter(n: Nmbs, count: byte, values: array?<byte>) returns (err: int)
    requires n.Valid() && n.Receiving() && (n.complete <==> n.transport.TCP?) && values != n.buf
    requires values != null ==> count <= values.Length
    requires n.idx + count + TrailerLength(n.transport) <= |n.msg|
    requires n.idx + count + TrailerLength(n.transport) <= BUFFER_SIZE
    requires if n.complete then n.idx + count <= n.avail else n.avail == n.idx + count
    modifies n`idx, n`avail, n`rx, n.buf, values
    ensures n.InBody()
    ensures var end := old(n.idx) + count;
      && n.idx == end + TrailerLength(n.transport)
      && err == (if TrailerFits(n.transport, n.crc, n.msg, end) then ERROR_NONE else ERROR_CRC)
      && n.rx == LineLeft(n.transport, n.msg, end + TrailerLength(n.transport), old(n.rx))
      && (values != null ==> values[..] == n.msg[old(n.idx)..end] + old(values[..])[count..])
  {
    hide Nmbs.Receiving, TrailerFits;
    GetBytes(n, count, values);
    err := n.RecvMsgFooter();
    n.BehindFooter();
  }

  /** Received registers taken out of the buffer, and the footer behind them. */
  method GetRegistersThenFooter(n: Nmbs, count: byte, registers: array?<u16>) returns (err: int)
    requires n.Valid() && n.Receiving() && (n.complete <==> n.transport.TCP?) && (registers as object?) != n.buf
    requires count % 2 == 0 && (registers != null ==> count / 2 <= registers.Length)
    requires n.idx + count + TrailerLength(n.transport) <= |n.msg|
    requires n.idx + count + TrailerLength(n.transport) <= BUFFER_SIZE
    requires if n.complete then n.idx + count <= n.avail else n.avail == n.idx + count
    modifies n`idx, n`avail, n`rx, n.buf, registers
    ensures n.InBody()
    ensures var end := old(n.idx) + count;
      && n.idx == end + TrailerLength(n.transport)
      && err == (if TrailerFits(n.transport, n.crc, n.msg, end) then ERROR_NONE else ERROR_CRC)
      && n.rx == LineLeft(n.transport, n.msg, end + TrailerLength(n.transport), old(n.rx))
      && (registers != null ==>
           registers[..] == WordsOf(n.msg[old(n.idx)..end]) + old(registers[..])[count / 2..])
  {
    hide Nmbs.Receiving, WordsOf, TrailerFits;
    GetRegisters(n, count / 2, registers);
    err := n.RecvMsgFooter();
    n.BehindFooter();
  }

  /** The values of a counted answer get into the caller's array, whatever checksum and quantity will turn out to be. */
  predicate ReachesOutput(t: Transport, crc: CrcFunction, req: Header, s: seq<byte>)
    requires ResArrived(t, crc, req, s, COUNTED)
  {
    ResHeaderError(t, crc, req, s) == ERROR_NONE && !OverLimit(t, Message(t, s), COUNTED)
  }

  method RecvReadDiscreteRes(n: Nmbs, values: array?<byte>) returns (err: int)
    requires n.Valid() && values != n.buf
    requires values != null ==> values.Length >= 250
    requires ResArrived(n.transport, n.crc, n.Head(), n.rx, COUNTED)
    modifies n`idx, n`unitId, n`fc, n`transactionId, n`broadcast, n`ignored, n`complete, n`avail, n`msg, n`rx, n.buf
    modifies values
    ensures n.Valid()
    ensures err == FormError(n.transport, n.crc, old(n.Head()), old(n.rx), COUNTED)
    ensures n.rx == FormLeft(n.transport, n.crc, old(n.Head()), old(n.rx), COUNTED)
    ensures values != null ==>
      if ReachesOutput(n.transport, n.crc, old(n.Head()), old(n.rx)) then
        var m, h := Message(n.transport, old(n.rx)), HeaderLength(n.transport);
        values[..] == m[h + 1..h + 1 + m[h]] + old(values[..])[m[h]..]
      else values[..] == old(values[..])
  {
    hide ResHeaderError, ResHeaderArrived, ResHeaderLeft, Nmbs.Receiving, TrailerFits, HeaderOf, MbapOk;
    var coilsBytes;
    err, coilsBytes := RecvCounted(n, 250);
    if err != ERROR_NONE {
      return;
    }
    err := GetBytesThenFooter(n, coilsBytes, values);
  }

  /** Registers come in pairs of bytes. */
  predicate WholeRegisters(t: Transport, crc: CrcFunction, req: Header, s: seq<byte>)
    requires ResArrived(t, crc, req, s, COUNTED)
  {
    ResHeaderError(t, crc, req, s) == ERROR_NONE ==> Message(t, s)[HeaderLength(t)] % 2 == 0
  }

  method RecvReadRegistersRes(n: Nmbs, quantity: u16, registers: array?<u16>) returns (err: int)
    requires n.Valid() && (registers as object?) != n.buf
    requires registers != null ==> registers.Length >= 125
    requires ResArrived(n.transport, n.crc, n.Head(), n.rx, COUNTED)
    requires WholeRegisters(n.transport, n.crc, n.Head(), n.rx)
    modifies n`idx, n`unitId, n`fc, n`transactionId, n`broadcast, n`ignored, n`complete, n`avail, n`msg, n`rx, n.buf
    modifies registers
    ensures n.Valid()
    ensures err == RegistersError(n.transport, n.crc, old(n.Head()), old(n.rx), quantity)
    ensures n.rx == FormLeft(n.transport, n.crc, old(n.Head()), old(n.rx), COUNTED)
    ensures registers != null ==>
      if ReachesOutput(n.transport, n.crc, old(n.Head()), old(n.rx)) then
        var m, h := Message(n.transport, old(n.rx)), HeaderLength(n.transport);
        registers[..] == WordsOf(m[h + 1..h + 1 + m[h]]) + old(registers[..])[m[h] / 2..]
      else registers[..] == old(registers[..])
  {
    hide ResHeaderError, ResHeaderArrived, ResHeaderLeft, Nmbs.Receiving, WordsOf, TrailerFits, HeaderOf, MbapOk;
    var registersBytes;
    err, registersBytes := RecvCounted(n, 250);
    if err != ERROR_NONE {
      return;
    }
    err := GetRegistersThenFooter(n, registersBytes, registers);
    if err != ERROR_NONE {
      return;
    }
    if registersBytes != quantity * 2 {
      return ERROR_INVALID_RESPONSE;
    }
    err := ERROR_NONE;
  }
}
