/** nmbs_server_poll: one request off the line, and everything that comes of it. */
module Polling {
  import opened Words
  import opened Frames
  import opened Engine
  import opened Responses
  import opened Requests
  import opened Serving
  import opened FileRecords
  import DeviceIds
  import opened Server
  import FileServer
  import DeviceServer
  import opened Handlers

  /** The requests whose answers a server that is not addressed can follow. */
  const LISTENED: set<byte> := {1, 2, 3, 4, 5, 6, 15, 16}

  /** What the server does with a request that has arrived whole. */
  function ServeRequest<D>(cbs: Callbacks<D>, dev: D, unitId: byte, broadcast: bool, r: Request): (Outcome, D)
    requires r.WriteCoils? ==> |r.bytes| <= 250
    requires r.WriteFile? ==> WriteSubs(r.bytes).Some?
  {
    match r
    case ReadBits(inputs, address, quantity) =>
      ServeReadBits(if inputs then cbs.readDiscreteInputs else cbs.readCoils, dev, unitId, broadcast,
                    address, quantity)
    case ReadRegisters(inputs, address, quantity) =>
      ServeReadRegisters(if inputs then cbs.readInputRegisters else cbs.readHoldingRegisters, dev, unitId, broadcast,
                         address, quantity)
    case WriteCoil(address, value) => ServeWriteCoil(cbs, dev, unitId, broadcast, address, value)
    case WriteRegister(address, value) => ServeWriteRegister(cbs, dev, unitId, broadcast, address, value)
    case WriteCoils(address, quantity, bytes) =>
      ServeWriteCoils(cbs, dev, unitId, broadcast, address, quantity, bytes)
    case WriteRegisters(address, quantity, bytes) =>
      ServeWriteRegisters(cbs, dev, unitId, broadcast, address, quantity, bytes)
    case ReadFile(bytes) => ServeReadFile(cbs, dev, unitId, broadcast, bytes)
    case WriteFile(bytes) => ServeWriteFile(cbs, dev, unitId, broadcast, bytes)
    case ReadWrite(readAddress, readQuantity, address, quantity, bytes) =>
      ServeReadWrite(cbs, dev, unitId, broadcast, readAddress, readQuantity, address, quantity, bytes)
    case ReadDeviceId(meiType, code, objectId) => DeviceIds.ServeDeviceId(cbs, dev, broadcast, meiType, code, objectId)
  }

  // ----- what must have arrived

  /** The bytes of a request with a known function code are all there, in the form its handler can read. */
  ghost predicate RequestArrived(t: Transport, m: seq<byte>, fc: byte) {
    && BodyArrived(t, m, RequestForm(fc))
    && (fc == 16 ==> WriteRegistersArrived(t, m))
    && (fc == 20 ==> FileServer.ReadFileArrived(t, m))
    && (fc == 21 ==> FileServer.WriteFileArrived(t, m))
    && (fc == 23 ==> ReadWriteArrived(t, m))
  }

  /** An RTU request for another server. */
  predicate Ignores(t: Transport, address: byte, m: seq<byte>)
    requires |m| >= HeaderLength(t)
  {
    t.RTU? && m[0] != BROADCAST_ADDRESS && m[0] != address
  }

  function ListenForm(fc: byte): Form {
    if fc <= 4 then COUNTED else TWO_WORDS
  }

  /** Behind a request for another server: nothing yet, or the whole answer. */
  ghost predicate AnswerArrived(crc: CrcFunction, m: seq<byte>, fc: byte)
    requires |m| >= 2 && BodyArrived(RTU, m, RequestForm(fc)) && !OverLimit(RTU, m, RequestForm(fc))
  {
    var rest := m[BodyEnd(RTU, m, RequestForm(fc)) + 2..];
    && fc in LISTENED
    && ResArrived(RTU, crc, HeaderOf(RTU, m), rest, ListenForm(fc))
    && (fc == 3 || fc == 4 ==> WholeRegisters(RTU, crc, HeaderOf(RTU, m), rest))
  }

  /** What a server that is not addressed returns after it has heard the answer. */
  function ListenError(crc: CrcFunction, m: seq<byte>, fc: byte): int
    requires |m| >= 2 && BodyArrived(RTU, m, RequestForm(fc)) && !OverLimit(RTU, m, RequestForm(fc))
    requires AnswerArrived(crc, m, fc)
  {
    var rest, h := m[BodyEnd(RTU, m, RequestForm(fc)) + 2..], HeaderOf(RTU, m);
    if fc <= 2 then FormError(RTU, crc, h, rest, COUNTED)
    else if fc <= 4 then RegistersError(RTU, crc, h, rest, WordAt(m, 4))
    else WrittenError(RTU, crc, h, rest, WordAt(m, 2), WordAt(m, 4))
  }

  ghost predicate MessageReady(t: Transport, crc: CrcFunction, address: byte, m: seq<byte>)
    requires |m| >= HeaderLength(t)
  {
    var fc := m[HeaderLength(t) - 1];
    fc in FUNCTIONS ==>
      && RequestArrived(t, m, fc)
      && (Ignores(t, address, m) && !OverLimit(t, m, RequestForm(fc)) ==> AnswerArrived(crc, m, fc))
      && (Ignores(t, address, m) ==> fc in LISTENED)
  }

  /** Nothing is on the line, or a whole message; one for another server together with its answer, if any. */
  ghost predicate LineReady(t: Transport, crc: CrcFunction, address: byte, s: seq<byte>) {
    s == [] || (HeaderArrived(t, s) && (MbapOk(t, s) ==> MessageReady(t, crc, address, Message(t, s))))
  }

  // ----- what comes of it

  /** The result of a poll, the device behind it, the bytes sent, and the bytes left on the line. */
  datatype Polled<D> = Polled(err: int, dev: D, sent: seq<byte>, rest: seq<byte>)

  /** What becomes of a request for this server, or for all. */
  function Addressed<D>(t: Transport, crc: CrcFunction, cbs: Callbacks<D>, dev: D, m: seq<byte>, after: seq<byte>)
    : Polled<D>
    requires |m| >= HeaderLength(t)
    requires m[HeaderLength(t) - 1] in FUNCTIONS && RequestArrived(t, m, m[HeaderLength(t) - 1])
  {
    var h := HeaderOf(t, m);
    var f := RequestForm(h.fc);
    if OverLimit(t, m, f) then
      Polled(ERROR_INVALID_REQUEST, dev, [], Flushed(LineLeft(t, m, HeaderLength(t) + f.fixed, after)))
    else
      var end := BodyEnd(t, m, f);
      var left := LineLeft(t, m, end + TrailerLength(t), after);
      if !TrailerFits(t, crc, m, end) then Polled(ERROR_CRC, dev, [], Flushed(left))
      else
        var r := ParseRequest(h.fc, m, HeaderLength(t));
        assert r.WriteFile? ==> r.bytes == m[HeaderLength(t) + 1..end];
        var (o, d) := ServeRequest(cbs, dev, h.unitId, t.RTU? && h.unitId == BROADCAST_ADDRESS, r);
        Polled(ERROR_NONE, d, Emitted(t, crc, h, o), left)
  }

  /** The request is whole and undamaged. */
  predicate Intact(t: Transport, crc: CrcFunction, m: seq<byte>)
    requires |m| >= HeaderLength(t) && BodyArrived(t, m, RequestForm(m[HeaderLength(t) - 1]))
  {
    var f := RequestForm(m[HeaderLength(t) - 1]);
    !OverLimit(t, m, f) && TrailerFits(t, crc, m, BodyEnd(t, m, f))
  }

  /** An intact request for another server is followed to the end of its answer; nothing is sent. */
  function Overheard<D>(crc: CrcFunction, dev: D, m: seq<byte>): Polled<D>
    requires |m| >= 2 && BodyArrived(RTU, m, RequestForm(m[1])) && Intact(RTU, crc, m)
    requires AnswerArrived(crc, m, m[1])
  {
    var e := ListenError(crc, m, m[1]);
    var answer := m[BodyEnd(RTU, m, RequestForm(m[1])) + 2..];
    var left := FormLeft(RTU, crc, HeaderOf(RTU, m), answer, ListenForm(m[1]));
    Polled(e, dev, [], if e == ERROR_NONE || e == ERROR_TIMEOUT then left else Flushed(left))
  }

  function Handled<D>(t: Transport, crc: CrcFunction, address: byte, cbs: Callbacks<D>, dev: D,
                      m: seq<byte>, after: seq<byte>): Polled<D>
    requires |m| >= HeaderLength(t) && MessageReady(t, crc, address, m)
    requires m[HeaderLength(t) - 1] in FUNCTIONS
  {
    if Ignores(t, address, m) && Intact(t, crc, m) then Overheard(crc, dev, m)
    else Addressed(t, crc, cbs, dev, m, after)
  }

  function PollResult<D>(t: Transport, crc: CrcFunction, address: byte, cbs: Callbacks<D>, dev: D, s: seq<byte>)
    : Polled<D>
    requires LineReady(t, crc, address, s)
  {
    if s == [] then Polled(ERROR_NONE, dev, [], [])
    else if !MbapOk(t, s) then Polled(ERROR_INVALID_TCP_MBAP, dev, [], MbapLeft(s))
    else
      var m := Message(t, s);
      var h := HeaderOf(t, m);
      if h.fc !in FUNCTIONS then
        var answered := !Ignores(t, address, m) && !(t.RTU? && h.unitId == BROADCAST_ADDRESS);
        Polled(ERROR_NONE, dev, Emitted(t, crc, h, if answered then Exception(ILLEGAL_FUNCTION) else Silent),
               Flushed(LineLeft(t, m, HeaderLength(t), s[|m|..])))
      else Handled(t, crc, address, cbs, dev, m, if t.RTU? then [] else s[|m|..])
  }

  /** A request with a function code whose answers no other server can follow is never for another server. */
  lemma AddressedOnly<D>(t: Transport, crc: CrcFunction, address: byte, cbs: Callbacks<D>, dev: D,
                         m: seq<byte>, after: seq<byte>)
    requires |m| >= HeaderLength(t) && MessageReady(t, crc, address, m)
    requires m[HeaderLength(t) - 1] in FUNCTIONS && m[HeaderLength(t) - 1] !in LISTENED
    ensures !Ignores(t, address, m)
    ensures Handled(t, crc, address, cbs, dev, m, after) == Addressed(t, crc, cbs, dev, m, after)
  {
    hide Addressed, Overheard, Intact;
  }

  /** What becomes of a request whose form and whose outcome are known. */
  function AddressedAs<D>(t: Transport, crc: CrcFunction, dev: D, m: seq<byte>, after: seq<byte>, f: Form,
                          served: (Outcome, D)): Polled<D>
    requires |m| >= HeaderLength(t) && BodyArrived(t, m, f)
  {
    if OverLimit(t, m, f) then
      Polled(ERROR_INVALID_REQUEST, dev, [], Flushed(LineLeft(t, m, HeaderLength(t) + f.fixed, after)))
    else
      var left := LineLeft(t, m, BodyEnd(t, m, f) + TrailerLength(t), after);
      if !TrailerFits(t, crc, m, BodyEnd(t, m, f)) then Polled(ERROR_CRC, dev, [], Flushed(left))
      else Polled(ERROR_NONE, served.1, Emitted(t, crc, HeaderOf(t, m), served.0), left)
  }

  /** A request to read file records is served by its bytes behind the count. */
  lemma AddressedReadFile<D>(t: Transport, crc: CrcFunction, cbs: Callbacks<D>, dev: D, m: seq<byte>, after: seq<byte>)
    requires |m| >= HeaderLength(t) && m[HeaderLength(t) - 1] == 20 && RequestArrived(t, m, 20)
    ensures var n := HeaderLength(t);
      Addressed(t, crc, cbs, dev, m, after) == AddressedAs(t, crc, dev, m, after, RequestForm(20),
        if OverLimit(t, m, RequestForm(20)) then (Silent, dev)
        else ServeReadFile(cbs, dev, HeaderOf(t, m).unitId, t.RTU? && HeaderOf(t, m).unitId == BROADCAST_ADDRESS,
                           m[n + 1..BodyEnd(t, m, RequestForm(20))]))
  {
    hide ServeReadFile, TrailerFits, Emitted, Flushed, LineLeft, WordAt, WriteSubs, ReadSubs, AllLegalReads;
  }

  /** The same for a request to write file records. */
  lemma AddressedWriteFile<D>(t: Transport, crc: CrcFunction, cbs: Callbacks<D>, dev: D, m: seq<byte>, after: seq<byte>)
    requires |m| >= HeaderLength(t) && m[HeaderLength(t) - 1] == 21 && RequestArrived(t, m, 21)
    ensures var n := HeaderLength(t);
      Addressed(t, crc, cbs, dev, m, after) == AddressedAs(t, crc, dev, m, after, RequestForm(21),
        if OverLimit(t, m, RequestForm(21)) then (Silent, dev)
        else ServeWriteFile(cbs, dev, HeaderOf(t, m).unitId, t.RTU? && HeaderOf(t, m).unitId == BROADCAST_ADDRESS,
                            m[n + 1..BodyEnd(t, m, RequestForm(21))]))
  {
    hide ServeWriteFile, TrailerFits, Emitted, Flushed, LineLeft, WordAt, WriteSubs, ReadSubs, AllLegalReads;
  }

  /** A request that writes and reads is served by its four words and its bytes behind the count. */
  lemma AddressedReadWrite<D>(t: Transport, crc: CrcFunction, cbs: Callbacks<D>, dev: D, m: seq<byte>, after: seq<byte>)
    requires |m| >= HeaderLength(t) && m[HeaderLength(t) - 1] == 23 && RequestArrived(t, m, 23)
    ensures var n := HeaderLength(t);
      Addressed(t, crc, cbs, dev, m, after) == AddressedAs(t, crc, dev, m, after, RequestForm(23),
        if OverLimit(t, m, RequestForm(23)) then (Silent, dev)
        else ServeReadWrite(cbs, dev, HeaderOf(t, m).unitId, t.RTU? && HeaderOf(t, m).unitId == BROADCAST_ADDRESS,
                            WordAt(m, n), WordAt(m, n + 2), WordAt(m, n + 4), WordAt(m, n + 6),
                            m[n + 9..BodyEnd(t, m, RequestForm(23))]))
  {
    hide ServeReadWrite, TrailerFits, Emitted, Flushed, LineLeft, WordAt, WriteSubs, ReadSubs, AllLegalReads;
  }

  /** A request to write coils is served by its two words and its bytes behind the count. */
  lemma AddressedWriteCoils<D>(t: Transport, crc: CrcFunction, cbs: Callbacks<D>, dev: D, m: seq<byte>,
                               after: seq<byte>)
    requires |m| >= HeaderLength(t) && m[HeaderLength(t) - 1] == 15 && RequestArrived(t, m, 15)
    ensures var n := HeaderLength(t);
      Addressed(t, crc, cbs, dev, m, after) == AddressedAs(t, crc, dev, m, after, RequestForm(15),
        if OverLimit(t, m, RequestForm(15)) then (Silent, dev)
        else ServeWriteCoils(cbs, dev, HeaderOf(t, m).unitId, t.RTU? && HeaderOf(t, m).unitId == BROADCAST_ADDRESS,
                             WordAt(m, n), WordAt(m, n + 2), m[n + 5..BodyEnd(t, m, RequestForm(15))]))
  {
    hide ServeWriteCoils, TrailerFits, Emitted, Flushed, LineLeft, WordAt, WriteSubs, ReadSubs, AllLegalReads;
  }

  /** A request to write registers is served by its two words and its bytes behind the count. */
  lemma AddressedWriteRegisters<D>(t: Transport, crc: CrcFunction, cbs: Callbacks<D>, dev: D, m: seq<byte>,
                                   after: seq<byte>)
    requires |m| >= HeaderLength(t) && m[HeaderLength(t) - 1] == 16 && RequestArrived(t, m, 16)
    ensures var n := HeaderLength(t);
      Addressed(t, crc, cbs, dev, m, after) == AddressedAs(t, crc, dev, m, after, RequestForm(16),
        if OverLimit(t, m, RequestForm(16)) then (Silent, dev)
        else ServeWriteRegisters(cbs, dev, HeaderOf(t, m).unitId, t.RTU? && HeaderOf(t, m).unitId == BROADCAST_ADDRESS,
                                 WordAt(m, n), WordAt(m, n + 2), m[n + 5..BodyEnd(t, m, RequestForm(16))]))
  {
    hide ServeWriteRegisters, TrailerFits, Emitted, Flushed, LineLeft, WordAt, WriteSubs, ReadSubs, AllLegalReads;
  }

  // ----- the methods

  /** The state behind recv_req_header: whom the message is for, and all of it there. */
  ghost predicate PollState(n: Nmbs)
    reads n`msg, n`unitId, n`fc, n`broadcast, n`ignored, n`addressRtu
  {
    && |n.msg| >= HeaderLength(n.transport)
    && n.fc == n.msg[HeaderLength(n.transport) - 1]
    && MessageReady(n.transport, n.crc, n.addressRtu, n.msg)
    && (n.broadcast <==> n.transport.RTU? && n.unitId == BROADCAST_ADDRESS)
    && (n.ignored <==> Ignores(n.transport, n.addressRtu, n.msg))
  }

  ghost function HandledNow<D>(n: Nmbs, cbs: Callbacks<D>, dev: D): Polled<D>
    requires PollState(n) && n.fc in FUNCTIONS
    reads n`msg, n`unitId, n`fc, n`broadcast, n`ignored, n`addressRtu, n`rx
  {
    Handled(n.transport, n.crc, n.addressRtu, cbs, dev, n.msg, if n.transport.RTU? then [] else n.rx)
  }

  /** A handler has done what the poll is to come to, but for the flush that the poll makes behind most errors. */
  ghost predicate ComesTo<D>(n: Nmbs, p: Polled<D>, tx: seq<byte>, err: int, dev: D)
    reads n`rx, n`tx
  {
    && err == p.err && dev == p.dev && n.tx == tx + p.sent
    && p.rest == if err == ERROR_NONE || err == ERROR_TIMEOUT then n.rx else Flushed(n.rx)
  }

  method DispatchReadBits<D>(n: Nmbs, cbs: Callbacks<D>, dev: D) returns (err: int, dev': D)
    requires Handling(n) && PollState(n) && (n.fc == 1 || n.fc == 2)
    modifies n`idx, n`unitId, n`fc, n`transactionId, n`broadcast, n`ignored, n`complete, n`avail, n`msg, n`rx, n`tx
    modifies n.buf
    ensures n.Valid()
    ensures ComesTo(n, old(HandledNow(n, cbs, dev)), old(n.tx), err, dev')
  {
    hide Flushed, FormLeft, MbapOk;
    hide Nmbs.Receiving, Emitted, TrailerFits, ResArrived, FormError, WordsOf, ServeReadBits;
    err, dev' := HandleReadDiscrete(n, if n.fc == 2 then cbs.readDiscreteInputs else cbs.readCoils, dev);
  }

  method DispatchReadRegisters<D>(n: Nmbs, cbs: Callbacks<D>, dev: D) returns (err: int, dev': D)
    requires Handling(n) && PollState(n) && (n.fc == 3 || n.fc == 4)
    modifies n`idx, n`unitId, n`fc, n`transactionId, n`broadcast, n`ignored, n`complete, n`avail, n`msg, n`rx, n`tx
    modifies n.buf
    ensures n.Valid()
    ensures ComesTo(n, old(HandledNow(n, cbs, dev)), old(n.tx), err, dev')
  {
    hide Flushed, FormLeft, MbapOk;
    hide Nmbs.Receiving, Emitted, TrailerFits, ResArrived, FormError, WordsOf, ServeReadRegisters;
    err, dev' := HandleReadRegisters(n, if n.fc == 4 then cbs.readInputRegisters else cbs.readHoldingRegisters, dev);
  }

  method DispatchWriteSingle<D>(n: Nmbs, cbs: Callbacks<D>, dev: D) returns (err: int, dev': D)
    requires Handling(n) && PollState(n) && (n.fc == 5 || n.fc == 6)
    modifies n`idx, n`unitId, n`fc, n`transactionId, n`broadcast, n`ignored, n`complete, n`avail, n`msg, n`rx, n`tx
    modifies n.buf
    ensures n.Valid()
    ensures ComesTo(n, old(HandledNow(n, cbs, dev)), old(n.tx), err, dev')
  {
    hide Flushed, FormLeft, MbapOk;
    hide Nmbs.Receiving, Emitted, TrailerFits, ResArrived, FormError, WordsOf, ServeWriteCoil, ServeWriteRegister;
    if n.fc == 5 {
      err, dev' := HandleWriteSingleCoil(n, cbs, dev);
    } else {
      err, dev' := HandleWriteSingleRegister(n, cbs, dev);
    }
  }

  method DispatchWriteCoils<D>(n: Nmbs, cbs: Callbacks<D>, dev: D) returns (err: int, dev': D)
    requires Handling(n) && PollState(n) && n.fc == 15
    modifies n`idx, n`unitId, n`fc, n`transactionId, n`broadcast, n`ignored, n`complete, n`avail, n`msg, n`rx, n`tx
    modifies n.buf
    ensures n.Valid()
    ensures ComesTo(n, old(HandledNow(n, cbs, dev)), old(n.tx), err, dev')
  {
    hide Addressed, ServeRequest, ParseRequest;
    hide Flushed, FormLeft, MbapOk;
    hide Nmbs.Receiving, Emitted, TrailerFits, ResArrived, FormError, WordsOf, ServeWriteCoils;
    AddressedWriteCoils(n.transport, n.crc, cbs, dev, n.msg, if n.transport.RTU? then [] else n.rx);
    err, dev' := HandleWriteMultipleCoils(n, cbs, dev);
  }

  method DispatchWriteRegisters<D>(n: Nmbs, cbs: Callbacks<D>, dev: D) returns (err: int, dev': D)
    requires Handling(n) && PollState(n) && n.fc == 16
    modifies n`idx, n`unitId, n`fc, n`transactionId, n`broadcast, n`ignored, n`complete, n`avail, n`msg, n`rx, n`tx
    modifies n.buf
    ensures n.Valid()
    ensures ComesTo(n, old(HandledNow(n, cbs, dev)), old(n.tx), err, dev')
  {
    hide Addressed, ServeRequest, ParseRequest;
    hide Flushed, FormLeft, MbapOk;
    hide Nmbs.Receiving, Emitted, TrailerFits, ResArrived, FormError, WordsOf, ServeWriteRegisters;
    AddressedWriteRegisters(n.transport, n.crc, cbs, dev, n.msg, if n.transport.RTU? then [] else n.rx);
    err, dev' := HandleWriteMultipleRegisters(n, cbs, dev);
  }

  method DispatchReadFile<D>(n: Nmbs, cbs: Callbacks<D>, dev: D) returns (err: int, dev': D)
    requires Handling(n) && PollState(n) && n.fc == 20
    modifies n`idx, n`unitId, n`fc, n`transactionId, n`broadcast, n`ignored, n`complete, n`avail, n`msg, n`rx, n`tx
    modifies n.buf
    ensures n.Valid()
    ensures ComesTo(n, old(HandledNow(n, cbs, dev)), old(n.tx), err, dev')
  {
    hide Flushed, FormLeft, MbapOk, ListenError;
    hide Nmbs.Receiving, Handled, Addressed, ServeRequest, ParseRequest, Emitted, TrailerFits, WordsOf, WordAt;
    hide ReadSubs, AllLegalReads, FileServer.PartsFit, ServeReadFile;
    AddressedOnly(n.transport, n.crc, n.addressRtu, cbs, dev, n.msg, if n.transport.RTU? then [] else n.rx);
    AddressedReadFile(n.transport, n.crc, cbs, dev, n.msg, if n.transport.RTU? then [] else n.rx);
    err, dev' := FileServer.HandleReadFileRecord(n, cbs, dev);
  }

  method DispatchWriteFile<D>(n: Nmbs, cbs: Callbacks<D>, dev: D) returns (err: int, dev': D)
    requires Handling(n) && PollState(n) && n.fc == 21
    modifies n`idx, n`unitId, n`fc, n`transactionId, n`broadcast, n`ignored, n`complete, n`avail, n`msg, n`rx, n`tx
    modifies n.buf
    ensures n.Valid()
    ensures ComesTo(n, old(HandledNow(n, cbs, dev)), old(n.tx), err, dev')
  {
    hide Flushed, FormLeft, MbapOk, ListenError;
    hide Addressed, ServeRequest, ParseRequest;
    hide Nmbs.Receiving, Handled, Emitted, TrailerFits, WordsOf, WordAt, ServeWriteFile, WriteSubs;
    AddressedOnly(n.transport, n.crc, n.addressRtu, cbs, dev, n.msg, if n.transport.RTU? then [] else n.rx);
    AddressedWriteFile(n.transport, n.crc, cbs, dev, n.msg, if n.transport.RTU? then [] else n.rx);
    err, dev' := FileServer.HandleWriteFileRecord(n, cbs, dev);
  }

  method DispatchReadWrite<D>(n: Nmbs, cbs: Callbacks<D>, dev: D) returns (err: int, dev': D)
    requires Handling(n) && PollState(n) && n.fc == 23
    modifies n`idx, n`unitId, n`fc, n`transactionId, n`broadcast, n`ignored, n`complete, n`avail, n`msg, n`rx, n`tx
    modifies n.buf
    ensures n.Valid()
    ensures ComesTo(n, old(HandledNow(n, cbs, dev)), old(n.tx), err, dev')
  {
    hide Flushed, FormLeft, MbapOk, ListenError;
    hide Addressed, ServeRequest, ParseRequest;
    hide Nmbs.Receiving, Handled, Emitted, TrailerFits, WordsOf, WordAt, ServeReadWrite;
    AddressedOnly(n.transport, n.crc, n.addressRtu, cbs, dev, n.msg, if n.transport.RTU? then [] else n.rx);
    AddressedReadWrite(n.transport, n.crc, cbs, dev, n.msg, if n.transport.RTU? then [] else n.rx);
    err, dev' := HandleReadWriteRegisters(n, cbs, dev);
  }

  method DispatchDeviceId<D>(n: Nmbs, cbs: Callbacks<D>, dev: D) returns (err: int, dev': D)
    requires Handling(n) && PollState(n) && n.fc == 43
    modifies n`idx, n`unitId, n`fc, n`transactionId, n`broadcast, n`ignored, n`complete, n`avail, n`msg, n`rx, n`tx
    modifies n.buf
    ensures n.Valid()
    ensures ComesTo(n, old(HandledNow(n, cbs, dev)), old(n.tx), err, dev')
  {
    hide Flushed, FormLeft, MbapOk, ListenError;
    hide Nmbs.Receiving, Emitted, TrailerFits, ResArrived, FormError, WordsOf, DeviceIds.ServeDeviceId;
    err := DeviceServer.HandleReadDeviceIdentification(n, cbs, dev);
    dev' := dev;
  }

  method HandleReqFc<D>(n: Nmbs, cbs: Callbacks<D>, dev: D) returns (err: int, dev': D)
    requires Handling(n) && PollState(n)
    modifies n`idx, n`unitId, n`fc, n`transactionId, n`broadcast, n`ignored, n`complete, n`avail, n`msg, n`rx, n`tx
    modifies n.buf
    ensures n.Valid()
    ensures old(n.fc) in FUNCTIONS ==>
      ComesTo(n, old(HandledNow(n, cbs, dev)), old(n.tx), err, dev')
    ensures old(n.fc) !in FUNCTIONS ==>
      && err == ERROR_NONE && dev' == dev && n.rx == Flushed(old(n.rx))
      && n.tx == old(n.tx) + Emitted(n.transport, n.crc, old(n.Head()),
           if !old(n.ignored) && !old(n.broadcast) then Exception(ILLEGAL_FUNCTION) else Silent)
  {
    hide Nmbs.Receiving, Handled, MessageReady;
    if n.fc == 1 || n.fc == 2 {
      err, dev' := DispatchReadBits(n, cbs, dev);
    } else if n.fc == 3 || n.fc == 4 {
      err, dev' := DispatchReadRegisters(n, cbs, dev);
    } else if n.fc == 5 || n.fc == 6 {
      err, dev' := DispatchWriteSingle(n, cbs, dev);
    } else if n.fc == 15 {
      err, dev' := DispatchWriteCoils(n, cbs, dev);
    } else if n.fc == 16 {
      err, dev' := DispatchWriteRegisters(n, cbs, dev);
    } else if n.fc == 20 {
      err, dev' := DispatchReadFile(n, cbs, dev);
    } else if n.fc == 21 {
      err, dev' := DispatchWriteFile(n, cbs, dev);
    } else if n.fc == 23 {
      err, dev' := DispatchReadWrite(n, cbs, dev);
    } else if n.fc == 43 {
      err, dev' := DispatchDeviceId(n, cbs, dev);
    } else {
      err, dev' := ERROR_NONE, dev;
      n.Flush();
      if !n.ignored && !n.broadcast {
        err := n.SendExceptionMsg(ILLEGAL_FUNCTION);
      }
    }
  }

  method Poll<D>(n: Nmbs, cbs: Callbacks<D>, dev: D) returns (err: int, dev': D)
    requires n.Valid() && LineReady(n.transport, n.crc, n.addressRtu, n.rx)
    modifies n`idx, n`unitId, n`fc, n`transactionId, n`broadcast, n`ignored, n`complete, n`avail, n`msg, n`rx, n`tx
    modifies n.buf
    ensures n.Valid()
    ensures var p := PollResult(n.transport, n.crc, n.addressRtu, cbs, dev, old(n.rx));
      && err == p.err && dev' == p.dev && n.tx == old(n.tx) + p.sent
      && n.rx == p.rest
  {
    hide Nmbs.Receiving, Emitted, Handled, MessageReady;
    dev' := dev;
    n.MsgStateReset();
    var firstByteReceived;
    err, firstByteReceived := n.RecvReqHeader();
    if err != ERROR_NONE {
      if !firstByteReceived && err == ERROR_TIMEOUT {
        return ERROR_NONE, dev;
      }
      return;
    }
    n.BehindFooter();
    err, dev' := HandleReqFc(n, cbs, dev);
    if err != ERROR_NONE {
      if err != ERROR_TIMEOUT {
        n.Flush();
      }
      return;
    }
  }
}
