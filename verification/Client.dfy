/**
 * The public client functions for bits and registers. Between sending a request and waiting for the answer the
 * reliable line carries the bytes over and the server runs its poll.
 */
module Client {
  import opened Words
  import opened Frames
  import opened Engine
  import opened Responses
  import opened Requests
  import opened Serving
  import opened Guards
  import opened Failures
  import opened Polling
  import opened Wire

  /**
   * A client and a server at the two ends of a line. The client's destination is the server or, on RTU, everyone;
   * nothing is on its way to the server, and no more to the client than one flush takes.
   */
  ghost predicate Connected(client: Nmbs, server: Nmbs)
    reads client, server
  {
    && client != server && client.buf != server.buf
    && client.Valid() && server.Valid()
    && client.transport == server.transport && client.crc == server.crc
    && server.rx == [] && |client.rx| <= BUFFER_SIZE
    && (client.transport.RTU? ==>
         && server.addressRtu != BROADCAST_ADDRESS
         && (client.destAddressRtu == server.addressRtu || client.destAddressRtu == BROADCAST_ADDRESS))
  }

  /** The client's requests are for everyone. */
  ghost predicate ToAll(client: Nmbs)
    reads client
  {
    client.transport.RTU? && client.destAddressRtu == BROADCAST_ADDRESS
  }

  /** A new client with its destination set to a new server. */
  method Connect(transport: Transport, crc: CrcFunction, address: byte) returns (client: Nmbs, server: Nmbs)
    requires transport.RTU? ==> address != BROADCAST_ADDRESS
    ensures fresh(client) && fresh(client.buf) && fresh(server) && fresh(server.buf)
    ensures Connected(client, server)
    ensures client.transport == transport && client.crc == crc && client.destAddressRtu == server.addressRtu == address
  {
    client := new Nmbs(transport, crc, BROADCAST_ADDRESS);
    server := new Nmbs(transport, crc, address);
    client.destAddressRtu := address;
  }

  // ----- requests

  method SendTwoWords(n: Nmbs, fc: byte, a: u16, b: u16) returns (err: int)
    requires n.Valid() && |n.rx| <= BUFFER_SIZE
    modifies n, n.buf
    ensures n.Valid() && err == ERROR_NONE && n.rx == []
    ensures n.addressRtu == old(n.addressRtu) && n.destAddressRtu == old(n.destAddressRtu)
    ensures n.currentTid == NextTid(old(n.currentTid)) && n.Head() == Header(n.currentTid, n.destAddressRtu, fc)
    ensures n.broadcast <==> n.destAddressRtu == BROADCAST_ADDRESS && n.transport.RTU?
    ensures n.tx == old(n.tx) + Frame(n.transport, n.crc, n.Head(), Be(a) + Be(b))
  {
    hide HeaderBytes, Nmbs.Out, Be;
    n.MsgStateReq(fc);
    n.PutMsgHeader(4);
    ghost var header := n.Out();
    n.Put2(a);
    n.Put2(b);
    assert (header + Be(a)) + Be(b) == header + (Be(a) + Be(b));
    err := n.SendMsg();
  }

  method SendCoils(n: Nmbs, address: u16, quantity: u16, bytes: seq<byte>) returns (err: int)
    requires n.Valid() && |bytes| <= 246 && |n.rx| <= BUFFER_SIZE
    modifies n, n.buf
    ensures n.Valid() && err == ERROR_NONE && n.rx == []
    ensures n.addressRtu == old(n.addressRtu) && n.destAddressRtu == old(n.destAddressRtu)
    ensures n.currentTid == NextTid(old(n.currentTid)) && n.Head() == Header(n.currentTid, n.destAddressRtu, 15)
    ensures n.broadcast <==> n.destAddressRtu == BROADCAST_ADDRESS && n.transport.RTU?
    ensures n.tx == old(n.tx) +
      Frame(n.transport, n.crc, n.Head(), Be(address) + Be(quantity) + [|bytes|] + bytes)
  {
    hide HeaderBytes, Nmbs.Out, Be;
    n.MsgStateReq(15);
    n.PutMsgHeader(5 + |bytes|);
    ghost var header := n.Out();
    PutRange(n, address, quantity, |bytes|);
    n.PutBytes(bytes);
    assert header + (Be(address) + Be(quantity) + [|bytes|]) + bytes
        == header + (Be(address) + Be(quantity) + [|bytes|] + bytes);
    err := n.SendMsg();
  }

  /** Address, quantity and byte count. */
  method PutRange(n: Nmbs, address: u16, quantity: u16, count: byte)
    requires n.Valid() && n.idx + 5 <= BUFFER_SIZE
    modifies n`idx, n.buf
    ensures n.Valid() && n.idx == old(n.idx) + 5
    ensures n.Out() == old(n.Out()) + (Be(address) + Be(quantity) + [count])
  {
    hide Nmbs.Out, Be;
    ghost var before := n.Out();
    n.Put2(address);
    n.Put2(quantity);
    n.Put1(count);
    ThreeParts(before, Be(address), Be(quantity), [count]);
  }

  method SendRegisters(n: Nmbs, address: u16, registers: seq<u16>) returns (err: int)
    requires n.Valid() && |registers| <= 123 && |n.rx| <= BUFFER_SIZE
    modifies n, n.buf
    ensures n.Valid() && err == ERROR_NONE && n.rx == []
    ensures n.addressRtu == old(n.addressRtu) && n.destAddressRtu == old(n.destAddressRtu)
    ensures n.currentTid == NextTid(old(n.currentTid)) && n.Head() == Header(n.currentTid, n.destAddressRtu, 16)
    ensures n.broadcast <==> n.destAddressRtu == BROADCAST_ADDRESS && n.transport.RTU?
    ensures n.tx == old(n.tx) + Frame(n.transport, n.crc, n.Head(),
      Be(address) + Be(|registers|) + [2 * |registers|] + BeAll(registers))
  {
    hide HeaderBytes, Nmbs.Out, BeAll, Be;
    n.MsgStateReq(16);
    n.PutMsgHeader(5 + 2 * |registers|);
    ghost var header := n.Out();
    PutRange(n, address, |registers|, 2 * |registers|);
    n.PutRegisters(registers);
    assert header + (Be(address) + Be(|registers|) + [2 * |registers|]) + BeAll(registers)
        == header + (Be(address) + Be(|registers|) + [2 * |registers|] + BeAll(registers));
    err := n.SendMsg();
  }

  method SendReadWrite(n: Nmbs, readAddress: u16, readQuantity: u16, writeAddress: u16, registers: seq<u16>)
    returns (err: int)
    requires n.Valid() && |registers| <= 121 && |n.rx| <= BUFFER_SIZE
    modifies n, n.buf
    ensures n.Valid() && err == ERROR_NONE && n.rx == []
    ensures n.addressRtu == old(n.addressRtu) && n.destAddressRtu == old(n.destAddressRtu)
    ensures n.currentTid == NextTid(old(n.currentTid)) && n.Head() == Header(n.currentTid, n.destAddressRtu, 23)
    ensures n.broadcast <==> n.destAddressRtu == BROADCAST_ADDRESS && n.transport.RTU?
    ensures n.tx == old(n.tx) + Frame(n.transport, n.crc, n.Head(),
      Be(readAddress) + Be(readQuantity) + Be(writeAddress) + Be(|registers|) + [2 * |registers|] + BeAll(registers))
  {
    hide HeaderBytes, Nmbs.Out, BeAll, Be;
    n.MsgStateReq(23);
    n.PutMsgHeader(9 + 2 * |registers|);
    ghost var header := n.Out();
    PutFourWords(n, readAddress, readQuantity, writeAddress, |registers|);
    n.Put1(2 * |registers|);
    n.PutRegisters(registers);
    ThreeParts(header, Be(readAddress) + Be(readQuantity) + Be(writeAddress) + Be(|registers|), [2 * |registers|],
               BeAll(registers));
    err := n.SendMsg();
  }

  method PutFourWords(n: Nmbs, a: u16, b: u16, c: u16, d: u16)
    requires n.Valid() && n.idx + 8 <= BUFFER_SIZE
    modifies n`idx, n.buf
    ensures n.Valid() && n.idx == old(n.idx) + 8
    ensures n.Out() == old(n.Out()) + (Be(a) + Be(b) + Be(c) + Be(d))
  {
    hide Nmbs.Out, Be;
    ghost var before := n.Out();
    n.Put2(a);
    n.Put2(b);
    n.Put2(c);
    n.Put2(d);
    FourParts(before, Be(a), Be(b), Be(c), Be(d));
  }

  lemma ThreeParts(h: seq<byte>, a: seq<byte>, b: seq<byte>, c: seq<byte>)
    ensures h + a + b + c == h + (a + b + c)
  {}

  lemma FourParts(h: seq<byte>, a: seq<byte>, b: seq<byte>, c: seq<byte>, d: seq<byte>)
    ensures h + a + b + c + d == h + (a + b + c + d)
  {}

  // ----- the line and the server's turn

  /** What the client has just sent reaches the server, the server polls, and its answer reaches the client. */
  method Exchange<D>(client: Nmbs, server: Nmbs, cbs: Callbacks<D>, dev: D, sent: nat,
                     ghost h: Header, ghost r: Request)
    returns (dev': D)
    requires Connected(client, server) && client.rx == [] && sent <= |client.tx|
    requires Serveable(client.transport, r) && h.fc == FunctionCode(r) && h.unitId == client.destAddressRtu
    requires client.tx[sent..] == Frame(client.transport, client.crc, h, RequestData(r))
    modifies client`rx, server`idx, server`unitId, server`fc, server`transactionId, server`broadcast, server`ignored
    modifies server`complete, server`avail, server`msg, server`rx, server`tx, server.buf
    ensures server.Valid() && server.rx == []
    ensures var (o, d) := ServeRequest(cbs, dev, h.unitId, ToAll(client), r);
      dev' == d && client.rx == Emitted(client.transport, client.crc, h, o)
  {
    hide RequestData, Frame, Serveable, LineReady, PollResult, Emitted, ServeRequest;
    PollOfFrame(client.transport, client.crc, server.addressRtu, cbs, dev, h, r, []);
    assert client.tx[sent..] + [] == client.tx[sent..];
    server.rx := server.rx + client.tx[sent..];
    assert server.rx == client.tx[sent..];
    var answered := |server.tx|;
    var err;
    err, dev' := Poll(server, cbs, dev);
    client.rx := client.rx + server.tx[answered..];
  }

  // ----- the public functions

  /** What a client returns that waits for an answer: nobody answers a broadcast that went well. */
  function Awaited(verdict: int, broadcast: bool): int {
    if verdict != ERROR_NONE then verdict else if broadcast then ERROR_TIMEOUT else ERROR_NONE
  }

  /** What a client returns that does not wait for the answer to a broadcast. */
  function Unawaited(verdict: int, broadcast: bool): int {
    if broadcast then ERROR_NONE else verdict
  }

  /** Nothing is left of an answer, unless nobody waited for it. */
  ghost predicate AtBoundary(client: Nmbs, server: Nmbs)
    reads client, server
  {
    server.rx == [] && (!ToAll(client) ==> client.rx == [])
  }

  method ReadDiscrete<D>(client: Nmbs, server: Nmbs, cbs: Callbacks<D>, dev: D, inputs: bool,
                         address: u16, quantity: u16, values: array<byte>)
    returns (err: int, dev': D)
    requires Connected(client, server)
    requires values.Length >= 250 && values != client.buf && values != server.buf
    modifies client, client.buf, server, server.buf, values
    ensures Connected(client, server) && client.destAddressRtu == old(client.destAddressRtu)
    ensures var r := ReadBits(inputs, address, quantity);
      if !Guarded(r) then
        err == ERROR_INVALID_ARGUMENT && dev' == dev && values[..] == old(values[..]) && client.tx == old(client.tx)
      else
        var verdict := Verdict(cbs, dev, client.destAddressRtu, ToAll(client), r);
        && dev' == verdict.dev && err == Awaited(verdict.error, ToAll(client))
        && (err != ERROR_NONE ==> values[..] == old(values[..]))
        && (err == ERROR_NONE ==>
             var o := ServeRequest(cbs, dev, client.destAddressRtu, false, r).0;
             && o.Reply? && |o.data| == 1 + (quantity + 7) / 8
             && values[..] == o.data[1..] + old(values[..])[|o.data| - 1..])
        && AtBoundary(client, server)
  {
    hide ServeRequest, Emitted, Frame, Serveable, Verdict, Awaited;
    dev' := dev;
    if quantity < 1 || quantity > 2000 {
      return ERROR_INVALID_ARGUMENT, dev;
    }
    if address + quantity > 0xFFFF + 1 {
      return ERROR_INVALID_ARGUMENT, dev;
    }
    ghost var r := ReadBits(inputs, address, quantity);
    var sent := |client.tx|;
    err := SendTwoWords(client, if inputs then 2 else 1, address, quantity);
    ghost var h := client.Head();
    TwoWordsServeable(client.transport, r);
    dev' := Exchange(client, server, cbs, dev, sent, h, r);
    BankAnswered(cbs, dev, client, h.unitId, r);
    err := TakeBits(client, values, h, ServeRequest(cbs, dev, h.unitId, ToAll(client), r).0);
  }

  /** The server's answer to a bit or register request, by its size, and what a client should make of it. */
  lemma BankAnswered<D>(cbs: Callbacks<D>, dev: D, client: Nmbs, unitId: byte, r: Request)
    requires ForBank(r) && Guarded(r)
    ensures var verdict := Verdict(cbs, dev, unitId, ToAll(client), r);
      var (o, d) := ServeRequest(cbs, dev, unitId, ToAll(client), r);
      && d == verdict.dev && Returned(o) == Awaited(verdict.error, ToAll(client))
      && (!ToAll(client) ==> Answers(o))
      && (o.Exception? ==> IsException(o.code) && o.code == verdict.error)
      && (o.Reply? ==>
           && !ToAll(client) && verdict.error == ERROR_NONE && Answers(o)
           && (FunctionCode(r) in {1, 2, 3, 4, 23} ==> |o.data| >= 1 && o.data[0] == |o.data| - 1 <= 250)
           && (r.WriteCoil? || r.WriteRegister? ==> o.data == Be(r.address) + Be(r.value))
           && (r.WriteCoils? || r.WriteRegisters? ==> o.data == Be(r.address) + Be(r.quantity))
           && (r.ReadBits? ==> |o.data| == 1 + (r.quantity + 7) / 8)
           && (r.ReadRegisters? ==> |o.data| == 1 + 2 * r.quantity)
           && (r.ReadWrite? ==> |o.data| == 1 + 2 * r.readQuantity))
  {
    hide ServeRequest, Ran, Provided;
    FailuresAreReported(cbs, dev, unitId, ToAll(client), r);
    BankAnswers(cbs, dev, unitId, r);
  }

  /** What a waiting client makes of an outcome. */
  function Returned(o: Outcome): int {
    match o
    case Reply(_) => ERROR_NONE
    case Exception(code) => code
    case Silent => ERROR_TIMEOUT
  }

  /** The answer to a read of bits, as it stands on the line. */
  method TakeBits(client: Nmbs, values: array<byte>, ghost h: Header, ghost o: Outcome) returns (err: int)
    requires client.Valid() && values.Length >= 250 && values != client.buf
    requires h == client.Head() && h.fc < 0x80
    requires client.rx == Emitted(client.transport, client.crc, h, o) && (o.Exception? ==> IsException(o.code))
    requires o.Reply? ==> |o.data| >= 1 && o.data[0] == |o.data| - 1 <= 250
    modifies client`idx, client`unitId, client`fc, client`transactionId, client`broadcast, client`ignored
    modifies client`complete, client`avail, client`msg, client`rx, client.buf, values
    ensures client.Valid() && client.rx == [] && err == Returned(o)
    ensures !o.Reply? ==> values[..] == old(values[..])
    ensures o.Reply? ==> values[..] == o.data[1..] + old(values[..])[|o.data| - 1..]
  {
    hide Emitted, ResArrived, FormError, FormLeft, ResHeaderError, Message;
    CountedOnLine(client.transport, client.crc, h, o, 250);
    err := RecvReadDiscreteRes(client, values);
  }

  /** A counted answer that is all there is on the line, or no answer at all. */
  lemma CountedOnLine(t: Transport, crc: CrcFunction, h: Header, o: Outcome, limit: byte)
    requires h.fc < 0x80 && (o.Exception? ==> IsException(o.code)) && limit <= 251
    requires o.Reply? ==> |o.data| >= 1 && o.data[0] == |o.data| - 1 <= limit
    ensures var s := Emitted(t, crc, h, o);
      && ResArrived(t, crc, h, s, CountedUpTo(limit))
      && FormError(t, crc, h, s, CountedUpTo(limit)) == ResHeaderError(t, crc, h, s) == Returned(o)
      && FormLeft(t, crc, h, s, CountedUpTo(limit)) == []
      && (o.Reply? ==>
           && s != [] && HeaderArrived(t, s) && MbapOk(t, s)
           && var m, n := Message(t, s), HeaderLength(t);
              n < |m| && m[n] == |o.data| - 1 && n + 1 + m[n] <= |m| && m[n + 1..n + 1 + m[n]] == o.data[1..])
  {
    var s := Emitted(t, crc, h, o);
    if !o.Silent? {
      hide Emitted, ResHeaderArrived, ResHeaderError, FormError, FormLeft;
      assert s + [] == s;
      CountedAnswer(t, crc, h, o, limit, []);
    }
  }

  lemma TwoWordsServeable(t: Transport, r: Request)
    requires r.ReadBits? || r.ReadRegisters? || r.WriteCoil? || r.WriteRegister?
    ensures Serveable(t, r) && Countable(r) && RequestData(r)
         == if r.ReadBits? || r.ReadRegisters? then Be(r.address) + Be(r.quantity) else Be(r.address) + Be(r.value)
  {}

  /** The registers of a reply, in an array that keeps the rest. */
  ghost predicate RegistersReplied(o: Outcome, quantity: nat, before: seq<u16>, after: seq<u16>)
    requires o.Reply?
  {
    |o.data| == 1 + 2 * quantity && quantity <= |before| && after == WordsOf(o.data[1..]) + before[quantity..]
  }

  method ReadRegisterValues<D>(client: Nmbs, server: Nmbs, cbs: Callbacks<D>, dev: D, inputs: bool,
                               address: u16, quantity: u16, registers: array<u16>)
    returns (err: int, dev': D)
    requires Connected(client, server)
    requires registers.Length >= 125 && registers as object !in {client.buf, server.buf}
    modifies client, client.buf, server, server.buf, registers
    ensures Connected(client, server) && client.destAddressRtu == old(client.destAddressRtu)
    ensures var r := ReadRegisters(inputs, address, quantity);
      if !Guarded(r) then
        && err == ERROR_INVALID_ARGUMENT && dev' == dev
        && registers[..] == old(registers[..]) && client.tx == old(client.tx)
      else
        var verdict := Verdict(cbs, dev, client.destAddressRtu, ToAll(client), r);
        && dev' == verdict.dev && err == Awaited(verdict.error, ToAll(client))
        && (err != ERROR_NONE ==> registers[..] == old(registers[..]))
        && (err == ERROR_NONE ==>
             var o := ServeRequest(cbs, dev, client.destAddressRtu, false, r).0;
             o.Reply? && RegistersReplied(o, quantity, old(registers[..]), registers[..]))
        && AtBoundary(client, server)
  {
    hide ServeRequest, Emitted, Frame, Serveable, WordsOf, Verdict, Awaited;
    dev' := dev;
    if quantity < 1 || quantity > 125 {
      return ERROR_INVALID_ARGUMENT, dev;
    }
    if address + quantity > 0xFFFF + 1 {
      return ERROR_INVALID_ARGUMENT, dev;
    }
    ghost var r := ReadRegisters(inputs, address, quantity);
    var sent := |client.tx|;
    err := SendTwoWords(client, if inputs then 4 else 3, address, quantity);
    ghost var h := client.Head();
    TwoWordsServeable(client.transport, r);
    dev' := Exchange(client, server, cbs, dev, sent, h, r);
    BankAnswered(cbs, dev, client, h.unitId, r);
    err := TakeRegisters(client, quantity, registers, h, ServeRequest(cbs, dev, h.unitId, ToAll(client), r).0);
  }

  /** The answer to a read of registers, as it stands on the line. */
  method TakeRegisters(client: Nmbs, quantity: u16, registers: array<u16>, ghost h: Header, ghost o: Outcome)
    returns (err: int)
    requires client.Valid() && registers.Length >= 125 && registers as object != client.buf
    requires h == client.Head() && h.fc < 0x80 && quantity <= 125
    requires client.rx == Emitted(client.transport, client.crc, h, o) && (o.Exception? ==> IsException(o.code))
    requires o.Reply? ==> |o.data| == 1 + 2 * quantity && o.data[0] == 2 * quantity
    modifies client`idx, client`unitId, client`fc, client`transactionId, client`broadcast, client`ignored
    modifies client`complete, client`avail, client`msg, client`rx, client.buf, registers
    ensures client.Valid() && client.rx == [] && err == Returned(o)
    ensures !o.Reply? ==> registers[..] == old(registers[..])
    ensures o.Reply? ==> RegistersReplied(o, quantity, old(registers[..]), registers[..])
  {
    hide Emitted, ResArrived, RegistersError, WholeRegisters, ResHeaderError, FormLeft, Message, WordsOf;
    RegistersOnLine(client.transport, client.crc, h, o, quantity);
    err := RecvReadRegistersRes(client, quantity, registers);
  }

  lemma RegistersOnLine(t: Transport, crc: CrcFunction, h: Header, o: Outcome, quantity: u16)
    requires h.fc < 0x80 && quantity <= 125 && (o.Exception? ==> IsException(o.code))
    requires o.Reply? ==> |o.data| == 1 + 2 * quantity && o.data[0] == 2 * quantity
    ensures var s := Emitted(t, crc, h, o);
      && ResArrived(t, crc, h, s, COUNTED) && WholeRegisters(t, crc, h, s)
      && RegistersError(t, crc, h, s, quantity) == ResHeaderError(t, crc, h, s) == Returned(o)
      && FormLeft(t, crc, h, s, COUNTED) == []
      && (o.Reply? ==>
           && s != [] && HeaderArrived(t, s) && MbapOk(t, s)
           && var m, n := Message(t, s), HeaderLength(t);
              n < |m| && m[n] == 2 * quantity && n + 1 + m[n] <= |m| && m[n + 1..n + 1 + m[n]] == o.data[1..])
  {
    hide Emitted, ResHeaderError, ResHeaderArrived, FormError, FormLeft, ResArrived, Message, HeaderArrived, MbapOk;
    hide HeaderLength;
    CountedOnLine(t, crc, h, o, 250);
  }

  /** An answer with two registers where one was asked for is refused, but by then both are in the caller's array. */
  method WrongQuantityIsTaken(transport: Transport, crc: CrcFunction, unitId: byte, x: u16, y: u16,
                              registers: array<u16>)
    returns (err: int)
    requires registers.Length >= 125
    modifies registers
    ensures err == ERROR_INVALID_RESPONSE
    ensures registers[..] == [x, y] + old(registers[..])[2..]
  {
    hide Emitted, ResArrived, FormError, FormLeft, ResHeaderError, Message, WordsOf, BeAll;
    var client := new Nmbs(transport, crc, BROADCAST_ADDRESS);
    client.destAddressRtu := unitId;
    err := SendTwoWords(client, 3, 0, 1);
    var o := Reply([4] + BeAll([x, y]));
    CountedOnLine(transport, crc, client.Head(), o, 250);
    assert o.data[1..] == BeAll([x, y]);
    WordsOfBeAll([x, y]);
    client.rx := Emitted(transport, crc, Header(client.currentTid, unitId, 3), o);
    err := RecvReadRegistersRes(client, 1, registers);
  }

  /** The answer to a write, as it stands on the line. */
  method TakeWritten(client: Nmbs, a: u16, b: u16, ghost h: Header, ghost o: Outcome) returns (err: int)
    requires client.Valid() && h == client.Head() && h.fc < 0x80
    requires Answers(o) && client.rx == Emitted(client.transport, client.crc, h, o)
    requires o.Reply? ==> o.data == Be(a) + Be(b)
    modifies client`idx, client`unitId, client`fc, client`transactionId, client`broadcast, client`ignored
    modifies client`complete, client`avail, client`msg, client`rx, client.buf
    ensures client.Valid() && client.rx == []
    ensures err == Returned(o)
  {
    hide Emitted, ResArrived, WrittenError, FormLeft;
    WrittenAnswer(client.transport, client.crc, h, o, a, b, []);
    assert client.rx + [] == client.rx;
    err := RecvWrittenRes(client, a, b);
  }

  /** What a server answers is never more than the client flushes before its next request. */
  lemma AnswerFitsFlush(t: Transport, crc: CrcFunction, h: Header, o: Outcome)
    requires o.Reply? ==> |o.data| <= MAX_DATA
    ensures |Emitted(t, crc, h, o)| <= BUFFER_SIZE
  {}

  method WriteSingleCoil<D>(client: Nmbs, server: Nmbs, cbs: Callbacks<D>, dev: D, address: u16, value: bool)
    returns (err: int, dev': D)
    requires Connected(client, server)
    modifies client, client.buf, server, server.buf
    ensures Connected(client, server) && client.destAddressRtu == old(client.destAddressRtu)
    ensures var r := WriteCoil(address, if value then 0xFF00 else 0);
      var verdict := Verdict(cbs, dev, client.destAddressRtu, ToAll(client), r);
      && dev' == verdict.dev && err == Unawaited(verdict.error, ToAll(client))
      && AtBoundary(client, server)
  {
    hide ServeRequest, Emitted, Frame, Serveable, BeAll, Verdict;
    dev' := dev;
    ghost var r := WriteCoil(address, if value then 0xFF00 else 0);
    var sent := |client.tx|;
    err := SendTwoWords(client, 5, address, if value then 0xFF00 else 0);
    ghost var h := client.Head();
    TwoWordsServeable(client.transport, r);
    dev' := Exchange(client, server, cbs, dev, sent, h, r);
    BankAnswered(cbs, dev, client, h.unitId, r);
    ghost var o := ServeRequest(cbs, dev, h.unitId, ToAll(client), r).0;
    AnswerFitsFlush(client.transport, client.crc, h, o);
    if !client.broadcast {
      err := TakeWritten(client, address, if value then 0xFF00 else 0, h, o);
      return;
    }
    err := ERROR_NONE;
  }

  method WriteSingleRegister<D>(client: Nmbs, server: Nmbs, cbs: Callbacks<D>, dev: D, address: u16, value: u16)
    returns (err: int, dev': D)
    requires Connected(client, server)
    modifies client, client.buf, server, server.buf
    ensures Connected(client, server) && client.destAddressRtu == old(client.destAddressRtu)
    ensures var r := WriteRegister(address, value);
      var verdict := Verdict(cbs, dev, client.destAddressRtu, ToAll(client), r);
      && dev' == verdict.dev && err == Unawaited(verdict.error, ToAll(client))
      && AtBoundary(client, server)
  {
    hide ServeRequest, Emitted, Frame, Serveable, BeAll, Verdict;
    dev' := dev;
    ghost var r := WriteRegister(address, value);
    var sent := |client.tx|;
    err := SendTwoWords(client, 6, address, value);
    ghost var h := client.Head();
    TwoWordsServeable(client.transport, r);
    dev' := Exchange(client, server, cbs, dev, sent, h, r);
    BankAnswered(cbs, dev, client, h.unitId, r);
    ghost var o := ServeRequest(cbs, dev, h.unitId, ToAll(client), r).0;
    AnswerFitsFlush(client.transport, client.crc, h, o);
    if !client.broadcast {
      err := TakeWritten(client, address, value, h, o);
      return;
    }
    err := ERROR_NONE;
  }

  method WriteMultipleRegisters<D>(client: Nmbs, server: Nmbs, cbs: Callbacks<D>, dev: D, address: u16,
                                   registers: seq<u16>)
    returns (err: int, dev': D)
    requires Connected(client, server) && |registers| < 0x1_0000
    modifies client, client.buf, server, server.buf
    ensures Connected(client, server) && client.destAddressRtu == old(client.destAddressRtu)
    ensures var r := WriteRegisters(address, |registers|, BeAll(registers));
      if !Guarded(r) then
        err == ERROR_INVALID_ARGUMENT && dev' == dev && client.tx == old(client.tx)
      else
        var verdict := Verdict(cbs, dev, client.destAddressRtu, ToAll(client), r);
        && dev' == verdict.dev && err == Unawaited(verdict.error, ToAll(client))
        && AtBoundary(client, server)
  {
    hide ServeRequest, Emitted, Frame, Serveable, BeAll, Verdict;
    dev' := dev;
    if |registers| < 1 || |registers| > 0x007B {
      return ERROR_INVALID_ARGUMENT, dev;
    }
    if address + |registers| > 0xFFFF + 1 {
      return ERROR_INVALID_ARGUMENT, dev;
    }
    ghost var r := WriteRegisters(address, |registers|, BeAll(registers));
    var sent := |client.tx|;
    err := SendRegisters(client, address, registers);
    ghost var h := client.Head();
    RegistersServeable(client.transport, r);
    dev' := Exchange(client, server, cbs, dev, sent, h, r);
    BankAnswered(cbs, dev, client, h.unitId, r);
    ghost var o := ServeRequest(cbs, dev, h.unitId, ToAll(client), r).0;
    AnswerFitsFlush(client.transport, client.crc, h, o);
    if !client.broadcast {
      err := TakeWritten(client, address, |registers|, h, o);
      return;
    }
    err := ERROR_NONE;
  }

  method WriteMultipleCoils<D>(client: Nmbs, server: Nmbs, cbs: Callbacks<D>, dev: D, address: u16, quantity: u16,
                               coils: array<byte>)
    returns (err: int, dev': D)
    requires Connected(client, server)
    requires coils.Length >= 250 && coils != client.buf && coils != server.buf
    modifies client, client.buf, server, server.buf
    ensures Connected(client, server) && client.destAddressRtu == old(client.destAddressRtu)
    ensures !Within(address, quantity, MAX_WRITE_COILS) ==>
      err == ERROR_INVALID_ARGUMENT && dev' == dev && client.tx == old(client.tx)
    ensures Within(address, quantity, MAX_WRITE_COILS) ==>
      var r := WriteCoils(address, quantity, old(coils[..(quantity + 7) / 8]));
      var verdict := Verdict(cbs, dev, client.destAddressRtu, ToAll(client), r);
      && dev' == verdict.dev && err == Unawaited(verdict.error, ToAll(client))
      && AtBoundary(client, server)
  {
    hide ServeRequest, Emitted, Frame, Serveable, BeAll, Verdict;
    dev' := dev;
    if quantity < 1 || quantity > 0x07B0 {
      return ERROR_INVALID_ARGUMENT, dev;
    }
    if address + quantity > 0xFFFF + 1 {
      return ERROR_INVALID_ARGUMENT, dev;
    }
    var coilsBytes := (quantity + 7) / 8;
    ghost var r := WriteCoils(address, quantity, old(coils[..(quantity + 7) / 8]));
    var sent := |client.tx|;
    err := SendCoils(client, address, quantity, coils[..coilsBytes]);
    ghost var h := client.Head();
    CoilsServeable(client.transport, r);
    dev' := Exchange(client, server, cbs, dev, sent, h, r);
    BankAnswered(cbs, dev, client, h.unitId, r);
    ghost var o := ServeRequest(cbs, dev, h.unitId, ToAll(client), r).0;
    AnswerFitsFlush(client.transport, client.crc, h, o);
    if !client.broadcast {
      err := TakeWritten(client, address, quantity, h, o);
      return;
    }
    err := ERROR_NONE;
  }

  method ReadWriteRegisters<D>(client: Nmbs, server: Nmbs, cbs: Callbacks<D>, dev: D, readAddress: u16,
                               readQuantity: u16, registersOut: array<u16>, writeAddress: u16, registers: seq<u16>)
    returns (err: int, dev': D)
    requires Connected(client, server) && |registers| < 0x1_0000
    requires registersOut.Length >= 125 && registersOut as object !in {client.buf, server.buf}
    modifies client, client.buf, server, server.buf, registersOut
    ensures Connected(client, server) && client.destAddressRtu == old(client.destAddressRtu)
    ensures var r := ReadWrite(readAddress, readQuantity, writeAddress, |registers|, BeAll(registers));
      if !Guarded(r) then
        && err == ERROR_INVALID_ARGUMENT && dev' == dev
        && registersOut[..] == old(registersOut[..]) && client.tx == old(client.tx)
      else
        var verdict := Verdict(cbs, dev, client.destAddressRtu, ToAll(client), r);
        && dev' == verdict.dev && err == Unawaited(verdict.error, ToAll(client))
        && (err != ERROR_NONE || ToAll(client) ==> registersOut[..] == old(registersOut[..]))
        && (err == ERROR_NONE && !ToAll(client) ==>
             var o := ServeRequest(cbs, dev, client.destAddressRtu, false, r).0;
             o.Reply? && RegistersReplied(o, readQuantity, old(registersOut[..]), registersOut[..]))
        && AtBoundary(client, server)
  {
    hide ServeRequest, Emitted, Frame, Serveable, BeAll, RegistersReplied, Verdict;
    dev' := dev;
    if readQuantity < 1 || readQuantity > 0x007D {
      return ERROR_INVALID_ARGUMENT, dev;
    }
    if readAddress + readQuantity > 0xFFFF + 1 {
      return ERROR_INVALID_ARGUMENT, dev;
    }
    if |registers| < 1 || |registers| > 0x0079 {
      return ERROR_INVALID_ARGUMENT, dev;
    }
    if writeAddress + |registers| > 0xFFFF + 1 {
      return ERROR_INVALID_ARGUMENT, dev;
    }
    ghost var r := ReadWrite(readAddress, readQuantity, writeAddress, |registers|, BeAll(registers));
    var sent := |client.tx|;
    err := SendReadWrite(client, readAddress, readQuantity, writeAddress, registers);
    ghost var h := client.Head();
    ReadWriteServeable(client.transport, r);
    dev' := Exchange(client, server, cbs, dev, sent, h, r);
    BankAnswered(cbs, dev, client, h.unitId, r);
    ghost var o := ServeRequest(cbs, dev, h.unitId, ToAll(client), r).0;
    AnswerFitsFlush(client.transport, client.crc, h, o);
    if !client.broadcast {
      err := TakeRegisters(client, readQuantity, registersOut, h, o);
      return;
    }
    err := ERROR_NONE;
  }

  lemma CoilsServeable(t: Transport, r: Request)
    requires r.WriteCoils? && |r.bytes| <= 246
    ensures Serveable(t, r) && Countable(r)
    ensures RequestData(r) == Be(r.address) + Be(r.quantity) + [|r.bytes|] + r.bytes
  {}

  lemma RegistersServeable(t: Transport, r: Request)
    requires r.WriteRegisters? && |r.bytes| <= 246 && |r.bytes| % 2 == 0
    ensures Serveable(t, r) && Countable(r)
    ensures RequestData(r) == Be(r.address) + Be(r.quantity) + [|r.bytes|] + r.bytes
  {}

  lemma ReadWriteServeable(t: Transport, r: Request)
    requires r.ReadWrite? && |r.bytes| <= 242 && |r.bytes| % 2 == 0
    ensures Serveable(t, r) && Countable(r)
    ensures RequestData(r) == Be(r.readAddress) + Be(r.readQuantity) + Be(r.address) + Be(r.quantity)
                            + [|r.bytes|] + r.bytes
  {}
}
