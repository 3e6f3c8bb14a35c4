/** The client functions for file records, each with the server's turn in its middle. */
module FileClient {
  import opened Words
  import opened Frames
  import opened Engine
  import Responses
  import Requests
  import opened Serving
  import opened FileRecords
  import Failures
  import FileResponses
  import Polling
  import Wire
  import opened Client

  /** The client asks for nothing that a server would find illegal. */
  predicate ReadGuard(file: u16, record: u16, count: u16) {
    LegalRead(ReadSub(REFERENCE_TYPE, file, record, count))
  }

  predicate WriteGuard(file: u16, record: u16, registers: seq<u16>) {
    LegalWrite(WriteSub(REFERENCE_TYPE, file, record, registers))
  }

  // ----- the requests

  lemma OneReadSub(s: ReadSub)
    ensures ReadSubs(ReadSubBytes(s)) == [s]
  {
    BeRoundTrip(s.file);
    BeRoundTrip(s.record);
    BeRoundTrip(s.length);
    assert ReadSubAt(ReadSubBytes(s), 0) == s;
  }

  lemma OneWriteSub(s: WriteSub)
    requires |s.registers| < 0x1_0000
    ensures WriteSubs(WriteSubBytes(s)) == Some([s])
    ensures |WriteSubBytes(s)| == 7 + 2 * |s.registers|
  {
    hide WriteSubs, WriteSubBytes;
    WriteSubsUndo([s]);
    assert AllWriteSubBytes([s]) == WriteSubBytes(s) + AllWriteSubBytes([]);
    assert WriteSubBytes(s) + [] == WriteSubBytes(s);
    WriteSubLength(s);
  }

  lemma WriteSubLength(s: WriteSub)
    requires |s.registers| < 0x1_0000
    ensures |WriteSubBytes(s)| == 7 + 2 * |s.registers|
  {}

  method SendReadFile(n: Nmbs, file: u16, record: u16, count: u16) returns (err: int)
    requires n.Valid() && |n.rx| <= BUFFER_SIZE
    modifies n, n.buf
    ensures n.Valid() && err == ERROR_NONE && n.rx == []
    ensures n.addressRtu == old(n.addressRtu) && n.destAddressRtu == old(n.destAddressRtu)
    ensures n.currentTid == NextTid(old(n.currentTid)) && n.Head() == Header(n.currentTid, n.destAddressRtu, 20)
    ensures n.tx == old(n.tx) + Frame(n.transport, n.crc, n.Head(), [7] + ReadSubBytes(ReadSub(6, file, record, count)))
  {
    hide HeaderBytes, Nmbs.Out, Be;
    n.MsgStateReq(20);
    n.PutMsgHeader(8);
    ghost var header := n.Out();
    n.Put1(7);
    PutSubHeader(n, file, record, count);
    assert header + [7] + ReadSubBytes(ReadSub(6, file, record, count))
        == header + ([7] + ReadSubBytes(ReadSub(6, file, record, count)));
    err := n.SendMsg();
  }

  method PutSubHeader(n: Nmbs, file: u16, record: u16, length: u16)
    requires n.Valid() && n.idx + 7 <= BUFFER_SIZE
    modifies n`idx, n.buf
    ensures n.Valid() && n.idx == old(n.idx) + 7
    ensures n.Out() == old(n.Out()) + ([6] + Be(file) + Be(record) + Be(length))
  {
    hide Nmbs.Out, Be;
    ghost var before := n.Out();
    n.Put1(6);
    n.Put2(file);
    n.Put2(record);
    n.Put2(length);
    FourParts(before, [6], Be(file), Be(record), Be(length));
  }

  method SendWriteFile(n: Nmbs, file: u16, record: u16, registers: seq<u16>) returns (err: int)
    requires n.Valid() && |registers| <= 122 && |n.rx| <= BUFFER_SIZE
    modifies n, n.buf
    ensures n.Valid() && err == ERROR_NONE && n.rx == []
    ensures n.addressRtu == old(n.addressRtu) && n.destAddressRtu == old(n.destAddressRtu)
    ensures n.currentTid == NextTid(old(n.currentTid)) && n.Head() == Header(n.currentTid, n.destAddressRtu, 21)
    ensures n.broadcast <==> n.destAddressRtu == BROADCAST_ADDRESS && n.transport.RTU?
    ensures n.tx == old(n.tx) + Frame(n.transport, n.crc, n.Head(),
      [7 + 2 * |registers|] + WriteSubBytes(WriteSub(6, file, record, registers)))
  {
    hide HeaderBytes, Nmbs.Out, Be, BeAll;
    var dataSize := 2 * |registers|;
    n.MsgStateReq(21);
    n.PutMsgHeader(8 + dataSize);
    ghost var header := n.Out();
    n.Put1(7 + dataSize);
    PutSubHeader(n, file, record, |registers|);
    PutRegs(n, registers);
    assert header + [7 + dataSize] + ([6] + Be(file) + Be(record) + Be(|registers|)) + BeAll(registers)
        == header + ([7 + dataSize] + WriteSubBytes(WriteSub(6, file, record, registers)));
    err := n.SendMsg();
  }

  /** put_regs: the last register first. */
  method PutRegs(n: Nmbs, data: seq<u16>)
    requires n.Valid() && n.idx + 2 * |data| <= BUFFER_SIZE
    modifies n`idx, n.buf
    ensures n.Valid() && n.idx == old(n.idx) + 2 * |data|
    ensures n.Out() == old(n.Out()) + BeAll(data)
  {
    var at := n.idx;
    n.idx := n.idx + 2 * |data|;
    var k := |data|;
    while k > 0
      invariant 0 <= k <= |data| && n.buf[..at] == old(n.buf[..at])
      invariant forall j :: k <= j < |data| ==>
        n.buf[at + 2 * j] == data[j] / 0x100 && n.buf[at + 2 * j + 1] == data[j] % 0x100
      modifies n.buf
    {
      k := k - 1;
      n.buf[at + 2 * k] := data[k] / 0x100;
      n.buf[at + 2 * k + 1] := data[k] % 0x100;
    }
    ghost var put := n.buf[at..at + 2 * |data|];
    forall i | 0 <= i < |put|
      ensures put[i] == BeAll(data)[i]
    {
      BeAllAt(data, i / 2);
      assert i == 2 * (i / 2) || i == 2 * (i / 2) + 1;
    }
    assert n.Out() == n.buf[..at] + put;
  }

  lemma ReadFileServeable(t: Transport, sub: ReadSub)
    requires LegalRead(sub)
    ensures var r := Requests.ReadFile(ReadSubBytes(sub));
      Wire.Serveable(t, r) && Requests.RequestData(r) == [7] + ReadSubBytes(sub)
  {
    OneReadSub(sub);
    assert PartsSize([sub]) == PartsSize([sub][..0]) + 2 + 2 * sub.length;
  }

  lemma WriteFileServeable(t: Transport, sub: WriteSub)
    requires LegalWrite(sub)
    ensures var r := Requests.WriteFile(WriteSubBytes(sub));
      Wire.Serveable(t, r) && Requests.RequestData(r) == [7 + 2 * |sub.registers|] + WriteSubBytes(sub)
  {
    OneWriteSub(sub);
  }

  // ----- what the server does with them

  /** One sub-request is one callback. */
  lemma ReadFileServed<D>(cbs: Callbacks<D>, dev: D, unitId: byte, broadcast: bool, sub: ReadSub)
    requires LegalRead(sub)
    ensures var (o, d) := ServeReadFile(cbs, dev, unitId, broadcast, ReadSubBytes(sub));
      if cbs.readFileRecord.None? then o == Exception(ILLEGAL_FUNCTION) && d == dev
      else
        var r := cbs.readFileRecord.value(dev, sub.file, sub.record, sub.length, unitId);
        && d == r.dev
        && o == if r.error != ERROR_NONE then Exception(FailureCode(r.error))
                else if broadcast then Silent
                else Reply([2 + 2 * sub.length] + ReadPart(sub.length, r.registers))
  {
    hide ReadPart, ReadSubs;
    OneReadSub(sub);
    assert [sub][..0] == [];
    assert PartsSize([sub]) == PartsSize([sub][..0]) + 2 + 2 * sub.length;
    if cbs.readFileRecord.Some? {
      assert ReadParts(cbs.readFileRecord.value, dev, unitId, [sub][..0]) == Parts([], None, dev);
      var r := cbs.readFileRecord.value(dev, sub.file, sub.record, sub.length, unitId);
      assert [] + ReadPart(sub.length, r.registers) == ReadPart(sub.length, r.registers);
    }
  }

  lemma WriteFileServed<D>(cbs: Callbacks<D>, dev: D, unitId: byte, broadcast: bool, sub: WriteSub)
    requires LegalWrite(sub)
    ensures WriteSubs(WriteSubBytes(sub)).Some?
    ensures var (o, d) := ServeWriteFile(cbs, dev, unitId, broadcast, WriteSubBytes(sub));
      if cbs.writeFileRecord.None? then o == Exception(ILLEGAL_FUNCTION) && d == dev
      else
        var r := cbs.writeFileRecord.value(dev, sub.file, sub.record, sub.registers, unitId);
        && d == r.dev
        && o == if r.error != ERROR_NONE then Exception(FailureCode(r.error))
                else if broadcast then Silent
                else Reply([7 + 2 * |sub.registers|] + WriteSubBytes(sub))
  {
    hide WriteSubs, WriteSubBytes;
    OneWriteSub(sub);
    if cbs.writeFileRecord.Some? {
      assert [sub][0] == sub && [sub][1..] == [];
      OneCall(cbs.writeFileRecord.value, dev, unitId, sub);
    }
  }

  lemma OneCall<D>(callback: (D, u16, u16, seq<u16>, byte) -> Done<D>, dev: D, unitId: byte, sub: WriteSub)
    ensures WriteAll(callback, dev, unitId, [sub]) == callback(dev, sub.file, sub.record, sub.registers, unitId)
  {
    var r := callback(dev, sub.file, sub.record, sub.registers, unitId);
    assert [sub][1..] == [];
    assert WriteAll(callback, r.dev, unitId, []) == Done(ERROR_NONE, r.dev);
  }

  // ----- the public functions

  /** What a read of a record comes to: the registers that the callback gives, or its failure. */
  function ReadVerdict<D>(cbs: Callbacks<D>, dev: D, unitId: byte, sub: ReadSub): RegistersRead<D> {
    if cbs.readFileRecord.None? then RegistersRead(ILLEGAL_FUNCTION, seq(125, i => 0), dev)
    else
      var r := cbs.readFileRecord.value(dev, sub.file, sub.record, sub.length, unitId);
      RegistersRead(Failures.Told(r.error), r.registers, r.dev)
  }

  function WriteVerdict<D>(cbs: Callbacks<D>, dev: D, unitId: byte, sub: WriteSub): Done<D> {
    if cbs.writeFileRecord.None? then Done(ILLEGAL_FUNCTION, dev)
    else
      var r := cbs.writeFileRecord.value(dev, sub.file, sub.record, sub.registers, unitId);
      Done(Failures.Told(r.error), r.dev)
  }

  /** A call of the client is one call of the server's callback. */
  method ReadFileRecord<D>(client: Nmbs, server: Nmbs, cbs: Callbacks<D>, dev: D, file: u16, record: u16,
                           registers: array<u16>, count: u16)
    returns (err: int, dev': D)
    requires Connected(client, server)
    requires count <= registers.Length && registers as object !in {client.buf, server.buf}
    modifies client, client.buf, server, server.buf, registers
    ensures Connected(client, server) && client.destAddressRtu == old(client.destAddressRtu)
    ensures !ReadGuard(file, record, count) ==>
      && err == ERROR_INVALID_ARGUMENT && dev' == dev
      && registers[..] == old(registers[..]) && client.tx == old(client.tx)
    ensures ReadGuard(file, record, count) ==>
      var v := ReadVerdict(cbs, dev, client.destAddressRtu, ReadSub(REFERENCE_TYPE, file, record, count));
      && dev' == v.dev && err == Awaited(v.error, ToAll(client)) && AtBoundary(client, server)
      && registers[..] == if err == ERROR_NONE then v.registers[..count] + old(registers[..])[count..]
                          else old(registers[..])
  {
    hide Polling.ServeRequest, Emitted, Frame, Wire.Serveable, ReadSubBytes, Connected;
    dev' := dev;
    if file == 0x0000 {
      return ERROR_INVALID_ARGUMENT, dev;
    }
    if record > 0x270F {
      return ERROR_INVALID_ARGUMENT, dev;
    }
    if count > 124 {
      return ERROR_INVALID_ARGUMENT, dev;
    }
    err, dev' := RequestRead(client, server, cbs, dev, file, record, registers, count);
  }

  method RequestRead<D>(client: Nmbs, server: Nmbs, cbs: Callbacks<D>, dev: D, file: u16, record: u16,
                        registers: array<u16>, count: u16)
    returns (err: int, dev': D)
    requires Connected(client, server) && ReadGuard(file, record, count)
    requires count <= registers.Length && registers as object !in {client.buf, server.buf}
    modifies client, client.buf, server, server.buf, registers
    ensures Connected(client, server) && client.destAddressRtu == old(client.destAddressRtu)
    ensures
      var v := ReadVerdict(cbs, dev, client.destAddressRtu, ReadSub(REFERENCE_TYPE, file, record, count));
      && dev' == v.dev && err == Awaited(v.error, ToAll(client)) && AtBoundary(client, server)
      && registers[..] == if err == ERROR_NONE then v.registers[..count] + old(registers[..])[count..]
                          else old(registers[..])
  {
    hide ServeReadFile, Emitted, Frame, Wire.Serveable, ReadSubBytes, ReadPart;
    ghost var sub := ReadSub(6, file, record, count);
    ghost var r := Requests.ReadFile(ReadSubBytes(sub));
    var sent := |client.tx|;
    err := SendReadFile(client, file, record, count);
    ghost var h := client.Head();
    ReadFileServeable(client.transport, sub);
    dev' := Exchange(client, server, cbs, dev, sent, h, r);
    ReadFileServed(cbs, dev, h.unitId, ToAll(client), sub);
    err := TakePart(client, registers, count, h, Polling.ServeRequest(cbs, dev, h.unitId, ToAll(client), r).0,
                    ReadVerdict(cbs, dev, h.unitId, sub).registers);
  }

  /** The answer to a read of one record, as it stands on the line. */
  method TakePart(client: Nmbs, registers: array<u16>, count: u16, ghost h: Header, ghost o: Outcome,
                  ghost values: Registers)
    returns (err: int)
    requires client.Valid() && registers as object != client.buf && count <= registers.Length && count <= 124
    requires h == client.Head() && h.fc < 0x80
    requires client.rx == Emitted(client.transport, client.crc, h, o)
    requires o.Reply? ==> o == Reply([2 + 2 * count] + ReadPart(count, values))
    requires o.Exception? ==> IsException(o.code)
    modifies client`idx, client`unitId, client`fc, client`transactionId, client`broadcast, client`ignored
    modifies client`complete, client`avail, client`msg, client`rx, client.buf, registers
    ensures client.Valid() && client.rx == [] && err == Returned(o)
    ensures !o.Reply? ==> registers[..] == old(registers[..])
    ensures o.Reply? ==> registers[..] == values[..count] + old(registers[..])[count..]
  {
    hide Emitted, Responses.ResArrived, Responses.FormError, Responses.FormLeft, BeAll, WordsOf;
    CountedOnLine(client.transport, client.crc, h, o, 250);
    if o.Reply? {
      PartInMessage(client.transport, Message(client.transport, client.rx), count, values);
    }
    err := FileResponses.RecvReadFileRecordRes(client, registers, count);
  }

  lemma PartInMessage(t: Transport, m: seq<byte>, count: u16, values: Registers)
    requires count <= 124
    requires var n := HeaderLength(t); |m| >= n + 3 + 2 * count && m[n] == 2 + 2 * count
    requires var n := HeaderLength(t); m[n + 1..n + 1 + m[n]] == ReadPart(count, values)
    ensures FileResponses.OnePart(t, m)
    ensures var n := HeaderLength(t); m[n + 2] == 6 && WordsOf(m[n + 3..n + 1 + m[n]]) == values[..count]
  {
    hide BeAll, WordsOf;
    var n := HeaderLength(t);
    var part := m[n + 1..n + 1 + m[n]];
    assert part[0] == m[n + 1] && part[1] == m[n + 2];
    assert part[2..] == m[n + 3..n + 1 + m[n]];
    WordsOfBeAll(values[..count]);
  }

  method WriteFileRecord<D>(client: Nmbs, server: Nmbs, cbs: Callbacks<D>, dev: D, file: u16, record: u16,
                            registers: seq<u16>)
    returns (err: int, dev': D)
    requires Connected(client, server) && |registers| < 0x1_0000
    modifies client, client.buf, server, server.buf
    ensures Connected(client, server) && client.destAddressRtu == old(client.destAddressRtu)
    ensures !WriteGuard(file, record, registers) ==>
      err == ERROR_INVALID_ARGUMENT && dev' == dev && client.tx == old(client.tx)
    ensures WriteGuard(file, record, registers) ==>
      var v := WriteVerdict(cbs, dev, client.destAddressRtu, WriteSub(REFERENCE_TYPE, file, record, registers));
      dev' == v.dev && err == Unawaited(v.error, ToAll(client)) && AtBoundary(client, server)
  {
    hide Connected;
    dev' := dev;
    if file == 0x0000 {
      return ERROR_INVALID_ARGUMENT, dev;
    }
    if record > 0x270F {
      return ERROR_INVALID_ARGUMENT, dev;
    }
    if |registers| > 122 {
      return ERROR_INVALID_ARGUMENT, dev;
    }
    err, dev' := RequestWrite(client, server, cbs, dev, file, record, registers);
  }

  method RequestWrite<D>(client: Nmbs, server: Nmbs, cbs: Callbacks<D>, dev: D, file: u16, record: u16,
                         registers: seq<u16>)
    returns (err: int, dev': D)
    requires Connected(client, server) && WriteGuard(file, record, registers)
    modifies client, client.buf, server, server.buf
    ensures Connected(client, server) && client.destAddressRtu == old(client.destAddressRtu)
    ensures
      var v := WriteVerdict(cbs, dev, client.destAddressRtu, WriteSub(REFERENCE_TYPE, file, record, registers));
      dev' == v.dev && err == Unawaited(v.error, ToAll(client)) && AtBoundary(client, server)
  {
    hide ServeWriteFile, Emitted, Frame, Wire.Serveable, WriteSubBytes, WriteSubs;
    ghost var sub := WriteSub(6, file, record, registers);
    ghost var r := Requests.WriteFile(WriteSubBytes(sub));
    var sent := |client.tx|;
    err := SendWriteFile(client, file, record, registers);
    ghost var h := client.Head();
    WriteFileServeable(client.transport, sub);
    dev' := Exchange(client, server, cbs, dev, sent, h, r);
    WriteFileServed(cbs, dev, h.unitId, ToAll(client), sub);
    ghost var o := Polling.ServeRequest(cbs, dev, h.unitId, ToAll(client), r).0;
    WriteSubLength(sub);
    AnswerFitsFlush(client.transport, client.crc, h, o);
    if !client.broadcast {
      err := TakeEcho(client, file, record, registers, h, o);
      return;
    }
    err := ERROR_NONE;
  }

  /** The answer to a write of one record, as it stands on the line. */
  method TakeEcho(client: Nmbs, file: u16, record: u16, registers: seq<u16>, ghost h: Header, ghost o: Outcome)
    returns (err: int)
    requires client.Valid() && |registers| <= 122
    requires h == client.Head() && h.fc < 0x80
    requires client.rx == Emitted(client.transport, client.crc, h, o)
    requires o.Reply? ==> o == Reply([7 + 2 * |registers|] + WriteSubBytes(WriteSub(6, file, record, registers)))
    requires o.Exception? ==> IsException(o.code)
    modifies client`idx, client`unitId, client`fc, client`transactionId, client`broadcast, client`ignored
    modifies client`complete, client`avail, client`msg, client`rx, client.buf
    ensures client.Valid() && client.rx == [] && err == Returned(o)
  {
    hide Emitted, Responses.ResArrived, Responses.FormError, Responses.FormLeft, WriteSubBytes;
    WriteSubLength(WriteSub(6, file, record, registers));
    CountedOnLine(client.transport, client.crc, h, o, 251);
    if o.Reply? {
      EchoInMessage(client.transport, Message(client.transport, client.rx), WriteSub(6, file, record, registers));
    }
    err := FileResponses.RecvWriteFileRecordRes(client, file, record, registers);
  }

  lemma EchoInMessage(t: Transport, m: seq<byte>, sub: WriteSub)
    requires |sub.registers| <= 122
    requires var n := HeaderLength(t); |m| >= n + 8 + 2 * |sub.registers| && m[n] == 7 + 2 * |sub.registers|
    requires var n := HeaderLength(t); m[n + 1..n + 1 + m[n]] == WriteSubBytes(sub)
    ensures FileResponses.OneEcho(t, m) && FileResponses.Echoed(t, m) == sub
  {
    hide WordsOf, BeAll;
    var n := HeaderLength(t);
    var b := m[n + 1..n + 1 + m[n]];
    WriteSubHeader(sub, []);
    assert b + [] == b;
    assert forall i {:trigger b[i]} :: 0 <= i < 7 ==> b[i] == m[n + 1 + i];
    assert b[7..] == m[n + 8..n + 1 + m[n]];
    WordsOfBeAll(sub.registers);
  }
}
