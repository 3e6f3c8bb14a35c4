/** The handlers of FC 20 and FC 21. */
module FileServer {
  import opened Words
  import opened Frames
  import opened ByteOrder
  import opened Engine
  import opened Responses
  import opened Requests
  import opened Serving
  import opened FileRecords
  import Server

  // ----- FC 20

  /** One sub-response: its length, the reference type, and the registers that the callback stored, exchanged. */
  method PutReadPart(n: Nmbs, length: u16, registers: Registers)
    requires n.Valid() && length <= 124 && n.idx + 2 + 2 * length <= BUFFER_SIZE
    modifies n`idx, n.buf
    ensures n.Valid() && n.idx == old(n.idx) + 2 + 2 * length
    ensures n.Out() == old(n.Out()) + ReadPart(length, registers)
  {
    hide WordsOf, BeAll, HostWords, Exchanged;
    ghost var before := n.Out();
    n.Put1(2 * length + 1);
    n.Put1(0x06);
    ghost var front := n.Out();
    var at := n.idx;
    n.GetN(2 * length);
    StoreHost(n.buf, at, registers[..length]);
    ghost var stored := n.buf[at..at + 2 * length];
    SwapRegs(n.buf, at, length);
    LineCarriesHost(stored, n.buf[at..at + 2 * length]);
    assert n.Out() == n.buf[..at] + n.buf[at..at + 2 * length];
    assert n.buf[..at] == front;
    assert front == before + [2 * length + 1, 6];
  }

  /** The loop over the sub-requests: one callback each, until one fails. */
  method PutReadParts<D>(n: Nmbs, callback: (D, u16, u16, u16, byte) -> RegistersRead<D>, dev: D, subs: seq<ReadSub>)
    returns (p: Parts<D>)
    requires n.Valid() && AllLegalReads(subs) && n.idx + PartsSize(subs) <= BUFFER_SIZE
    modifies n`idx, n.buf
    ensures n.Valid() && n.idx <= old(n.idx) + PartsSize(subs)
    ensures p == ReadParts(callback, dev, n.unitId, subs)
    ensures p.failed.None? ==> n.Out() == old(n.Out()) + p.data && n.idx == old(n.idx) + PartsSize(subs)
  {
    hide Nmbs.Out;
    p := Parts([], None, dev);
    ghost var before, from := n.Out(), n.idx;
    assert before + [] == before;
    for i := 0 to |subs|
      invariant n.Valid() && p.failed.None? && n.idx == from + PartsSize(subs[..i]) <= from + PartsSize(subs)
      invariant p == ReadParts(callback, dev, n.unitId, subs[..i])
      invariant n.Out() == before + p.data
      modifies n`idx, n.buf
    {
      var s := subs[i];
      assert LegalRead(s);
      assert subs[..i + 1][..i] == subs[..i];
      PartsSizeGrows(subs, i + 1);
      var r := callback(p.dev, s.file, s.record, s.length, n.unitId);
      if r.error != ERROR_NONE {
        p := Parts(p.data, Some(FailureCode(r.error)), r.dev);
        FailureEndsReading(callback, dev, n.unitId, subs, i + 1);
        return;
      }
      PutReadPart(n, s.length, r.registers);
      assert (before + p.data) + ReadPart(s.length, r.registers) == before + (p.data + ReadPart(s.length, r.registers));
      p := Parts(p.data + ReadPart(s.length, r.registers), None, r.dev);
    }
    assert subs[..|subs|] == subs;
  }

  /** The response to legal sub-requests fits the buffer and its size fits a byte. */
  predicate PartsFit(t: Transport, subs: seq<ReadSub>) {
    PartsSize(subs) < 0x100 && HeaderLength(t) + 1 + PartsSize(subs) + TrailerLength(t) <= BUFFER_SIZE
  }

  method AnswerReadFile<D>(n: Nmbs, cbs: Callbacks<D>, dev: D, requestSize: byte, subs: seq<ReadSub>,
                           ghost bytes: seq<byte>)
    returns (err: int, dev': D)
    requires n.Valid() && subs == ReadSubs(bytes) && requestSize == |bytes|
    requires AllLegalReads(subs) ==> PartsFit(n.transport, subs)
    modifies n`idx, n`fc, n`tx, n.buf
    ensures n.Valid() && err == ERROR_NONE
    ensures var (o, d) := ServeReadFile(cbs, dev, n.unitId, n.broadcast, bytes);
      dev' == d && n.tx == old(n.tx) + Emitted(n.transport, n.crc, old(n.Head()), o)
  {
    hide AllLegalReads, ReadSubs, Emitted, HeaderBytes, PartsSize, ReadParts;
    dev' := dev;
    if requestSize % 7 != 0 {
      err := n.SendExceptionMsg(ILLEGAL_DATA_VALUE);
      return;
    }
    if requestSize < 0x07 {
      err := n.SendExceptionMsg(ILLEGAL_DATA_VALUE);
      return;
    }
    var legal := CheckReads(subs);
    if !legal {
      err := n.SendExceptionMsg(ILLEGAL_DATA_ADDRESS);
      return;
    }
    if cbs.readFileRecord.None? {
      err := n.SendExceptionMsg(ILLEGAL_FUNCTION);
      return;
    }
    err, dev' := ExecuteReadFile(n, cbs.readFileRecord.value, dev, subs);
  }

  method CheckReads(subs: seq<ReadSub>) returns (legal: bool)
    ensures legal <==> AllLegalReads(subs)
  {
    for i := 0 to |subs|
      invariant forall j :: 0 <= j < i ==> LegalRead(subs[j])
    {
      if subs[i].reference != 0x06 || subs[i].file == 0x0000 || subs[i].record > 0x270F || subs[i].length > 124 {
        assert !LegalRead(subs[i]);
        return false;
      }
    }
    legal := true;
  }

  method ExecuteReadFile<D>(n: Nmbs, callback: (D, u16, u16, u16, byte) -> RegistersRead<D>, dev: D,
                            subs: seq<ReadSub>)
    returns (err: int, dev': D)
    requires n.Valid() && AllLegalReads(subs) && PartsFit(n.transport, subs)
    modifies n`idx, n`fc, n`tx, n.buf
    ensures n.Valid() && err == ERROR_NONE
    ensures var p := ReadParts(callback, dev, n.unitId, subs);
      && dev' == p.dev
      && |p.data| <= 0x100
      && n.tx == old(n.tx) + Emitted(n.transport, n.crc, old(n.Head()),
           if p.failed.Some? then Exception(p.failed.value)
           else if n.broadcast then Silent
           else Reply([PartsSize(subs) % 0x100] + p.data))
  {
    hide AllLegalReads, HeaderBytes, PartsSize, ReadParts, Nmbs.Out;
    var responseDataSize := ResponseDataSize(subs);
    n.PutMsgHeader(1 + responseDataSize);
    ghost var header := n.Out();
    n.Put1(responseDataSize);
    PartsSizeIsLength(callback, dev, n.unitId, subs);
    PartsSizeBounds(callback, dev, n.unitId, subs);
    var p := PutReadParts(n, callback, dev, subs);
    dev' := p.dev;
    if p.failed.Some? {
      err := n.SendExceptionMsg(p.failed.value);
      return;
    }
    if !n.broadcast {
      Server.CountThenRest(header, responseDataSize, p.data);
      err := n.SendMsg();
      return;
    }
    err := ERROR_NONE;
  }

  /** Summed up while the sub-requests are read. */
  method ResponseDataSize(subs: seq<ReadSub>) returns (size: nat)
    ensures size == PartsSize(subs)
  {
    size := 0;
    for i := 0 to |subs|
      invariant size == PartsSize(subs[..i])
    {
      assert subs[..i + 1][..i] == subs[..i];
      size := size + 2 + 2 * subs[i].length;
    }
    assert subs[..|subs|] == subs;
  }

  /** The loop that takes the sub-requests out of the buffer. */
  method GetReadSubs(n: Nmbs, requestSize: byte) returns (subs: seq<ReadSub>)
    requires n.Valid() && n.Receiving() && n.idx + requestSize <= n.avail
    modifies n`idx
    ensures n.Valid() && n.Receiving() && n.idx == old(n.idx) + requestSize <= |n.msg|
    ensures subs == ReadSubs(n.msg[old(n.idx)..n.idx])
  {
    hide Nmbs.Receiving;
    n.Bounds();
    ghost var from := n.idx;
    subs := [];
    for i := 0 to requestSize / 7
      invariant n.Valid() && n.Receiving() && n.idx == from + 7 * i && |subs| == i
      invariant forall j :: 0 <= j < i ==> subs[j] == ReadSubAt(n.msg, from + 7 * j)
      modifies n`idx
    {
      var referenceType := n.Get1();
      var fileNumber := n.Get2();
      var recordNumber := n.Get2();
      var recordLength := n.Get2();
      subs := subs + [ReadSub(referenceType, fileNumber, recordNumber, recordLength)];
    }
    n.DiscardN(requestSize % 7);
    ghost var bytes := n.msg[from..n.idx];
    forall j | 0 <= j < |subs|
      ensures subs[j] == ReadSubAt(bytes, 7 * j)
    {
      ReadSubInSlice(n.msg, from, n.idx, 7 * j);
    }
  }

  lemma ReadSubInSlice(m: seq<byte>, from: nat, to: nat, i: nat)
    requires from + i + 7 <= to <= |m|
    ensures ReadSubAt(m[from..to], i) == ReadSubAt(m, from + i)
  {
    var b := m[from..to];
    assert forall k :: i <= k < i + 7 ==> b[k] == m[from + k];
  }

  ghost predicate ReadFileArrived(t: Transport, m: seq<byte>) {
    && BodyArrived(t, m, RequestForm(20))
    && (!OverLimit(t, m, RequestForm(20)) ==>
         var subs := ReadSubs(m[HeaderLength(t) + 1..BodyEnd(t, m, RequestForm(20))]);
         AllLegalReads(subs) ==> PartsFit(t, subs))
  }

  method HandleReadFileRecord<D>(n: Nmbs, cbs: Callbacks<D>, dev: D) returns (err: int, dev': D)
    requires Server.Handling(n) && n.fc == 20 && !n.ignored
    requires ReadFileArrived(n.transport, n.msg)
    modifies n`idx, n`fc, n`tx, n`rx, n`avail, n.buf
    ensures n.Valid()
    ensures OverLimit(n.transport, n.msg, RequestForm(20)) ==>
      && err == ERROR_INVALID_REQUEST && dev' == dev && n.tx == old(n.tx)
      && n.rx == LineLeft(n.transport, n.msg, HeaderLength(n.transport) + 1, old(n.rx))
    ensures !OverLimit(n.transport, n.msg, RequestForm(20)) ==>
      var end := BodyEnd(n.transport, n.msg, RequestForm(20));
      if !TrailerFits(n.transport, n.crc, n.msg, end) then
        && err == ERROR_CRC && dev' == dev && n.tx == old(n.tx)
        && n.rx == LineLeft(n.transport, n.msg, end + TrailerLength(n.transport), old(n.rx))
      else
        var (o, d) := ServeReadFile(cbs, dev, n.unitId, n.broadcast, n.msg[HeaderLength(n.transport) + 1..end]);
        && err == ERROR_NONE && dev' == d
        && n.tx == old(n.tx) + Emitted(n.transport, n.crc, old(n.Head()), o)
        && n.rx == LineLeft(n.transport, n.msg, end + TrailerLength(n.transport), old(n.rx))
  {
    hide Nmbs.Receiving, ServeReadFile, Emitted, TrailerFits, AllLegalReads, ReadSubs, PartsFit;
    dev' := dev;
    err := n.Recv(1);
    if err != ERROR_NONE {
      return;
    }
    var requestSize := n.Get1();
    n.BehindFooter();
    if requestSize > 245 {
      return ERROR_INVALID_REQUEST, dev;
    }
    err := n.Recv(requestSize);
    if err != ERROR_NONE {
      return;
    }
    ghost var from := n.idx;
    var subs := GetReadSubs(n, requestSize);
    ghost var bytes := n.msg[from..n.idx];
    err := n.RecvMsgFooter();
    n.BehindFooter();
    if err != ERROR_NONE {
      return;
    }
    err, dev' := AnswerReadFile(n, cbs, dev, requestSize, subs, bytes);
  }

  // ----- FC 21

  ghost function SubAt(m: seq<byte>, i: nat): WriteSub
    requires i + 7 <= |m| && i + 7 + 2 * WordAt(m, i + 5) <= |m|
  {
    WriteSub(m[i], WordAt(m, i + 1), WordAt(m, i + 3), WordsOf(m[i + 7..i + 7 + 2 * WordAt(m, i + 5)]))
  }

  /** The sub-requests from a position on: one, and those behind it. */
  lemma SubsSplit(m: seq<byte>, i: nat, end: nat)
    requires i < end <= |m| && WriteSubs(m[i..end]).Some?
    ensures i + 7 <= end && i + 7 + 2 * WordAt(m, i + 5) <= end
    ensures var next := i + 7 + 2 * WordAt(m, i + 5);
      && WriteSubs(m[next..end]).Some?
      && WriteSubs(m[i..end]).value == [SubAt(m, i)] + WriteSubs(m[next..end]).value
  {
    hide WordsOf, WriteSubs;
    var b := m[i..end];
    FirstWriteSub(b);
    var k := WriteSubSize(b);
    assert b[k..] == b[k..|b|];
    SliceOfSlice(m, i, end, k, |b|);
    SliceOfSlice(m, i, end, 7, k);
  }

  /** One turn of the first loop: whether the header of the sub-request at the index is legal. */
  method CheckOne(n: Nmbs) returns (legal: bool, length: u16)
    requires n.Valid() && n.Receiving() && n.idx + 7 <= n.avail && n.idx + 7 + 2 * WordAt(n.msg, n.idx + 5) <= n.avail
    modifies n`idx
    ensures n.Valid() && n.Receiving()
    ensures length == WordAt(n.msg, old(n.idx) + 5) && n.idx == old(n.idx) + 7 + 2 * length <= |n.msg|
    ensures legal <==> LegalWrite(SubAt(n.msg, old(n.idx)))
  {
    hide Nmbs.Receiving;
    n.Bounds();
    var referenceType := n.Get1();
    var fileNumber := n.Get2();
    var recordNumber := n.Get2();
    length := n.Get2();
    n.DiscardN(length * 2);
    if referenceType != 0x06 {
      return false, length;
    }
    if fileNumber == 0x0000 {
      return false, length;
    }
    if recordNumber > 0x270F {
      return false, length;
    }
    if length > 122 {
      return false, length;
    }
    legal := true;
  }

  /** The first loop: no callback, only the index moves. */
  method CheckAll(n: Nmbs, requestSize: byte, ghost end: nat) returns (legal: bool)
    requires n.Valid() && n.Receiving() && end == n.idx + requestSize <= n.avail <= |n.msg| && requestSize >= 7
    requires WriteSubs(n.msg[n.idx..end]).Some?
    modifies n`idx
    ensures n.Valid() && n.Receiving()
    ensures legal <==> AllLegalWrites(WriteSubs(n.msg[old(n.idx)..end]).value)
  {
    hide Nmbs.Receiving, WriteSubs, LegalWrite;
    var size: int := requestSize;
    ghost var all := WriteSubs(n.msg[n.idx..end]).value;
    while size >= 7
      invariant n.Valid() && n.Receiving() && n.idx + size == end && 0 <= size
      invariant WriteSubs(n.msg[n.idx..end]).Some?
      invariant AllLegalWrites(all) <==> AllLegalWrites(WriteSubs(n.msg[n.idx..end]).value)
    {
      SubsSplit(n.msg, n.idx, end);
      ghost var first := SubAt(n.msg, n.idx);
      ghost var subs := WriteSubs(n.msg[n.idx..end]).value;
      assert first == subs[0];
      var ok, length := CheckOne(n);
      if !ok {
        return false;
      }
      size := size - (7 + length * 2);
      ghost var rest := WriteSubs(n.msg[n.idx..end]).value;
      assert forall s :: s in subs <==> s == first || s in rest;
    }
    NoneLeft(n.msg, n.idx, end);
    legal := true;
  }

  lemma NoneLeft(m: seq<byte>, i: nat, end: nat)
    requires i <= end < i + 7 && end <= |m| && WriteSubs(m[i..end]).Some?
    ensures i == end && WriteSubs(m[i..end]).value == []
  {}

  /**
   * The registers of a sub-request are exchanged in place for the callback and, if it succeeds, exchanged back.
   */
  method CallInHostOrder<D>(buf: array<byte>, at: nat, length: u16, callback: (D, u16, u16, seq<u16>, byte) -> Done<D>,
                            dev: D, fileNumber: u16, recordNumber: u16, unitId: byte)
    returns (r: Done<D>)
    requires at + 2 * length <= buf.Length
    modifies buf
    ensures r == callback(dev, fileNumber, recordNumber, WordsOf(old(buf[at..at + 2 * length])), unitId)
    ensures r.error == ERROR_NONE ==> buf[..] == old(buf[..])
  {
    ghost var line := buf[at..at + 2 * length];
    ghost var front, back := buf[..at], buf[at + 2 * length..];
    assert buf[..] == front + line + back;
    SwapRegs(buf, at, length);
    ghost var swapped := buf[at..at + 2 * length];
    HostSeesLine(line, swapped);
    var data := LoadHost(buf, at, length);
    r := callback(dev, fileNumber, recordNumber, data, unitId);
    if r.error != ERROR_NONE {
      return;
    }
    SwapRegs(buf, at, length);
    ExchangedTwice(line, swapped, buf[at..at + 2 * length]);
    assert buf[..] == buf[..at] + buf[at..at + 2 * length] + buf[at + 2 * length..];
  }

  /** One turn of the second loop. */
  method WriteOne<D>(n: Nmbs, callback: (D, u16, u16, seq<u16>, byte) -> Done<D>, dev: D)
    returns (r: Done<D>, length: u16)
    requires n.Valid() && n.Receiving() && n.idx + 7 <= n.avail && n.idx + 7 + 2 * WordAt(n.msg, n.idx + 5) <= n.avail
    modifies n`idx, n.buf
    ensures n.Valid() && n.idx <= |n.msg|
    ensures var s := SubAt(n.msg, old(n.idx)); r == callback(dev, s.file, s.record, s.registers, n.unitId)
    ensures length == WordAt(n.msg, old(n.idx) + 5) && n.idx == old(n.idx) + 7 + 2 * length
    ensures r.error == ERROR_NONE ==> n.Receiving()
  {
    hide Nmbs.Receiving;
    n.Bounds();
    ghost var s := SubAt(n.msg, n.idx);
    n.Discard1();
    var fileNumber := n.Get2();
    var recordNumber := n.Get2();
    length := n.Get2();
    var at := n.idx;
    n.DiscardN(length * 2);
    n.InBuffer(at, at + 2 * length);
    assert s == WriteSub(s.reference, fileNumber, recordNumber, WordsOf(n.buf[at..at + 2 * length]));
    label before:
    r := CallInHostOrder(n.buf, at, length, callback, dev, fileNumber, recordNumber, n.unitId);
    if r.error == ERROR_NONE {
      n.SameBuffer@before();
    }
  }

  method WriteEach<D>(n: Nmbs, callback: (D, u16, u16, seq<u16>, byte) -> Done<D>, dev: D, requestSize: byte,
                      ghost end: nat)
    returns (r: Done<D>)
    requires n.Valid() && n.Receiving() && end == n.idx + requestSize <= n.avail <= |n.msg| && requestSize >= 7
    requires WriteSubs(n.msg[n.idx..end]).Some?
    modifies n`idx, n.buf
    ensures n.Valid() && (r.error == ERROR_NONE ==> n.Receiving())
    ensures r == WriteAll(callback, dev, n.unitId, WriteSubs(n.msg[old(n.idx)..end]).value)
  {
    hide Nmbs.Receiving, WriteSubs;
    r := Done(ERROR_NONE, dev);
    var size: int := requestSize;
    ghost var all := WriteSubs(n.msg[n.idx..end]).value;
    while size >= 7
      invariant n.Valid() && n.Receiving() && n.idx + size == end && 0 <= size
      invariant WriteSubs(n.msg[n.idx..end]).Some? && r.error == ERROR_NONE
      invariant WriteAll(callback, dev, n.unitId, all)
             == WriteAll(callback, r.dev, n.unitId, WriteSubs(n.msg[n.idx..end]).value)
    {
      SubsSplit(n.msg, n.idx, end);
      ghost var first, subs := SubAt(n.msg, n.idx), WriteSubs(n.msg[n.idx..end]).value;
      assert first == subs[0];
      var length;
      r, length := WriteOne(n, callback, r.dev);
      if r.error != ERROR_NONE {
        return;
      }
      size := size - (7 + length * 2);
      assert subs[1..] == WriteSubs(n.msg[n.idx..end]).value;
    }
    NoneLeft(n.msg, n.idx, end);
  }

  /** Behind the footer: the request of the given size stands in the buffer at a saved index. */
  method AnswerWriteFile<D>(n: Nmbs, cbs: Callbacks<D>, dev: D, requestSize: byte, msgBufIdx: nat)
    returns (err: int, dev': D)
    requires n.Valid() && n.Receiving()
    requires msgBufIdx == HeaderLength(n.transport) + 1
    requires msgBufIdx + requestSize + TrailerLength(n.transport) <= n.avail <= |n.msg|
    requires n.msg[msgBufIdx - 1] == requestSize
    requires WriteSubs(n.msg[msgBufIdx..msgBufIdx + requestSize]).Some?
    requires n.msg[..HeaderLength(n.transport)] == HeaderBytes(n.transport, n.Head(), 1 + requestSize)
    modifies n`idx, n`fc, n`tx, n.buf
    ensures n.Valid() && err == ERROR_NONE
    ensures var (o, d) := ServeWriteFile(cbs, dev, n.unitId, n.broadcast, n.msg[msgBufIdx..msgBufIdx + requestSize]);
      dev' == d && n.tx == old(n.tx) + Emitted(n.transport, n.crc, old(n.Head()), o)
  {
    hide Nmbs.Receiving, WriteSubs, AllLegalWrites, WriteAll, Emitted, HeaderBytes;
    dev' := dev;
    n.RestoreIdx(msgBufIdx);
    if requestSize < 7 {
      err := n.SendExceptionMsg(ILLEGAL_DATA_VALUE);
      return;
    }
    var legal := CheckAll(n, requestSize, msgBufIdx + requestSize);
    if !legal {
      err := n.SendExceptionMsg(ILLEGAL_DATA_ADDRESS);
      return;
    }
    n.RestoreIdx(msgBufIdx);
    if cbs.writeFileRecord.None? {
      err := n.SendExceptionMsg(ILLEGAL_FUNCTION);
      return;
    }
    err, dev' := ExecuteWriteFile(n, cbs.writeFileRecord.value, dev, requestSize);
  }

  /** The outcome of the callbacks for checked sub-requests. */
  function Executed<D>(w: Done<D>, broadcast: bool, bytes: seq<byte>): Outcome
    requires |bytes| < 0x100
  {
    if w.error != ERROR_NONE then Exception(FailureCode(w.error))
    else if broadcast then Silent
    else Reply([|bytes|] + bytes)
  }

  method ExecuteWriteFile<D>(n: Nmbs, callback: (D, u16, u16, seq<u16>, byte) -> Done<D>, dev: D, requestSize: byte)
    returns (err: int, dev': D)
    requires n.Valid() && n.Receiving() && n.idx == HeaderLength(n.transport) + 1 && requestSize >= 7
    requires n.idx + requestSize + TrailerLength(n.transport) <= n.avail <= |n.msg|
    requires n.msg[n.idx - 1] == requestSize
    requires WriteSubs(n.msg[n.idx..n.idx + requestSize]).Some?
    requires n.msg[..HeaderLength(n.transport)] == HeaderBytes(n.transport, n.Head(), 1 + requestSize)
    modifies n`idx, n`fc, n`tx, n.buf
    ensures n.Valid() && err == ERROR_NONE
    ensures var bytes := n.msg[old(n.idx)..old(n.idx) + requestSize];
      var w := WriteAll(callback, dev, n.unitId, WriteSubs(bytes).value);
      && dev' == w.dev
      && n.tx == old(n.tx) + Emitted(n.transport, n.crc, old(n.Head()), Executed(w, n.broadcast, bytes))
  {
    hide Nmbs.Receiving, WriteSubs, WriteAll, HeaderBytes;
    var msgBufIdx := n.idx;
    ghost var end := msgBufIdx + requestSize;
    var r := WriteEach(n, callback, dev, requestSize, end);
    dev' := r.dev;
    if r.error != ERROR_NONE {
      err := Server.AnswerFailure(n, r.error);
      return;
    }
    if !n.broadcast {
      n.RestoreIdx(msgBufIdx);
      n.DiscardN(requestSize);
      EchoIsRequest(n, end);
      err := n.SendMsg();
      return;
    }
    err := ERROR_NONE;
  }

  lemma EchoIsRequest(n: Nmbs, end: nat)
    requires n.Valid() && n.Receiving() && n.idx == end
    requires HeaderLength(n.transport) + 1 <= end <= |n.msg| && end <= HeaderLength(n.transport) + 0x100
    requires n.msg[HeaderLength(n.transport)] == end - HeaderLength(n.transport) - 1
    requires n.msg[..HeaderLength(n.transport)]
          == HeaderBytes(n.transport, n.Head(), end - HeaderLength(n.transport))
    ensures var h := HeaderLength(n.transport);
      n.Out() == HeaderBytes(n.transport, n.Head(), end - h) + ([n.msg[h]] + n.msg[h + 1..end])
  {
    var h := HeaderLength(n.transport);
    assert n.Out() == n.msg[..end] by {
      assert n.buf[..n.avail][..end] == n.msg[..n.avail][..end];
    }
    assert n.msg[..end] == n.msg[..h] + ([n.msg[h]] + n.msg[h + 1..end]);
  }

  /** A whole request whose sub-requests fill it exactly, on TCP with a length field that says so. */
  ghost predicate WriteFileArrived(t: Transport, m: seq<byte>) {
    && BodyArrived(t, m, RequestForm(21))
    && (t.TCP? ==> |m| == BodyEnd(t, m, RequestForm(21)))
    && (!OverLimit(t, m, RequestForm(21)) ==>
         WriteSubs(m[HeaderLength(t) + 1..BodyEnd(t, m, RequestForm(21))]).Some?)
  }

  method HandleWriteFileRecord<D>(n: Nmbs, cbs: Callbacks<D>, dev: D) returns (err: int, dev': D)
    requires Server.Handling(n) && n.fc == 21 && !n.ignored
    requires WriteFileArrived(n.transport, n.msg)
    modifies n`idx, n`fc, n`tx, n`rx, n`avail, n.buf
    ensures n.Valid()
    ensures OverLimit(n.transport, n.msg, RequestForm(21)) ==>
      && err == ERROR_INVALID_REQUEST && dev' == dev && n.tx == old(n.tx)
      && n.rx == LineLeft(n.transport, n.msg, HeaderLength(n.transport) + 1, old(n.rx))
    ensures !OverLimit(n.transport, n.msg, RequestForm(21)) ==>
      var end := BodyEnd(n.transport, n.msg, RequestForm(21));
      if !TrailerFits(n.transport, n.crc, n.msg, end) then
        && err == ERROR_CRC && dev' == dev && n.tx == old(n.tx)
        && n.rx == LineLeft(n.transport, n.msg, end + TrailerLength(n.transport), old(n.rx))
      else
        var (o, d) := ServeWriteFile(cbs, dev, n.unitId, n.broadcast, n.msg[HeaderLength(n.transport) + 1..end]);
        && err == ERROR_NONE && dev' == d
        && n.tx == old(n.tx) + Emitted(n.transport, n.crc, old(n.Head()), o)
        && n.rx == LineLeft(n.transport, n.msg, end + TrailerLength(n.transport), old(n.rx))
  {
    hide Nmbs.Receiving, WriteSubs, ServeWriteFile, Emitted, TrailerFits, HeaderBytes;
    dev' := dev;
    err := n.Recv(1);
    if err != ERROR_NONE {
      return;
    }
    var requestSize := n.Get1();
    n.BehindFooter();
    if requestSize > 251 {
      return ERROR_INVALID_REQUEST, dev;
    }
    err := n.Recv(requestSize);
    if err != ERROR_NONE {
      return;
    }
    var msgBufIdx := n.idx;
    n.DiscardN(requestSize);
    err := n.RecvMsgFooter();
    n.BehindFooter();
    if err != ERROR_NONE {
      return;
    }
    n.Bounds();
    HeaderWritesBack(n.transport, n.msg, 1 + requestSize);
    err, dev' := AnswerWriteFile(n, cbs, dev, requestSize, msgBufIdx);
  }
}
