/** Frames on the line: a frame that one side builds is the message that the other side reads. */
module Wire {
  import opened Words
  import opened Frames
  import opened Engine
  import opened Responses
  import opened Requests
  import Serving
  import opened FileRecords
  import FileServer
  import opened Polling

  /** As much data as a PDU of 253 bytes has room for behind the function code. */
  const MAX_DATA := 252

  /** On RTU the transaction id does not travel. */
  function AsRead(t: Transport, h: Header): Header {
    if t.RTU? then h.(transactionId := 0) else h
  }

  /** The frame, followed by anything, begins with exactly the message it was built from. */
  lemma FrameIsMessage(t: Transport, crc: CrcFunction, h: Header, data: seq<byte>, rest: seq<byte>)
    requires |data| <= MAX_DATA
    ensures var s, n := Frame(t, crc, h, data) + rest, HeaderLength(t);
      && HeaderArrived(t, s) && MbapOk(t, s)
      && HeaderOf(t, s) == AsRead(t, h)
      && Message(t, s) == (if t.RTU? then s else Frame(t, crc, h, data))
      && DataAt(Message(t, s), n, data)
      && |Frame(t, crc, h, data)| == n + |data| + TrailerLength(t)
      && n + |data| + TrailerLength(t) <= |Message(t, s)|
      && TrailerFits(t, crc, Message(t, s), n + |data|)
  {
    var head := HeaderBytes(t, h, |data|);
    var m := head + data;
    var f := Frame(t, crc, h, data);
    var s := f + rest;
    if t.RTU? {
      assert s[..2 + |data|] == m;
      assert s[2..2 + |data|] == data;
      BeRoundTrip(crc(m));
      assert s[2 + |data|..4 + |data|] == Be(crc(m));
      assert WordAt(s, 2 + |data|) == WordAt(s[2 + |data|..4 + |data|], 0);
    } else {
      assert f == m;
      MbapFields(crc, h, data, rest);
      assert f[8..] == data;
      assert s[..|f|] == f;
    }
  }

  lemma MbapFields(crc: CrcFunction, h: Header, data: seq<byte>, rest: seq<byte>)
    requires |data| <= MAX_DATA
    ensures var s := Frame(TCP, crc, h, data) + rest;
      && |s| >= 8
      && WordAt(s, 0) == h.transactionId && WordAt(s, 2) == 0 && WordAt(s, 4) == 2 + |data|
      && s[6] == h.unitId && s[7] == h.fc
  {
    var head: seq<byte> := HeaderBytes(TCP, h, |data|);
    var s := Frame(TCP, crc, h, data) + rest;
    HeadInBytes(h, |data|);
    assert s[..8] == head;
    forall i | 0 <= i < 8
      ensures s[i] == head[i]
    {
      assert s[..8][i] == s[i];
    }
    WordInBytes(h.transactionId);
    WordInBytes(2 + |data|);
  }

  lemma HeadInBytes(h: Header, n: nat)
    requires n <= MAX_DATA
    ensures HeaderBytes(TCP, h, n)
         == [h.transactionId / 0x100, h.transactionId % 0x100, 0, 0, 0, 2 + n, h.unitId, h.fc]
  {}

  lemma WordInBytes(x: u16)
    ensures U16(x / 0x100, x % 0x100) == x
  {}

  // ----- a request frame at the server

  /** The request's byte count is within the server's limit, and its bytes have the form that the server reads. */
  ghost predicate Serveable(t: Transport, r: Request) {
    && Countable(r)
    && |RequestData(r)| <= MAX_DATA
    && (r.WriteCoils? ==> |r.bytes| <= 246)
    && (r.WriteRegisters? ==> |r.bytes| <= 246 && |r.bytes| % 2 == 0)
    && (r.ReadFile? ==>
         |r.bytes| <= 245 && (AllLegalReads(ReadSubs(r.bytes)) ==> FileServer.PartsFit(t, ReadSubs(r.bytes))))
    && (r.WriteFile? ==> |r.bytes| <= 251 && WriteSubs(r.bytes).Some?)
    && (r.ReadWrite? ==> |r.bytes| <= 242 && |r.bytes| % 2 == 0)
  }

  lemma RequestFrameArrives(t: Transport, r: Request, m: seq<byte>)
    requires Serveable(t, r) && DataAt(m, HeaderLength(t), RequestData(r))
    requires |m| >= HeaderLength(t) + |RequestData(r)| + TrailerLength(t)
    requires t.TCP? ==> |m| == HeaderLength(t) + |RequestData(r)|
    ensures FunctionCode(r) in FUNCTIONS
    ensures RequestArrived(t, m, FunctionCode(r))
    ensures !OverLimit(t, m, RequestForm(FunctionCode(r)))
    ensures BodyEnd(t, m, RequestForm(FunctionCode(r))) == HeaderLength(t) + |RequestData(r)|
    ensures ParseRequest(FunctionCode(r), m, HeaderLength(t)) == r
  {
    hide ReadSubs, WriteSubs, AllLegalReads, FileServer.PartsFit, WordAt;
    ParseUndoesWrite(r, m, HeaderLength(t));
  }

  /** A server that is addressed, or that hears a broadcast, serves the framed request and leaves what follows it. */
  lemma PollOfFrame<D>(t: Transport, crc: CrcFunction, address: byte, cbs: Serving.Callbacks<D>, dev: D, h: Header,
                       r: Request, rest: seq<byte>)
    requires Serveable(t, r) && h.fc == FunctionCode(r)
    requires t.RTU? ==> h.unitId == address || h.unitId == BROADCAST_ADDRESS
    ensures var s := Frame(t, crc, h, RequestData(r)) + rest;
      && LineReady(t, crc, address, s)
      && var (o, d) := ServeRequest(cbs, dev, h.unitId, t.RTU? && h.unitId == BROADCAST_ADDRESS, r);
         PollResult(t, crc, address, cbs, dev, s) == Polled(ERROR_NONE, d, Emitted(t, crc, h, o), rest)
  {
    hide Frame, RequestData, RequestArrived, ServeRequest, TrailerFits, ParseRequest, DataAt, RequestForm;
    hide ReadSubs, WriteSubs, AllLegalReads, FileServer.PartsFit;
    var data := RequestData(r);
    var s := Frame(t, crc, h, data) + rest;
    FrameIsMessage(t, crc, h, data, rest);
    RequestFrameArrives(t, r, Message(t, s));
    BehindFrame(Frame(t, crc, h, data), rest);
    var (o, d) := ServeRequest(cbs, dev, h.unitId, t.RTU? && h.unitId == BROADCAST_ADDRESS, r);
    EmittedAsRead(t, crc, h, o);
  }

  lemma BehindFrame(f: seq<byte>, rest: seq<byte>)
    ensures (f + rest)[|f|..] == rest
  {}

  lemma EmittedAsRead(t: Transport, crc: CrcFunction, h: Header, o: Outcome)
    ensures Emitted(t, crc, AsRead(t, h), o) == Emitted(t, crc, h, o)
  {}

  // ----- a response frame at the client

  /** What the client makes of the header of the answer. */
  lemma ResponseHeader(t: Transport, crc: CrcFunction, h: Header, o: Outcome, rest: seq<byte>)
    requires h.fc < 0x80
    requires o.Reply? ==> |o.data| <= MAX_DATA
    requires o.Reply? || (o.Exception? && IsException(o.code))
    ensures var s := Emitted(t, crc, h, o) + rest;
      && s != []
      && ResHeaderArrived(t, h, s)
      && ResHeaderError(t, crc, h, s) == (if o.Reply? then ERROR_NONE else o.code)
      && HeaderArrived(t, s) && MbapOk(t, s)
      && (o.Exception? ==> ResHeaderLeft(t, h, s) == rest)
      && (o.Reply? ==>
           && DataAt(Message(t, s), HeaderLength(t), o.data)
           && HeaderLength(t) + |o.data| + TrailerLength(t) <= |Message(t, s)|
           && |Emitted(t, crc, h, o)| == HeaderLength(t) + |o.data| + TrailerLength(t)
           && Message(t, s) == (if t.RTU? then s else Emitted(t, crc, h, o))
           && TrailerFits(t, crc, Message(t, s), HeaderLength(t) + |o.data|))
  {
    hide Frame, TrailerFits;
    BehindFrame(Emitted(t, crc, h, o), rest);
    match o
    case Reply(data) =>
      FrameIsMessage(t, crc, h, data, rest);
    case Exception(code) =>
      var h' := h.(fc := h.fc + 0x80);
      FrameIsMessage(t, crc, h', [code], rest);
      ByteInData(Message(t, Frame(t, crc, h', [code]) + rest), HeaderLength(t), [code], 0);
  }

  /** An exception, or a reply of at most a PDU: what a server that is addressed always answers with. */
  predicate Answers(o: Outcome) {
    match o
    case Reply(data) => |data| <= MAX_DATA
    case Exception(code) => IsException(code)
    case Silent => false
  }

  /** A reply of a byte count and as many bytes is read as these bytes; an exception as its code. */
  lemma CountedAnswer(t: Transport, crc: CrcFunction, h: Header, o: Outcome, limit: byte, rest: seq<byte>)
    requires h.fc < 0x80 && Answers(o)
    requires o.Reply? ==> |o.data| >= 1 && o.data[0] == |o.data| - 1 <= limit
    ensures var s := Emitted(t, crc, h, o) + rest;
      && ResArrived(t, crc, h, s, CountedUpTo(limit))
      && s != [] && HeaderArrived(t, s) && MbapOk(t, s)
      && FormError(t, crc, h, s, CountedUpTo(limit)) == (if o.Reply? then ERROR_NONE else o.code)
      && ResHeaderError(t, crc, h, s) == FormError(t, crc, h, s, CountedUpTo(limit))
      && (o.Reply? ==>
           var m, n := Message(t, s), HeaderLength(t);
           n < |m| && m[n] == |o.data| - 1 && n + 1 + m[n] <= |m| && m[n + 1..n + 1 + m[n]] == o.data[1..])
      && FormLeft(t, crc, h, s, CountedUpTo(limit)) == rest
  {
    hide Emitted, ResHeaderError, ResHeaderArrived, ResHeaderLeft, TrailerFits;
    ResponseHeader(t, crc, h, o, rest);
    BehindFrame(Emitted(t, crc, h, o), rest);
    if o.Reply? {
      var m, n := Message(t, Emitted(t, crc, h, o) + rest), HeaderLength(t);
      ByteInData(m, n, o.data, 0);
      BytesInData(m, n, o.data, [], o.data[1..]);
    }
  }

  /** A reply that repeats two words satisfies whoever sent these words. */
  lemma WrittenAnswer(t: Transport, crc: CrcFunction, h: Header, o: Outcome, a: u16, b: u16, rest: seq<byte>)
    requires h.fc < 0x80 && Answers(o)
    requires o.Reply? ==> o.data == Be(a) + Be(b)
    ensures var s := Emitted(t, crc, h, o) + rest;
      && ResArrived(t, crc, h, s, TWO_WORDS)
      && s != [] && HeaderArrived(t, s) && MbapOk(t, s)
      && WrittenError(t, crc, h, s, a, b) == (if o.Reply? then ERROR_NONE else o.code)
      && FormLeft(t, crc, h, s, TWO_WORDS) == rest
  {
    hide Emitted, ResHeaderError, ResHeaderArrived, ResHeaderLeft, TrailerFits;
    ResponseHeader(t, crc, h, o, rest);
    BehindFrame(Emitted(t, crc, h, o), rest);
    if o.Reply? {
      var m, n := Message(t, Emitted(t, crc, h, o) + rest), HeaderLength(t);
      WordInData(m, n, o.data, 0);
      WordInData(m, n, o.data, 2);
    }
  }

  /** The answers to bit and register requests, whatever the callbacks do. */
  lemma BankAnswers<D>(cbs: Serving.Callbacks<D>, dev: D, unitId: byte, r: Request)
    requires FunctionCode(r) in {1, 2, 3, 4, 5, 6, 15, 16, 23} && (r.WriteCoils? ==> |r.bytes| <= 250)
    ensures var o := ServeRequest(cbs, dev, unitId, false, r).0;
      && Answers(o)
      && (o.Reply? && FunctionCode(r) in {1, 2, 3, 4, 23} ==> |o.data| >= 1 && o.data[0] == |o.data| - 1 <= 250)
      && (o.Reply? && (r.WriteCoil? || r.WriteRegister?) ==> o.data == Be(r.address) + Be(r.value))
      && (o.Reply? && (r.WriteCoils? || r.WriteRegisters?) ==> o.data == Be(r.address) + Be(r.quantity))
      && (o.Reply? && (r.ReadBits? || r.ReadRegisters?) ==> r.quantity >= 1 && Serving.InRange(r.address, r.quantity))
      && (o.Reply? && r.ReadBits? ==> |o.data| == 1 + (r.quantity + 7) / 8)
      && (o.Reply? && r.ReadRegisters? ==> |o.data| == 1 + 2 * r.quantity)
      && (o.Reply? && r.ReadWrite? ==> |o.data| == 1 + 2 * r.readQuantity)
  {
    hide BeAll, Serving.Padded, WordsOf;
  }
}
