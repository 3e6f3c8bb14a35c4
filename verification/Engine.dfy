/** nmbs_t: the message buffer with its codec, and the framing that client and server share. */
module Engine {
  import opened Words
  import opened Frames

  class Nmbs {
    const transport: Transport
    const crc: CrcFunction
    const buf: array<byte>
    var idx: nat
    var unitId: byte
    var fc: byte
    var transactionId: u16
    var broadcast: bool
    var ignored: bool
    var complete: bool
    var addressRtu: byte
    var destAddressRtu: byte
    var currentTid: u16
    /** The line: the bytes that read will deliver, and all bytes that write has been given. */
    var rx: seq<byte>
    var tx: seq<byte>
    /** The end of the received bytes in buf. */
    ghost var avail: nat
    /** The message being received, from its first byte; off the line it goes on to the end of the line. */
    ghost var msg: seq<byte>

    ghost predicate Valid()
      reads `idx, `avail
    {
      buf.Length == BUFFER_SIZE && idx <= BUFFER_SIZE && avail <= BUFFER_SIZE
    }

    /** The bytes written to the buffer. */
    ghost function Out(): seq<byte>
      reads `idx, `avail, buf
      requires Valid()
    {
      buf[..idx]
    }

    /** In the middle of a message: the buffer holds its beginning, the line, unless it is complete, the rest. */
    ghost predicate Receiving()
      reads `idx, `avail, `msg, `complete, `rx, buf
    {
      && Valid()
      && idx <= avail <= |msg|
      && buf[..avail] == msg[..avail]
      && if complete then avail == |msg| else rx == msg[avail..]
    }

    /** Behind the header; off the line, every received byte has been read. */
    ghost predicate InBody()
      reads `idx, `avail, `msg, `complete, `rx, buf
    {
      Valid() && Receiving() && (complete <==> transport.TCP?) && (transport.RTU? ==> avail == idx)
    }

    ghost function Head(): Header
      reads `transactionId, `unitId, `fc
    {
      Header(transactionId, unitId, fc)
    }

    constructor (transport: Transport, crc: CrcFunction, addressRtu: byte)
      ensures Valid() && fresh(buf)
      ensures this.transport == transport && this.crc == crc && this.addressRtu == addressRtu
      ensures rx == [] && tx == [] && currentTid == 0 && destAddressRtu == 0
    {
      this.transport, this.crc, this.addressRtu := transport, crc, addressRtu;
      buf := new byte[BUFFER_SIZE](i => 0);
      idx, unitId, fc, transactionId := 0, 0, 0, 0;
      broadcast, ignored, complete := false, false, false;
      destAddressRtu, currentTid := 0, 0;
      rx, tx := [], [];
      avail, msg := 0, [];
    }

    // ----- reading from the buffer

    method Get1() returns (r: byte)
      requires Receiving() && idx < avail
      modifies `idx
      ensures Valid() && Receiving() && idx == old(idx) + 1
      ensures r == msg[old(idx)]
    {
      assert buf[idx] == buf[..avail][idx];
      r := buf[idx];
      idx := idx + 1;
    }

    method Get2() returns (r: u16)
      requires Receiving() && idx + 2 <= avail
      modifies `idx
      ensures Valid() && Receiving() && idx == old(idx) + 2
      ensures r == WordAt(msg, old(idx))
    {
      assert buf[idx] == buf[..avail][idx] && buf[idx + 1] == buf[..avail][idx + 1];
      r := U16(buf[idx], buf[idx + 1]);
      idx := idx + 2;
    }

    method Discard1()
      requires Valid() && idx < BUFFER_SIZE
      modifies `idx
      ensures Valid() && idx == old(idx) + 1
      ensures old(Receiving()) && idx <= avail ==> Receiving()
    {
      idx := idx + 1;
    }

    method DiscardN(n: nat)
      requires Valid() && idx + n <= BUFFER_SIZE
      modifies `idx
      ensures Valid() && idx == old(idx) + n
      ensures old(Receiving()) && idx <= avail ==> Receiving()
    {
      idx := idx + n;
    }

    // ----- writing to the buffer

    method Put1(data: byte)
      requires Valid() && idx < BUFFER_SIZE
      modifies `idx, buf
      ensures Valid() && idx == old(idx) + 1
      ensures Out() == old(Out()) + [data]
    {
      buf[idx] := data;
      idx := idx + 1;
    }

    method Put2(data: u16)
      requires Valid() && idx + 2 <= BUFFER_SIZE
      modifies `idx, buf
      ensures Valid() && idx == old(idx) + 2
      ensures Out() == old(Out()) + Be(data)
    {
      buf[idx] := data / 0x100;
      buf[idx + 1] := data % 0x100;
      idx := idx + 2;
    }

    method Set1(data: byte, index: byte)
      requires Valid() && index < idx
      modifies buf
      ensures Out() == old(Out())[index := data]
    {
      buf[index] := data;
    }

    method Set2(data: u16, index: byte)
      requires Valid() && index + 2 <= idx
      modifies buf
      ensures var hi: byte, lo: byte := data / 0x100, data % 0x100;
        Out() == old(Out())[index := hi][index + 1 := lo]
    {
      buf[index] := data / 0x100;
      buf[index + 1] := data % 0x100;
    }

    method PutN(data: seq<byte>)
      requires Valid() && idx + |data| <= BUFFER_SIZE
      modifies `idx, buf
      ensures Valid() && idx == old(idx) + |data|
      ensures Out() == old(Out()) + data
    {
      for i := 0 to |data|
        invariant buf[..idx] == old(buf[..idx])
        invariant buf[idx..idx + i] == data[..i]
        modifies buf
      {
        buf[idx + i] := data[i];
      }
      idx := idx + |data|;
    }

    /** get_n: room for n bytes that somebody else fills in. */
    method GetN(n: nat)
      requires Valid() && idx + n <= BUFFER_SIZE
      modifies `idx
      ensures Valid() && idx == old(idx) + n
      ensures Out() == old(Out()) + buf[old(idx)..idx]
    {
      idx := idx + n;
    }

    /** The loops that put bytes or registers one by one. */
    method PutBytes(bytes: seq<byte>)
      requires Valid() && idx + |bytes| <= BUFFER_SIZE
      modifies `idx, buf
      ensures Valid() && idx == old(idx) + |bytes|
      ensures Out() == old(Out()) + bytes
    {
      hide Out;
      ghost var before, from := Out(), idx;
      assert before + bytes[..0] == before;
      for i := 0 to |bytes|
        invariant Valid() && idx == from + i
        invariant Out() == before + bytes[..i]
      {
        Put1(bytes[i]);
        assert before + bytes[..i] + [bytes[i]] == before + bytes[..i + 1];
      }
      assert bytes[..|bytes|] == bytes;
    }

    method PutRegisters(registers: seq<u16>)
      requires Valid() && idx + 2 * |registers| <= BUFFER_SIZE
      modifies `idx, buf
      ensures Valid() && idx == old(idx) + 2 * |registers|
      ensures Out() == old(Out()) + BeAll(registers)
    {
      hide Out;
      ghost var before, from := Out(), idx;
      assert before + BeAll(registers[..0]) == before;
      for i := 0 to |registers|
        invariant Valid() && idx == from + 2 * i
        invariant Out() == before + BeAll(registers[..i])
      {
        Put2(registers[i]);
        assert registers[..i + 1][..i] == registers[..i];
        assert (before + BeAll(registers[..i])) + Be(registers[i]) == before + BeAll(registers[..i + 1]);
      }
      assert registers[..|registers|] == registers;
    }

    // ----- the line

    method Recv(count: nat) returns (err: int)
      requires Valid() && Receiving()
      requires if complete then idx + count <= |msg| else avail == idx && idx + count <= BUFFER_SIZE
      modifies `rx, `avail, buf
      ensures Valid()
      ensures idx + count <= |msg| ==>
        && err == ERROR_NONE && Receiving() && idx + count <= avail <= |msg|
        && if complete then rx == old(rx) && avail == old(avail) else avail == idx + count
      ensures idx + count > |msg| ==> err == ERROR_TIMEOUT && rx == []
      ensures |rx| <= |old(rx)|
    {
      if complete {
        return ERROR_NONE;
      }
      var n := if |rx| < count then |rx| else count;
      for i := 0 to n
        invariant buf[..idx + i] == msg[..idx + i]
        modifies buf
      {
        buf[idx + i] := rx[i];
      }
      avail := idx + n;
      rx := rx[n..];
      err := if n == count then ERROR_NONE else ERROR_TIMEOUT;
    }

    method Send(count: nat) returns (err: int)
      requires Valid() && count <= BUFFER_SIZE
      modifies `tx
      ensures tx == old(tx) + buf[..count] && err == ERROR_NONE
    {
      tx := tx + buf[..count];
      err := ERROR_NONE;
    }

    /** One read of at most the buffer's size takes what is waiting on the line, and forgets it. */
    method Flush()
      requires Valid()
      modifies `rx, `avail, buf
      ensures Valid() && rx == Flushed(old(rx)) && avail == idx
    {
      var n := if |rx| < buf.Length then |rx| else buf.Length;
      for i := 0 to n
        modifies buf
      {
        buf[i] := rx[i];
      }
      avail := idx;
      rx := rx[n..];
    }

    method MsgBufReset()
      requires Valid()
      modifies `idx
      ensures Valid() && idx == 0
      ensures old(Receiving()) ==> Receiving()
    {
      idx := 0;
    }

    method MsgStateReset()
      requires Valid()
      modifies `idx, `unitId, `fc, `transactionId, `broadcast, `ignored, `complete,
               `avail, `msg
      ensures Valid() && Receiving() && idx == avail == 0 && msg == rx
      ensures Head() == Header(0, 0, 0) && !broadcast && !ignored && !complete
    {
      MsgBufReset();
      unitId := 0;
      fc := 0;
      transactionId := 0;
      broadcast := false;
      ignored := false;
      complete := false;
      avail, msg := 0, rx;
    }

    method MsgStateReq(fc: byte)
      requires Valid()
      modifies `idx, `unitId, `fc, `transactionId, `broadcast, `ignored, `complete,
               `avail, `msg, `rx, `currentTid, buf
      ensures Valid() && idx == 0 && rx == Flushed(old(rx))
      ensures currentTid == NextTid(old(currentTid))
      ensures Head() == Header(currentTid, destAddressRtu, fc)
      ensures broadcast <==> destAddressRtu == BROADCAST_ADDRESS && transport.RTU?
      ensures !ignored && !complete
    {
      if currentTid == 65535 {
        currentTid := 1;
      } else {
        currentTid := currentTid + 1;
      }
      Flush();
      MsgStateReset();
      unitId := destAddressRtu;
      this.fc := fc;
      transactionId := currentTid;
      if unitId == 0 && transport == RTU {
        broadcast := true;
      }
    }

    // ----- framing

    method RecvMsgFooter() returns (err: int)
      requires InBody() && idx + TrailerLength(transport) <= |msg|
      requires idx + TrailerLength(transport) <= BUFFER_SIZE
      modifies `rx, `avail, `idx, buf
      ensures Valid() && InBody() && idx == old(idx) + TrailerLength(transport)
      ensures err == if TrailerFits(transport, crc, msg, old(idx)) then ERROR_NONE else ERROR_CRC
      ensures transport.TCP? ==> rx == old(rx)
    {
      if transport == RTU {
        assert buf[..idx] == msg[..idx];
        var computed := crc(buf[..idx]);
        err := Recv(2);
        if err != ERROR_NONE {
          return;
        }
        var received := Get2();
        if received != computed {
          return ERROR_CRC;
        }
      }
      err := ERROR_NONE;
    }

    /** Two words and the footer: the body of most requests and of the answers to writes. */
    method RecvTwoWords() returns (err: int, a: u16, b: u16)
      requires InBody() && idx + 4 + TrailerLength(transport) <= |msg| && idx <= 8
      modifies `rx, `avail, `idx, buf
      ensures Valid() && InBody() && idx == old(idx) + 4 + TrailerLength(transport)
      ensures a == WordAt(msg, old(idx)) && b == WordAt(msg, old(idx) + 2)
      ensures err == if TrailerFits(transport, crc, msg, old(idx) + 4) then ERROR_NONE else ERROR_CRC
      ensures transport.TCP? ==> rx == old(rx)
    {
      hide Receiving;
      a, b := 0, 0;
      err := Recv(4);
      if err != ERROR_NONE {
        return;
      }
      a := Get2();
      b := Get2();
      err := RecvMsgFooter();
    }

    method PutMsgHeader(dataLength: nat)
      requires Valid()
      modifies `idx, buf
      ensures Valid() && idx == HeaderLength(transport)
      ensures Out() == HeaderBytes(transport, Head(), dataLength)
    {
      MsgBufReset();
      if transport == RTU {
        Put1(unitId);
      } else {
        Put2(transactionId);
        Put2(0);
        Put2(Uint16(1 + 1 + dataLength));
        Put1(unitId);
      }
      Put1(fc);
    }

    /** The length field set afterwards, when the length is known. */
    method SetMsgHeaderSize(dataLength: nat)
      requires Valid() && idx >= HeaderLength(transport)
      modifies buf
      ensures Out() == WithLength(transport, old(Out()), dataLength)
    {
      if transport == TCP {
        Set2(Uint16(dataLength + 2), 4);
      }
    }

    method SendMsg() returns (err: int)
      requires Valid() && idx + TrailerLength(transport) <= BUFFER_SIZE
      modifies `idx, `tx, buf
      ensures Valid() && err == ERROR_NONE
      ensures tx == old(tx) + Sealed(transport, crc, old(Out()))
    {
      if transport == RTU {
        var computed := crc(buf[..idx]);
        Put2(computed);
      }
      err := Send(idx);
    }

    /** The header of the next message on the line, or a timeout when nothing is there. */
    method RecvMsgHeader() returns (err: int, firstByteReceived: bool)
      requires Valid()
      requires rx == [] || HeaderArrived(transport, rx)
      modifies `idx, `unitId, `fc, `transactionId, `broadcast, `ignored, `complete,
               `avail, `msg, `rx, buf
      ensures Valid() && !broadcast && !ignored
      ensures firstByteReceived <==> old(rx) != []
      ensures old(rx) == [] ==> err == ERROR_TIMEOUT && rx == []
      ensures old(rx) != [] ==>
        && Head() == HeaderOf(transport, old(rx))
        && if MbapOk(transport, old(rx)) then err == ERROR_NONE
           else err == ERROR_INVALID_TCP_MBAP && rx == MbapLeft(old(rx))
      ensures err == ERROR_NONE ==>
        && InBody() && idx == HeaderLength(transport) && msg == Message(transport, old(rx))
        && (transport.TCP? ==> rx == old(rx)[|msg|..])
    {
      MsgStateReset();
      if transport == RTU {
        err, firstByteReceived := RecvRtuHeader();
      } else {
        err, firstByteReceived := RecvMbapHeader();
      }
    }

    method RecvReqHeader() returns (err: int, firstByteReceived: bool)
      requires Valid()
      requires rx == [] || HeaderArrived(transport, rx)
      modifies `idx, `unitId, `fc, `transactionId, `broadcast, `ignored, `complete,
               `avail, `msg, `rx, buf
      ensures Valid()
      ensures firstByteReceived <==> old(rx) != []
      ensures old(rx) == [] ==> err == ERROR_TIMEOUT && rx == []
      ensures old(rx) != [] ==>
        && Head() == HeaderOf(transport, old(rx))
        && if MbapOk(transport, old(rx)) then err == ERROR_NONE
           else err == ERROR_INVALID_TCP_MBAP && rx == MbapLeft(old(rx))
      ensures err == ERROR_NONE ==>
        && InBody() && idx == HeaderLength(transport) && msg == Message(transport, old(rx))
        && (transport.TCP? ==> rx == old(rx)[|msg|..])
        && (broadcast <==> transport.RTU? && unitId == BROADCAST_ADDRESS)
        && (ignored <==> transport.RTU? && unitId != BROADCAST_ADDRESS && unitId != addressRtu)
    {
      err, firstByteReceived := RecvMsgHeader();
      if err != ERROR_NONE {
        return;
      }
      if transport == RTU {
        if unitId == BROADCAST_ADDRESS {
          broadcast := true;
        } else if unitId != addressRtu {
          ignored := true;
        } else {
          ignored := false;
        }
      }
    }

    method SendExceptionMsg(exception: byte) returns (err: int)
      requires Valid()
      modifies `idx, `fc, `tx, buf
      ensures Valid() && err == ERROR_NONE
      ensures tx == old(tx) + Emitted(transport, crc, old(Head()), Exception(exception))
    {
      fc := (fc + 0x80) % 0x100;
      PutMsgHeader(1);
      Put1(exception);
      err := SendMsg();
    }

    /** The header of the answer to the request whose header the state still holds. */
    method RecvResHeader() returns (err: int)
      requires Valid()
      requires ResHeaderArrived(transport, Head(), rx)
      modifies `idx, `unitId, `fc, `transactionId, `broadcast, `ignored, `complete, `avail, `msg, `rx, buf
      ensures Valid()
      ensures err == ResHeaderError(transport, crc, old(Head()), old(rx))
      ensures err == ERROR_NONE ==>
        && InBody() && idx == HeaderLength(transport) && msg == Message(transport, old(rx))
        && (transport.TCP? ==> rx == old(rx)[|msg|..])
      ensures err != ERROR_NONE ==> rx == ResHeaderLeft(transport, old(Head()), old(rx))
      ensures |rx| <= |old(rx)|
    {
      hide Receiving;
      var reqTransactionId := transactionId;
      var reqUnitId := unitId;
      var reqFc := fc;
      var first;
      err, first := RecvMsgHeader();
      if err != ERROR_NONE {
        return;
      }
      BehindFooter();
      if transport == TCP {
        if transactionId != reqTransactionId {
          return ERROR_INVALID_TCP_MBAP;
        }
      }
      if transport == RTU && unitId != reqUnitId {
        return ERROR_INVALID_UNIT_ID;
      }
      if fc != reqFc {
        if fc - 0x80 == reqFc {
          err := Recv(1);
          if err != ERROR_NONE {
            return;
          }
          var exception := Get1();
          err := RecvMsgFooter();
          BehindFooter();
          if err != ERROR_NONE {
            return;
          }
          if exception < 1 || exception > 4 {
            return ERROR_INVALID_RESPONSE;
          }
          return exception;
        }
        return ERROR_INVALID_RESPONSE;
      }
      err := ERROR_NONE;
    }

    /** nmbs->msg.buf_idx set back to a position saved before. */
    method RestoreIdx(i: nat)
      requires Receiving() && i <= avail
      modifies `idx
      ensures Valid() && Receiving() && idx == i
    {
      idx := i;
    }

    lemma InBuffer(from: nat, to: nat)
      requires Receiving() && from <= to <= avail
      ensures to <= |msg| && to <= buf.Length && buf[from..to] == msg[from..to]
    {
      forall i | from <= i < to
        ensures buf[i] == msg[i]
      {
        assert buf[..avail][i] == msg[..avail][i];
      }
    }

    /** The buffer as it was before: still in the middle of the same message. */
    twostate lemma SameBuffer()
      requires old(Receiving())
      requires unchanged(`idx, `avail, `msg, `complete, `rx) && buf[..] == old(buf[..])
      ensures Receiving()
    {
      assert buf[..avail] == buf[..][..avail];
      assert old(buf[..avail]) == old(buf[..])[..avail];
    }

    lemma Bounds()
      requires Receiving()
      ensures idx <= avail <= |msg|
    {}

    /** Behind the footer of a message off the line, the line holds what follows the message. */
    lemma BehindFooter()
      requires InBody()
      ensures transport.RTU? ==> rx == msg[idx..]
    {}

    method RecvRtuHeader() returns (err: int, firstByteReceived: bool)
      requires Valid() && Receiving() && idx == avail == 0 && msg == rx && !complete && transport.RTU?
      requires rx == [] || |rx| >= 2
      modifies `idx, `unitId, `fc, `avail, `rx, buf
      ensures Valid() && (firstByteReceived <==> msg != [])
      ensures msg == [] ==> err == ERROR_TIMEOUT && rx == []
      ensures msg != [] ==>
        err == ERROR_NONE && InBody() && idx == 2 && unitId == msg[0] && fc == msg[1]
    {
      hide Receiving;
      firstByteReceived := false;
      err := Recv(1);
      if err != ERROR_NONE {
        return;
      }
      firstByteReceived := true;
      unitId := Get1();
      err := Recv(1);
      if err != ERROR_NONE {
        return;
      }
      fc := Get1();
    }

    /** The eight bytes before the data, of which the first can take as long as the read timeout. */
    method RecvMbapFields() returns (err: int, firstByteReceived: bool, protocolId: u16, length: u16)
      requires Valid() && Receiving() && idx == avail == 0 && msg == rx && !complete
      requires rx == [] || |rx| >= 8
      modifies `idx, `unitId, `fc, `transactionId, `avail, `rx, buf
      ensures Valid() && (firstByteReceived <==> msg != [])
      ensures msg == [] ==> err == ERROR_TIMEOUT && rx == []
      ensures msg != [] ==>
        && err == ERROR_NONE && Receiving() && idx == avail == 8 && rx == msg[8..]
        && Head() == HeaderOf(TCP, msg) && protocolId == WordAt(msg, 2) && length == WordAt(msg, 4)
    {
      hide Receiving, WordAt;
      firstByteReceived, protocolId, length := false, 0, 0;
      err := Recv(1);
      if err != ERROR_NONE {
        return;
      }
      firstByteReceived := true;
      Discard1();
      err := Recv(7);
      if err != ERROR_NONE {
        return;
      }
      MsgBufReset();
      protocolId, length := GetMbapFields();
      OnTheLine();
    }

    method GetMbapFields() returns (protocolId: u16, length: u16)
      requires Valid() && Receiving() && idx == 0 && avail == 8
      modifies `idx, `unitId, `fc, `transactionId
      ensures Valid() && Receiving() && idx == 8 <= |msg|
      ensures transactionId == WordAt(msg, 0) && protocolId == WordAt(msg, 2) && length == WordAt(msg, 4)
      ensures unitId == msg[6] && fc == msg[7]
    {
      hide Receiving, WordAt;
      Bounds();
      transactionId := Get2();
      protocolId := Get2();
      length := Get2();
      unitId := Get1();
      fc := Get1();
    }

    /** The line goes on where the received bytes end. */
    lemma OnTheLine()
      requires Receiving() && !complete
      ensures avail <= |msg| && rx == msg[avail..]
    {}

    method RecvMbapHeader() returns (err: int, firstByteReceived: bool)
      requires Valid() && Receiving() && idx == avail == 0 && msg == rx && !complete && transport.TCP?
      requires rx == [] || HeaderArrived(TCP, rx)
      modifies `idx, `unitId, `fc, `transactionId, `complete, `avail, `msg, `rx, buf
      ensures Valid() && (firstByteReceived <==> old(rx) != [])
      ensures old(rx) == [] ==> err == ERROR_TIMEOUT && rx == []
      ensures old(rx) != [] ==>
        && Head() == HeaderOf(TCP, old(rx))
        && if MbapOk(TCP, old(rx)) then err == ERROR_NONE
           else err == ERROR_INVALID_TCP_MBAP && rx == MbapLeft(old(rx))
      ensures err == ERROR_NONE ==>
        InBody() && idx == 8 && msg == Message(TCP, old(rx)) && rx == old(rx)[|msg|..]
    {
      hide Receiving, WordAt;
      var protocolId, length;
      err, firstByteReceived, protocolId, length := RecvMbapFields();
      if err != ERROR_NONE {
        return;
      }
      if length < 2 || length > 255 {
        return ERROR_INVALID_TCP_MBAP, true;
      }
      err := Recv(length - 2);
      if err != ERROR_NONE {
        return;
      }
      OnTheLine();
      if protocolId != 0 {
        return ERROR_INVALID_TCP_MBAP, true;
      }
      Complete();
    }

    /** The whole message is in the buffer; what is on the line belongs to the next one. */
    method Complete()
      requires Valid() && Receiving() && !complete
      modifies `complete, `msg
      ensures Valid() && Receiving() && complete
      ensures msg == old(msg)[..avail] && rx == old(msg)[avail..]
    {
      complete := true;
      msg := msg[..avail];
    }
  }

  /** What the header of a response means to whoever waits for the answer to req. */
  function ResHeaderError(t: Transport, crc: CrcFunction, req: Header, s: seq<byte>): int
    requires ResHeaderArrived(t, req, s)
  {
    if s == [] then ERROR_TIMEOUT
    else
      var h := HeaderOf(t, s);
      if !MbapOk(t, s) then ERROR_INVALID_TCP_MBAP
      else if t.TCP? && h.transactionId != req.transactionId then ERROR_INVALID_TCP_MBAP
      else if t.RTU? && h.unitId != req.unitId then ERROR_INVALID_UNIT_ID
      else if h.fc == req.fc then ERROR_NONE
      else if h.fc - 0x80 == req.fc then
        var m, code := Message(t, s), HeaderLength(t);
        if !TrailerFits(t, crc, m, code + 1) then ERROR_CRC
        else if IsException(m[code]) then m[code]
        else ERROR_INVALID_RESPONSE
      else ERROR_INVALID_RESPONSE
  }

  /** What is left on the line behind a header that was refused: on TCP the message has been read all the same. */
  function ResHeaderLeft(t: Transport, req: Header, s: seq<byte>): (left: seq<byte>)
    requires ResHeaderArrived(t, req, s)
    ensures |left| <= |s|
  {
    if s == [] then []
    else if !MbapOk(t, s) then MbapLeft(s)
    else if t.TCP? then s[|Message(t, s)|..]
    else if HeaderOf(t, s).unitId == req.unitId && HeaderOf(t, s).fc - 0x80 == req.fc then s[5..]
    else s[2..]
  }

  /** Nothing is there, or the header is, followed by the rest of the message if it is an exception. */
  predicate ResHeaderArrived(t: Transport, req: Header, s: seq<byte>) {
    s == [] ||
    (&& HeaderArrived(t, s)
     && (MbapOk(t, s) && HeaderOf(t, s).fc - 0x80 == req.fc ==>
          |Message(t, s)| >= HeaderLength(t) + 1 + TrailerLength(t)))
  }

  /** A header read off the line, on TCP with the length of all that follows, is written back the same. */
  lemma HeaderWritesBack(t: Transport, m: seq<byte>, dataLength: nat)
    requires |m| >= HeaderLength(t) && MbapOk(t, m) && dataLength <= 0xFFFD
    requires t.TCP? ==> WordAt(m, 4) == 2 + dataLength
    ensures m[..HeaderLength(t)] == HeaderBytes(t, HeaderOf(t, m), dataLength)
  {
    if t.TCP? {
      BytesOfWord(m[0], m[1]);
      BytesOfWord(m[2], m[3]);
      BytesOfWord(m[4], m[5]);
      assert m[..8] == [m[0], m[1]] + [m[2], m[3]] + [m[4], m[5]] + [m[6], m[7]];
    }
  }

  lemma BytesOfWord(hi: byte, lo: byte)
    ensures Be(U16(hi, lo)) == [hi, lo]
  {}

  /** A message with another length in its header. */
  function WithLength(t: Transport, m: seq<byte>, dataLength: nat): seq<byte>
    requires |m| >= HeaderLength(t)
  {
    if t.RTU? then m
    else
      var hi: byte, lo: byte := Uint16(2 + dataLength) / 0x100, Uint16(2 + dataLength) % 0x100;
      m[4 := hi][5 := lo]
  }

  lemma WithLengthIsHeader(t: Transport, h: Header, data: seq<byte>, before: nat, dataLength: nat)
    ensures WithLength(t, HeaderBytes(t, h, before) + data, dataLength) == HeaderBytes(t, h, dataLength) + data
  {
    if t.TCP? {
      var a: seq<byte>, b: seq<byte> := HeaderBytes(t, h, before), HeaderBytes(t, h, dataLength);
      var hi: byte, lo: byte := Uint16(2 + dataLength) / 0x100, Uint16(2 + dataLength) % 0x100;
      assert b == a[4 := hi][5 := lo];
      assert (a + data)[4 := hi] == a[4 := hi] + data;
    }
  }

  /** What one read of the buffer's size leaves on the line. */
  function Flushed(s: seq<byte>): seq<byte> {
    if |s| <= BUFFER_SIZE then [] else s[BUFFER_SIZE..]
  }

  /** What is left behind an MBAP header that was refused: the message has been read if its length is possible. */
  function MbapLeft(s: seq<byte>): seq<byte>
    requires HeaderArrived(TCP, s)
  {
    if 2 <= WordAt(s, 4) <= 255 then s[6 + WordAt(s, 4)..] else s[8..]
  }

  /** What is left on the line once a message has been read up to a position; on TCP it has all been read. */
  function LineLeft(t: Transport, m: seq<byte>, i: nat, after: seq<byte>): seq<byte>
    requires i <= |m|
  {
    if t.RTU? then m[i..] else after
  }

  function NextTid(tid: u16): u16 {
    if tid == 65535 then 1 else tid + 1
  }

  function HeaderOf(t: Transport, s: seq<byte>): Header
    requires |s| >= HeaderLength(t)
  {
    if t.RTU? then Header(0, s[0], s[1]) else Header(WordAt(s, 0), s[6], s[7])
  }

  /** The protocol id is zero and the length field is one that the engine accepts. */
  predicate MbapOk(t: Transport, s: seq<byte>)
    requires |s| >= HeaderLength(t)
  {
    t.TCP? ==> WordAt(s, 2) == 0 && 2 <= WordAt(s, 4) <= 255
  }

  /** The header is there and, on TCP, all bytes that its length field announces, if that is at most 254. */
  predicate HeaderArrived(t: Transport, s: seq<byte>) {
    && |s| >= HeaderLength(t)
    && (t.TCP? ==> WordAt(s, 4) != 255 && (WordAt(s, 4) < 255 ==> |s| >= 6 + WordAt(s, 4)))
  }

  /** The message that begins the line: on TCP what the length field announces, on RTU the line itself. */
  function Message(t: Transport, s: seq<byte>): (m: seq<byte>)
    requires HeaderArrived(t, s) && MbapOk(t, s)
    ensures |m| >= HeaderLength(t)
  {
    if t.RTU? then s else s[..6 + WordAt(s, 4)]
  }
}
