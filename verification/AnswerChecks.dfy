/** Which bytes a client accepts as an answer, and what every other line comes to: byte by byte, in numbers. */
module AnswerChecks {
  import opened Words
  import opened Frames
  import opened Engine
  import opened Responses
  import opened FileRecords
  import opened FileResponses
  import opened DeviceIds
  import opened DeviceResponses
  import Requests
  import Polling

  /** The line begins with these bytes. */
  predicate Begins(s: seq<byte>, f: seq<byte>) {
    |f| <= |s| && s[..|f|] == f
  }

  /** Off the line, an RTU frame begins it exactly if address, function code, data and checksum do. */
  lemma BeginsWithFrame(crc: CrcFunction, h: Header, data: seq<byte>, s: seq<byte>)
    ensures Begins(s, Frame(RTU, crc, h, data)) <==>
      && |s| >= 4 + |data| && s[0] == h.unitId && s[1] == h.fc && s[2..2 + |data|] == data
      && TrailerFits(RTU, crc, s, 2 + |data|)
  {
    var n := 2 + |data|;
    var m := HeaderBytes(RTU, h, |data|) + data;
    var f := Frame(RTU, crc, h, data);
    assert f == m + Be(crc(m)) && |f| == n + 2;
    if |s| >= n + 2 {
      BytesOfWord(s[n], s[n + 1]);
      BeRoundTrip(crc(m));
      assert s[n..n + 2] == [s[n], s[n + 1]];
      assert s[..n + 2] == s[..n] + s[n..n + 2];
      assert s[..n] == [s[0], s[1]] + s[2..n];
      if s[..n + 2] == f {
        assert s[..n] == f[..n] && s[n..n + 2] == f[n..];
        assert m[..2] == [h.unitId, h.fc] && m[2..] == data;
        assert s[..n][..2] == [s[0], s[1]] && s[..n][2..] == s[2..n];
      }
    }
  }

  // ----- the header

  /** Two bytes, the more significant one first. */
  function Number(high: int, low: int): int {
    256 * high + low
  }

  /** What is made of the header of an answer on RTU. */
  lemma RtuHeader(crc: CrcFunction, req: Header, s: seq<byte>)
    requires ResHeaderArrived(RTU, req, s)
    ensures var e := ResHeaderError(RTU, crc, req, s);
      if s == [] then e == -3
      else
        && |s| >= 2
        && var code: int := s[1];
           if s[0] != req.unitId then e == -7
           else if s[1] == req.fc then e == 0
           else if code != req.fc + 128 then e == -2
           else
             && |s| >= 5
             && e == (if Number(s[3], s[4]) != crc(s[..3]) then -5 else if 1 <= s[2] <= 4 then s[2] else -2)
  {}

  /** On RTU an exception is reported exactly for the exception frame of the request's own header. */
  lemma RtuException(crc: CrcFunction, req: Header, s: seq<byte>, k: byte)
    requires ResHeaderArrived(RTU, req, s) && 1 <= k <= 4 && req.fc < 128
    ensures ResHeaderError(RTU, crc, req, s) == k <==> Begins(s, Emitted(RTU, crc, req, Exception(k)))
  {
    RtuHeader(crc, req, s);
    BeginsWithFrame(crc, req.(fc := req.fc + 128), [k], s);
    if |s| >= 5 {
      assert s[2..3] == [s[2]];
    }
  }

  /** What is made of the header of an answer on TCP; the unit id plays no part. */
  lemma TcpHeader(crc: CrcFunction, req: Header, s: seq<byte>)
    requires ResHeaderArrived(TCP, req, s)
    ensures var e := ResHeaderError(TCP, crc, req, s);
      if s == [] then e == -3
      else
        && |s| >= 8
        && var length, code: int := Number(s[4], s[5]), s[7];
           if s[2] != 0 || s[3] != 0 || length < 2 || length > 255 then e == -6
           else if Number(s[0], s[1]) != req.transactionId then e == -6
           else if s[7] == req.fc then e == 0
           else if code != req.fc + 128 then e == -2
           else |s| >= 9 && e == if 1 <= s[8] <= 4 then s[8] else -2
  {
    hide WordAt, HeaderOf;
    if s != [] {
      MbapInBytes(s);
      if MbapOk(TCP, s) && HeaderOf(TCP, s).fc - 0x80 == req.fc {
        ByteBehindHeader(s);
      }
    }
  }

  lemma MbapInBytes(s: seq<byte>)
    requires |s| >= 8
    ensures HeaderOf(TCP, s).transactionId == Number(s[0], s[1]) && HeaderOf(TCP, s).fc == s[7]
    ensures WordAt(s, 2) == 0 <==> s[2] == 0 && s[3] == 0
    ensures WordAt(s, 4) == Number(s[4], s[5])
  {}

  lemma ByteBehindHeader(s: seq<byte>)
    requires HeaderArrived(TCP, s) && MbapOk(TCP, s) && |Message(TCP, s)| >= 9
    ensures |s| >= 9 && Message(TCP, s)[8] == s[8]
  {}

  /** The header of an answer is the right one: these bytes, and nothing else. */
  predicate RightHeader(t: Transport, req: Header, s: seq<byte>) {
    if t.RTU? then |s| >= 2 && s[0] == req.unitId && s[1] == req.fc
    else
      && |s| >= 8 && s[..4] == [req.transactionId / 256, req.transactionId % 256, 0, 0]
      && 2 <= Number(s[4], s[5]) <= 254 && s[7] == req.fc
  }

  /** On either transport the header passes if and only if it is the right one. */
  lemma HeaderAccepted(t: Transport, crc: CrcFunction, req: Header, s: seq<byte>)
    requires ResHeaderArrived(t, req, s)
    ensures ResHeaderError(t, crc, req, s) == 0 <==> RightHeader(t, req, s)
  {
    hide ResHeaderError, ResHeaderArrived;
    if t.RTU? {
      RtuHeader(crc, req, s);
    } else {
      TcpHeader(crc, req, s);
      if |s| >= 8 {
        LengthIsNot255(s, req);
        assert s[..4] == [s[0], s[1], s[2], s[3]];
        TwoOfNumber(s[0], s[1], req.transactionId);
      }
    }
  }

  lemma LengthIsNot255(s: seq<byte>, req: Header)
    requires ResHeaderArrived(TCP, req, s) && |s| >= 8
    ensures Number(s[4], s[5]) != 255
  {}

  lemma TwoOfNumber(high: byte, low: byte, n: u16)
    ensures Number(high, low) == n <==> high == n / 256 && low == n % 256
  {}

  // ----- the body

  /** Data of an answer behind the right header, with its checksum on RTU; on TCP more may follow in the message. */
  predicate Answered(t: Transport, crc: CrcFunction, req: Header, s: seq<byte>, data: seq<byte>) {
    if t.RTU? then Begins(s, Frame(RTU, crc, req, data))
    else RightHeader(TCP, req, s) && 2 + |data| <= Number(s[4], s[5]) && Begins(s[8..], data)
  }

  /** Bytes of the message behind its header. */
  lemma BodyOfMessage(t: Transport, s: seq<byte>, n: nat)
    requires HeaderArrived(t, s) && MbapOk(t, s) && HeaderLength(t) + n <= |Message(t, s)|
    ensures HeaderLength(t) + n <= |s|
    ensures Message(t, s)[HeaderLength(t)..HeaderLength(t) + n] == s[HeaderLength(t)..HeaderLength(t) + n]
    ensures forall i :: 0 <= i < HeaderLength(t) + n ==> Message(t, s)[i] == s[i]
    ensures t.TCP? ==> (HeaderLength(t) + n <= |Message(t, s)| <==> 2 + n <= Number(s[4], s[5]))
  {}

  /** Whatever data a message has behind the right header, it is an answer with them if its checksum fits. */
  lemma AnsweredBy(t: Transport, crc: CrcFunction, req: Header, s: seq<byte>, data: seq<byte>)
    requires HeaderArrived(t, s) && MbapOk(t, s) && RightHeader(t, req, s)
    requires HeaderLength(t) + |data| + TrailerLength(t) <= |Message(t, s)|
    ensures Answered(t, crc, req, s, data) <==>
      && Message(t, s)[HeaderLength(t)..HeaderLength(t) + |data|] == data
      && TrailerFits(t, crc, Message(t, s), HeaderLength(t) + |data|)
  {
    BodyOfMessage(t, s, |data|);
    if t.RTU? {
      BeginsWithFrame(crc, req, data, s);
    } else {
      assert s[8..][..|data|] == s[8..8 + |data|];
    }
  }

  /** What the fixed part of the data says about the line. */
  lemma AnsweredHasHeader(t: Transport, crc: CrcFunction, req: Header, s: seq<byte>, data: seq<byte>)
    requires Answered(t, crc, req, s, data)
    ensures RightHeader(t, req, s) && |s| >= HeaderLength(t) + |data|
    ensures s[HeaderLength(t)..HeaderLength(t) + |data|] == data
  {
    if t.RTU? {
      BeginsWithFrame(crc, req, data, s);
    } else {
      assert s[8..][..|data|] == s[8..8 + |data|];
    }
  }

  /** The echo of a write is accepted exactly if it is the one that was to come: both words are compared. */
  lemma WrittenAccepted(t: Transport, crc: CrcFunction, req: Header, s: seq<byte>, address: u16, value: u16)
    requires ResArrived(t, crc, req, s, TWO_WORDS)
    ensures var data := [address / 256, address % 256, value / 256, value % 256];
      WrittenError(t, crc, req, s, address, value) == 0 <==> Answered(t, crc, req, s, data)
  {
    hide ResHeaderError, ResHeaderArrived, TrailerFits, Answered, RightHeader, Message, MbapOk, HeaderArrived;
    var data: seq<byte> := [address / 256, address % 256, value / 256, value % 256];
    HeaderAccepted(t, crc, req, s);
    if RightHeader(t, req, s) {
      HeaderGood(t, crc, req, s);
      AnsweredBy(t, crc, req, s, data);
      var m, h := Message(t, s), HeaderLength(t);
      BytesOfWord(m[h], m[h + 1]);
      BytesOfWord(m[h + 2], m[h + 3]);
      assert m[h..h + 4] == [m[h], m[h + 1], m[h + 2], m[h + 3]];
    } else if Answered(t, crc, req, s, data) {
      AnsweredHasHeader(t, crc, req, s, data);
    }
  }

  lemma HeaderGood(t: Transport, crc: CrcFunction, req: Header, s: seq<byte>)
    requires ResHeaderArrived(t, req, s) && RightHeader(t, req, s)
    ensures s != [] && HeaderArrived(t, s) && MbapOk(t, s)
  {}

  /** Otherwise behind the right header: a checksum that does not fit is -5, any other echo -2. */
  lemma WrittenRefused(t: Transport, crc: CrcFunction, req: Header, s: seq<byte>, address: u16, value: u16)
    requires ResArrived(t, crc, req, s, TWO_WORDS) && RightHeader(t, req, s)
    ensures var e := WrittenError(t, crc, req, s, address, value);
      && e in {0, -5, -2}
      && (e == -5 <==> t.RTU? && Number(s[6], s[7]) != crc(s[..6]))
  {
    hide ResHeaderError, ResHeaderArrived;
    HeaderAccepted(t, crc, req, s);
    HeaderGood(t, crc, req, s);
  }

  /** An answer by its count of bytes: what the forms with a count have in common. */
  lemma CountedAccepted(t: Transport, crc: CrcFunction, req: Header, s: seq<byte>, limit: byte)
    requires limit <= 251 && ResArrived(t, crc, req, s, CountedUpTo(limit))
    ensures FormError(t, crc, req, s, CountedUpTo(limit)) == 0 <==>
      && RightHeader(t, req, s) && |s| > HeaderLength(t) && s[HeaderLength(t)] <= limit
      && var n := HeaderLength(t) + 1 + s[HeaderLength(t)];
         n <= |s| && Answered(t, crc, req, s, s[HeaderLength(t)..n])
  {
    hide ResHeaderError, ResHeaderArrived, TrailerFits, Answered, RightHeader, Message, MbapOk, HeaderArrived;
    HeaderAccepted(t, crc, req, s);
    if RightHeader(t, req, s) {
      HeaderGood(t, crc, req, s);
      BodyOfMessage(t, s, 1);
      var h := HeaderLength(t);
      if s[h] <= limit {
        BodyOfMessage(t, s, 1 + s[h]);
        AnsweredBy(t, crc, req, s, s[h..h + 1 + s[h]]);
      }
    }
  }

  /** Bits are accepted exactly if the line begins with a count of at most 250 and as many bytes. */
  lemma BitsAccepted(t: Transport, crc: CrcFunction, req: Header, s: seq<byte>)
    requires ResArrived(t, crc, req, s, COUNTED)
    ensures FormError(t, crc, req, s, COUNTED) == 0 <==>
      && RightHeader(t, req, s) && |s| > HeaderLength(t) && s[HeaderLength(t)] <= 250
      && var n := HeaderLength(t) + 1 + s[HeaderLength(t)];
         n <= |s| && Answered(t, crc, req, s, s[HeaderLength(t)..n])
  {
    hide ResHeaderError, ResHeaderArrived, TrailerFits, Frame, Answered;
    CountedAccepted(t, crc, req, s, 250);
  }

  /** Registers are accepted exactly if as many have come as were asked for. */
  lemma RegistersAccepted(t: Transport, crc: CrcFunction, req: Header, s: seq<byte>, quantity: u16)
    requires ResArrived(t, crc, req, s, COUNTED)
    ensures RegistersError(t, crc, req, s, quantity) == 0 <==>
      && quantity <= 125 && |s| >= HeaderLength(t) + 1 + 2 * quantity && s[HeaderLength(t)] == 2 * quantity
      && Answered(t, crc, req, s, s[HeaderLength(t)..HeaderLength(t) + 1 + 2 * quantity])
  {
    hide ResHeaderError, ResHeaderArrived, TrailerFits, Answered, RightHeader, Message, MbapOk, HeaderArrived;
    BitsAccepted(t, crc, req, s);
    HeaderAccepted(t, crc, req, s);
    if RightHeader(t, req, s) {
      HeaderGood(t, crc, req, s);
      BodyOfMessage(t, s, 1);
    } else if |s| >= HeaderLength(t) + 1 + 2 * quantity {
      var data := s[HeaderLength(t)..HeaderLength(t) + 1 + 2 * quantity];
      if Answered(t, crc, req, s, data) {
        AnsweredHasHeader(t, crc, req, s, data);
      }
    }
  }

  /** A record is accepted exactly with both its sizes, the reference type 6 and as many registers as asked for. */
  lemma RecordAccepted(t: Transport, crc: CrcFunction, req: Header, s: seq<byte>, count: u16)
    requires PartArrived(t, crc, req, s)
    ensures var h, n := HeaderLength(t), HeaderLength(t) + 3 + 2 * count;
      ReadFileError(t, crc, req, s, count) == 0 <==>
      && count <= 124 && |s| >= n && s[h] == 2 + 2 * count && s[h + 1] == 1 + 2 * count && s[h + 2] == 6
      && Answered(t, crc, req, s, s[h..n])
  {
    hide ResHeaderError, ResHeaderArrived, TrailerFits, Frame, Answered, FormError;
    CountedAccepted(t, crc, req, s, 250);
    HeaderAccepted(t, crc, req, s);
    var h, n := HeaderLength(t), HeaderLength(t) + 3 + 2 * count;
    if FormError(t, crc, req, s, COUNTED) == 0 {
      GoodForm(t, crc, req, s, COUNTED);
      BodyOfMessage(t, s, 1 + s[h]);
    } else if |s| >= n && Answered(t, crc, req, s, s[h..n]) {
      AnsweredHasHeader(t, crc, req, s, s[h..n]);
    }
  }

  lemma GoodForm(t: Transport, crc: CrcFunction, req: Header, s: seq<byte>, f: Form)
    requires ResArrived(t, crc, req, s, f) && FormError(t, crc, req, s, f) == 0
    ensures s != [] && HeaderArrived(t, s) && MbapOk(t, s) && ResHeaderError(t, crc, req, s) == 0
    ensures BodyArrived(t, Message(t, s), f) && !OverLimit(t, Message(t, s), f)
    ensures BodyEnd(t, Message(t, s), f) <= |Message(t, s)|
    ensures HeaderLength(t) < |Message(t, s)| && Message(t, s)[HeaderLength(t)] == s[HeaderLength(t)]
  {}

  /** The echo of a record is accepted exactly if it is the sub-request that was sent, registers included. */
  lemma EchoAccepted(t: Transport, crc: CrcFunction, req: Header, s: seq<byte>, sub: WriteSub)
    requires EchoArrived(t, crc, req, s) && |sub.registers| <= 122
    ensures WriteFileError(t, crc, req, s, sub) == 0 <==>
      Answered(t, crc, req, s, [7 + 2 * |sub.registers|] + WriteSubBytes(sub))
  {
    hide ResHeaderError, ResHeaderArrived, TrailerFits, Frame, Answered, FormError, WriteSubBytes, Echoed;
    hide RightHeader, Message, MbapOk, HeaderArrived, WordAt;
    var h, data := HeaderLength(t), [7 + 2 * |sub.registers|] + WriteSubBytes(sub);
    CountedAccepted(t, crc, req, s, 251);
    HeaderAccepted(t, crc, req, s);
    SubLength(sub);
    if Answered(t, crc, req, s, data) {
      AnsweredHasHeader(t, crc, req, s, data);
      assert s[h] == s[h..h + |data|][0] == data[0];
      assert s[h..h + 1 + s[h]] == data && data[1..] == WriteSubBytes(sub);
    }
    if FormError(t, crc, req, s, ECHO) == 0 {
      GoodForm(t, crc, req, s, ECHO);
      var m := Message(t, s);
      BodyOfMessage(t, s, 1 + s[h]);
      EchoByBytes(t, m, sub);
      assert s[h..h + 1 + s[h]] == [s[h]] + s[h + 1..h + 1 + s[h]];
      assert m[h + 1..h + 1 + m[h]] == m[h..h + 1 + s[h]][1..] == s[h..h + 1 + s[h]][1..];
    }
  }

  lemma SubLength(sub: WriteSub)
    requires |sub.registers| < 0x1_0000
    ensures |WriteSubBytes(sub)| == 7 + 2 * |sub.registers|
  {}

  /** An echo repeats a sub-request exactly if it has its bytes. */
  lemma EchoByBytes(t: Transport, m: seq<byte>, sub: WriteSub)
    requires |m| > HeaderLength(t) && OneEcho(t, m) && |sub.registers| < 0x1_0000
    ensures var h := HeaderLength(t); Echoed(t, m) == sub <==> m[h + 1..h + 1 + m[h]] == WriteSubBytes(sub)
  {
    hide WordsOf, BeAll, WriteSubBytes;
    var h := HeaderLength(t);
    var b := m[h + 1..h + 1 + m[h]];
    assert forall i {:trigger b[i]} :: 0 <= i < 7 ==> b[i] == m[h + 1 + i];
    assert b[7..] == m[h + 8..h + 1 + m[h]];
    if b == WriteSubBytes(sub) {
      BytesHaveFields(b, sub);
    }
    if Echoed(t, m) == sub {
      FieldsHaveBytes(b, sub);
    }
  }

  lemma BytesHaveFields(b: seq<byte>, sub: WriteSub)
    requires |sub.registers| < 0x1_0000 && b == WriteSubBytes(sub)
    ensures |b| >= 7 && sub == WriteSub(b[0], WordAt(b, 1), WordAt(b, 3), WordsOf(b[7..]))
  {
    hide WordsOf, BeAll;
    WriteSubHeader(sub, []);
    assert WriteSubBytes(sub) + [] == b;
    assert b[7..] == BeAll(sub.registers);
    WordsOfBeAll(sub.registers);
  }

  lemma FieldsHaveBytes(b: seq<byte>, sub: WriteSub)
    requires |b| >= 7 && |b| == 7 + 2 * WordAt(b, 5)
    requires sub == WriteSub(b[0], WordAt(b, 1), WordAt(b, 3), WordsOf(b[7..]))
    ensures |sub.registers| < 0x1_0000 && WriteSubBytes(sub) == b
  {
    hide BeAll;
    BytesOfWord(b[1], b[2]);
    BytesOfWord(b[3], b[4]);
    BytesOfWord(b[5], b[6]);
    BeAllOfWords(b[7..]);
    assert b == [b[0]] + [b[1], b[2]] + [b[3], b[4]] + [b[5], b[6]] + b[7..];
  }

  lemma BeAllOfWords(s: seq<byte>)
    requires |s| % 2 == 0
    ensures BeAll(WordsOf(s)) == s
  {
    var ws := WordsOf(s);
    forall i | 0 <= i < |s|
      ensures BeAll(ws)[i] == s[i]
    {
      BeAllAt(ws, i / 2);
      BytesOfWord(s[2 * (i / 2)], s[2 * (i / 2) + 1]);
      assert i == 2 * (i / 2) || i == 2 * (i / 2) + 1;
    }
  }

  /** A page is accepted exactly with these six bytes in front of its objects, for a caller with room for them. */
  lemma PageAccepted(t: Transport, crc: CrcFunction, req: Header, s: seq<byte>, objects: seq<Object>, room: byte)
    requires PageArrived(t, crc, req, s, objects)
    ensures var h := HeaderLength(t);
      PageError(t, crc, req, s, objects, room) == 0 <==>
      && |objects| < 256 && (room == 0 || |objects| <= room) && |s| >= h + 6
      && s[h] == 14 && s[h + 1] in {1, 2, 3, 4} && s[h + 2] in {1, 2, 3, 129, 130, 131} && s[h + 3] in {0, 255}
      && |AllObjectBytes(objects)| <= 246
      && Answered(t, crc, req, s, s[h..h + 5] + [|objects|] + AllObjectBytes(objects))
  {
    hide ResHeaderError, ResHeaderArrived, TrailerFits, Frame, Answered, AllObjectBytes;
    HeaderAccepted(t, crc, req, s);
    var h, bytes := HeaderLength(t), AllObjectBytes(objects);
    if RightHeader(t, req, s) {
      HeaderGood(t, crc, req, s);
      var m := Message(t, s);
      BodyOfMessage(t, s, 6);
      if FieldsOk(m, h) {
        var data := s[h..h + 5] + [|objects|] + bytes;
        AnsweredBy(t, crc, req, s, data);
        assert m[h..h + |data|] == m[h..h + 5] + [m[h + 5]] + m[h + 6..h + 6 + |bytes|];
        BodyOfMessage(t, s, 5);
      }
    } else if |s| >= h + 6 && |objects| < 256 {
      var data := s[h..h + 5] + [|objects|] + bytes;
      if Answered(t, crc, req, s, data) {
        AnsweredHasHeader(t, crc, req, s, data);
      }
    }
  }

  // ----- what is left on the line, and what the caller gets

  /** What is left behind an answer of two words, whatever has come of it. */
  lemma LeftBehindWords(t: Transport, crc: CrcFunction, req: Header, s: seq<byte>)
    requires ResArrived(t, crc, req, s, TWO_WORDS)
    ensures var left := FormLeft(t, crc, req, s, TWO_WORDS);
      if s == [] then left == []
      else if t.RTU? && RightHeader(t, req, s) then |s| >= 8 && left == s[8..]
      else LeftBehindHeader(t, req, s, left)
  {
    hide ResHeaderError, ResHeaderArrived, RightHeader, ResHeaderLeft, Message, MbapOk, HeaderArrived;
    HeaderAccepted(t, crc, req, s);
    if RightHeader(t, req, s) {
      HeaderGood(t, crc, req, s);
      RightIsLeft(t, req, s);
    } else if s == [] {
      NothingIsLeft(t, crc, req);
    } else {
      WrongIsLeft(t, crc, req, s);
    }
  }

  /** What is left behind a header: on TCP the whole message has been read, on RTU that of an exception. */
  predicate LeftBehindHeader(t: Transport, req: Header, s: seq<byte>, left: seq<byte>) {
    if t.RTU? then
      && |s| >= 2
      && var code: int := s[1];
         if s[0] == req.unitId && code == req.fc + 128 then |s| >= 5 && left == s[5..] else left == s[2..]
    else
      && |s| >= 8
      && var length := Number(s[4], s[5]);
         if 2 <= length <= 254 then |s| >= 6 + length && left == s[6 + length..] else left == s[8..]
  }

  lemma NothingIsLeft(t: Transport, crc: CrcFunction, req: Header)
    ensures ResHeaderArrived(t, req, []) && ResHeaderError(t, crc, req, []) != 0 && ResHeaderLeft(t, req, []) == []
  {}

  lemma WrongIsLeft(t: Transport, crc: CrcFunction, req: Header, s: seq<byte>)
    requires ResHeaderArrived(t, req, s) && s != [] && ResHeaderError(t, crc, req, s) != 0
    ensures LeftBehindHeader(t, req, s, ResHeaderLeft(t, req, s))
  {}

  lemma RightIsLeft(t: Transport, req: Header, s: seq<byte>)
    requires HeaderArrived(t, s) && MbapOk(t, s)
    ensures t.TCP? ==> LeftBehindHeader(t, req, s, s[|Message(t, s)|..])
    ensures t.RTU? ==> Message(t, s) == s
  {}

  /** What is left behind an answer with a count: on RTU the bytes behind a count that is too large are not read. */
  lemma LeftBehindCounted(t: Transport, crc: CrcFunction, req: Header, s: seq<byte>, limit: byte)
    requires limit <= 251 && ResArrived(t, crc, req, s, CountedUpTo(limit))
    ensures var left := FormLeft(t, crc, req, s, CountedUpTo(limit));
      if s == [] then left == []
      else if t.RTU? && RightHeader(t, req, s) then
        && |s| >= 3
        && var count: int := s[2];
           if count > limit then left == s[3..] else |s| >= 5 + count && left == s[5 + count..]
      else LeftBehindHeader(t, req, s, left)
  {
    hide ResHeaderError, ResHeaderArrived, RightHeader, ResHeaderLeft, Message, MbapOk, HeaderArrived;
    HeaderAccepted(t, crc, req, s);
    if RightHeader(t, req, s) {
      HeaderGood(t, crc, req, s);
      RightIsLeft(t, req, s);
    } else if s == [] {
      NothingIsLeft(t, crc, req);
    } else {
      WrongIsLeft(t, crc, req, s);
    }
  }

  /** The bytes of a counted answer reach the caller's array exactly behind the right header and a count up to 250. */
  lemma ReachesExactly(t: Transport, crc: CrcFunction, req: Header, s: seq<byte>)
    requires ResArrived(t, crc, req, s, COUNTED)
    ensures ReachesOutput(t, crc, req, s) <==>
      RightHeader(t, req, s) && |s| > HeaderLength(t) && s[HeaderLength(t)] <= 250
  {
    hide ResHeaderError, ResHeaderArrived, RightHeader, Message, MbapOk, HeaderArrived;
    HeaderAccepted(t, crc, req, s);
    if RightHeader(t, req, s) {
      HeaderGood(t, crc, req, s);
      BodyOfMessage(t, s, 1);
    }
  }

  // ----- a listener

  /** A station that is not addressed takes for the answer exactly what the addressed one has to send. */
  lemma ListenerAccepts(crc: CrcFunction, m: seq<byte>, fc: byte)
    requires |m| >= 2 && m[1] == fc && fc in {1, 2, 3, 4, 5, 6, 15, 16}
    requires BodyArrived(RTU, m, Requests.RequestForm(fc)) && !OverLimit(RTU, m, Requests.RequestForm(fc))
    requires Polling.AnswerArrived(crc, m, fc)
    ensures var s, h := m[BodyEnd(RTU, m, Requests.RequestForm(fc)) + 2..], Header(0, m[0], m[1]);
      Polling.ListenError(crc, m, fc) == 0 <==>
      if fc == 1 || fc == 2 then
        |s| >= 3 && s[2] <= 250 && |s| >= 3 + s[2] && Answered(RTU, crc, h, s, s[2..3 + s[2]])
      else if fc == 3 || fc == 4 then
        var bytes := 2 * Number(m[4], m[5]);
        bytes <= 250 && |s| >= 3 + bytes && s[2] == bytes && Answered(RTU, crc, h, s, s[2..3 + bytes])
      else Answered(RTU, crc, h, s, m[2..6])
  {
    hide ResHeaderError, ResHeaderArrived, TrailerFits, Frame, Answered;
    var s, h := m[BodyEnd(RTU, m, Requests.RequestForm(fc)) + 2..], Header(0, m[0], m[1]);
    if fc == 1 || fc == 2 {
      BitsAccepted(RTU, crc, h, s);
      if |s| >= 3 && s[2] <= 250 && |s| >= 3 + s[2] && Answered(RTU, crc, h, s, s[2..3 + s[2]]) {
        AnsweredHasHeader(RTU, crc, h, s, s[2..3 + s[2]]);
      }
    } else if fc == 3 || fc == 4 {
      RegistersAccepted(RTU, crc, h, s, WordAt(m, 4));
    } else {
      WrittenAccepted(RTU, crc, h, s, WordAt(m, 2), WordAt(m, 4));
      BytesOfWord(m[2], m[3]);
      BytesOfWord(m[4], m[5]);
      assert m[2..6] == [m[2], m[3], m[4], m[5]];
    }
  }
}
