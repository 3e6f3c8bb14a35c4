/** The bytes of frames, requests and records, and what the library sends and takes at all: in numbers. */
module WireFormat {
  import opened Words
  import opened Frames
  import opened Engine
  import opened Responses
  import opened Requests
  import opened Serving
  import opened FileRecords
  import opened Polling
  import Guards
  import Refusals
  import Sizes
  import AnswerChecks

  // ----- frames

  lemma RtuFrame(crc: CrcFunction, h: Header, data: seq<byte>)
    ensures var m := [h.unitId, h.fc] + data;
      Frame(RTU, crc, h, data) == m + [crc(m) / 256, crc(m) % 256]
  {}

  lemma TcpFrame(crc: CrcFunction, h: Header, data: seq<byte>)
    requires |data| <= 65533
    ensures Frame(TCP, crc, h, data)
         == [h.transactionId / 256, h.transactionId % 256, 0, 0, (2 + |data|) / 256, (2 + |data|) % 256, h.unitId, h.fc]
            + data
  {
    hide Be, Uint16;
    LengthBytes(2 + |data|);
    WordZero(h.transactionId);
  }

  lemma WordZero(x: u16)
    ensures Be(0) == [0, 0] && Be(x) == [x / 256, x % 256]
  {}

  lemma ExceptionFrame(crc: CrcFunction, h: Header, code: byte)
    requires h.fc < 128
    ensures var m := [h.unitId, h.fc + 128, code];
      Emitted(RTU, crc, h, Exception(code)) == m + [crc(m) / 256, crc(m) % 256]
    ensures Emitted(TCP, crc, h, Exception(code))
         == [h.transactionId / 256, h.transactionId % 256, 0, 0, 0, 3, h.unitId, h.fc + 128, code]
  {
    assert [h.unitId, h.fc + 128] + [code] == [h.unitId, h.fc + 128, code];
  }

  // ----- requests

  /** The function code of each request, and the bytes behind it. */
  lemma RequestBytes(r: Request)
    requires Countable(r)
    ensures var fc, data := FunctionCode(r), RequestData(r);
      match r
      case ReadBits(inputs, a, n) =>
        fc == (if inputs then 2 else 1) && data == [a / 256, a % 256, n / 256, n % 256]
      case ReadRegisters(inputs, a, n) =>
        fc == (if inputs then 4 else 3) && data == [a / 256, a % 256, n / 256, n % 256]
      case WriteCoil(a, v) => fc == 5 && data == [a / 256, a % 256, v / 256, v % 256]
      case WriteRegister(a, v) => fc == 6 && data == [a / 256, a % 256, v / 256, v % 256]
      case WriteCoils(a, n, bytes) =>
        fc == 15 && data == [a / 256, a % 256, n / 256, n % 256, |bytes|] + bytes
      case WriteRegisters(a, n, bytes) =>
        fc == 16 && data == [a / 256, a % 256, n / 256, n % 256, |bytes|] + bytes
      case ReadFile(bytes) => fc == 20 && data == [|bytes|] + bytes
      case WriteFile(bytes) => fc == 21 && data == [|bytes|] + bytes
      case ReadWrite(a, n, b, k, bytes) =>
        fc == 23
        && data == [a / 256, a % 256, n / 256, n % 256, b / 256, b % 256, k / 256, k % 256, |bytes|] + bytes
      case ReadDeviceId(meiType, code, id) => fc == 43 && data == [meiType, code, id]
  {}

  lemma ReadRecordBytes(s: ReadSub)
    ensures ReadSubBytes(s) == [s.reference, s.file / 256, s.file % 256, s.record / 256, s.record % 256,
                                s.length / 256, s.length % 256]
    ensures forall before: seq<byte>, after: seq<byte> ::
      ReadSubAt(before + ReadSubBytes(s) + after, |before|) == s
  {
    forall before: seq<byte>, after: seq<byte>
      ensures ReadSubAt(before + ReadSubBytes(s) + after, |before|) == s
    {
      var all, n := before + ReadSubBytes(s) + after, |before|;
      assert all[n..n + 7] == ReadSubBytes(s);
      assert forall i {:trigger ReadSubBytes(s)[i]} :: 0 <= i < 7 ==> all[n + i] == ReadSubBytes(s)[i];
    }
  }

  lemma WriteRecordBytes(s: WriteSub)
    requires |s.registers| < 65536
    ensures var n := |s.registers|; var b := WriteSubBytes(s);
      && |b| == 7 + 2 * n
      && b[..7] == [s.reference, s.file / 256, s.file % 256, s.record / 256, s.record % 256, n / 256, n % 256]
      && forall i :: 0 <= i < n ==> b[7 + 2 * i] == s.registers[i] / 256 && b[8 + 2 * i] == s.registers[i] % 256
  {
    forall i | 0 <= i < |s.registers|
      ensures WriteSubBytes(s)[7 + 2 * i] == s.registers[i] / 256
      ensures WriteSubBytes(s)[8 + 2 * i] == s.registers[i] % 256
    {
      BeAllAt(s.registers, i);
    }
  }

  /** The transaction id of request n of a client. */
  function TidAfter(n: nat): u16 {
    if n == 0 then 0 else NextTid(TidAfter(n - 1))
  }

  /** Transaction ids go from 1 to 65535 and around, never 0, so that an id comes back after 65535 requests at least. */
  lemma {:induction false} TidsGoAround(n: nat)
    ensures TidAfter(n + 1) == 1 + n % 65535
  {
    if n == 0 {
      assert TidAfter(0) == 0;
    } else {
      TidsGoAround(n - 1);
    }
  }

  // ----- what is read

  /** How many bytes there are before the first of the data. */
  function Front(t: Transport): nat {
    if t.RTU? then 2 else 8
  }

  /** The byte that counts those behind it stands this far behind the function code, if there is one. */
  function CountAt(fc: byte): Option<nat> {
    if fc == 15 || fc == 16 then Some(4)
    else if fc == 20 || fc == 21 then Some(0)
    else if fc == 23 then Some(8)
    else None
  }

  function MostCounted(fc: byte): nat {
    if fc == 20 then 245 else if fc == 21 then 251 else if fc == 23 then 242 else 246
  }

  /** How long the data of a request are. */
  function DataLength(t: Transport, m: seq<byte>, fc: byte): nat
    requires CountAt(fc).Some? ==> |m| > Front(t) + CountAt(fc).value
  {
    if CountAt(fc).Some? then CountAt(fc).value + 1 + m[Front(t) + CountAt(fc).value]
    else if fc == 43 then 3
    else 4
  }

  /** A request counts too many bytes. */
  predicate CountsTooMany(t: Transport, m: seq<byte>, fc: byte)
    requires CountAt(fc).Some? ==> |m| > Front(t) + CountAt(fc).value
  {
    CountAt(fc).Some? && m[Front(t) + CountAt(fc).value] > MostCounted(fc)
  }

  lemma FormInNumbers(t: Transport, m: seq<byte>, fc: byte)
    requires fc in FUNCTIONS && BodyArrived(t, m, RequestForm(fc))
    ensures fc in {1, 2, 3, 4, 5, 6, 15, 16, 20, 21, 23, 43}
    ensures CountAt(fc).Some? ==> |m| > Front(t) + CountAt(fc).value
    ensures OverLimit(t, m, RequestForm(fc)) <==> CountsTooMany(t, m, fc)
    ensures BodyEnd(t, m, RequestForm(fc)) == Front(t) + DataLength(t, m, fc)
    ensures Front(t) == HeaderLength(t)
  {}

  /** Whatever request is read has exactly the bytes that it was read from. */
  lemma ReadRequestBytes(t: Transport, m: seq<byte>, fc: byte)
    requires fc in FUNCTIONS && BodyArrived(t, m, RequestForm(fc)) && !OverLimit(t, m, RequestForm(fc))
    ensures HasItsBytes(ParseRequest(fc, m, HeaderLength(t)), fc,
                        m[HeaderLength(t)..BodyEnd(t, m, RequestForm(fc))])
  {
    hide HasItsBytes;
    if fc == 15 || fc == 16 {
      WriteRequestBytes(t, m, fc);
    } else if fc == 23 {
      ReadWriteRequestBytes(t, m);
    } else if fc == 20 || fc == 21 {
      FileRequestBytes(t, m, fc);
    } else {
      ShortRequestBytes(t, m, fc);
    }
  }

  predicate HasItsBytes(r: Request, fc: byte, data: seq<byte>) {
    FunctionCode(r) == fc && Countable(r) && RequestData(r) == data
  }

  lemma ShortRequestBytes(t: Transport, m: seq<byte>, fc: byte)
    requires fc in {1, 2, 3, 4, 5, 6, 43} && BodyArrived(t, m, RequestForm(fc))
    ensures HasItsBytes(ParseRequest(fc, m, HeaderLength(t)), fc,
                        m[HeaderLength(t)..BodyEnd(t, m, RequestForm(fc))])
  {
    hide WordAt, Be;
    var h := HeaderLength(t);
    if fc == 43 {
      assert m[h..h + 3] == [m[h], m[h + 1], m[h + 2]];
    } else {
      TwoWordsAt(m, h);
    }
  }

  lemma WriteRequestBytes(t: Transport, m: seq<byte>, fc: byte)
    requires fc in {15, 16} && BodyArrived(t, m, RequestForm(fc)) && !OverLimit(t, m, RequestForm(fc))
    ensures HasItsBytes(ParseRequest(fc, m, HeaderLength(t)), fc,
                        m[HeaderLength(t)..BodyEnd(t, m, RequestForm(fc))])
  {
    hide WordAt, Be;
    var h := HeaderLength(t);
    TwoWordsAt(m, h);
    assert m[h..h + 5 + m[h + 4]] == m[h..h + 4] + [m[h + 4]] + m[h + 5..h + 5 + m[h + 4]];
  }

  lemma FileRequestBytes(t: Transport, m: seq<byte>, fc: byte)
    requires fc in {20, 21} && BodyArrived(t, m, RequestForm(fc)) && !OverLimit(t, m, RequestForm(fc))
    ensures HasItsBytes(ParseRequest(fc, m, HeaderLength(t)), fc,
                        m[HeaderLength(t)..BodyEnd(t, m, RequestForm(fc))])
  {
    hide WordAt, Be;
    var h := HeaderLength(t);
    assert m[h..h + 1 + m[h]] == [m[h]] + m[h + 1..h + 1 + m[h]];
  }

  lemma ReadWriteRequestBytes(t: Transport, m: seq<byte>)
    requires BodyArrived(t, m, RequestForm(23)) && !OverLimit(t, m, RequestForm(23))
    ensures HasItsBytes(ParseRequest(23, m, HeaderLength(t)), 23,
                        m[HeaderLength(t)..BodyEnd(t, m, RequestForm(23))])
  {
    hide WordAt, Be;
    var h := HeaderLength(t);
    WordBytes(m, h);
    WordBytes(m, h + 2);
    WordBytes(m, h + 4);
    WordBytes(m, h + 6);
    FourWords(m, h);
  }

  lemma FourWords(m: seq<byte>, h: nat)
    requires h + 9 <= |m| && h + 9 + m[h + 8] <= |m|
    ensures m[h..h + 9 + m[h + 8]]
         == m[h..h + 2] + m[h + 2..h + 4] + m[h + 4..h + 6] + m[h + 6..h + 8] + [m[h + 8]]
            + m[h + 9..h + 9 + m[h + 8]]
  {}

  lemma WordBytes(m: seq<byte>, i: nat)
    requires i + 2 <= |m|
    ensures Be(WordAt(m, i)) == m[i..i + 2]
  {
    BytesOfWord(m[i], m[i + 1]);
  }

  lemma TwoWordsAt(m: seq<byte>, i: nat)
    requires i + 4 <= |m|
    ensures Be(WordAt(m, i)) + Be(WordAt(m, i + 2)) == m[i..i + 4]
  {
    WordBytes(m, i);
    WordBytes(m, i + 2);
    assert m[i..i + 4] == m[i..i + 2] + m[i + 2..i + 4];
  }

  // ----- a poll

  /** What is left behind so many bytes. */
  function Behind(s: seq<byte>, n: nat): seq<byte> {
    if |s| <= n then [] else s[n..]
  }

  function Marked(fc: int): byte {
    (fc + 128) % 256
  }

  function Summed(crc: CrcFunction, m: seq<byte>): seq<byte> {
    m + [crc(m) / 256, crc(m) % 256]
  }

  /** The bytes that a station sends. */
  function RtuAnswer(crc: CrcFunction, unitId: byte, fc: byte, o: Outcome): seq<byte> {
    match o
    case Reply(data) => Summed(crc, [unitId, fc] + data)
    case Exception(code) => Summed(crc, [unitId, Marked(fc), code])
    case Silent => []
  }

  lemma EmittedOnRtu(crc: CrcFunction, h: Header, o: Outcome)
    ensures Emitted(RTU, crc, h, o) == RtuAnswer(crc, h.unitId, h.fc, o)
  {
    if o.Exception? {
      assert [h.unitId, Marked(h.fc)] + [o.code] == [h.unitId, Marked(h.fc), o.code];
    }
  }

  /** A request is served: its outcome, and the device behind it. */
  ghost predicate Served<D>(cbs: Callbacks<D>, dev: D, unitId: byte, broadcast: bool, r: Request, o: Outcome, left: D) {
    && (r.WriteCoils? ==> |r.bytes| <= 250)
    && (r.WriteFile? ==> WriteSubs(r.bytes).Some?)
    && ServeRequest(cbs, dev, unitId, broadcast, r) == (o, left)
  }

  /** A poll of a station: what it does with any line. */
  lemma RtuPoll<D>(crc: CrcFunction, address: byte, cbs: Callbacks<D>, dev: D, s: seq<byte>)
    returns (r: Request, o: Outcome)
    requires LineReady(RTU, crc, address, s)
    ensures var p := PollResult(RTU, crc, address, cbs, dev, s);
      if s == [] then p == Polled(0, dev, [], [])
      else
        && |s| >= 2
        && var fc := s[1];
           if fc !in {1, 2, 3, 4, 5, 6, 15, 16, 20, 21, 23, 43} then
             p == Polled(0, dev, if s[0] == address && s[0] != 0 then RtuAnswer(crc, s[0], fc, Exception(1)) else [],
                         Behind(s, 262))
           else
             && (CountAt(fc).Some? ==> |s| > Front(RTU) + CountAt(fc).value)
             && var n := 2 + DataLength(RTU, s, fc);
                if CountsTooMany(RTU, s, fc) then p == Polled(-8, dev, [], Behind(s, 263 + CountAt(fc).value))
                else if |s| < n + 2 then false
                else if s[n..n + 2] != [crc(s[..n]) / 256, crc(s[..n]) % 256] then
                  p == Polled(-5, dev, [], Behind(s, n + 262))
                else if s[0] != 0 && s[0] != address then p.dev == dev && p.sent == []
                else
                  && HasItsBytes(r, fc, s[2..n]) && Served(cbs, dev, s[0], s[0] == 0, r, o, p.dev)
                  && p == Polled(0, p.dev, RtuAnswer(crc, s[0], fc, o), s[n + 2..])
  {
    hide ServeRequest, ParseRequest, HasItsBytes, WordAt, RequestForm, RtuAnswer, PollResult, Served, Behind;
    hide Emitted, AnswerArrived, RequestArrived;
    r, o := WriteRegister(0, 0), Silent;
    if s == [] {
      NothingPolled(RTU, crc, address, cbs, dev);
    } else {
      var fc := s[1];
      if fc !in FUNCTIONS {
        UnknownOnRtu(crc, address, cbs, dev, s);
      } else {
        ArrivedForm(RTU, s, fc);
        FormInNumbers(RTU, s, fc);
        if OverLimit(RTU, s, RequestForm(fc)) {
          TooManyOnRtu(crc, address, cbs, dev, s);
        } else {
          var n := 2 + DataLength(RTU, s, fc);
          TrailerBytes(crc, s, n);
          if !TrailerFits(RTU, crc, s, n) {
            DamagedOnRtu(crc, address, cbs, dev, s);
          } else if s[0] != 0 && s[0] != address {
            OthersOnRtu(crc, address, cbs, dev, s);
          } else {
            r, o := ServedOnRtu(crc, address, cbs, dev, s);
          }
        }
      }
    }
  }

  lemma NothingPolled<D>(t: Transport, crc: CrcFunction, address: byte, cbs: Callbacks<D>, dev: D)
    ensures LineReady(t, crc, address, []) && PollResult(t, crc, address, cbs, dev, []) == Polled(0, dev, [], [])
  {}

  lemma ArrivedForm(t: Transport, m: seq<byte>, fc: byte)
    requires RequestArrived(t, m, fc)
    ensures BodyArrived(t, m, RequestForm(fc))
  {}

  lemma UnknownOnRtu<D>(crc: CrcFunction, address: byte, cbs: Callbacks<D>, dev: D, s: seq<byte>)
    requires LineReady(RTU, crc, address, s) && |s| >= 2 && s[1] !in FUNCTIONS
    ensures PollResult(RTU, crc, address, cbs, dev, s)
         == Polled(0, dev, if s[0] == address && s[0] != 0 then RtuAnswer(crc, s[0], s[1], Exception(1)) else [],
                   Behind(s, 262))
  {
    hide RtuAnswer, Emitted;
    EmittedOnRtu(crc, HeaderOf(RTU, s), Exception(1));
    SilenceIsEmpty(RTU, crc, HeaderOf(RTU, s), []);
  }

  lemma TooManyOnRtu<D>(crc: CrcFunction, address: byte, cbs: Callbacks<D>, dev: D, s: seq<byte>)
    requires LineReady(RTU, crc, address, s) && |s| >= 2 && s[1] in FUNCTIONS
    requires BodyArrived(RTU, s, RequestForm(s[1])) && OverLimit(RTU, s, RequestForm(s[1]))
    ensures CountAt(s[1]).Some?
    ensures PollResult(RTU, crc, address, cbs, dev, s) == Polled(-8, dev, [], Behind(s, 263 + CountAt(s[1]).value))
  {
    hide AnswerArrived, RequestArrived, ServeRequest, ParseRequest;
  }

  lemma DamagedOnRtu<D>(crc: CrcFunction, address: byte, cbs: Callbacks<D>, dev: D, s: seq<byte>)
    requires LineReady(RTU, crc, address, s) && |s| >= 2 && s[1] in FUNCTIONS
    requires BodyArrived(RTU, s, RequestForm(s[1])) && !OverLimit(RTU, s, RequestForm(s[1]))
    requires !TrailerFits(RTU, crc, s, BodyEnd(RTU, s, RequestForm(s[1])))
    ensures PollResult(RTU, crc, address, cbs, dev, s)
         == Polled(-5, dev, [], Behind(s, BodyEnd(RTU, s, RequestForm(s[1])) + 262))
  {
    hide AnswerArrived, RequestArrived, ServeRequest, ParseRequest, TrailerFits, RequestForm;
  }

  lemma OthersOnRtu<D>(crc: CrcFunction, address: byte, cbs: Callbacks<D>, dev: D, s: seq<byte>)
    requires LineReady(RTU, crc, address, s) && |s| >= 2 && s[1] in FUNCTIONS && s[0] != 0 && s[0] != address
    requires BodyArrived(RTU, s, RequestForm(s[1])) && !OverLimit(RTU, s, RequestForm(s[1]))
    requires TrailerFits(RTU, crc, s, BodyEnd(RTU, s, RequestForm(s[1])))
    ensures var p := PollResult(RTU, crc, address, cbs, dev, s); p.dev == dev && p.sent == []
  {
    hide AnswerArrived, RequestArrived, ServeRequest, ParseRequest, TrailerFits, RequestForm;
  }

  lemma ServedOnRtu<D>(crc: CrcFunction, address: byte, cbs: Callbacks<D>, dev: D, s: seq<byte>)
    returns (r: Request, o: Outcome)
    requires LineReady(RTU, crc, address, s) && |s| >= 2 && s[1] in FUNCTIONS && (s[0] == 0 || s[0] == address)
    requires BodyArrived(RTU, s, RequestForm(s[1])) && !OverLimit(RTU, s, RequestForm(s[1]))
    requires TrailerFits(RTU, crc, s, BodyEnd(RTU, s, RequestForm(s[1])))
    ensures var n, p := BodyEnd(RTU, s, RequestForm(s[1])), PollResult(RTU, crc, address, cbs, dev, s);
      && HasItsBytes(r, s[1], s[2..n]) && Served(cbs, dev, s[0], s[0] == 0, r, o, p.dev)
      && p == Polled(0, p.dev, RtuAnswer(crc, s[0], s[1], o), s[n + 2..])
  {
    hide AnswerArrived, ServeRequest, TrailerFits, RequestForm, RtuAnswer, Emitted, HasItsBytes, Served;
    hide WriteSubs, WordAt, RequestArrived;
    ReadRequestBytes(RTU, s, s[1]);
    r := ParseRequest(s[1], s, 2);
    o := ParsedServed(RTU, s, cbs, dev, s[0], s[0] == 0);
    EmittedOnRtu(crc, HeaderOf(RTU, s), o);
  }

  lemma ParsedServed<D>(t: Transport, m: seq<byte>, cbs: Callbacks<D>, dev: D, unitId: byte, broadcast: bool)
    returns (o: Outcome)
    requires |m| >= HeaderLength(t) && m[HeaderLength(t) - 1] in FUNCTIONS
    requires RequestArrived(t, m, m[HeaderLength(t) - 1])
    requires !OverLimit(t, m, RequestForm(m[HeaderLength(t) - 1]))
    ensures var r := ParseRequest(m[HeaderLength(t) - 1], m, HeaderLength(t));
      && (r.WriteCoils? ==> |r.bytes| <= 250) && (r.WriteFile? ==> WriteSubs(r.bytes).Some?)
      && o == ServeRequest(cbs, dev, unitId, broadcast, r).0
      && Served(cbs, dev, unitId, broadcast, r, o, ServeRequest(cbs, dev, unitId, broadcast, r).1)
  {
    hide WriteSubs, ServeRequest, WordAt;
    var r := ParseRequest(m[HeaderLength(t) - 1], m, HeaderLength(t));
    o := ServeRequest(cbs, dev, unitId, broadcast, r).0;
  }

  lemma TrailerBytes(crc: CrcFunction, s: seq<byte>, n: nat)
    requires n + 2 <= |s|
    ensures TrailerFits(RTU, crc, s, n) <==> s[n..n + 2] == [crc(s[..n]) / 256, crc(s[..n]) % 256]
  {
    BytesOfWord(s[n], s[n + 1]);
    assert s[n..n + 2] == [s[n], s[n + 1]];
  }

  /** The bytes that a server sends on TCP. */
  function TcpAnswer(tid: u16, unitId: byte, fc: byte, o: Outcome): seq<byte> {
    match o
    case Reply(data) =>
      [tid / 256, tid % 256, 0, 0, (2 + |data|) / 256 % 256, (2 + |data|) % 256, unitId, fc] + data
    case Exception(code) => [tid / 256, tid % 256, 0, 0, 0, 3, unitId, Marked(fc), code]
    case Silent => []
  }

  lemma EmittedOnTcp(crc: CrcFunction, h: Header, o: Outcome)
    ensures Emitted(TCP, crc, h, o) == TcpAnswer(h.transactionId, h.unitId, h.fc, o)
  {
    if o.Reply? {
      LengthBytes(2 + |o.data|);
    }
  }

  lemma LengthBytes(n: nat)
    ensures Be(Uint16(n)) == [n / 256 % 256, n % 256]
    ensures n < 65536 ==> n / 256 % 256 == n / 256
  {
    var q, r := n / 65536, n % 65536;
    assert n == 256 * (256 * q) + r;
    assert n / 256 == 256 * q + r / 256;
  }

  /** A poll on TCP: what it does with any line. */
  lemma TcpPoll<D>(crc: CrcFunction, cbs: Callbacks<D>, address: byte, dev: D, s: seq<byte>)
    returns (r: Request, o: Outcome)
    requires LineReady(TCP, crc, address, s)
    ensures var p := PollResult(TCP, crc, address, cbs, dev, s);
      if s == [] then p == Polled(0, dev, [], [])
      else if |s| < 8 then false
      else
        var tid, length, fc := AnswerChecks.Number(s[0], s[1]), AnswerChecks.Number(s[4], s[5]), s[7];
        if s[2] != 0 || s[3] != 0 || length < 2 || length > 255 then
          p == Polled(-6, dev, [], s[if 2 <= length <= 255 then 6 + length else 8..])
        else if |s| < 6 + length then false
        else if fc !in {1, 2, 3, 4, 5, 6, 15, 16, 20, 21, 23, 43} then
          p == Polled(0, dev, TcpAnswer(tid, s[6], fc, Exception(1)), Behind(s, 266 + length))
        else
          && (CountAt(fc).Some? ==> |s| > Front(TCP) + CountAt(fc).value)
          && var n := 8 + DataLength(TCP, s, fc);
             if CountsTooMany(TCP, s, fc) then p == Polled(-8, dev, [], Behind(s, 266 + length))
             else
               && n <= |s| && HasItsBytes(r, fc, s[8..n]) && Served(cbs, dev, s[6], false, r, o, p.dev)
               && p == Polled(0, p.dev, TcpAnswer(tid, s[6], fc, o), s[6 + length..])
  {
    hide ServeRequest, ParseRequest, HasItsBytes, WordAt, RequestForm, TcpAnswer, PollResult, Served, Behind;
    hide Emitted, AnswerArrived, RequestArrived, HeaderArrived, MbapOk, LineReady, Message;
    r, o := WriteRegister(0, 0), Silent;
    if s == [] {
      NothingPolled(TCP, crc, address, cbs, dev);
    } else {
      var ok := MbapInNumbers(crc, address, cbs, dev, s);
      if ok {
        var m, fc := s[..6 + AnswerChecks.Number(s[4], s[5])], s[7];
        if fc !in FUNCTIONS {
          UnknownOnTcp(crc, address, cbs, dev, s, m);
        } else {
          MessageOnTcp(crc, address, s, m);
          ArrivedForm(TCP, m, fc);
          FormInNumbers(TCP, m, fc);
          assert BodyEnd(TCP, m, RequestForm(fc)) == 8 + DataLength(TCP, s, fc);
          if OverLimit(TCP, m, RequestForm(fc)) {
            TooManyOnTcp(crc, address, cbs, dev, s, m);
          } else {
            r, o := ServedOnTcp(crc, address, cbs, dev, s, m);
            var n := 8 + DataLength(TCP, s, fc);
            assert m[8..n] == s[8..n];
          }
        }
      }
    }
  }

  lemma MbapInNumbers<D>(crc: CrcFunction, address: byte, cbs: Callbacks<D>, dev: D, s: seq<byte>) returns (ok: bool)
    requires LineReady(TCP, crc, address, s) && s != []
    ensures |s| >= 8 && HeaderArrived(TCP, s) && (ok <==> MbapOk(TCP, s))
    ensures var length := AnswerChecks.Number(s[4], s[5]);
      && WordAt(s, 4) == length
      && (ok <==> s[2] == 0 && s[3] == 0 && 2 <= length <= 255)
      && (ok ==> |s| >= 6 + length && Message(TCP, s) == s[..6 + length])
      && (ok || PollResult(TCP, crc, address, cbs, dev, s)
             == Polled(-6, dev, [], s[if 2 <= length <= 255 then 6 + length else 8..]))
  {
    hide MessageReady, PollResult, WordAt;
    AnswerChecks.MbapInBytes(s);
    ok := MbapOk(TCP, s);
    if !ok {
      MbapPolled(crc, address, cbs, dev, s);
    }
  }

  lemma MbapPolled<D>(crc: CrcFunction, address: byte, cbs: Callbacks<D>, dev: D, s: seq<byte>)
    requires LineReady(TCP, crc, address, s) && s != [] && !MbapOk(TCP, s)
    ensures PollResult(TCP, crc, address, cbs, dev, s)
         == Polled(-6, dev, [], s[if 2 <= WordAt(s, 4) <= 255 then 6 + WordAt(s, 4) else 8..])
  {
    hide MessageReady, WordAt, Handled;
  }

  /** The message m is at the beginning of the line. */
  ghost predicate OneMessage(crc: CrcFunction, address: byte, s: seq<byte>, m: seq<byte>) {
    && LineReady(TCP, crc, address, s) && s != [] && HeaderArrived(TCP, s) && MbapOk(TCP, s) && m == Message(TCP, s)
    && 8 <= |m| <= |s| && m == s[..|m|]
  }

  lemma MessageOnTcp(crc: CrcFunction, address: byte, s: seq<byte>, m: seq<byte>)
    requires OneMessage(crc, address, s, m) && m[7] in FUNCTIONS
    ensures RequestArrived(TCP, m, m[7])
  {
    hide RequestArrived;
  }

  lemma UnknownOnTcp<D>(crc: CrcFunction, address: byte, cbs: Callbacks<D>, dev: D, s: seq<byte>, m: seq<byte>)
    requires OneMessage(crc, address, s, m) && m[7] !in FUNCTIONS
    ensures PollResult(TCP, crc, address, cbs, dev, s)
         == Polled(0, dev, TcpAnswer(AnswerChecks.Number(s[0], s[1]), s[6], s[7], Exception(1)), Behind(s, 260 + |m|))
  {
    hide TcpAnswer, Emitted;
    EmittedOnTcp(crc, HeaderOf(TCP, m), Exception(1));
  }

  lemma TooManyOnTcp<D>(crc: CrcFunction, address: byte, cbs: Callbacks<D>, dev: D, s: seq<byte>, m: seq<byte>)
    requires OneMessage(crc, address, s, m) && m[7] in FUNCTIONS
    requires BodyArrived(TCP, m, RequestForm(m[7])) && OverLimit(TCP, m, RequestForm(m[7]))
    ensures PollResult(TCP, crc, address, cbs, dev, s) == Polled(-8, dev, [], Behind(s, 260 + |m|))
  {
    hide RequestArrived, ServeRequest, ParseRequest, RequestForm;
  }

  lemma ServedOnTcp<D>(crc: CrcFunction, address: byte, cbs: Callbacks<D>, dev: D, s: seq<byte>, m: seq<byte>)
    returns (r: Request, o: Outcome)
    requires OneMessage(crc, address, s, m) && m[7] in FUNCTIONS
    requires BodyArrived(TCP, m, RequestForm(m[7])) && !OverLimit(TCP, m, RequestForm(m[7]))
    ensures var n, p := BodyEnd(TCP, m, RequestForm(m[7])), PollResult(TCP, crc, address, cbs, dev, s);
      && HasItsBytes(r, m[7], m[8..n]) && Served(cbs, dev, s[6], false, r, o, p.dev)
      && p == Polled(0, p.dev, TcpAnswer(AnswerChecks.Number(s[0], s[1]), s[6], s[7], o), s[|m|..])
  {
    hide ServeRequest, RequestForm, TcpAnswer, Emitted, HasItsBytes, Served, WriteSubs, RequestArrived;
    MessageOnTcp(crc, address, s, m);
    ReadRequestBytes(TCP, m, m[7]);
    r := ParseRequest(m[7], m, 8);
    o := ParsedServed(TCP, m, cbs, dev, s[6], false);
    EmittedOnTcp(crc, HeaderOf(TCP, m), o);
  }

  // ----- what a client sends

  /** What a client sends is what a server with all callbacks takes, but for quantities 122 and 123 of FC 23. */
  lemma GuardsInNumbers(r: Request)
    ensures Guards.Guarded(r) <==>
      match r
      case ReadFile(bytes) => |bytes| == 7 && Refusals.ReadableRecord(bytes, 0)
      case WriteFile(bytes) => exists s: WriteSub :: Refusals.WritableRecord(s) && WriteSubBytes(s) == bytes
      case ReadDeviceId(meiType, code, id) =>
        meiType == 14 && 1 <= code <= 4 && (code == 3 ==> id >= 128) && (code == 4 ==> id <= 6 || id >= 128)
      case ReadWrite(_, _, _, quantity, _) => Refusals.Refusal({3, 16}, r) == 0 && quantity <= 121
      case _ => Refusals.Refusal({1, 2, 3, 4, 5, 6, 15, 16}, r) == 0
  {
    hide WriteSubs, WriteSubBytes;
    match r {
      case ReadFile(bytes) =>
        if |bytes| == 7 {
          Refusals.RecordInBytes(bytes, 0);
        }
      case WriteFile(bytes) => OneRecordGuarded(bytes);
      case _ =>
    }
  }

  lemma OneRecordGuarded(bytes: seq<byte>)
    ensures Guards.Guarded(WriteFile(bytes)) <==>
      exists s: WriteSub :: Refusals.WritableRecord(s) && WriteSubBytes(s) == bytes
  {
    hide WriteSubs, WriteSubBytes, WordAt, WordsOf;
    if Guards.Guarded(WriteFile(bytes)) {
      var s := WriteSubs(bytes).value[0];
      Sizes.NoSubs(bytes);
      FirstWriteSub(bytes);
      var rest := bytes[WriteSubSize(bytes)..];
      Sizes.NoSubs(rest);
      assert bytes[7..WriteSubSize(bytes)] == bytes[7..];
      AnswerChecks.FieldsHaveBytes(bytes, s);
      assert Refusals.WritableRecord(s);
    }
    if s: WriteSub :| Refusals.WritableRecord(s) && WriteSubBytes(s) == bytes {
      WriteSubsUndo([s]);
      OneRecordBytes(s);
      assert WriteSubs(bytes).value[0] == s;
    }
  }

  lemma OneRecordBytes(s: WriteSub)
    requires |s.registers| < 65536
    ensures AllWriteSubBytes([s]) == WriteSubBytes(s)
  {
    assert [s][1..] == [] && WriteSubBytes(s) + [] == WriteSubBytes(s);
  }
}
