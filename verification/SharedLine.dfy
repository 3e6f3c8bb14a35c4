/** Several servers on one RTU line: everyone hears what the client and all the others send. */
module SharedLine {
  import opened Words
  import opened Frames
  import opened Engine
  import opened Responses
  import opened Requests
  import opened Serving
  import opened FileRecords
  import FileServer
  import Guards
  import Failures
  import opened Polling
  import opened Wire

  /** A request for one address, or for all. */
  datatype Transaction = Transaction(unitId: byte, request: Request)

  ghost predicate Listenable(x: Transaction) {
    FunctionCode(x.request) in LISTENED && Serveable(RTU, x.request)
  }

  function HeadOf(x: Transaction): Header {
    Header(0, x.unitId, FunctionCode(x.request))
  }

  function RequestFrame(crc: CrcFunction, x: Transaction): seq<byte>
    requires Countable(x.request)
  {
    Frame(RTU, crc, HeadOf(x), RequestData(x.request))
  }

  // ----- listening to others

  /** An outcome that is an answer to the transaction, by whichever station. */
  ghost predicate AnswerTo(x: Transaction, o: Outcome) {
    && Answers(o)
    && (o.Reply? && FunctionCode(x.request) in {1, 2, 3, 4} ==> |o.data| >= 1 && o.data[0] == |o.data| - 1 <= 250)
    && (o.Reply? && x.request.ReadRegisters? ==> |o.data| == 1 + 2 * x.request.quantity)
    && (o.Reply? && (x.request.WriteCoil? || x.request.WriteRegister?) ==>
         o.data == Be(x.request.address) + Be(x.request.value))
    && (o.Reply? && (x.request.WriteCoils? || x.request.WriteRegisters?) ==>
         o.data == Be(x.request.address) + Be(x.request.quantity))
  }

  /**
   * A station that is not addressed consumes exactly request and answer and does nothing else. What follows a reply is
   * left for the next poll; behind an exception the poll flushes, so there only an empty line stays as it was.
   */
  lemma ListenerKeepsStep<D>(crc: CrcFunction, address: byte, cbs: Callbacks<D>, dev: D, x: Transaction, o: Outcome,
                             rest: seq<byte>)
    requires Listenable(x) && AnswerTo(x, o)
    requires x.unitId != BROADCAST_ADDRESS && x.unitId != address
    ensures var s := RequestFrame(crc, x) + (Emitted(RTU, crc, HeadOf(x), o) + rest);
      && LineReady(RTU, crc, address, s)
      && var p := PollResult(RTU, crc, address, cbs, dev, s);
         && p == (if o.Reply? then Polled(ERROR_NONE, dev, [], rest) else Polled(o.code, dev, [], Flushed(rest)))
         && (p.rest == rest <==> o.Reply? || rest == [])
  {
    hide Frame, RequestData, ServeRequest, TrailerFits, ParseRequest, DataAt, RequestForm, Emitted;
    hide ReadSubs, WriteSubs, AllLegalReads, FileServer.PartsFit, AnswerArrived, ListenError, Addressed, FormLeft;
    var answer := Emitted(RTU, crc, HeadOf(x), o) + rest;
    var m := RequestFrame(crc, x) + answer;
    FrameIsMessage(RTU, crc, HeadOf(x), RequestData(x.request), answer);
    RequestFrameArrives(RTU, x.request, m);
    BehindFrame(RequestFrame(crc, x), answer);
    AnswerIsFollowed(crc, x, o, rest, m);
  }

  /** The words that a listener keeps of a request. */
  lemma FirstWords(r: Request, m: seq<byte>)
    requires FunctionCode(r) in LISTENED && BodyArrived(RTU, m, RequestForm(FunctionCode(r)))
    requires !OverLimit(RTU, m, RequestForm(FunctionCode(r))) && ParseRequest(FunctionCode(r), m, 2) == r
    ensures |m| >= 6 && WordAt(m, 2) == r.address
    ensures WordAt(m, 4) == if r.WriteCoil? || r.WriteRegister? then r.value else r.quantity
  {}

  /** What a listener will compare the answer's words with: the second of them. */
  function SecondWord(r: Request): u16
    requires FunctionCode(r) in LISTENED
  {
    if r.WriteCoil? || r.WriteRegister? then r.value else r.quantity
  }

  /** The answer by itself: whole, in the form a listener expects, and agreeing with the request. */
  lemma AnswerAgrees(crc: CrcFunction, x: Transaction, o: Outcome, rest: seq<byte>)
    requires Listenable(x) && AnswerTo(x, o)
    ensures var fc, h, s := FunctionCode(x.request), HeadOf(x), Emitted(RTU, crc, HeadOf(x), o) + rest;
      var e := if o.Reply? then ERROR_NONE else o.code;
      && ResArrived(RTU, crc, h, s, ListenForm(fc))
      && (fc <= 2 ==> FormError(RTU, crc, h, s, COUNTED) == e)
      && (fc == 3 || fc == 4 ==>
           WholeRegisters(RTU, crc, h, s) && RegistersError(RTU, crc, h, s, SecondWord(x.request)) == e)
      && (fc > 4 ==> WrittenError(RTU, crc, h, s, x.request.address, SecondWord(x.request)) == e)
      && FormLeft(RTU, crc, h, s, ListenForm(fc)) == rest
  {
    hide Emitted, TrailerFits, ResHeaderError, ResHeaderArrived, FormLeft;
    if FunctionCode(x.request) <= 4 {
      CountedAnswer(RTU, crc, HeadOf(x), o, 250, rest);
    } else {
      WrittenAnswer(RTU, crc, HeadOf(x), o, x.request.address, SecondWord(x.request), rest);
    }
  }

  lemma AnswerIsFollowed(crc: CrcFunction, x: Transaction, o: Outcome, rest: seq<byte>, m: seq<byte>)
    requires Listenable(x) && AnswerTo(x, o) && |m| >= 2 && HeaderOf(RTU, m) == HeadOf(x)
    requires var fc := FunctionCode(x.request);
      && BodyArrived(RTU, m, RequestForm(fc)) && !OverLimit(RTU, m, RequestForm(fc))
      && ParseRequest(fc, m, 2) == x.request
      && m[BodyEnd(RTU, m, RequestForm(fc)) + 2..] == Emitted(RTU, crc, HeadOf(x), o) + rest
    ensures var fc := FunctionCode(x.request);
      && AnswerArrived(crc, m, fc)
      && ListenError(crc, m, fc) == (if o.Reply? then ERROR_NONE else o.code)
      && FormLeft(RTU, crc, HeadOf(x), m[BodyEnd(RTU, m, RequestForm(fc)) + 2..], ListenForm(fc)) == rest
  {
    hide Emitted, ResArrived, FormError, FormLeft, RegistersError, WrittenError, WholeRegisters, RequestForm;
    hide AnswerTo, BodyArrived, HeaderOf, WordAt, ParseRequest;
    FirstWords(x.request, m);
    AnswerAgrees(crc, x, o, rest);
  }

  /** Without an answer, a station that is not addressed runs into its timeout behind the request. */
  lemma NobodyAnswers<D>(crc: CrcFunction, address: byte, cbs: Callbacks<D>, dev: D, x: Transaction)
    requires Listenable(x) && x.unitId != BROADCAST_ADDRESS && x.unitId != address
    ensures LineReady(RTU, crc, address, RequestFrame(crc, x))
    ensures PollResult(RTU, crc, address, cbs, dev, RequestFrame(crc, x)) == Polled(ERROR_TIMEOUT, dev, [], [])
  {
    hide Frame, RequestData, ServeRequest, TrailerFits, ParseRequest, DataAt, RequestForm, Emitted;
    hide ReadSubs, WriteSubs, AllLegalReads, FileServer.PartsFit, Addressed;
    var m := RequestFrame(crc, x);
    assert m + [] == m;
    FrameIsMessage(RTU, crc, HeadOf(x), RequestData(x.request), []);
    RequestFrameArrives(RTU, x.request, m);
    assert m[2 + |RequestData(x.request)| + 2..] == [];
  }

  // ----- broadcasts

  /** The callbacks accept a broadcast: its values are in order, the callback is there and succeeds. */
  predicate Accepts<D>(cbs: Callbacks<D>, dev: D, r: Request)
    requires Guards.ForBank(r)
  {
    && Guards.Guarded(r) && Failures.Provided(cbs, r)
    && Failures.Ran(cbs, dev, BROADCAST_ADDRESS, true, r).error == ERROR_NONE
  }

  /** A broadcast is never replied to. It is met with silence exactly if it is accepted, and else with an exception. */
  lemma BroadcastIsAnsweredOnlyByExceptions<D>(cbs: Callbacks<D>, dev: D, r: Request)
    requires FunctionCode(r) in LISTENED && (r.WriteCoils? ==> |r.bytes| <= 250)
    ensures var o := ServeRequest(cbs, dev, BROADCAST_ADDRESS, true, r).0;
      && !o.Reply?
      && (o.Silent? <==> Accepts(cbs, dev, r))
      && (o.Exception? ==> IsException(o.code))
  {
    hide BeAll, WordsOf, Padded;
    if Guards.Guarded(r) {
      Failures.FailuresAreReported(cbs, dev, BROADCAST_ADDRESS, true, r);
    }
  }

  /** A line that begins with somebody's refusal of a broadcast. */
  predicate Refused(line: seq<byte>) {
    |line| >= 2 && line[0] == BROADCAST_ADDRESS && line[1] >= 0x80
  }

  /** A poll takes a refusal for a broadcast with an unknown function code, and flushes what is behind it. */
  lemma RefusalIsFlushed<D>(crc: CrcFunction, address: byte, cbs: Callbacks<D>, dev: D, line: seq<byte>)
    requires Refused(line)
    ensures LineReady(RTU, crc, address, line)
    ensures PollResult(RTU, crc, address, cbs, dev, line) == Polled(ERROR_NONE, dev, [], Flushed(line[2..]))
  {}

  // ----- stations on one line

  /** A server with its address, its callbacks, its device and the bytes that it has not yet read. */
  datatype Station<!D> = Station(address: byte, callbacks: Callbacks<D>, dev: D, line: seq<byte>)

  /** The client sends a request and everyone polls, those first for whom it is; or everyone just polls. */
  datatype Event = Request(x: Transaction) | Idle

  ghost predicate DistinctAddresses<D>(stations: seq<Station<D>>) {
    && (forall i :: 0 <= i < |stations| ==> stations[i].address != BROADCAST_ADDRESS)
    && (forall i, j :: 0 <= i < j < |stations| ==> stations[i].address != stations[j].address)
  }

  ghost predicate AtBoundary<D>(stations: seq<Station<D>>) {
    forall k :: 0 <= k < |stations| ==> stations[k].line == []
  }

  predicate ForStation<D>(s: Station<D>, x: Transaction) {
    x.unitId == s.address || x.unitId == BROADCAST_ADDRESS
  }

  /** All that the stations but one have sent, in the order of the stations. */
  function FromOthers(sent: seq<seq<byte>>, k: nat): seq<byte> {
    if sent == [] then []
    else
      var n := |sent| - 1;
      FromOthers(sent[..n], k) + if n == k then [] else sent[n]
  }

  ghost predicate CanPoll<D>(crc: CrcFunction, s: Station<D>, line: seq<byte>) {
    LineReady(RTU, crc, s.address, line)
  }

  ghost function PollOf<D>(crc: CrcFunction, s: Station<D>, line: seq<byte>): Polled<D>
    requires CanPoll(crc, s, line)
  {
    PollResult(RTU, crc, s.address, s.callbacks, s.dev, line)
  }

  /** Those for whom a request is can poll with it on their line. */
  ghost predicate FirstCanPoll<D>(crc: CrcFunction, stations: seq<Station<D>>, x: Transaction)
    requires Listenable(x)
  {
    forall k :: 0 <= k < |stations| && ForStation(stations[k], x) ==>
      CanPoll(crc, stations[k], stations[k].line + RequestFrame(crc, x))
  }

  /** What the stations for whom a request is send when they poll. */
  ghost function FirstSent<D>(crc: CrcFunction, stations: seq<Station<D>>, x: Transaction): (r: seq<seq<byte>>)
    requires Listenable(x) && FirstCanPoll(crc, stations, x)
    ensures |r| == |stations|
  {
    seq(|stations|, k requires 0 <= k < |stations| =>
      if ForStation(stations[k], x) then PollOf(crc, stations[k], stations[k].line + RequestFrame(crc, x)).sent else [])
  }

  /** What station k has on its line when it polls: all others than those for whom it is hear the answers as well. */
  ghost function Heard<D>(crc: CrcFunction, stations: seq<Station<D>>, k: nat, e: Event): seq<byte>
    requires k < |stations| && (e.Request? ==> Listenable(e.x) && FirstCanPoll(crc, stations, e.x))
  {
    match e
    case Idle => stations[k].line
    case Request(x) =>
      if ForStation(stations[k], x) then stations[k].line + RequestFrame(crc, x)
      else stations[k].line + (RequestFrame(crc, x) + FromOthers(FirstSent(crc, stations, x), k))
  }

  ghost predicate Ready<D>(crc: CrcFunction, stations: seq<Station<D>>, e: Event) {
    && (e.Request? ==> Listenable(e.x) && FirstCanPoll(crc, stations, e.x))
    && forall k :: 0 <= k < |stations| ==> CanPoll(crc, stations[k], Heard(crc, stations, k, e))
  }

  ghost function PollIn<D>(crc: CrcFunction, stations: seq<Station<D>>, k: nat, e: Event): Polled<D>
    requires k < |stations| && Ready(crc, stations, e)
  {
    PollOf(crc, stations[k], Heard(crc, stations, k, e))
  }

  /** Whether station k sends before the others poll, who then have heard it. */
  predicate SendsFirst<D>(s: Station<D>, e: Event) {
    e.Request? && ForStation(s, e.x)
  }

  /** What has been sent that station k has not heard when it polls. */
  ghost function SentUnheard<D>(crc: CrcFunction, stations: seq<Station<D>>, k: nat, e: Event): (r: seq<seq<byte>>)
    requires k < |stations| && Ready(crc, stations, e)
    ensures |r| == |stations|
  {
    seq(|stations|, j requires 0 <= j < |stations| =>
      if SendsFirst(stations[j], e) && !SendsFirst(stations[k], e) then [] else PollIn(crc, stations, j, e).sent)
  }

  /** All stations behind an event: everything that others have sent and that is still unread waits on their lines. */
  ghost function After<D>(crc: CrcFunction, stations: seq<Station<D>>, e: Event): (r: seq<Station<D>>)
    requires Ready(crc, stations, e)
    ensures |r| == |stations|
  {
    seq(|stations|, k requires 0 <= k < |stations| =>
      stations[k].(dev := PollIn(crc, stations, k, e).dev,
                   line := PollIn(crc, stations, k, e).rest + FromOthers(SentUnheard(crc, stations, k, e), k)))
  }

  // ----- what is intended

  /** What a station does with a request that it handles. */
  function Serve<D>(s: Station<D>, x: Transaction): (Outcome, D)
    requires x.request.WriteCoils? ==> |x.request.bytes| <= 250
    requires x.request.WriteFile? ==> WriteSubs(x.request.bytes).Some?
  {
    ServeRequest(s.callbacks, s.dev, x.unitId, x.unitId == BROADCAST_ADDRESS, x.request)
  }

  /** What a transaction is supposed to do to a station: the addressed one, or all, serve it; the others do nothing. */
  ghost function Intended<D>(s: Station<D>, x: Transaction): (Outcome, D)
    requires Listenable(x)
  {
    if ForStation(s, x) then Serve(s, x) else (Silent, s.dev)
  }

  /** What the stations are supposed to send. */
  ghost function IntendedSent<D>(crc: CrcFunction, stations: seq<Station<D>>, x: Transaction): (r: seq<seq<byte>>)
    requires Listenable(x)
    ensures |r| == |stations|
  {
    seq(|stations|, k requires 0 <= k < |stations| => Emitted(RTU, crc, HeadOf(x), Intended(stations[k], x).0))
  }

  // ----- one transaction from a frame boundary

  lemma {:induction false} NothingFromOthers(sent: seq<seq<byte>>, k: nat)
    requires forall j :: 0 <= j < |sent| && j != k ==> sent[j] == []
    ensures FromOthers(sent, k) == []
  {
    if sent != [] {
      NothingFromOthers(sent[..|sent| - 1], k);
    }
  }

  lemma {:induction false} OneFromOthers(sent: seq<seq<byte>>, i: nat, k: nat)
    requires i < |sent| && i != k && forall j :: 0 <= j < |sent| && j != i ==> sent[j] == []
    ensures FromOthers(sent, k) == sent[i]
  {
    var n := |sent| - 1;
    if i == n {
      NothingFromOthers(sent[..n], k);
    } else {
      OneFromOthers(sent[..n], i, k);
    }
  }

  /** Whatever an addressed station answers is an answer to the transaction. */
  lemma StationAnswers<D>(s: Station<D>, x: Transaction)
    requires Listenable(x) && x.unitId != BROADCAST_ADDRESS
    ensures AnswerTo(x, Serve(s, x).0)
  {
    hide ServeRequest;
    BankAnswers(s.callbacks, s.dev, x.unitId, x.request);
  }

  /** Those for whom a request is serve it. */
  lemma AddressedServes<D>(crc: CrcFunction, stations: seq<Station<D>>, x: Transaction, k: nat)
    requires Listenable(x) && k < |stations| && stations[k].line == [] && ForStation(stations[k], x)
    ensures var s := stations[k];
      && s.line + RequestFrame(crc, x) == RequestFrame(crc, x)
      && CanPoll(crc, s, RequestFrame(crc, x))
      && PollOf(crc, s, RequestFrame(crc, x))
      == Polled(ERROR_NONE, Serve(s, x).1, Emitted(RTU, crc, HeadOf(x), Serve(s, x).0), [])
  {
    hide LineReady, PollResult, ServeRequest, Emitted, Frame, RequestData;
    var s := stations[k];
    PollOfFrame(RTU, crc, s.address, s.callbacks, s.dev, HeadOf(x), x.request, []);
    assert RequestFrame(crc, x) + [] == RequestFrame(crc, x);
  }

  lemma FirstSendAsIntended<D>(crc: CrcFunction, stations: seq<Station<D>>, x: Transaction)
    requires Listenable(x) && AtBoundary(stations)
    ensures FirstCanPoll(crc, stations, x) && FirstSent(crc, stations, x) == IntendedSent(crc, stations, x)
  {
    hide PollOf, CanPoll, Serve, Emitted, RequestFrame;
    SilenceSendsNothing(crc, HeadOf(x));
    forall k | 0 <= k < |stations| && ForStation(stations[k], x)
      ensures CanPoll(crc, stations[k], stations[k].line + RequestFrame(crc, x))
      ensures PollOf(crc, stations[k], stations[k].line + RequestFrame(crc, x)).sent
           == Emitted(RTU, crc, HeadOf(x), Serve(stations[k], x).0)
    {
      AddressedServes(crc, stations, x, k);
    }
  }

  lemma SilenceSendsNothing(crc: CrcFunction, h: Header)
    ensures Emitted(RTU, crc, h, Silent) == []
  {}

  /** What a station hears, from a boundary. */
  ghost function HeardAtBoundary<D>(crc: CrcFunction, stations: seq<Station<D>>, k: nat, x: Transaction): seq<byte>
    requires Listenable(x) && k < |stations|
  {
    if ForStation(stations[k], x) then RequestFrame(crc, x)
    else RequestFrame(crc, x) + FromOthers(IntendedSent(crc, stations, x), k)
  }

  /** In a transaction from a frame boundary each station polls as intended, and has read all it has heard. */
  lemma StationStep<D>(crc: CrcFunction, stations: seq<Station<D>>, k: nat, x: Transaction)
    requires DistinctAddresses(stations) && AtBoundary(stations) && Listenable(x) && k < |stations|
    ensures CanPoll(crc, stations[k], HeardAtBoundary(crc, stations, k, x))
    ensures var p := PollOf(crc, stations[k], HeardAtBoundary(crc, stations, k, x));
      && p.rest == []
      && p.dev == Intended(stations[k], x).1
      && p.sent == Emitted(RTU, crc, HeadOf(x), Intended(stations[k], x).0)
  {
    hide LineReady, PollResult, Serve, Emitted, RequestFrame, AnswerTo, FromOthers;
    var s := stations[k];
    SilenceSendsNothing(crc, HeadOf(x));
    if ForStation(s, x) {
      AddressedServes(crc, stations, x, k);
    } else {
      var sent := IntendedSent(crc, stations, x);
      if i :| 0 <= i < |stations| && stations[i].address == x.unitId {
        forall j | 0 <= j < |stations| && j != i
          ensures sent[j] == []
        {
          assert !ForStation(stations[j], x);
        }
        OneFromOthers(sent, i, k);
        StationAnswers(stations[i], x);
        assert sent[i] + [] == sent[i];
        ListenerKeepsStep(crc, s.address, s.callbacks, s.dev, x, Serve(stations[i], x).0, []);
      } else {
        NothingFromOthers(sent, k);
        NobodyAnswers(crc, s.address, s.callbacks, s.dev, x);
        assert RequestFrame(crc, x) + [] == RequestFrame(crc, x);
      }
    }
  }

  /** All that is left on the line of station k behind a transaction: what the others have refused. */
  ghost function RefusalsFor<D>(crc: CrcFunction, stations: seq<Station<D>>, k: nat, x: Transaction): seq<byte>
    requires Listenable(x)
  {
    if x.unitId == BROADCAST_ADDRESS then FromOthers(IntendedSent(crc, stations, x), k) else []
  }

  /** A whole transaction from a frame boundary. */
  lemma TransactionAsIntended<D>(crc: CrcFunction, stations: seq<Station<D>>, x: Transaction)
    requires DistinctAddresses(stations) && AtBoundary(stations) && Listenable(x)
    ensures Ready(crc, stations, Request(x))
    ensures forall k {:trigger After(crc, stations, Request(x))[k]} :: 0 <= k < |stations| ==>
      After(crc, stations, Request(x))[k]
      == stations[k].(dev := Intended(stations[k], x).1, line := RefusalsFor(crc, stations, k, x))
    ensures forall k {:trigger PollIn(crc, stations, k, Request(x))} :: 0 <= k < |stations| ==>
      PollIn(crc, stations, k, Request(x)).sent == Emitted(RTU, crc, HeadOf(x), Intended(stations[k], x).0)
  {
    hide CanPoll, PollOf, Intended, Emitted, RequestFrame, Listenable, FromOthers;
    FirstSendAsIntended(crc, stations, x);
    forall k | 0 <= k < |stations|
      ensures Heard(crc, stations, k, Request(x)) == HeardAtBoundary(crc, stations, k, x)
      ensures CanPoll(crc, stations[k], HeardAtBoundary(crc, stations, k, x))
      ensures var p := PollOf(crc, stations[k], HeardAtBoundary(crc, stations, k, x));
        p.rest == [] && p.dev == Intended(stations[k], x).1
        && p.sent == Emitted(RTU, crc, HeadOf(x), Intended(stations[k], x).0)
    {
      HeardFromBoundary(crc, stations, k, x);
      StationStep(crc, stations, k, x);
    }
    forall k | 0 <= k < |stations|
      ensures FromOthers(SentUnheard(crc, stations, k, Request(x)), k) == RefusalsFor(crc, stations, k, x)
    {
      UnheardIsRefusals(crc, stations, k, x);
    }
  }

  lemma HeardFromBoundary<D>(crc: CrcFunction, stations: seq<Station<D>>, k: nat, x: Transaction)
    requires Listenable(x) && AtBoundary(stations) && k < |stations| && FirstCanPoll(crc, stations, x)
    requires FirstSent(crc, stations, x) == IntendedSent(crc, stations, x)
    ensures Heard(crc, stations, k, Request(x)) == HeardAtBoundary(crc, stations, k, x)
  {
    hide FirstCanPoll, FirstSent, IntendedSent, FromOthers, RequestFrame;
  }

  lemma UnheardIsRefusals<D>(crc: CrcFunction, stations: seq<Station<D>>, k: nat, x: Transaction)
    requires DistinctAddresses(stations) && Listenable(x) && Ready(crc, stations, Request(x)) && k < |stations|
    requires forall j :: 0 <= j < |stations| ==>
      PollIn(crc, stations, j, Request(x)).sent == Emitted(RTU, crc, HeadOf(x), Intended(stations[j], x).0)
    ensures FromOthers(SentUnheard(crc, stations, k, Request(x)), k) == RefusalsFor(crc, stations, k, x)
  {
    hide PollIn, Emitted, Listenable, Ready, FromOthers, Serve;
    SilenceSendsNothing(crc, HeadOf(x));
    var sent := SentUnheard(crc, stations, k, Request(x));
    if x.unitId == BROADCAST_ADDRESS {
      assert sent == IntendedSent(crc, stations, x);
    } else {
      forall j | 0 <= j < |stations| && j != k
        ensures sent[j] == []
      {
        assert !(ForStation(stations[j], x) && ForStation(stations[k], x));
      }
      NothingFromOthers(sent, k);
    }
  }

  // ----- behind a refused broadcast

  lemma RefusalFrame(crc: CrcFunction, h: Header, code: byte)
    requires h.unitId == BROADCAST_ADDRESS && h.fc < 0x80
    ensures |Emitted(RTU, crc, h, Exception(code))| == 5 && Refused(Emitted(RTU, crc, h, Exception(code)))
  {}

  /** How many of the stations but one have sent something. */
  function Senders(sent: seq<seq<byte>>, k: nat): nat {
    if sent == [] then 0
    else
      var n := |sent| - 1;
      Senders(sent[..n], k) + if n == k || sent[n] == [] then 0 else 1
  }

  predicate NothingOrRefused(s: seq<byte>) {
    s == [] || Refused(s)
  }

  lemma RefusedFirst(a: seq<byte>, b: seq<byte>)
    requires NothingOrRefused(a) && NothingOrRefused(b)
    ensures NothingOrRefused(a + b)
  {}

  lemma {:induction false} RefusalsTogether(sent: seq<seq<byte>>, k: nat)
    requires forall j :: 0 <= j < |sent| ==> NothingOrRefused(sent[j]) && (sent[j] == [] || |sent[j]| == 5)
    ensures |FromOthers(sent, k)| == 5 * Senders(sent, k)
    ensures NothingOrRefused(FromOthers(sent, k))
  {
    hide NothingOrRefused;
    NoRefusal();
    if sent != [] {
      var n := |sent| - 1;
      RefusalsTogether(sent[..n], k);
      RefusedFirst(FromOthers(sent[..n], k), if n == k then [] else sent[n]);
    }
  }

  lemma {:induction false} SomethingFromOthers(sent: seq<seq<byte>>, j: nat, k: nat)
    requires j < |sent| && j != k && sent[j] != []
    ensures FromOthers(sent, k) != []
  {
    if j < |sent| - 1 {
      SomethingFromOthers(sent[..|sent| - 1], j, k);
    }
  }

  lemma NoRefusal()
    ensures NothingOrRefused([])
  {}

  ghost predicate AcceptedBy<D>(s: Station<D>, x: Transaction)
    requires Listenable(x)
  {
    Accepts(s.callbacks, s.dev, x.request)
  }

  /** How many stations other than k refuse a broadcast. */
  ghost function Refusers<D>(crc: CrcFunction, stations: seq<Station<D>>, k: nat, x: Transaction): nat
    requires Listenable(x)
  {
    Senders(IntendedSent(crc, stations, x), k)
  }

  /** Behind a broadcast from a boundary, a line is empty exactly if all other stations have accepted it. */
  lemma RefusalsOnLine<D>(crc: CrcFunction, stations: seq<Station<D>>, k: nat, x: Transaction)
    requires Listenable(x) && x.unitId == BROADCAST_ADDRESS && k < |stations|
    ensures var line := RefusalsFor(crc, stations, k, x);
      && (line == [] <==> forall j :: 0 <= j < |stations| && j != k ==> AcceptedBy(stations[j], x))
      && (line != [] ==> Refused(line))
      && |line| == 5 * Refusers(crc, stations, k, x)
  {
    hide Emitted, Accepts, Refused, ServeRequest;
    var sent := IntendedSent(crc, stations, x);
    SilenceSendsNothing(crc, HeadOf(x));
    forall j | 0 <= j < |stations|
      ensures sent[j] == [] <==> AcceptedBy(stations[j], x)
      ensures NothingOrRefused(sent[j]) && (sent[j] == [] || |sent[j]| == 5)
    {
      var s := stations[j];
      var o := Intended(s, x).0;
      BroadcastIsAnsweredOnlyByExceptions(s.callbacks, s.dev, x.request);
      if o.Exception? {
        RefusalFrame(crc, HeadOf(x), o.code);
      }
    }
    RefusalsTogether(sent, k);
    if forall j :: 0 <= j < |sent| && j != k ==> sent[j] == [] {
      NothingFromOthers(sent, k);
    } else {
      var j :| 0 <= j < |sent| && j != k && sent[j] != [];
      SomethingFromOthers(sent, j, k);
    }
  }

  /**
   * The request that follows a broadcast, when no station has polled in between: the station for which it is answers
   * it exactly if all other stations have accepted the broadcast. If one has refused, the refusal is still on the line,
   * the poll takes it for a request and flushes the real one, and neither device nor client notices anything.
   */
  lemma NextRequestSurvives<D>(crc: CrcFunction, stations: seq<Station<D>>, k: nat, x: Transaction, y: Transaction)
    requires DistinctAddresses(stations) && AtBoundary(stations) && k < |stations|
    requires Listenable(x) && x.unitId == BROADCAST_ADDRESS
    requires Listenable(y) && y.unitId == stations[k].address
    ensures Ready(crc, stations, Request(x))
    ensures var s := After(crc, stations, Request(x))[k];
      var line := s.line + RequestFrame(crc, y);
      && CanPoll(crc, s, line)
      && var p := PollOf(crc, s, line);
         && (p.sent != [] <==> forall j :: 0 <= j < |stations| && j != k ==> AcceptedBy(stations[j], x))
         && (p.sent != [] ==> p == Polled(ERROR_NONE, Serve(s, y).1, Emitted(RTU, crc, HeadOf(y), Serve(s, y).0), []))
         && (p.sent == [] ==> p == Polled(ERROR_NONE, s.dev, [], Flushed(line[2..])))
  {
    hide LineReady, PollResult, ServeRequest, Emitted, RequestFrame, Ready, After, RefusalsFor, AcceptedBy, Intended;
    TransactionAsIntended(crc, stations, x);
    RefusalsOnLine(crc, stations, k, x);
    var s := After(crc, stations, Request(x))[k];
    var line := s.line + RequestFrame(crc, y);
    if s.line == [] {
      AddressedServes(crc, [s], y, 0);
      StationAnswers(s, y);
      AnswerIsSent(crc, HeadOf(y), Serve(s, y).0);
    } else {
      RefusalIsFlushed(crc, s.address, s.callbacks, s.dev, line);
    }
  }

  /** A device of one register that anyone may write, and one that has no callbacks at all. */
  function Cell(): Callbacks<u16> {
    Callbacks(None, None, None, None, None, Some((d: u16, a: u16, value: u16, unitId: byte) => Done(ERROR_NONE, value)),
              None, None, None, None, None)
  }

  function NoCallbacks(): Callbacks<u16> {
    Callbacks(None, None, None, None, None, None, None, None, None, None, None)
  }

  /** A run that is not settled: station 1 refuses the broadcast of 1, and then the request to write 7 is lost at 2. */
  lemma RefusalLosesRequest(crc: CrcFunction)
    ensures var stations := [Station(1, NoCallbacks(), 0, []), Station(2, Cell(), 0, [])];
      var x, y := Transaction(0, WriteRegister(0, 1)), Transaction(2, WriteRegister(0, 7));
      && Listenable(x) && Listenable(y) && Ready(crc, stations, Request(x))
      && var s := After(crc, stations, Request(x))[1];
         && Serve(s, y).1 == 7
         && CanPoll(crc, s, s.line + RequestFrame(crc, y))
         && PollOf(crc, s, s.line + RequestFrame(crc, y)).sent == []
         && PollOf(crc, s, s.line + RequestFrame(crc, y)).dev == s.dev == 1
  {
    hide LineReady, PollResult, Emitted, RequestFrame, Ready, After, RefusalsFor;
    var stations := [Station(1, NoCallbacks(), 0, []), Station(2, Cell(), 0, [])];
    var x, y := Transaction(0, WriteRegister(0, 1)), Transaction(2, WriteRegister(0, 7));
    NextRequestSurvives(crc, stations, 1, x, y);
    TransactionAsIntended(crc, stations, x);
    assert !AcceptedBy(stations[0], x);
  }

  lemma AnswerIsSent(crc: CrcFunction, h: Header, o: Outcome)
    requires !o.Silent?
    ensures Emitted(RTU, crc, h, o) != []
  {}

  lemma IdleReady<D>(crc: CrcFunction, stations: seq<Station<D>>)
    requires forall j :: 0 <= j < |stations| ==> stations[j].line == [] || Refused(stations[j].line)
    ensures Ready(crc, stations, Idle)
  {
    hide CanPoll, Refused;
    forall j | 0 <= j < |stations|
      ensures CanPoll(crc, stations[j], stations[j].line)
    {
      IdlePoll(crc, stations[j]);
    }
  }

  /** One more poll of everyone takes the refusals off a line exactly if one flush is enough for them. */
  lemma PollingClears<D>(crc: CrcFunction, stations: seq<Station<D>>, k: nat)
    requires forall j :: 0 <= j < |stations| ==> stations[j].line == [] || Refused(stations[j].line)
    requires k < |stations|
    ensures Ready(crc, stations, Idle)
    ensures After(crc, stations, Idle)[k].dev == stations[k].dev
    ensures After(crc, stations, Idle)[k].line == [] <==> |stations[k].line| <= 2 + BUFFER_SIZE
    ensures After(crc, stations, Idle)[k] == stations[k].(line := After(crc, stations, Idle)[k].line)
  {
    hide LineReady, PollResult, Refused;
    forall j | 0 <= j < |stations|
      ensures CanPoll(crc, stations[j], stations[j].line)
      ensures var p := PollOf(crc, stations[j], stations[j].line);
        && p.dev == stations[j].dev && p.sent == []
        && (p.rest == [] <==> |stations[j].line| <= 2 + BUFFER_SIZE)
    {
      IdlePoll(crc, stations[j]);
    }
    NothingFromOthers(SentUnheard(crc, stations, k, Idle), k);
  }

  lemma IdlePoll<D>(crc: CrcFunction, s: Station<D>)
    requires s.line == [] || Refused(s.line)
    ensures CanPoll(crc, s, s.line)
    ensures var p := PollOf(crc, s, s.line);
      p.dev == s.dev && p.sent == [] && (p.rest == [] <==> |s.line| <= 2 + BUFFER_SIZE)
  {
    if s.line != [] {
      RefusalIsFlushed(crc, s.address, s.callbacks, s.dev, s.line);
    }
  }

  // ----- runs

  ghost predicate Run<D>(crc: CrcFunction, states: seq<seq<Station<D>>>, events: seq<Event>) {
    && |states| == |events| + 1
    && forall i :: 0 <= i < |events| ==>
         Ready(crc, states[i], events[i]) && states[i + 1] == After(crc, states[i], events[i])
  }

  ghost function AfterIntended<D>(stations: seq<Station<D>>, x: Transaction): (r: seq<Station<D>>)
    requires Listenable(x)
    ensures |r| == |stations|
  {
    seq(|stations|, k requires 0 <= k < |stations| => stations[k].(dev := Intended(stations[k], x).1, line := []))
  }

  ghost predicate AllListenable(events: seq<Event>) {
    forall i :: 0 <= i < |events| && events[i].Request? ==> Listenable(events[i].x)
  }

  /** The stations behind a run as intended. */
  ghost function IntendedRun<D>(stations: seq<Station<D>>, events: seq<Event>): seq<Station<D>>
    requires AllListenable(events)
    decreases |events|
  {
    if events == [] then stations
    else
      IntendedRun(if events[0].Request? then AfterIntended(stations, events[0].x) else stations, events[1..])
  }

  /** A broadcast that some station refuses. */
  ghost predicate RefusedBySome<D>(stations: seq<Station<D>>, x: Transaction)
    requires Listenable(x)
  {
    x.unitId == BROADCAST_ADDRESS && exists j :: 0 <= j < |stations| && !AcceptedBy(stations[j], x)
  }

  /** The refusals that any one station hears are not too many for one flush. */
  ghost predicate FewRefusals<D>(crc: CrcFunction, stations: seq<Station<D>>, x: Transaction)
    requires Listenable(x)
  {
    forall k :: 0 <= k < |stations| ==> Refusers(crc, stations, k, x) <= 52
  }

  /** In the run as intended, every broadcast that is refused is followed by a poll before the next request. */
  ghost predicate Settled<D>(crc: CrcFunction, stations: seq<Station<D>>, events: seq<Event>)
    requires AllListenable(events)
    decreases |events|
  {
    if events == [] then true
    else if events[0].Idle? then Settled(crc, stations, events[1..])
    else
      var x := events[0].x;
      && (RefusedBySome(stations, x) && |events| > 1 ==> events[1].Idle? && FewRefusals(crc, stations, x))
      && Settled(crc, AfterIntended(stations, x), events[1..])
  }

  /** The same stations, whatever waits on their lines. */
  ghost predicate SameDevices<D>(a: seq<Station<D>>, b: seq<Station<D>>) {
    |a| == |b| && forall k :: 0 <= k < |a| ==> a[k].(line := []) == b[k].(line := [])
  }

  /** Nothing but refusals waits on the lines. */
  ghost predicate OnlyRefusals<D>(stations: seq<Station<D>>) {
    forall k :: 0 <= k < |stations| ==> stations[k].line == [] || Refused(stations[k].line)
  }

  lemma IdleAtBoundary<D>(crc: CrcFunction, stations: seq<Station<D>>)
    requires AtBoundary(stations)
    ensures Ready(crc, stations, Idle) && After(crc, stations, Idle) == stations
  {
    hide Ready, After;
    IdleReady(crc, stations);
    forall k | 0 <= k < |stations|
      ensures After(crc, stations, Idle)[k] == stations[k]
    {
      PollingClears(crc, stations, k);
    }
  }

  /** A request that nobody refuses to all leaves the stations as intended, at a frame boundary. */
  lemma AcceptedStep<D>(crc: CrcFunction, stations: seq<Station<D>>, x: Transaction)
    requires DistinctAddresses(stations) && AtBoundary(stations) && Listenable(x) && !RefusedBySome(stations, x)
    ensures Ready(crc, stations, Request(x)) && After(crc, stations, Request(x)) == AfterIntended(stations, x)
  {
    hide Ready, After, Listenable, AcceptedBy, Intended;
    TransactionAsIntended(crc, stations, x);
    forall k | 0 <= k < |stations|
      ensures After(crc, stations, Request(x))[k] == AfterIntended(stations, x)[k]
    {
      if x.unitId == BROADCAST_ADDRESS {
        RefusalsOnLine(crc, stations, k, x);
      }
    }
  }

  /** A refused broadcast does to the devices what is intended; one poll more, and all are at a frame boundary again. */
  lemma RefusedStep<D>(crc: CrcFunction, stations: seq<Station<D>>, x: Transaction)
    requires DistinctAddresses(stations) && AtBoundary(stations) && Listenable(x) && x.unitId == BROADCAST_ADDRESS
    ensures Ready(crc, stations, Request(x))
    ensures var between := After(crc, stations, Request(x));
      && SameDevices(between, AfterIntended(stations, x))
      && OnlyRefusals(between)
      && Ready(crc, between, Idle)
      && (FewRefusals(crc, stations, x) <==> After(crc, between, Idle) == AfterIntended(stations, x))
  {
    hide Ready, After, Listenable, AcceptedBy, Intended, Refused, Refusers, RefusalsFor;
    TransactionAsIntended(crc, stations, x);
    var between := After(crc, stations, Request(x));
    forall k | 0 <= k < |stations|
      ensures between[k].line == [] || Refused(between[k].line)
      ensures |between[k].line| == 5 * Refusers(crc, stations, k, x)
    {
      RefusalsOnLine(crc, stations, k, x);
    }
    IdleReady(crc, between);
    forall k | 0 <= k < |stations|
      ensures Refusers(crc, stations, k, x) <= 52 <==> After(crc, between, Idle)[k] == AfterIntended(stations, x)[k]
    {
      PollingClears(crc, between, k);
    }
  }

  /** State k of a run is one from which a request can be sent: no broadcast has just been made, or one is sent now. */
  predicate NotBehindBroadcast(events: seq<Event>, k: nat)
    requires k <= |events|
  {
    || k == 0
    || events[k - 1].Idle?
    || events[k - 1].x.unitId != BROADCAST_ADDRESS
    || (k < |events| && events[k].Request?)
  }

  /**
   * At every moment of a settled run the devices are as if only their own requests, and broadcasts, existed. Whenever a
   * request is sent, and in the end unless a broadcast was the last event, all stations are at a frame boundary.
   */
  lemma {:induction false} RunAsIntended<D>(crc: CrcFunction, states: seq<seq<Station<D>>>, events: seq<Event>, k: nat)
    requires Run(crc, states, events) && AllListenable(events) && k <= |events|
    requires DistinctAddresses(states[0]) && AtBoundary(states[0]) && Settled(crc, states[0], events)
    ensures SameDevices(states[k], IntendedRun(states[0], events[..k]))
    ensures NotBehindBroadcast(events, k) ==>
      states[k] == IntendedRun(states[0], events[..k]) && AtBoundary(states[k])
    ensures OnlyRefusals(states[k]) && DistinctAddresses(states[k])
    decreases |events|
  {
    hide Ready, After, Listenable, RefusedBySome, FewRefusals, AfterIntended, Refused;
    if k > 0 {
      var stations := states[0];
      var done := events[..k];
      assert done[1..] == events[1..][..k - 1];
      if events[0].Idle? {
        IdleAtBoundary(crc, stations);
        RunAsIntended(crc, states[1..], events[1..], k - 1);
      } else {
        var x := events[0].x;
        KeepsAddresses(stations, x);
        if !RefusedBySome(stations, x) {
          AcceptedStep(crc, stations, x);
          RunAsIntended(crc, states[1..], events[1..], k - 1);
        } else {
          ToAllIfRefused(stations, x);
          RefusedStep(crc, stations, x);
          if k == 1 {
            SameAddresses(states[1], AfterIntended(stations, x));
          } else {
            assert done[1..][0] == Idle && done[1..][1..] == events[2..][..k - 2];
            assert events[1..][1..] == events[2..];
            RunAsIntended(crc, states[2..], events[2..], k - 2);
          }
        }
      }
    }
  }

  lemma SameAddresses<D>(a: seq<Station<D>>, b: seq<Station<D>>)
    requires SameDevices(a, b) && DistinctAddresses(b)
    ensures DistinctAddresses(a)
  {
    assert forall k :: 0 <= k < |a| ==> a[k].(line := []).address == b[k].(line := []).address;
  }

  /** In a settled run every station sends exactly what is intended: its own answers, and its refusals of broadcasts. */
  lemma RunSendsAsIntended<D>(crc: CrcFunction, states: seq<seq<Station<D>>>, events: seq<Event>, k: nat, j: nat)
    requires Run(crc, states, events) && AllListenable(events) && k < |events|
    requires DistinctAddresses(states[0]) && AtBoundary(states[0]) && Settled(crc, states[0], events)
    requires j < |states[k]|
    ensures j < |IntendedRun(states[0], events[..k])|
    ensures PollIn(crc, states[k], j, events[k]).sent ==
      if events[k].Idle? then []
      else
        Emitted(RTU, crc, HeadOf(events[k].x), Intended(IntendedRun(states[0], events[..k])[j], events[k].x).0)
  {
    hide PollIn, Intended, Emitted, Settled, IntendedRun;
    RunAsIntended(crc, states, events, k);
    if events[k].Request? {
      TransactionAsIntended(crc, states[k], events[k].x);
    } else {
      IdleSendsNothing(crc, states[k], j);
    }
  }

  lemma IdleSendsNothing<D>(crc: CrcFunction, stations: seq<Station<D>>, j: nat)
    requires j < |stations| && OnlyRefusals(stations) && Ready(crc, stations, Idle)
    ensures PollIn(crc, stations, j, Idle).sent == []
  {
    hide CanPoll, PollOf, Refused;
    IdlePoll(crc, stations[j]);
  }

  lemma KeepsAddresses<D>(stations: seq<Station<D>>, x: Transaction)
    requires DistinctAddresses(stations) && Listenable(x)
    ensures DistinctAddresses(AfterIntended(stations, x)) && AtBoundary(AfterIntended(stations, x))
  {
    hide Intended;
  }

  lemma ToAllIfRefused<D>(stations: seq<Station<D>>, x: Transaction)
    requires Listenable(x) && RefusedBySome(stations, x)
    ensures x.unitId == BROADCAST_ADDRESS
  {}

  /** Settled runs exist: every poll in them finds a line that it is defined on. */
  lemma {:induction false} SettledRunsExist<D>(crc: CrcFunction, stations: seq<Station<D>>, events: seq<Event>)
    returns (states: seq<seq<Station<D>>>)
    requires AllListenable(events)
    requires DistinctAddresses(stations) && AtBoundary(stations) && Settled(crc, stations, events)
    ensures Run(crc, states, events) && states[0] == stations
    decreases |events|
  {
    hide Ready, After, Listenable, RefusedBySome, FewRefusals, AfterIntended;
    if events == [] {
      states := [stations];
    } else if events[0].Idle? {
      IdleAtBoundary(crc, stations);
      states := SettledRunsExist(crc, stations, events[1..]);
      states := [stations] + states;
    } else {
      var x := events[0].x;
      KeepsAddresses(stations, x);
      if !RefusedBySome(stations, x) {
        AcceptedStep(crc, stations, x);
        states := SettledRunsExist(crc, AfterIntended(stations, x), events[1..]);
        states := [stations] + states;
      } else {
        ToAllIfRefused(stations, x);
        RefusedStep(crc, stations, x);
        var between := After(crc, stations, events[0]);
        if |events| == 1 {
          states := [stations, between];
        } else {
          assert events[1..][0] == Idle && events[1..][1..] == events[2..];
          states := SettledRunsExist(crc, AfterIntended(stations, x), events[2..]);
          states := [stations, between] + states;
        }
      }
    }
  }
}
