/**
 * What a server refuses and which callbacks it runs, for every request, addressed or to all: seen with callbacks that
 * remember how they have been called, and told in numbers.
 */
module Refusals {
  import opened Words
  import opened Requests
  import opened Serving
  import opened FileRecords
  import opened Polling
  import Frames
  import Guards
  import opened DeviceIds

  datatype Call =
    | BitsAsked(inputs: bool, address: u16, quantity: u16, unitId: byte)
    | RegistersAsked(inputs: bool, address: u16, quantity: u16, unitId: byte)
    | CoilGiven(address: u16, value: bool, unitId: byte)
    | RegisterGiven(address: u16, word: u16, unitId: byte)
    | CoilsGiven(address: u16, quantity: u16, coils: Bitfield, unitId: byte)
    | RegistersGiven(address: u16, quantity: u16, words: seq<u16>, unitId: byte)
    | RecordAsked(file: u16, record: u16, count: u16, unitId: byte)
    | RecordGiven(file: u16, record: u16, words: seq<u16>, unitId: byte)

  /** What the callbacks answer to their calls, and for which function codes there is one. */
  datatype Memory = Memory(there: set<byte>, error: Call -> int, bits: Call -> Bitfield, registers: Call -> Registers)

  /** Callbacks whose device is the sequence of all calls so far. */
  function Remembering(m: Memory): Callbacks<seq<Call>> {
    Callbacks(
      if 1 in m.there then Some(BitsCallback(m, false)) else None,
      if 2 in m.there then Some(BitsCallback(m, true)) else None,
      if 3 in m.there then Some(RegistersCallback(m, false)) else None,
      if 4 in m.there then Some(RegistersCallback(m, true)) else None,
      if 5 in m.there then
        Some((d: seq<Call>, a: u16, v: bool, u: byte) => Made(m, d, CoilGiven(a, v, u)))
      else None,
      if 6 in m.there then
        Some((d: seq<Call>, a: u16, v: u16, u: byte) => Made(m, d, RegisterGiven(a, v, u)))
      else None,
      if 15 in m.there then
        Some((d: seq<Call>, a: u16, q: u16, coils: Bitfield, u: byte) => Made(m, d, CoilsGiven(a, q, coils, u)))
      else None,
      if 16 in m.there then
        Some((d: seq<Call>, a: u16, q: u16, words: seq<u16>, u: byte) => Made(m, d, RegistersGiven(a, q, words, u)))
      else None,
      if 20 in m.there then Some(RecordCallback(m)) else None,
      if 21 in m.there then
        Some((d: seq<Call>, f: u16, r: u16, words: seq<u16>, u: byte) => Made(m, d, RecordGiven(f, r, words, u)))
      else None,
      None)
  }

  function Made(m: Memory, d: seq<Call>, c: Call): Done<seq<Call>> {
    Done(m.error(c), d + [c])
  }

  function BitsCallback(m: Memory, inputs: bool): ReadBitsCallback<seq<Call>> {
    (d: seq<Call>, a: u16, q: u16, u: byte) =>
      var c := BitsAsked(inputs, a, q, u); BitsRead(m.error(c), m.bits(c), d + [c])
  }

  function RegistersCallback(m: Memory, inputs: bool): ReadRegistersCallback<seq<Call>> {
    (d: seq<Call>, a: u16, q: u16, u: byte) =>
      var c := RegistersAsked(inputs, a, q, u); RegistersRead(m.error(c), m.registers(c), d + [c])
  }

  function RecordCallback(m: Memory): (seq<Call>, u16, u16, u16, byte) -> RegistersRead<seq<Call>> {
    (d: seq<Call>, f: u16, r: u16, n: u16, u: byte) =>
      var c := RecordAsked(f, r, n, u); RegistersRead(m.error(c), m.registers(c), d + [c])
  }

  /** What a callback may rely on. */
  predicate LegalCall(c: Call) {
    match c
    case BitsAsked(_, address, quantity, _) => 1 <= quantity <= 2000 && address + quantity <= 65536
    case RegistersAsked(_, address, quantity, _) => 1 <= quantity <= 125 && address + quantity <= 65536
    case CoilGiven(_, _, _) => true
    case RegisterGiven(_, _, _) => true
    case CoilsGiven(address, quantity, _, _) => 1 <= quantity <= 1968 && address + quantity <= 65536
    case RegistersGiven(address, quantity, words, _) =>
      1 <= quantity <= 123 && address + quantity <= 65536 && |words| == quantity
    case RecordAsked(file, record, count, _) => file != 0 && record <= 9999 && count <= 124
    case RecordGiven(file, record, words, _) => file != 0 && record <= 9999 && |words| <= 122
  }

  // ----- bits and registers

  /** The exception with which a request is refused before any callback runs, or 0. */
  function Refusal(there: set<byte>, r: Request): byte
    requires Guards.ForBank(r)
  {
    match r
    case ReadBits(inputs, address, quantity) =>
      if quantity == 0 || quantity > 2000 then 3
      else if address + quantity > 65536 then 2
      else if (if inputs then 2 else 1) !in there then 1
      else 0
    case ReadRegisters(inputs, address, quantity) =>
      if quantity == 0 || quantity > 125 then 3
      else if address + quantity > 65536 then 2
      else if (if inputs then 4 else 3) !in there then 1
      else 0
    case WriteCoil(_, value) => if 5 !in there then 1 else if value != 0 && value != 65280 then 3 else 0
    case WriteRegister(_, _) => if 6 !in there then 1 else 0
    case WriteCoils(address, quantity, bytes) =>
      if quantity == 0 || quantity > 1968 then 3
      else if address + quantity > 65536 then 2
      else if quantity > 8 * |bytes| || quantity <= 8 * |bytes| - 8 then 3
      else if 15 !in there then 1
      else 0
    case WriteRegisters(address, quantity, bytes) =>
      if quantity == 0 || quantity > 123 then 3
      else if address + quantity > 65536 then 2
      else if |bytes| != 2 * quantity then 3
      else if 16 !in there then 1
      else 0
    case ReadWrite(readAddress, readQuantity, address, quantity, bytes) =>
      if readQuantity == 0 || readQuantity > 125 || quantity == 0 || quantity > 123 || |bytes| != 2 * quantity then 3
      else if readAddress + readQuantity > 65536 || address + quantity > 65536 then 2
      else if 16 !in there || 3 !in there then 1
      else 0
  }

  /** The calls of a request that is not refused: one, but FC 23 reads if its write succeeds and is not for all. */
  function CallsFor(m: Memory, r: Request, unitId: byte, broadcast: bool): seq<Call>
    requires Guards.ForBank(r) && Refusal(m.there, r) == 0
  {
    match r
    case ReadBits(inputs, address, quantity) => [BitsAsked(inputs, address, quantity, unitId)]
    case ReadRegisters(inputs, address, quantity) => [RegistersAsked(inputs, address, quantity, unitId)]
    case WriteCoil(address, value) => [CoilGiven(address, value == 65280, unitId)]
    case WriteRegister(address, value) => [RegisterGiven(address, value, unitId)]
    case WriteCoils(address, quantity, bytes) =>
      [CoilsGiven(address, quantity, seq(250, i => if 0 <= i < |bytes| then bytes[i] else 0), unitId)]
    case WriteRegisters(address, quantity, bytes) => [RegistersGiven(address, quantity, WordsOf(bytes), unitId)]
    case ReadWrite(readAddress, readQuantity, address, quantity, bytes) =>
      var write := RegistersGiven(address, quantity, WordsOf(bytes), unitId);
      if m.error(write) != 0 || broadcast then [write]
      else [write, RegistersAsked(false, readAddress, readQuantity, unitId)]
  }

  /** The data of the reply, given the last call. */
  function ReplyTo(m: Memory, r: Request, c: Call): seq<byte>
    requires Guards.ForBank(r) && Refusal(m.there, r) == 0
  {
    match r
    case ReadBits(_, _, quantity) => [(quantity + 7) / 8] + m.bits(c)[..(quantity + 7) / 8]
    case ReadRegisters(_, _, quantity) => [2 * quantity] + BeAll(m.registers(c)[..quantity])
    case WriteCoil(address, value) => [address / 256, address % 256, value / 256, value % 256]
    case WriteRegister(address, value) => [address / 256, address % 256, value / 256, value % 256]
    case WriteCoils(address, quantity, _) => [address / 256, address % 256, quantity / 256, quantity % 256]
    case WriteRegisters(address, quantity, _) => [address / 256, address % 256, quantity / 256, quantity % 256]
    case ReadWrite(_, readQuantity, _, _, _) => [2 * readQuantity] + BeAll(m.registers(c)[..readQuantity])
  }

  /** A request is refused without a call, or its calls are made and the reply is what the last of them has said. */
  predicate ServedAsTold(m: Memory, calls: seq<Call>, unitId: byte, broadcast: bool, r: Request, o: Frames.Outcome,
                         d: seq<Call>)
    requires Guards.ForBank(r)
  {
    if Refusal(m.there, r) != 0 then o == Frames.Exception(Refusal(m.there, r)) && d == calls
    else
      var made := CallsFor(m, r, unitId, broadcast);
      && d == calls + made
      && var e := m.error(made[|made| - 1]);
         o == if e != 0 then Frames.Exception(if 1 <= e <= 4 then e else 4)
              else if broadcast then Frames.Silent
              else Frames.Reply(ReplyTo(m, r, made[|made| - 1]))
  }

  lemma ServedExactly(m: Memory, calls: seq<Call>, unitId: byte, broadcast: bool, r: Request)
    requires Guards.ForBank(r) && (r.WriteCoils? ==> |r.bytes| <= 250)
    ensures var (o, d) := ServeRequest(Remembering(m), calls, unitId, broadcast, r);
      ServedAsTold(m, calls, unitId, broadcast, r, o, d)
  {
    hide ServedAsTold, ServeRequest;
    if r.ReadBits? || r.ReadRegisters? {
      ReadServedExactly(m, calls, unitId, broadcast, r);
    } else if r.ReadWrite? {
      ReadWriteServedExactly(m, calls, unitId, broadcast, r);
    } else {
      WriteServedExactly(m, calls, unitId, broadcast, r);
    }
  }

  lemma ReadServedExactly(m: Memory, calls: seq<Call>, unitId: byte, broadcast: bool, r: Request)
    requires r.ReadBits? || r.ReadRegisters?
    ensures var (o, d) := ServeRequest(Remembering(m), calls, unitId, broadcast, r);
      ServedAsTold(m, calls, unitId, broadcast, r, o, d)
  {
    hide BeAll, WordsOf;
  }

  lemma WriteServedExactly(m: Memory, calls: seq<Call>, unitId: byte, broadcast: bool, r: Request)
    requires r.WriteCoil? || r.WriteRegister? || r.WriteCoils? || r.WriteRegisters?
    requires r.WriteCoils? ==> |r.bytes| <= 250
    ensures var (o, d) := ServeRequest(Remembering(m), calls, unitId, broadcast, r);
      ServedAsTold(m, calls, unitId, broadcast, r, o, d)
  {
    hide BeAll, WordsOf;
    if r.WriteCoils? {
      assert Padded(r.bytes) == seq(250, i => if 0 <= i < |r.bytes| then r.bytes[i] else 0);
    }
  }

  lemma ReadWriteServedExactly(m: Memory, calls: seq<Call>, unitId: byte, broadcast: bool, r: Request)
    requires r.ReadWrite?
    ensures var (o, d) := ServeRequest(Remembering(m), calls, unitId, broadcast, r);
      ServedAsTold(m, calls, unitId, broadcast, r, o, d)
  {
    hide BeAll, WordsOf;
    if Refusal(m.there, r) == 0 {
      var made := CallsFor(m, r, unitId, broadcast);
      if |made| == 2 {
        assert (calls + [made[0]]) + [made[1]] == calls + made;
      }
    }
  }

  /** No callback is ever called with values out of its limits. */
  lemma CallsAreLegal(m: Memory, unitId: byte, broadcast: bool, r: Request)
    requires Guards.ForBank(r) && Refusal(m.there, r) == 0
    ensures forall c :: c in CallsFor(m, r, unitId, broadcast) ==> LegalCall(c) && c.unitId == unitId
  {}

  // ----- file records

  /** What was called of the calls that a request is for: all of them, or up to the first that fails. */
  predicate UntilFailure(m: Memory, wanted: seq<Call>, made: seq<Call>) {
    && |made| <= |wanted| && made == wanted[..|made|]
    && (forall i :: 0 <= i < |made| - 1 ==> m.error(made[i]) == 0)
    && (|made| < |wanted| ==> Failed(m, made))
  }

  predicate Failed(m: Memory, made: seq<Call>) {
    made != [] && m.error(made[|made| - 1]) != 0
  }

  /** The exception for the call that failed. */
  function FailureOf(m: Memory, made: seq<Call>): byte
    requires Failed(m, made)
  {
    var e := m.error(made[|made| - 1]);
    if 1 <= e <= 4 then e else 4
  }

  /** A number of two bytes in a request. */
  function NumberAt(bytes: seq<byte>, i: nat): int
    requires i + 2 <= |bytes|
  {
    var high: int, low: int := bytes[i], bytes[i + 1];
    256 * high + low
  }

  /** Sub-request i of a request to read: reference type 6, a file, a record and a count within their limits. */
  predicate ReadableRecord(bytes: seq<byte>, i: nat)
    requires 7 * i + 7 <= |bytes|
  {
    && bytes[7 * i] == 6 && NumberAt(bytes, 7 * i + 1) != 0
    && NumberAt(bytes, 7 * i + 3) <= 9999 && NumberAt(bytes, 7 * i + 5) <= 124
  }

  function RecordCall(bytes: seq<byte>, i: nat, unitId: byte): Call
    requires 7 * i + 7 <= |bytes|
  {
    RecordAsked(NumberAt(bytes, 7 * i + 1), NumberAt(bytes, 7 * i + 3), NumberAt(bytes, 7 * i + 5), unitId)
  }

  function RecordCalls(bytes: seq<byte>, unitId: byte): seq<Call> {
    seq(|bytes| / 7, i requires 0 <= i < |bytes| / 7 => RecordCall(bytes, i, unitId))
  }

  /** The records read, each behind its size and the reference type. */
  function RecordsData(m: Memory, made: seq<Call>): seq<byte>
    requires forall c :: c in made ==> c.RecordAsked? && c.count <= 124
  {
    if made == [] then []
    else
      var c := made[|made| - 1];
      assert c in made;
      RecordsData(m, made[..|made| - 1]) + ([2 * c.count + 1, 6] + BeAll(m.registers(c)[..c.count]))
  }

  lemma RecordInBytes(bytes: seq<byte>, i: nat)
    requires i < |bytes| / 7
    ensures LegalRead(ReadSubs(bytes)[i]) <==> ReadableRecord(bytes, i)
    ensures forall u: byte :: var s := ReadSubs(bytes)[i];
      RecordCall(bytes, i, u) == RecordAsked(s.file, s.record, s.length, u)
  {
    assert ReadSubs(bytes)[i] == ReadSubAt(bytes, 7 * i);
  }

  function CallsOf(subs: seq<ReadSub>, unitId: byte): seq<Call> {
    seq(|subs|, i requires 0 <= i < |subs| => RecordAsked(subs[i].file, subs[i].record, subs[i].length, unitId))
  }

  /** One more call is wanted: it is made unless one before it has failed. */
  lemma OneMoreWanted(m: Memory, wanted: seq<Call>, made: seq<Call>)
    requires wanted != [] && UntilFailure(m, wanted[..|wanted| - 1], made)
    ensures UntilFailure(m, wanted, if Failed(m, made) then made else made + [wanted[|wanted| - 1]])
  {}

  /** The bytes and the exception that the calls made so far have led to. */
  predicate Remembered(m: Memory, calls: seq<Call>, made: seq<Call>, p: Parts<seq<Call>>) {
    && (forall c :: c in made ==> c.RecordAsked? && c.count <= 124)
    && p.dev == calls + made
    && p.failed == (if Failed(m, made) then Some(FailureOf(m, made)) else None)
    && (!Failed(m, made) ==> p.data == RecordsData(m, made))
  }

  /** One more sub-request behind others that have all been read. */
  lemma OneMoreRecord(m: Memory, calls: seq<Call>, unitId: byte, subs: seq<ReadSub>, made: seq<Call>)
    requires subs != [] && AllLegalReads(subs) && !Failed(m, made)
    requires Remembered(m, calls, made, ReadParts(RecordCallback(m), calls, unitId, subs[..|subs| - 1]))
    ensures var s := subs[|subs| - 1];
      Remembered(m, calls, made + [RecordAsked(s.file, s.record, s.length, unitId)],
                 ReadParts(RecordCallback(m), calls, unitId, subs))
  {
    hide BeAll, RecordsData, ReadParts, ReadPart;
    var s := subs[|subs| - 1];
    assert LegalRead(s);
    var c := RecordAsked(s.file, s.record, s.length, unitId);
    OneMorePart(m, calls, unitId, subs, made);
    OneMoreData(m, made, c);
    assert (calls + made) + [c] == calls + (made + [c]);
  }

  /** What the callback is called with last, and what becomes of its answer. */
  lemma OneMorePart(m: Memory, calls: seq<Call>, unitId: byte, subs: seq<ReadSub>, made: seq<Call>)
    requires subs != [] && AllLegalReads(subs) && LegalRead(subs[|subs| - 1])
    requires ReadParts(RecordCallback(m), calls, unitId, subs[..|subs| - 1]).dev == calls + made
    requires ReadParts(RecordCallback(m), calls, unitId, subs[..|subs| - 1]).failed.None?
    ensures var p := ReadParts(RecordCallback(m), calls, unitId, subs[..|subs| - 1]);
      var s := subs[|subs| - 1];
      var c := RecordAsked(s.file, s.record, s.length, unitId);
      ReadParts(RecordCallback(m), calls, unitId, subs) ==
      if m.error(c) != 0 then Parts(p.data, Some(if 1 <= m.error(c) <= 4 then m.error(c) else 4), calls + made + [c])
      else Parts(p.data + ReadPart(s.length, m.registers(c)), None, calls + made + [c])
  {
    hide BeAll, ReadPart;
  }

  lemma OneMoreData(m: Memory, made: seq<Call>, c: Call)
    requires c.RecordAsked? && c.count <= 124 && forall c' :: c' in made ==> c'.RecordAsked? && c'.count <= 124
    ensures RecordsData(m, made + [c]) == RecordsData(m, made) + ReadPart(c.count, m.registers(c))
  {
    hide BeAll;
    assert (made + [c])[..|made|] == made;
  }

  lemma {:induction false} PartsRemembered(m: Memory, calls: seq<Call>, unitId: byte, subs: seq<ReadSub>)
    returns (made: seq<Call>)
    requires AllLegalReads(subs)
    ensures UntilFailure(m, CallsOf(subs, unitId), made)
    ensures Remembered(m, calls, made, ReadParts(RecordCallback(m), calls, unitId, subs))
  {
    hide UntilFailure, Remembered, ReadParts;
    if subs == [] {
      made := [];
      NothingWanted(m, calls, unitId);
    } else {
      var n := |subs| - 1;
      made := PartsRemembered(m, calls, unitId, subs[..n]);
      assert CallsOf(subs, unitId)[..n] == CallsOf(subs[..n], unitId);
      OneMoreWanted(m, CallsOf(subs, unitId), made);
      if Failed(m, made) {
        NoMoreRecords(m, calls, unitId, subs, made);
      } else {
        OneMoreRecord(m, calls, unitId, subs, made);
        made := made + [CallsOf(subs, unitId)[n]];
      }
    }
  }

  lemma NothingWanted(m: Memory, calls: seq<Call>, unitId: byte)
    ensures UntilFailure(m, CallsOf([], unitId), [])
    ensures Remembered(m, calls, [], ReadParts(RecordCallback(m), calls, unitId, []))
  {
    assert calls + [] == calls;
  }

  lemma NoMoreRecords(m: Memory, calls: seq<Call>, unitId: byte, subs: seq<ReadSub>, made: seq<Call>)
    requires subs != [] && AllLegalReads(subs) && Failed(m, made)
    requires Remembered(m, calls, made, ReadParts(RecordCallback(m), calls, unitId, subs[..|subs| - 1]))
    ensures Remembered(m, calls, made, ReadParts(RecordCallback(m), calls, unitId, subs))
  {}

  /** FC 20: refused without a call, or one call for each sub-request up to the first that fails. */
  lemma ReadFileExactly(m: Memory, calls: seq<Call>, unitId: byte, broadcast: bool, bytes: seq<byte>)
    returns (made: seq<Call>)
    ensures var (o, d) := ServeReadFile(Remembering(m), calls, unitId, broadcast, bytes);
      d == calls + made &&
      if |bytes| == 0 || |bytes| % 7 != 0 then o == Frames.Exception(3) && made == []
      else if exists i :: 0 <= i < |bytes| / 7 && !ReadableRecord(bytes, i) then o == Frames.Exception(2) && made == []
      else if 20 !in m.there then o == Frames.Exception(1) && made == []
      else
        && UntilFailure(m, RecordCalls(bytes, unitId), made)
        && (forall c :: c in made ==> LegalCall(c) && c.RecordAsked?)
        && o == if Failed(m, made) then Frames.Exception(FailureOf(m, made))
                else if broadcast then Frames.Silent
                else Frames.Reply([|RecordsData(m, made)| % 256] + RecordsData(m, made))
  {
    hide ReadSubs, LegalRead, ReadableRecord, RecordsData, ReadParts, PartsSize, NumberAt;
    var subs := ReadSubs(bytes);
    made := [];
    forall i | 0 <= i < |bytes| / 7
      ensures LegalRead(subs[i]) <==> ReadableRecord(bytes, i)
      ensures RecordCalls(bytes, unitId)[i] == CallsOf(subs, unitId)[i]
    {
      RecordInBytes(bytes, i);
    }
    LegalInEach(subs);
    if |bytes| % 7 == 0 && |bytes| >= 7 && AllLegalReads(subs) && 20 in m.there {
      made := PartsRemembered(m, calls, unitId, subs);
      assert CallsOf(subs, unitId) == RecordCalls(bytes, unitId);
      PartsSizeIsLength(RecordCallback(m), calls, unitId, subs);
      forall c | c in made
        ensures LegalCall(c) && c.RecordAsked?
      {
        var i :| 0 <= i < |made| && made[i] == c;
        CallOfLegal(subs, unitId, i);
      }
    }
    assert calls + [] == calls;
  }

  lemma LegalInEach(subs: seq<ReadSub>)
    ensures AllLegalReads(subs) <==> forall i :: 0 <= i < |subs| ==> LegalRead(subs[i])
  {
    if AllLegalReads(subs) {
      assert forall i :: 0 <= i < |subs| ==> subs[i] in subs;
    }
  }

  lemma CallOfLegal(subs: seq<ReadSub>, unitId: byte, i: nat)
    requires AllLegalReads(subs) && i < |subs|
    ensures LegalCall(CallsOf(subs, unitId)[i])
  {
    assert LegalRead(subs[i]);
  }

  /** A sub-request to write: reference type 6, a file, a record and a number of registers within their limits. */
  predicate WritableRecord(s: WriteSub) {
    s.reference == 6 && s.file != 0 && s.record <= 9999 && |s.registers| <= 122
  }

  function WriteCalls(subs: seq<WriteSub>, unitId: byte): seq<Call> {
    seq(|subs|, i requires 0 <= i < |subs| => RecordGiven(subs[i].file, subs[i].record, subs[i].registers, unitId))
  }

  lemma {:induction false} WritesRemembered(m: Memory, calls: seq<Call>, unitId: byte, subs: seq<WriteSub>)
    returns (made: seq<Call>)
    requires 21 in m.there
    ensures UntilFailure(m, WriteCalls(subs, unitId), made)
    ensures var w := WriteAll(Remembering(m).writeFileRecord.value, calls, unitId, subs);
      && w.dev == calls + made
      && w.error == if Failed(m, made) then m.error(made[|made| - 1]) else 0
    decreases |subs|
  {
    if subs == [] {
      made := [];
    } else {
      var c := RecordGiven(subs[0].file, subs[0].record, subs[0].registers, unitId);
      var wanted := WriteCalls(subs, unitId);
      assert wanted == [c] + WriteCalls(subs[1..], unitId);
      if m.error(c) != 0 {
        made := [c];
      } else {
        var behind := WritesRemembered(m, calls + [c], unitId, subs[1..]);
        made := [c] + behind;
        assert (calls + [c]) + behind == calls + made;
        assert wanted[..|made|] == [c] + WriteCalls(subs[1..], unitId)[..|behind|];
      }
    }
  }

  /** FC 21: refused without a call, or one call for each sub-request up to the first that fails. */
  lemma WriteFileExactly(m: Memory, calls: seq<Call>, unitId: byte, broadcast: bool, subs: seq<WriteSub>)
    returns (made: seq<Call>)
    requires forall s :: s in subs ==> |s.registers| < 0x1_0000
    ensures WriteSubs(AllWriteSubBytes(subs)) == Some(subs)
    ensures var bytes := AllWriteSubBytes(subs);
      var (o, d) := ServeWriteFile(Remembering(m), calls, unitId, broadcast, bytes);
      d == calls + made &&
      if subs == [] then o == Frames.Exception(3) && made == []
      else if exists s :: s in subs && !WritableRecord(s) then o == Frames.Exception(2) && made == []
      else if 21 !in m.there then o == Frames.Exception(1) && made == []
      else
        && UntilFailure(m, WriteCalls(subs, unitId), made)
        && (forall c :: c in made ==> LegalCall(c) && c.RecordGiven?)
        && o == if Failed(m, made) then Frames.Exception(FailureOf(m, made))
                else if broadcast then Frames.Silent
                else Frames.Reply([|bytes| % 256] + bytes)
  {
    hide WriteSubs, WriteAll;
    WriteSubsUndo(subs);
    SubsAreLong(subs);
    made := [];
    if subs != [] && AllLegalWrites(subs) && 21 in m.there {
      made := WritesRemembered(m, calls, unitId, subs);
      forall c | c in made
        ensures LegalCall(c) && c.RecordGiven?
      {
        var i :| 0 <= i < |made| && made[i] == c;
        assert subs[i] in subs;
      }
    }
    assert calls + [] == calls;
  }

  lemma SubsAreLong(subs: seq<WriteSub>)
    requires forall s :: s in subs ==> |s.registers| < 0x1_0000
    ensures |AllWriteSubBytes(subs)| >= 7 <==> subs != []
  {}

  // ----- device identification

  /** An exception of the callbacks as it is, any other of their errors as 4. */
  function Reported(error: int): byte {
    if 1 <= error <= 4 then error else 4
  }

  /** The objects of a category that may be asked for end at this id. */
  function CategoryEnd(code: byte): byte {
    if code == 1 then 2 else if code == 2 then 7 else 255
  }

  predicate OutsideCategory(code: byte, id: byte) {
    (code == 1 && id > 2) || (code == 2 && (id < 3 || id > 7)) || (code == 3 && id < 128)
  }

  /** FC 43: what is refused, and the bytes of what is not; no other callback has a part in it. */
  lemma IdentificationExactly<D>(cbs: Callbacks<D>, dev: D, broadcast: bool, meiType: byte, code: byte, id: byte)
    ensures var (o, d) := ServeDeviceId(cbs, dev, broadcast, meiType, code, id);
      d == dev &&
      if cbs.objects.None? || meiType != 14 then o == Frames.Exception(1)
      else if code == 0 || code > 4 then o == Frames.Exception(3)
      else if 7 <= id <= 127 then o == Frames.Exception(2)
      else if broadcast then o == Frames.Silent
      else
        var t := cbs.objects.value;
        if t.mapError != 0 then o == Frames.Exception(Reported(t.mapError))
        else if OutsideCategory(code, id) || (code == 4 && id !in t.mapped) then o == Frames.Exception(2)
        else if code == 4 then
          var s := t.stringOf(id);
          if s.error != 0 then o == Frames.Exception(Reported(s.error))
          else o == Frames.Reply([14, 4, 131, 0, 0, 1, id, |s.text|] + s.text)
        else
          match PageFrom(t, id, CategoryEnd(code), 246)
          case Failed(e) => o == Frames.Exception(e)
          case Page(objects, next) =>
            && |objects| < 256
            && o == Frames.Reply([14, code, 131, if next.None? then 0 else 255,
                                  if next.None? then 0 else next.value, |objects|] + AllObjectBytes(objects))
  {
    hide PageFrom, AllObjectBytes;
    if cbs.objects.Some? {
      var t := cbs.objects.value;
      if code == 4 {
        OneObject(Object(id, t.stringOf(id).text));
      } else if id <= CategoryEnd(code) {
        PageFits(t, id, CategoryEnd(code), 246);
      }
    }
  }
}
