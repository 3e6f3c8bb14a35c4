/** Plain files of registers: runs of file record calls against a server that keeps them, and what FC 21 promises. */
module FileSession {
  import opened Words
  import opened Frames
  import Engine
  import Requests
  import opened Serving
  import opened FileRecords
  import opened Polling
  import Wire
  import opened Client
  import opened FileClient
  import opened Banks

  /** The files that exist, each of 65536 registers. */
  type Files = map<u16, RegisterMap>

  datatype FileOperation =
    | ReadRecord(file: u16, record: u16, count: u16)
    | WriteRecord(file: u16, record: u16, words: seq<u16>)

  /** The guards of the client functions. */
  predicate FilePermitted(op: FileOperation) {
    match op
    case ReadRecord(file, record, count) => ReadGuard(file, record, count)
    case WriteRecord(file, record, words) => WriteGuard(file, record, words)
  }

  /** An operation in one step; a file that does not exist is an illegal address. */
  function AtomicFile(files: Files, op: FileOperation): (Answer, Files) {
    if !FilePermitted(op) then (Refused(ERROR_INVALID_ARGUMENT), files)
    else if op.file !in files then (Refused(ILLEGAL_DATA_ADDRESS), files)
    else
      match op
      case ReadRecord(file, record, count) => (Answer.Words(files[file][record..record + count]), files)
      case WriteRecord(file, record, words) => (Written, files[file := Splice(files[file], record, words)])
  }

  function AtomicFileRun(files: Files, ops: seq<FileOperation>): (r: (seq<Answer>, Files))
    ensures |r.0| == |ops|
  {
    if ops == [] then ([], files)
    else
      var (answers, before) := AtomicFileRun(files, ops[..|ops| - 1]);
      var (answer, after) := AtomicFile(before, ops[|ops| - 1]);
      (answers + [answer], after)
  }

  /** The last permitted write that covers a register of a file, or what was there before. */
  function LastFileWord(ops: seq<FileOperation>, file: u16, x: u16, initial: u16): u16 {
    if ops == [] then initial
    else
      var op := ops[|ops| - 1];
      if op.WriteRecord? && FilePermitted(op) && op.file == file && op.record <= x < op.record + |op.words| then
        op.words[x - op.record]
      else LastFileWord(ops[..|ops| - 1], file, x, initial)
  }

  /** A caller is refused with error -1 exactly outside of these limits, and with 2 inside if there is no such file. */
  lemma FileRefusedExactly(files: Files, op: FileOperation)
    ensures var (answer, after) := AtomicFile(files, op);
      var legal := op.file != 0 && op.record <= 9999 && if op.ReadRecord? then op.count <= 124 else |op.words| <= 122;
      && (answer == Refused(-1) <==> !legal)
      && (answer == Refused(2) <==> legal && op.file !in files)
      && (answer.Refused? ==> after == files)
  {}

  /** No run creates or removes a file, and every register holds the last value written to it. */
  lemma {:induction false} LastFileWriteWins(files: Files, ops: seq<FileOperation>, file: u16, x: u16)
    ensures AtomicFileRun(files, ops).1.Keys == files.Keys
    ensures file in files ==> AtomicFileRun(files, ops).1[file][x] == LastFileWord(ops, file, x, files[file][x])
  {
    if ops != [] {
      LastFileWriteWins(files, ops[..|ops| - 1], file, x);
    }
  }

  // ----- the server

  function ReadRecordCallback(files: Files, file: u16, record: u16, count: u16, unitId: byte): RegistersRead<Files> {
    var none: Registers := seq(125, i => 0);
    if file !in files || record + count > 0x1_0000 || count > 125 then
      RegistersRead(ILLEGAL_DATA_ADDRESS, none, files)
    else
      RegistersRead(ERROR_NONE, files[file][record..record + count] + none[count..], files)
  }

  function WriteRecordCallback(files: Files, file: u16, record: u16, words: seq<u16>, unitId: byte): Done<Files> {
    if file !in files || record + |words| > 0x1_0000 then Done(ILLEGAL_DATA_ADDRESS, files)
    else Done(ERROR_NONE, files[file := Splice(files[file], record, words)])
  }

  function FileCallbacks(): Callbacks<Files> {
    Callbacks(None, None, None, None, None, None, None, None, Some(ReadRecordCallback), Some(WriteRecordCallback), None)
  }

  method CallFile(client: Engine.Nmbs, server: Engine.Nmbs, files: Files, op: FileOperation)
    returns (answer: Answer, files': Files)
    requires Connected(client, server) && !ToAll(client) && (op.WriteRecord? ==> |op.words| < 0x1_0000)
    modifies client, client.buf, server, server.buf
    ensures Connected(client, server) && client.destAddressRtu == old(client.destAddressRtu)
    ensures (answer, files') == AtomicFile(files, op)
  {
    var err;
    match op {
    case ReadRecord(file, record, count) =>
      var registers := new u16[count](i => 0);
      err, files' := ReadFileRecord(client, server, FileCallbacks(), files, file, record, registers, count);
      answer := if err == ERROR_NONE then Answer.Words(registers[..]) else Refused(err);
      assert FilePermitted(op) && file in files ==> registers[..] == files[file][record..record + count];
    case WriteRecord(file, record, words) =>
      err, files' := WriteFileRecord(client, server, FileCallbacks(), files, file, record, words);
      answer := if err == ERROR_NONE then Written else Refused(err);
    }
  }

  /** Any run of file record calls over the line does what the same run of atomic operations does. */
  method RunFileCalls(client: Engine.Nmbs, server: Engine.Nmbs, files: Files, ops: seq<FileOperation>)
    returns (answers: seq<Answer>, files': Files)
    requires Connected(client, server) && !ToAll(client)
    requires forall i :: 0 <= i < |ops| && ops[i].WriteRecord? ==> |ops[i].words| < 0x1_0000
    modifies client, client.buf, server, server.buf
    ensures Connected(client, server)
    ensures (answers, files') == AtomicFileRun(files, ops)
  {
    hide AtomicFile;
    answers, files' := [], files;
    for i := 0 to |ops|
      invariant Connected(client, server) && !ToAll(client)
      invariant (answers, files') == AtomicFileRun(files, ops[..i])
    {
      var answer;
      answer, files' := CallFile(client, server, files', ops[i]);
      answers := answers + [answer];
      assert ops[..i + 1][..i] == ops[..i];
    }
    assert ops[..|ops|] == ops;
  }

  /** What was written to a record is what is read from it. */
  method WriteThenRead(client: Engine.Nmbs, server: Engine.Nmbs, files: Files, file: u16, record: u16, words: seq<u16>)
    returns (err: int, back: seq<u16>, files': Files)
    requires Connected(client, server) && !ToAll(client) && WriteGuard(file, record, words) && file in files
    modifies client, client.buf, server, server.buf
    ensures err == ERROR_NONE && back == words
    ensures files' == files[file := Splice(files[file], record, words)]
  {
    err, files' := WriteFileRecord(client, server, FileCallbacks(), files, file, record, words);
    var registers := new u16[|words|](i => 0);
    err, files' := ReadFileRecord(client, server, FileCallbacks(), files', file, record, registers, |words|);
    back := registers[..];
  }

  // ----- FC 21 with any sub-requests

  /**
   * Any sub-requests that fit one request, off the line: if one of them is illegal, no callback runs; otherwise one
   * runs for each, in order, and when all succeed the answer is byte for byte the request.
   */
  lemma CheckedBeforeExecuted<D>(t: Transport, crc: CrcFunction, address: byte, cbs: Callbacks<D>, dev: D, h: Header,
                                 subs: seq<WriteSub>, rest: seq<byte>)
    requires subs != [] && forall s :: s in subs ==> |s.registers| < 0x1_0000
    requires |AllWriteSubBytes(subs)| <= 251 && cbs.writeFileRecord.Some?
    requires h.fc == 21 && (t.RTU? ==> h.unitId == address != BROADCAST_ADDRESS)
    ensures var bytes := AllWriteSubBytes(subs);
      var frame := Frame(t, crc, h, [|bytes|] + bytes);
      && LineReady(t, crc, address, frame + rest)
      && var w := WriteAll(cbs.writeFileRecord.value, dev, h.unitId, subs);
         PollResult(t, crc, address, cbs, dev, frame + rest) ==
         if !AllLegalWrites(subs) then
           Polled(ERROR_NONE, dev, Emitted(t, crc, h, Exception(ILLEGAL_DATA_ADDRESS)), rest)
         else if w.error == ERROR_NONE then Polled(ERROR_NONE, w.dev, frame, rest)
         else Polled(ERROR_NONE, w.dev, Emitted(t, crc, h, Exception(FailureCode(w.error))), rest)
  {
    hide WriteSubs, AllWriteSubBytes, AllLegalWrites, WriteAll, LineReady, PollResult, Frame;
    var bytes := AllWriteSubBytes(subs);
    WriteSubsUndo(subs);
    NotEmpty(subs);
    Wire.PollOfFrame(t, crc, address, cbs, dev, h, Requests.WriteFile(bytes), rest);
  }

  lemma NotEmpty(subs: seq<WriteSub>)
    requires subs != [] && forall s :: s in subs ==> |s.registers| < 0x1_0000
    ensures |AllWriteSubBytes(subs)| >= 7
  {}

  /** A device that only remembers the calls it has had. */
  function Remember(calls: seq<WriteSub>, file: u16, record: u16, words: seq<u16>, unitId: byte): Done<seq<WriteSub>> {
    Done(ERROR_NONE, calls + [WriteSub(REFERENCE_TYPE, file, record, words)])
  }

  /** Legal sub-requests reach the callback one by one, in order and with their registers. */
  lemma {:induction false} CalledOncePerSub(calls: seq<WriteSub>, unitId: byte, subs: seq<WriteSub>)
    requires AllLegalWrites(subs)
    ensures WriteAll(Remember, calls, unitId, subs) == Done(ERROR_NONE, calls + subs)
    decreases |subs|
  {
    if subs != [] {
      assert LegalWrite(subs[0]);
      assert calls + subs == (calls + [subs[0]]) + subs[1..];
      CalledOncePerSub(calls + [subs[0]], unitId, subs[1..]);
    } else {
      assert calls + subs == calls;
    }
  }
}
