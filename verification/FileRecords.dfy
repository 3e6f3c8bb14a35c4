/** File record requests, FC 20 and FC 21: their sub-requests and what the server does with them. */
module FileRecords {
  import opened Words
  import opened Frames
  import opened Serving

  const REFERENCE_TYPE: byte := 6
  const MAX_RECORD: u16 := 0x270F

  // ----- FC 20

  datatype ReadSub = ReadSub(reference: byte, file: u16, record: u16, length: u16)

  function ReadSubAt(s: seq<byte>, i: nat): ReadSub
    requires i + 7 <= |s|
  {
    ReadSub(s[i], WordAt(s, i + 1), WordAt(s, i + 3), WordAt(s, i + 5))
  }

  function ReadSubBytes(s: ReadSub): (b: seq<byte>)
    ensures |b| == 7
  {
    [s.reference] + Be(s.file) + Be(s.record) + Be(s.length)
  }

  /** The sub-requests of seven bytes each; what is left over at the end is no sub-request. */
  function ReadSubs(bytes: seq<byte>): (subs: seq<ReadSub>)
    ensures |subs| == |bytes| / 7
  {
    seq(|bytes| / 7, i requires 0 <= i < |bytes| / 7 => ReadSubAt(bytes, 7 * i))
  }

  predicate AllLegalReads(subs: seq<ReadSub>) {
    forall s :: s in subs ==> LegalRead(s)
  }

  predicate LegalRead(s: ReadSub) {
    s.reference == REFERENCE_TYPE && s.file != 0 && s.record <= MAX_RECORD && s.length <= 124
  }

  /** One sub-response: its length, the reference type, the registers. */
  function ReadPart(length: u16, registers: Registers): seq<byte>
    requires length <= 124
  {
    [2 * length + 1, REFERENCE_TYPE] + BeAll(registers[..length])
  }

  /** How far a sequence of callbacks has come: the bytes so far, or the exception that ended it. */
  datatype Parts<D> = Parts(data: seq<byte>, failed: Option<byte>, dev: D)

  function ReadParts<D>(callback: (D, u16, u16, u16, byte) -> RegistersRead<D>, dev: D, unitId: byte,
                        subs: seq<ReadSub>): Parts<D>
    requires AllLegalReads(subs)
  {
    if subs == [] then Parts([], None, dev)
    else
      var p := ReadParts(callback, dev, unitId, subs[..|subs| - 1]);
      var s := subs[|subs| - 1];
      assert LegalRead(s);
      if p.failed.Some? then p
      else
        var r := callback(p.dev, s.file, s.record, s.length, unitId);
        if r.error != ERROR_NONE then Parts(p.data, Some(FailureCode(r.error)), r.dev)
        else Parts(p.data + ReadPart(s.length, r.registers), None, r.dev)
  }

  /** The response size that the header announces. */
  function PartsSize(subs: seq<ReadSub>): nat {
    if subs == [] then 0 else PartsSize(subs[..|subs| - 1]) + 2 + 2 * subs[|subs| - 1].length
  }

  lemma {:induction false} PartsSizeIsLength<D>(callback: (D, u16, u16, u16, byte) -> RegistersRead<D>, dev: D,
                                                unitId: byte, subs: seq<ReadSub>)
    requires AllLegalReads(subs)
    ensures ReadParts(callback, dev, unitId, subs).failed.None? ==>
      |ReadParts(callback, dev, unitId, subs).data| == PartsSize(subs)
  {
    if subs != [] {
      PartsSizeIsLength(callback, dev, unitId, subs[..|subs| - 1]);
      assert LegalRead(subs[|subs| - 1]);
    }
  }

  /** Also when a callback fails, no more data has been put together than was announced. */
  lemma {:induction false} PartsSizeBounds<D>(callback: (D, u16, u16, u16, byte) -> RegistersRead<D>, dev: D,
                                              unitId: byte, subs: seq<ReadSub>)
    requires AllLegalReads(subs)
    ensures |ReadParts(callback, dev, unitId, subs).data| <= PartsSize(subs)
  {
    if subs != [] {
      PartsSizeBounds(callback, dev, unitId, subs[..|subs| - 1]);
      assert LegalRead(subs[|subs| - 1]);
    }
  }

  lemma {:induction false} PartsSizeGrows(subs: seq<ReadSub>, k: nat)
    requires k <= |subs|
    ensures PartsSize(subs[..k]) <= PartsSize(subs)
  {
    if k < |subs| {
      assert subs[..|subs| - 1][..k] == subs[..k];
      PartsSizeGrows(subs[..|subs| - 1], k);
    } else {
      assert subs[..k] == subs;
    }
  }

  /** A failed callback is the last one. */
  lemma {:induction false} FailureEndsReading<D>(callback: (D, u16, u16, u16, byte) -> RegistersRead<D>, dev: D,
                                                 unitId: byte, subs: seq<ReadSub>, k: nat)
    requires AllLegalReads(subs)
    requires k <= |subs| && ReadParts(callback, dev, unitId, subs[..k]).failed.Some?
    ensures ReadParts(callback, dev, unitId, subs) == ReadParts(callback, dev, unitId, subs[..k])
  {
    if k < |subs| {
      assert subs[..|subs| - 1][..k] == subs[..k];
      FailureEndsReading(callback, dev, unitId, subs[..|subs| - 1], k);
    } else {
      assert subs[..k] == subs;
    }
  }

  function ServeReadFile<D>(cbs: Callbacks<D>, dev: D, unitId: byte, broadcast: bool, bytes: seq<byte>): (Outcome, D)
  {
    var subs := ReadSubs(bytes);
    if |bytes| % 7 != 0 || |bytes| < 7 then (Exception(ILLEGAL_DATA_VALUE), dev)
    else if !AllLegalReads(subs) then (Exception(ILLEGAL_DATA_ADDRESS), dev)
    else if cbs.readFileRecord.None? then (Exception(ILLEGAL_FUNCTION), dev)
    else
      var p := ReadParts(cbs.readFileRecord.value, dev, unitId, subs);
      if p.failed.Some? then (Exception(p.failed.value), p.dev)
      else if broadcast then (Silent, p.dev)
      else (Reply([PartsSize(subs) % 0x100] + p.data), p.dev)
  }

  // ----- FC 21

  datatype WriteSub = WriteSub(reference: byte, file: u16, record: u16, registers: seq<u16>)

  function WriteSubBytes(s: WriteSub): seq<byte>
    requires |s.registers| < 0x1_0000
  {
    [s.reference] + Be(s.file) + Be(s.record) + Be(|s.registers|) + BeAll(s.registers)
  }

  /** The size that a sub-request's own length field gives it. */
  function WriteSubSize(bytes: seq<byte>): nat
    requires |bytes| >= 7
  {
    7 + 2 * WordAt(bytes, 5)
  }

  /** The sub-requests, if their sizes add up to exactly all the bytes. */
  function WriteSubs(bytes: seq<byte>): Option<seq<WriteSub>> {
    if bytes == [] then Some([])
    else if |bytes| < 7 || |bytes| < WriteSubSize(bytes) then None
    else
      var n := WriteSubSize(bytes);
      var first := WriteSub(bytes[0], WordAt(bytes, 1), WordAt(bytes, 3), WordsOf(bytes[7..n]));
      match WriteSubs(bytes[n..])
      case None => None
      case Some(rest) => Some([first] + rest)
  }

  lemma FirstWriteSub(bytes: seq<byte>)
    requires bytes != [] && WriteSubs(bytes).Some?
    ensures |bytes| >= 7 && WriteSubSize(bytes) <= |bytes|
    ensures var n := WriteSubSize(bytes);
      && WriteSubs(bytes[n..]).Some?
      && WriteSubs(bytes).value
      == [WriteSub(bytes[0], WordAt(bytes, 1), WordAt(bytes, 3), WordsOf(bytes[7..n]))] + WriteSubs(bytes[n..]).value
  {}

  predicate AllLegalWrites(subs: seq<WriteSub>) {
    forall s :: s in subs ==> LegalWrite(s)
  }

  predicate LegalWrite(s: WriteSub) {
    s.reference == REFERENCE_TYPE && s.file != 0 && s.record <= MAX_RECORD && |s.registers| <= 122
  }

  /** One callback for each sub-request, in order, up to the first that fails. */
  function WriteAll<D>(callback: (D, u16, u16, seq<u16>, byte) -> Done<D>, dev: D, unitId: byte,
                       subs: seq<WriteSub>): Done<D>
  {
    if subs == [] then Done(ERROR_NONE, dev)
    else
      var r := callback(dev, subs[0].file, subs[0].record, subs[0].registers, unitId);
      if r.error != ERROR_NONE then r else WriteAll(callback, r.dev, unitId, subs[1..])
  }

  /** Everything is checked before anything is written; the answer is the request itself. */
  function ServeWriteFile<D>(cbs: Callbacks<D>, dev: D, unitId: byte, broadcast: bool, bytes: seq<byte>): (Outcome, D)
    requires WriteSubs(bytes).Some?
  {
    var subs := WriteSubs(bytes).value;
    if |bytes| < 7 then (Exception(ILLEGAL_DATA_VALUE), dev)
    else if !AllLegalWrites(subs) then (Exception(ILLEGAL_DATA_ADDRESS), dev)
    else if cbs.writeFileRecord.None? then (Exception(ILLEGAL_FUNCTION), dev)
    else
      var w := WriteAll(cbs.writeFileRecord.value, dev, unitId, subs);
      if w.error != ERROR_NONE then (Exception(FailureCode(w.error)), w.dev)
      else if broadcast then (Silent, w.dev)
      else (Reply([|bytes| % 0x100] + bytes), w.dev)
  }

  function AllWriteSubBytes(subs: seq<WriteSub>): seq<byte>
    requires forall s :: s in subs ==> |s.registers| < 0x1_0000
  {
    if subs == [] then [] else WriteSubBytes(subs[0]) + AllWriteSubBytes(subs[1..])
  }

  /** Any sub-requests are read back from their bytes as they were. */
  lemma {:induction false} WriteSubsUndo(subs: seq<WriteSub>)
    requires forall s :: s in subs ==> |s.registers| < 0x1_0000
    ensures WriteSubs(AllWriteSubBytes(subs)) == Some(subs)
  {
    if subs != [] {
      var first, rest := WriteSubBytes(subs[0]), AllWriteSubBytes(subs[1..]);
      var bytes := first + rest;
      WriteSubsUndo(subs[1..]);
      WriteSubHeader(subs[0], rest);
      WordsOfBeAll(subs[0].registers);
      assert bytes[WriteSubSize(bytes)..] == rest;
      assert bytes[7..WriteSubSize(bytes)] == BeAll(subs[0].registers);
      assert [subs[0]] + subs[1..] == subs;
    }
  }

  lemma WriteSubHeader(s: WriteSub, rest: seq<byte>)
    requires |s.registers| < 0x1_0000
    ensures var bytes := WriteSubBytes(s) + rest;
      && |bytes| >= 7 && |WriteSubBytes(s)| == WriteSubSize(bytes)
      && bytes[0] == s.reference && WordAt(bytes, 1) == s.file && WordAt(bytes, 3) == s.record
      && WordAt(bytes, 5) == |s.registers|
  {}
}
