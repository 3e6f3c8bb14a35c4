/** Runs of client calls against a server with a plain bank behind it. */
module Session {
  import opened Words
  import Frames
  import opened Bitfields
  import opened Engine
  import opened Failures
  import opened Polling
  import opened Client
  import opened Banks

  method CallReadCoils(client: Nmbs, server: Nmbs, bank: Bank, op: Operation) returns (answer: Answer, bank': Bank)
    requires Connected(client, server) && !ToAll(client) && op.ReadCoils?
    modifies client, client.buf, server, server.buf
    ensures Connected(client, server) && client.destAddressRtu == old(client.destAddressRtu)
    ensures (answer, bank') == Atomic(bank, op)
  {
    hide ServeRequest, Verdict, BankCallbacks, Unpack;
    var values := new byte[250](i => 0);
    ghost var unit := client.destAddressRtu;
    var err;
    err, bank' := ReadDiscrete(client, server, BankCallbacks(), bank, false, op.address, op.quantity, values);
    if err != Frames.ERROR_NONE {
      answer := Refused(err);
    } else {
      answer := Bits(Unpack(values[..], op.quantity));
    }
    if Permitted(op) {
      BankServes(bank, unit, op);
      FailuresAreReported(BankCallbacks(), bank, unit, false, RequestOf(op));
      ghost var data := ServeRequest(BankCallbacks(), bank, unit, false, RequestOf(op)).0.data;
      assert values[..][..|data| - 1] == data[1..];
      UnpackCut(values[..], |data| - 1, op.quantity);
    }
  }

  method CallReadHolding(client: Nmbs, server: Nmbs, bank: Bank, op: Operation) returns (answer: Answer, bank': Bank)
    requires Connected(client, server) && !ToAll(client) && op.ReadHolding?
    modifies client, client.buf, server, server.buf
    ensures Connected(client, server) && client.destAddressRtu == old(client.destAddressRtu)
    ensures (answer, bank') == Atomic(bank, op)
  {
    hide ServeRequest, Verdict, BankCallbacks, WordsOf;
    var registers := new u16[125](i => 0);
    ghost var unit := client.destAddressRtu;
    var err;
    err, bank' := ReadRegisterValues(client, server, BankCallbacks(), bank, false, op.address, op.quantity, registers);
    if err != Frames.ERROR_NONE {
      answer := Refused(err);
    } else {
      answer := Words(registers[..op.quantity]);
    }
    if Permitted(op) {
      BankServes(bank, unit, op);
      FailuresAreReported(BankCallbacks(), bank, unit, false, RequestOf(op));
      ghost var data := ServeRequest(BankCallbacks(), bank, unit, false, RequestOf(op)).0.data;
      assert registers[..][..op.quantity] == WordsOf(data[1..]);
    }
  }

  method CallReadWrite(client: Nmbs, server: Nmbs, bank: Bank, op: Operation) returns (answer: Answer, bank': Bank)
    requires Connected(client, server) && !ToAll(client) && op.ReadWriteHolding? && |op.words| < 0x1_0000
    modifies client, client.buf, server, server.buf
    ensures Connected(client, server) && client.destAddressRtu == old(client.destAddressRtu)
    ensures (answer, bank') == Atomic(bank, op)
  {
    hide ServeRequest, Verdict, BankCallbacks, WordsOf, BeAll;
    var registers := new u16[125](i => 0);
    ghost var unit := client.destAddressRtu;
    var err;
    err, bank' := ReadWriteRegisters(client, server, BankCallbacks(), bank, op.readAddress, op.quantity, registers,
                                     op.address, op.words);
    if err != Frames.ERROR_NONE {
      answer := Refused(err);
    } else {
      answer := Words(registers[..op.quantity]);
    }
    if Permitted(op) {
      BankServes(bank, unit, op);
      FailuresAreReported(BankCallbacks(), bank, unit, false, RequestOf(op));
      ghost var data := ServeRequest(BankCallbacks(), bank, unit, false, RequestOf(op)).0.data;
      assert registers[..][..op.quantity] == WordsOf(data[1..]);
    }
  }

  method CallWrite(client: Nmbs, server: Nmbs, bank: Bank, op: Operation) returns (answer: Answer, bank': Bank)
    requires Connected(client, server) && !ToAll(client)
    requires op.WriteOneCoil? || op.WriteOneRegister? || op.WriteSomeCoils? || op.WriteSomeRegisters?
    requires op.WriteSomeCoils? ==> |op.bits| < 0x1_0000
    requires op.WriteSomeRegisters? ==> |op.words| < 0x1_0000
    modifies client, client.buf, server, server.buf
    ensures Connected(client, server) && client.destAddressRtu == old(client.destAddressRtu)
    ensures (answer, bank') == Atomic(bank, op)
  {
    hide ServeRequest, Verdict, BankCallbacks, BeAll, Pack;
    if Permitted(op) {
      BankServes(bank, client.destAddressRtu, op);
      FailuresAreReported(BankCallbacks(), bank, client.destAddressRtu, false, RequestOf(op));
    }
    var err;
    match op {
    case WriteOneCoil(address, value) =>
      err, bank' := WriteSingleCoil(client, server, BankCallbacks(), bank, address, value);
    case WriteOneRegister(address, word) =>
      err, bank' := WriteSingleRegister(client, server, BankCallbacks(), bank, address, word);
    case WriteSomeCoils(address, bits) =>
      var coils := new byte[if (|bits| + 7) / 8 <= 250 then 250 else (|bits| + 7) / 8];
      PackInto(coils, bits);
      err, bank' := WriteMultipleCoils(client, server, BankCallbacks(), bank, address, |bits|, coils);
    case WriteSomeRegisters(address, words) =>
      err, bank' := WriteMultipleRegisters(client, server, BankCallbacks(), bank, address, words);
    }
    answer := if err == Frames.ERROR_NONE then Written else Refused(err);
  }

  /** How a caller fills a bitfield. */
  method PackInto(bf: array<byte>, bits: seq<bool>)
    requires |bits| <= 8 * bf.Length
    modifies bf
    ensures bf[..(|bits| + 7) / 8] == Pack(bits, (|bits| + 7) / 8)
  {
    hide Pack;
    ghost var n := (|bits| + 7) / 8;
    for j := 0 to bf.Length
      invariant forall i :: 0 <= i < j && i < n ==> bf[i] == PackByte(bits, i)
    {
      bf[j] := PackByte(bits, j);
    }
    PackIsPackBytes(bits, n);
  }

  lemma PackIsPackBytes(bits: seq<bool>, n: nat)
    ensures forall i :: 0 <= i < n ==> Pack(bits, n)[i] == PackByte(bits, i)
  {}

  method Call(client: Nmbs, server: Nmbs, bank: Bank, op: Operation) returns (answer: Answer, bank': Bank)
    requires Connected(client, server) && !ToAll(client) && Callable(op)
    modifies client, client.buf, server, server.buf
    ensures Connected(client, server) && client.destAddressRtu == old(client.destAddressRtu)
    ensures (answer, bank') == Atomic(bank, op)
  {
    hide Atomic;
    if op.ReadCoils? {
      answer, bank' := CallReadCoils(client, server, bank, op);
    } else if op.ReadHolding? {
      answer, bank' := CallReadHolding(client, server, bank, op);
    } else if op.ReadWriteHolding? {
      answer, bank' := CallReadWrite(client, server, bank, op);
    } else {
      answer, bank' := CallWrite(client, server, bank, op);
    }
  }

  /** Any run of calls over the line does what the same run of atomic operations does. */
  method RunCalls(client: Nmbs, server: Nmbs, bank: Bank, ops: seq<Operation>)
    returns (answers: seq<Answer>, bank': Bank)
    requires Connected(client, server) && !ToAll(client)
    requires forall i :: 0 <= i < |ops| ==> Callable(ops[i])
    modifies client, client.buf, server, server.buf
    ensures Connected(client, server)
    ensures (answers, bank') == AtomicRun(bank, ops)
  {
    hide Atomic, Callable;
    answers, bank' := [], bank;
    for i := 0 to |ops|
      invariant Connected(client, server) && !ToAll(client)
      invariant (answers, bank') == AtomicRun(bank, ops[..i])
    {
      var answer;
      answer, bank' := Call(client, server, bank', ops[i]);
      answers := answers + [answer];
      assert ops[..i + 1][..i] == ops[..i];
    }
    assert ops[..|ops|] == ops;
  }
}
