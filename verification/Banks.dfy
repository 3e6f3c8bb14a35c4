/** A plain register map and coil map: the atomic operations, and the server callbacks that give access to them. */
module Banks {
  import opened Words
  import opened Frames
  import opened Bitfields
  import opened Requests
  import opened Serving
  import Guards
  import Polling

  type RegisterMap = s: seq<u16> | |s| == 0x1_0000 witness seq(0x1_0000, i => 0)
  type CoilMap = s: seq<bool> | |s| == 0x1_0000 witness seq(0x1_0000, i => false)

  datatype Bank = Bank(registers: RegisterMap, coils: CoilMap)

  /** The elements from a position on replaced by others. */
  function Splice<T>(s: seq<T>, at: nat, v: seq<T>): (r: seq<T>)
    requires at + |v| <= |s|
    ensures |r| == |s|
    ensures forall i :: 0 <= i < |s| ==> r[i] == if at <= i < at + |v| then v[i - at] else s[i]
  {
    s[..at] + v + s[at + |v|..]
  }

  // ----- the operations, each in one step

  datatype Operation =
    | ReadCoils(address: u16, quantity: u16)
    | ReadHolding(address: u16, quantity: u16)
    | WriteOneCoil(address: u16, value: bool)
    | WriteOneRegister(address: u16, word: u16)
    | WriteSomeCoils(address: u16, bits: seq<bool>)
    | WriteSomeRegisters(address: u16, words: seq<u16>)
    | ReadWriteHolding(readAddress: u16, quantity: u16, address: u16, words: seq<u16>)

  datatype Answer = Bits(bits: seq<bool>) | Words(words: seq<u16>) | Written | Refused(error: int)

  /** The quantity that a caller passes for its array fits the uint16_t parameter. */
  predicate Callable(op: Operation) {
    match op
    case WriteSomeCoils(_, bits) => |bits| < 0x1_0000
    case WriteSomeRegisters(_, words) => |words| < 0x1_0000
    case ReadWriteHolding(_, _, _, words) => |words| < 0x1_0000
    case _ => true
  }

  /** The request that carries an operation. */
  function RequestOf(op: Operation): Request
    requires Callable(op)
  {
    match op
    case ReadCoils(address, quantity) => ReadBits(false, address, quantity)
    case ReadHolding(address, quantity) => ReadRegisters(false, address, quantity)
    case WriteOneCoil(address, value) => WriteCoil(address, if value then 0xFF00 else 0)
    case WriteOneRegister(address, word) => WriteRegister(address, word)
    case WriteSomeCoils(address, bits) => WriteCoils(address, |bits|, Pack(bits, (|bits| + 7) / 8))
    case WriteSomeRegisters(address, words) => WriteRegisters(address, |words|, BeAll(words))
    case ReadWriteHolding(readAddress, quantity, address, words) =>
      ReadWrite(readAddress, quantity, address, |words|, BeAll(words))
  }

  /** The client function sends the request rather than refuse its arguments. */
  predicate Permitted(op: Operation) {
    Callable(op) && Guards.Guarded(RequestOf(op))
  }

  function Atomic(bank: Bank, op: Operation): (Answer, Bank) {
    if !Permitted(op) then (Refused(ERROR_INVALID_ARGUMENT), bank)
    else
      match op
      case ReadCoils(address, quantity) => (Bits(bank.coils[address..address + quantity]), bank)
      case ReadHolding(address, quantity) => (Words(bank.registers[address..address + quantity]), bank)
      case WriteOneCoil(address, value) => (Written, bank.(coils := bank.coils[address := value]))
      case WriteOneRegister(address, word) => (Written, bank.(registers := bank.registers[address := word]))
      case WriteSomeCoils(address, bits) => (Written, bank.(coils := Splice(bank.coils, address, bits)))
      case WriteSomeRegisters(address, words) => (Written, bank.(registers := Splice(bank.registers, address, words)))
      case ReadWriteHolding(readAddress, quantity, address, words) =>
        var registers := Splice(bank.registers, address, words);
        (Words(registers[readAddress..readAddress + quantity]), bank.(registers := registers))
  }

  /** The answers to a sequence of operations, and the bank behind it. */
  function AtomicRun(bank: Bank, ops: seq<Operation>): (r: (seq<Answer>, Bank))
    ensures |r.0| == |ops|
  {
    if ops == [] then ([], bank)
    else
      var (answers, before) := AtomicRun(bank, ops[..|ops| - 1]);
      var (answer, after) := Atomic(before, ops[|ops| - 1]);
      (answers + [answer], after)
  }

  // ----- what a sequence of operations leaves at one address

  function WordsWritten(op: Operation): seq<u16> {
    if op.WriteOneRegister? then [op.word]
    else if op.WriteSomeRegisters? || op.ReadWriteHolding? then op.words
    else []
  }

  function BitsWritten(op: Operation): seq<bool> {
    if op.WriteOneCoil? then [op.value] else if op.WriteSomeCoils? then op.bits else []
  }

  /** The last permitted write that covers a register, or what was there before. */
  function LastWord(ops: seq<Operation>, x: u16, initial: u16): u16 {
    if ops == [] then initial
    else
      var op := ops[|ops| - 1];
      var w := WordsWritten(op);
      if Permitted(op) && w != [] && op.address <= x < op.address + |w| then w[x - op.address]
      else LastWord(ops[..|ops| - 1], x, initial)
  }

  function LastBit(ops: seq<Operation>, x: u16, initial: bool): bool {
    if ops == [] then initial
    else
      var op := ops[|ops| - 1];
      var w := BitsWritten(op);
      if Permitted(op) && w != [] && op.address <= x < op.address + |w| then w[x - op.address]
      else LastBit(ops[..|ops| - 1], x, initial)
  }

  /** A caller is refused, with error -1 and without any effect, exactly outside of these limits. */
  lemma RefusedExactly(bank: Bank, op: Operation)
    ensures var most :=
      match op
      case ReadCoils(_, _) => 2000
      case ReadHolding(_, _) => 125
      case WriteSomeCoils(_, _) => 1968
      case WriteSomeRegisters(_, _) => 123
      case ReadWriteHolding(_, _, _, _) => 121
      case _ => 1;
      var count :=
        match op
        case ReadCoils(_, quantity) => quantity
        case ReadHolding(_, quantity) => quantity
        case WriteSomeCoils(_, bits) => |bits|
        case WriteSomeRegisters(_, words) => |words|
        case ReadWriteHolding(_, _, _, words) => |words|
        case _ => 1;
      var legal := 1 <= count <= most && op.address + count <= 65536
        && (op.ReadWriteHolding? ==> 1 <= op.quantity <= 125 && op.readAddress + op.quantity <= 65536);
      && (Atomic(bank, op).0 == Refused(-1) <==> !legal)
      && (!legal ==> Atomic(bank, op).1 == bank)
  {
    hide Pack, BeAll;
    if Callable(op) && op.WriteSomeCoils? && |op.bits| <= 1968 {
      assert Permitted(op) <==> 1 <= |op.bits| && op.address + |op.bits| <= 65536;
    }
  }

  /** One operation changes exactly what it writes. */
  lemma AtomicAt(bank: Bank, op: Operation, x: u16)
    ensures var after, words, bits := Atomic(bank, op).1, WordsWritten(op), BitsWritten(op);
      && after.registers[x] == (if Permitted(op) && words != [] && op.address <= x < op.address + |words|
                                then words[x - op.address] else bank.registers[x])
      && after.coils[x] == (if Permitted(op) && bits != [] && op.address <= x < op.address + |bits|
                            then bits[x - op.address] else bank.coils[x])
  {}

  /** After any operations, every register and coil holds the last value written to it, or its first one. */
  lemma {:induction false} LastWriteWins(bank: Bank, ops: seq<Operation>, x: u16)
    ensures AtomicRun(bank, ops).1.registers[x] == LastWord(ops, x, bank.registers[x])
    ensures AtomicRun(bank, ops).1.coils[x] == LastBit(ops, x, bank.coils[x])
  {
    hide Atomic, Permitted, WordsWritten, BitsWritten;
    if ops != [] {
      LastWriteWins(bank, ops[..|ops| - 1], x);
      AtomicAt(AtomicRun(bank, ops[..|ops| - 1]).1, ops[|ops| - 1], x);
    }
  }

  /** The answer to one operation of a run is that of the operation on what the operations before it left. */
  lemma {:induction false} AnswerAt(bank: Bank, ops: seq<Operation>, k: nat)
    requires k < |ops|
    ensures AtomicRun(bank, ops).0[k] == Atomic(AtomicRun(bank, ops[..k]).1, ops[k]).0
  {
    if k < |ops| - 1 {
      AnswerAt(bank, ops[..|ops| - 1], k);
      assert ops[..|ops| - 1][..k] == ops[..k];
    }
  }

  /** Every read of a run returns, address by address, the last values written before it; FC 23 writes first. */
  lemma ReadsSeeLastWrites(bank: Bank, ops: seq<Operation>, k: nat, i: nat)
    requires k < |ops| && Permitted(ops[k])
    ensures var answer := AtomicRun(bank, ops).0[k];
      && (ops[k].ReadHolding? && i < ops[k].quantity ==>
           && answer.Words? && |answer.words| == ops[k].quantity
           && var x := ops[k].address + i;
              answer.words[i] == LastWord(ops[..k], x, bank.registers[x]))
      && (ops[k].ReadCoils? && i < ops[k].quantity ==>
           && answer.Bits? && |answer.bits| == ops[k].quantity
           && var x := ops[k].address + i;
              answer.bits[i] == LastBit(ops[..k], x, bank.coils[x]))
      && (ops[k].ReadWriteHolding? && i < ops[k].quantity ==>
           && answer.Words? && |answer.words| == ops[k].quantity
           && var x := ops[k].readAddress + i;
              answer.words[i] == LastWord(ops[..k + 1], x, bank.registers[x]))
  {
    hide AtomicRun, LastWord, LastBit;
    AnswerAt(bank, ops, k);
    var op := ops[k];
    if op.ReadHolding? && i < op.quantity {
      LastWriteWins(bank, ops[..k], op.address + i);
    } else if op.ReadCoils? && i < op.quantity {
      LastWriteWins(bank, ops[..k], op.address + i);
    } else if op.ReadWriteHolding? && i < op.quantity {
      LastWriteWins(bank, ops[..k + 1], op.readAddress + i);
      RunOneMore(bank, ops, k);
    }
  }

  lemma RunOneMore(bank: Bank, ops: seq<Operation>, k: nat)
    requires k < |ops|
    ensures AtomicRun(bank, ops[..k + 1]).1 == Atomic(AtomicRun(bank, ops[..k]).1, ops[k]).1
  {
    assert ops[..k + 1][..k] == ops[..k];
  }

  // ----- the callbacks

  function ReadCoilsOf(b: Bank, address: u16, quantity: u16, unitId: byte): BitsRead<Bank> {
    if quantity <= 2000 && InRange(address, quantity) then
      BitsRead(ERROR_NONE, Pack(b.coils[address..address + quantity], 250), b)
    else BitsRead(ILLEGAL_DATA_ADDRESS, Pack([], 250), b)
  }

  function Filled(words: seq<u16>): Registers
    requires |words| <= 125
  {
    words + seq(125 - |words|, i => 0)
  }

  function ReadRegistersOf(b: Bank, address: u16, quantity: u16, unitId: byte): RegistersRead<Bank> {
    if quantity <= 125 && InRange(address, quantity) then
      RegistersRead(ERROR_NONE, Filled(b.registers[address..address + quantity]), b)
    else RegistersRead(ILLEGAL_DATA_ADDRESS, Filled([]), b)
  }

  function WriteCoilsOf(b: Bank, address: u16, quantity: u16, coils: Bitfield, unitId: byte): Done<Bank> {
    if quantity <= 2000 && InRange(address, quantity) then
      Done(ERROR_NONE, b.(coils := Splice(b.coils, address, Unpack(coils, quantity))))
    else Done(ILLEGAL_DATA_ADDRESS, b)
  }

  function WriteRegistersOf(b: Bank, address: u16, quantity: u16, words: seq<u16>, unitId: byte): Done<Bank> {
    if quantity == |words| && InRange(address, quantity) then
      Done(ERROR_NONE, b.(registers := Splice(b.registers, address, words)))
    else Done(ILLEGAL_DATA_ADDRESS, b)
  }

  function BankCallbacks(): Callbacks<Bank> {
    Callbacks(
      Some(ReadCoilsOf),
      None,
      Some(ReadRegistersOf),
      None,
      Some((b: Bank, address: u16, value: bool, unitId: byte) =>
        Done(ERROR_NONE, b.(coils := b.coils[address := value]))),
      Some((b: Bank, address: u16, value: u16, unitId: byte) =>
        Done(ERROR_NONE, b.(registers := b.registers[address := value]))),
      Some(WriteCoilsOf),
      Some(WriteRegistersOf),
      None,
      None,
      None)
  }

  /** What a client makes of the data of a reply. */
  function Decoded(op: Operation, data: seq<byte>): Answer
    requires op.ReadCoils? ==> |data| == 1 + (op.quantity + 7) / 8
    requires op.ReadHolding? || op.ReadWriteHolding? ==> |data| >= 1
  {
    match op
    case ReadCoils(_, quantity) => Bits(Unpack(data[1..], quantity))
    case ReadHolding(_, _) => Words(WordsOf(data[1..]))
    case ReadWriteHolding(_, _, _, _) => Words(WordsOf(data[1..]))
    case _ => Written
  }

  /** The bits of some bytes, padded or cut to as many bytes as they need, are the same. */
  lemma UnpackPadded(bytes: seq<byte>, count: nat)
    requires count <= 8 * |bytes| && |bytes| <= 250
    ensures Unpack(Padded(bytes), count) == Unpack(bytes, count)
  {
    forall i | 0 <= i < count
      ensures Unpack(Padded(bytes), count)[i] == Unpack(bytes, count)[i]
    {
      assert Padded(bytes)[i / 8] == bytes[i / 8];
    }
  }

  lemma UnpackCut(bytes: seq<byte>, n: nat, count: nat)
    requires count <= 8 * n && n <= |bytes|
    ensures Unpack(bytes[..n], count) == Unpack(bytes, count)
  {
    forall i | 0 <= i < count
      ensures Unpack(bytes[..n], count)[i] == Unpack(bytes, count)[i]
    {
      assert bytes[..n][i / 8] == bytes[i / 8];
    }
  }

  /** The server, with the bank behind its callbacks, does exactly the operation, and its reply says so. */
  ghost predicate ServedAs(bank: Bank, unitId: byte, op: Operation)
    requires Permitted(op)
  {
    var r := RequestOf(op);
    (r.WriteCoils? ==> |r.bytes| <= 250) &&
    var (o, d) := Polling.ServeRequest(BankCallbacks(), bank, unitId, false, r);
    && o.Reply?
    && d == Atomic(bank, op).1
    && (op.ReadCoils? ==> |o.data| == 1 + (op.quantity + 7) / 8)
    && (op.ReadHolding? || op.ReadWriteHolding? ==> |o.data| >= 1)
    && Decoded(op, o.data) == Atomic(bank, op).0
  }

  lemma ReadCoilsServed(bank: Bank, unitId: byte, op: Operation)
    requires Permitted(op) && op.ReadCoils?
    ensures ServedAs(bank, unitId, op)
  {
    hide Pack, Unpack;
    var bits := bank.coils[op.address..op.address + op.quantity];
    UnpackCut(Pack(bits, 250), (op.quantity + 7) / 8, op.quantity);
    UnpackPacked(bits, 250);
  }

  lemma ReadHoldingServed(bank: Bank, unitId: byte, op: Operation)
    requires Permitted(op) && op.ReadHolding?
    ensures ServedAs(bank, unitId, op)
  {
    hide Filled, BeAll, WordsOf;
    RegistersReadBack(bank, op.address, op.quantity);
  }

  lemma WriteCoilsServed(bank: Bank, unitId: byte, op: Operation)
    requires Permitted(op) && op.WriteSomeCoils?
    ensures ServedAs(bank, unitId, op)
  {
    hide Pack, Unpack, Padded, Splice;
    var n := (|op.bits| + 7) / 8;
    UnpackPadded(Pack(op.bits, n), |op.bits|);
    UnpackPacked(op.bits, n);
  }

  lemma WriteRegistersServed(bank: Bank, unitId: byte, op: Operation)
    requires Permitted(op) && op.WriteSomeRegisters?
    ensures ServedAs(bank, unitId, op)
  {
    hide BeAll, WordsOf, Splice;
    WordsOfBeAll(op.words);
  }

  lemma ReadWriteServed(bank: Bank, unitId: byte, op: Operation)
    requires Permitted(op) && op.ReadWriteHolding?
    ensures ServedAs(bank, unitId, op)
  {
    hide Filled, BeAll, WordsOf, Splice;
    WordsOfBeAll(op.words);
    RegistersReadBack(bank.(registers := Splice(bank.registers, op.address, op.words)), op.readAddress, op.quantity);
  }

  lemma BankServes(bank: Bank, unitId: byte, op: Operation)
    requires Permitted(op)
    ensures ServedAs(bank, unitId, op)
  {
    match op
    case ReadCoils(_, _) => ReadCoilsServed(bank, unitId, op);
    case ReadHolding(_, _) => ReadHoldingServed(bank, unitId, op);
    case WriteSomeCoils(_, _) => WriteCoilsServed(bank, unitId, op);
    case WriteSomeRegisters(_, _) => WriteRegistersServed(bank, unitId, op);
    case ReadWriteHolding(_, _, _, _) => ReadWriteServed(bank, unitId, op);
    case _ =>
  }

  lemma RegistersReadBack(bank: Bank, address: u16, quantity: u16)
    requires 1 <= quantity <= 125 && InRange(address, quantity)
    ensures var words := ReadRegistersOf(bank, address, quantity, 0).registers[..quantity];
      && words == bank.registers[address..address + quantity]
      && WordsOf(([2 * quantity] + BeAll(words))[1..]) == words
  {
    var words := bank.registers[address..address + quantity];
    assert Filled(words)[..quantity] == words;
    WordsOfBeAll(words);
    assert ([2 * quantity] + BeAll(words))[1..] == BeAll(words);
  }
}
