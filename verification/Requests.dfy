/** Requests as values, their bytes, and their recovery from a received message. */
module Requests {
  import opened Words
  import opened Responses

  datatype Request =
    | ReadBits(inputs: bool, address: u16, quantity: u16)
    | ReadRegisters(inputs: bool, address: u16, quantity: u16)
    | WriteCoil(address: u16, value: u16)
    | WriteRegister(address: u16, value: u16)
    | WriteCoils(address: u16, quantity: u16, bytes: seq<byte>)
    | WriteRegisters(address: u16, quantity: u16, bytes: seq<byte>)
    | ReadFile(bytes: seq<byte>)
    | WriteFile(bytes: seq<byte>)
    | ReadWrite(readAddress: u16, readQuantity: u16, address: u16, quantity: u16, bytes: seq<byte>)
    | ReadDeviceId(meiType: byte, code: byte, objectId: byte)

  /** The function codes that the server handles. */
  const FUNCTIONS: set<byte> := {1, 2, 3, 4, 5, 6, 15, 16, 20, 21, 23, 43}

  function FunctionCode(r: Request): byte {
    match r
    case ReadBits(inputs, _, _) => if inputs then 2 else 1
    case ReadRegisters(inputs, _, _) => if inputs then 4 else 3
    case WriteCoil(_, _) => 5
    case WriteRegister(_, _) => 6
    case WriteCoils(_, _, _) => 15
    case WriteRegisters(_, _, _) => 16
    case ReadFile(_) => 20
    case WriteFile(_) => 21
    case ReadWrite(_, _, _, _, _) => 23
    case ReadDeviceId(_, _, _) => 43
  }

  /** The form in which the server reads the body of a request, with the largest byte count it takes. */
  function RequestForm(fc: byte): Form {
    if fc == 15 || fc == 16 then Form(5, true, 246)
    else if fc == 20 then Form(1, true, 245)
    else if fc == 21 then Form(1, true, 251)
    else if fc == 23 then Form(9, true, 242)
    else if fc == 43 then Form(3, false, 0)
    else TWO_WORDS
  }

  /** The byte count fits the byte that holds it. */
  predicate Countable(r: Request) {
    match r
    case WriteCoils(_, _, bytes) => |bytes| < 0x100
    case WriteRegisters(_, _, bytes) => |bytes| < 0x100
    case ReadFile(bytes) => |bytes| < 0x100
    case WriteFile(bytes) => |bytes| < 0x100
    case ReadWrite(_, _, _, _, bytes) => |bytes| < 0x100
    case _ => true
  }

  /** The data that follows the function code. */
  function RequestData(r: Request): seq<byte>
    requires Countable(r)
  {
    match r
    case ReadBits(_, address, quantity) => Be(address) + Be(quantity)
    case ReadRegisters(_, address, quantity) => Be(address) + Be(quantity)
    case WriteCoil(address, value) => Be(address) + Be(value)
    case WriteRegister(address, value) => Be(address) + Be(value)
    case WriteCoils(address, quantity, bytes) => Be(address) + Be(quantity) + [|bytes|] + bytes
    case WriteRegisters(address, quantity, bytes) => Be(address) + Be(quantity) + [|bytes|] + bytes
    case ReadFile(bytes) => [|bytes|] + bytes
    case WriteFile(bytes) => [|bytes|] + bytes
    case ReadWrite(readAddress, readQuantity, address, quantity, bytes) =>
      Be(readAddress) + Be(readQuantity) + Be(address) + Be(quantity) + [|bytes|] + bytes
    case ReadDeviceId(meiType, code, objectId) => [meiType, code, objectId]
  }

  /** The request in a message whose header takes up h bytes. */
  function ParseRequest(fc: byte, m: seq<byte>, h: nat): Request
    requires fc in FUNCTIONS
    requires |m| >= h + RequestForm(fc).fixed
    requires RequestForm(fc).counted ==>
      |m| >= h + RequestForm(fc).fixed + m[h + RequestForm(fc).fixed - 1]
  {
    var f := RequestForm(fc).fixed;
    var bytes := if RequestForm(fc).counted then m[h + f..h + f + m[h + f - 1]] else [];
    if fc == 1 || fc == 2 then ReadBits(fc == 2, WordAt(m, h), WordAt(m, h + 2))
    else if fc == 3 || fc == 4 then ReadRegisters(fc == 4, WordAt(m, h), WordAt(m, h + 2))
    else if fc == 5 then WriteCoil(WordAt(m, h), WordAt(m, h + 2))
    else if fc == 6 then WriteRegister(WordAt(m, h), WordAt(m, h + 2))
    else if fc == 15 then WriteCoils(WordAt(m, h), WordAt(m, h + 2), bytes)
    else if fc == 16 then WriteRegisters(WordAt(m, h), WordAt(m, h + 2), bytes)
    else if fc == 20 then ReadFile(bytes)
    else if fc == 21 then WriteFile(bytes)
    else if fc == 23 then
      ReadWrite(WordAt(m, h), WordAt(m, h + 2), WordAt(m, h + 4), WordAt(m, h + 6), bytes)
    else ReadDeviceId(m[h], m[h + 1], m[h + 2])
  }

  /** Where a request's data stands in a message. */
  predicate DataAt(m: seq<byte>, h: nat, data: seq<byte>) {
    h + |data| <= |m| && m[h..h + |data|] == data
  }

  lemma WordInData(m: seq<byte>, h: nat, data: seq<byte>, i: nat)
    requires DataAt(m, h, data) && i + 2 <= |data|
    ensures WordAt(m, h + i) == WordAt(data, i)
  {
    var d := m[h..h + |data|];
    assert d[i] == m[h + i] && d[i + 1] == m[h + i + 1];
  }

  lemma ByteInData(m: seq<byte>, h: nat, data: seq<byte>, i: nat)
    requires DataAt(m, h, data) && i < |data|
    ensures m[h + i] == data[i]
  {
    assert m[h..h + |data|][i] == m[h + i];
  }

  /** A byte count and as many bytes, behind f - 1 others. */
  lemma BytesInData(m: seq<byte>, h: nat, data: seq<byte>, front: seq<byte>, bytes: seq<byte>)
    requires DataAt(m, h, data) && |bytes| < 0x100
    requires data == front + [|bytes|] + bytes
    ensures m[h + |front|] == |bytes|
    ensures m[h + |front| + 1..h + |front| + 1 + |bytes|] == bytes
  {
    ByteInData(m, h, data, |front|);
    assert data[|front| + 1..] == bytes;
    assert m[h + |front| + 1..h + |data|] == m[h..h + |data|][|front| + 1..];
  }

  /** The message holds r's data in r's form, and reading it gives r. */
  ghost predicate ReadsBack(r: Request, m: seq<byte>, h: nat)
    requires Countable(r)
  {
    var f := RequestForm(FunctionCode(r));
    && |m| >= h + f.fixed
    && |RequestData(r)| == f.fixed + (if f.counted then m[h + f.fixed - 1] else 0)
    && |m| >= h + |RequestData(r)|
    && ParseRequest(FunctionCode(r), m, h) == r
  }

  lemma TwoWordsReadBack(r: Request, m: seq<byte>, h: nat)
    requires r.ReadBits? || r.ReadRegisters? || r.WriteCoil? || r.WriteRegister?
    requires DataAt(m, h, RequestData(r))
    ensures ReadsBack(r, m, h)
  {
    WordInData(m, h, RequestData(r), 0);
    WordInData(m, h, RequestData(r), 2);
  }

  lemma CountedWriteReadsBack(r: Request, m: seq<byte>, h: nat)
    requires (r.WriteCoils? || r.WriteRegisters?) && Countable(r)
    requires DataAt(m, h, RequestData(r))
    ensures ReadsBack(r, m, h)
  {
    WordInData(m, h, RequestData(r), 0);
    WordInData(m, h, RequestData(r), 2);
    BytesInData(m, h, RequestData(r), Be(r.address) + Be(r.quantity), r.bytes);
  }

  lemma FileRequestReadsBack(r: Request, m: seq<byte>, h: nat)
    requires (r.ReadFile? || r.WriteFile?) && Countable(r)
    requires DataAt(m, h, RequestData(r))
    ensures ReadsBack(r, m, h)
  {
    assert RequestData(r) == [] + [|r.bytes|] + r.bytes;
    BytesInData(m, h, RequestData(r), [], r.bytes);
  }

  lemma ReadWriteReadsBack(r: Request, m: seq<byte>, h: nat)
    requires r.ReadWrite? && Countable(r)
    requires DataAt(m, h, RequestData(r))
    ensures ReadsBack(r, m, h)
  {
    WordInData(m, h, RequestData(r), 0);
    WordInData(m, h, RequestData(r), 2);
    WordInData(m, h, RequestData(r), 4);
    WordInData(m, h, RequestData(r), 6);
    BytesInData(m, h, RequestData(r),
                Be(r.readAddress) + Be(r.readQuantity) + Be(r.address) + Be(r.quantity), r.bytes);
  }

  lemma DeviceIdReadsBack(r: Request, m: seq<byte>, h: nat)
    requires r.ReadDeviceId?
    requires DataAt(m, h, RequestData(r))
    ensures ReadsBack(r, m, h)
  {
    ByteInData(m, h, RequestData(r), 0);
    ByteInData(m, h, RequestData(r), 1);
    ByteInData(m, h, RequestData(r), 2);
  }

  /** Reading a request back from the bytes it was written as gives the same request. */
  lemma ParseUndoesWrite(r: Request, m: seq<byte>, h: nat)
    requires Countable(r) && DataAt(m, h, RequestData(r))
    ensures ReadsBack(r, m, h)
  {
    if r.WriteCoils? || r.WriteRegisters? {
      CountedWriteReadsBack(r, m, h);
    } else if r.ReadFile? || r.WriteFile? {
      FileRequestReadsBack(r, m, h);
    } else if r.ReadWrite? {
      ReadWriteReadsBack(r, m, h);
    } else if r.ReadDeviceId? {
      DeviceIdReadsBack(r, m, h);
    } else {
      TwoWordsReadBack(r, m, h);
    }
  }
}
