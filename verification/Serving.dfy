/** What a server does with a request: the callback it runs, on a device of any kind, and the answer it gives. */
module Serving {
  import opened Words
  import opened Frames

  type Bitfield = s: seq<byte> | |s| == 250 witness seq(250, i => 0)
  type Registers = s: seq<u16> | |s| == 125 witness seq(125, i => 0)

  /** What a callback returns, and the device it leaves behind. */
  datatype Done<D> = Done(error: int, dev: D)
  datatype BitsRead<D> = BitsRead(error: int, bits: Bitfield, dev: D)
  datatype RegistersRead<D> = RegistersRead(error: int, registers: Registers, dev: D)

  type ReadBitsCallback<!D> = (D, u16, u16, byte) -> BitsRead<D>
  type ReadRegistersCallback<!D> = (D, u16, u16, byte) -> RegistersRead<D>

  /** A string that a char[128] holds together with its terminating NUL. */
  type Text = s: seq<byte> | |s| <= 127 && 0 !in s witness []

  /** The object table that the device identification callbacks show: which ids are mapped, and their strings. */
  datatype ObjectTable = ObjectTable(mapError: int, mapped: set<byte>, stringOf: byte -> ObjectString)
  datatype ObjectString = ObjectString(error: int, text: Text)

  /** nmbs_callbacks: any of them may be missing. The device D is whatever the callbacks' argument points to. */
  datatype Callbacks<!D> = Callbacks(
    readCoils: Option<ReadBitsCallback<D>>,
    readDiscreteInputs: Option<ReadBitsCallback<D>>,
    readHoldingRegisters: Option<ReadRegistersCallback<D>>,
    readInputRegisters: Option<ReadRegistersCallback<D>>,
    writeSingleCoil: Option<(D, u16, bool, byte) -> Done<D>>,
    writeSingleRegister: Option<(D, u16, u16, byte) -> Done<D>>,
    writeMultipleCoils: Option<(D, u16, u16, Bitfield, byte) -> Done<D>>,
    writeMultipleRegisters: Option<(D, u16, u16, seq<u16>, byte) -> Done<D>>,
    readFileRecord: Option<(D, u16, u16, u16, byte) -> RegistersRead<D>>,
    writeFileRecord: Option<(D, u16, u16, seq<u16>, byte) -> Done<D>>,
    objects: Option<ObjectTable>
  )

  /** A callback's exceptions go to the client as they are, its other errors as a device failure. */
  function FailureCode(error: int): byte {
    if IsException(error) then error else SERVER_DEVICE_FAILURE
  }

  predicate InRange(address: u16, quantity: u16) {
    address + quantity <= 0x1_0000
  }

  function ServeReadBits<D>(callback: Option<ReadBitsCallback<D>>, dev: D, unitId: byte, broadcast: bool,
                            address: u16, quantity: u16): (Outcome, D)
  {
    if quantity < 1 || quantity > 2000 then (Exception(ILLEGAL_DATA_VALUE), dev)
    else if !InRange(address, quantity) then (Exception(ILLEGAL_DATA_ADDRESS), dev)
    else if callback.None? then (Exception(ILLEGAL_FUNCTION), dev)
    else
      var r := callback.value(dev, address, quantity, unitId);
      var n := (quantity + 7) / 8;
      if r.error != ERROR_NONE then (Exception(FailureCode(r.error)), r.dev)
      else if broadcast then (Silent, r.dev)
      else (Reply([n] + r.bits[..n]), r.dev)
  }

  function ServeReadRegisters<D>(callback: Option<ReadRegistersCallback<D>>, dev: D, unitId: byte, broadcast: bool,
                                 address: u16, quantity: u16): (Outcome, D)
  {
    if quantity < 1 || quantity > 125 then (Exception(ILLEGAL_DATA_VALUE), dev)
    else if !InRange(address, quantity) then (Exception(ILLEGAL_DATA_ADDRESS), dev)
    else if callback.None? then (Exception(ILLEGAL_FUNCTION), dev)
    else
      var r := callback.value(dev, address, quantity, unitId);
      if r.error != ERROR_NONE then (Exception(FailureCode(r.error)), r.dev)
      else if broadcast then (Silent, r.dev)
      else (Reply([2 * quantity] + BeAll(r.registers[..quantity])), r.dev)
  }

  /** The answer to a write that went through repeats two words of the request. */
  function AfterWrite<D>(done: Done<D>, broadcast: bool, a: u16, b: u16): (Outcome, D) {
    if done.error != ERROR_NONE then (Exception(FailureCode(done.error)), done.dev)
    else if broadcast then (Silent, done.dev)
    else (Reply(Be(a) + Be(b)), done.dev)
  }

  function ServeWriteCoil<D>(cbs: Callbacks<D>, dev: D, unitId: byte, broadcast: bool, address: u16, value: u16)
    : (Outcome, D)
  {
    if cbs.writeSingleCoil.None? then (Exception(ILLEGAL_FUNCTION), dev)
    else if value != 0 && value != 0xFF00 then (Exception(ILLEGAL_DATA_VALUE), dev)
    else AfterWrite(cbs.writeSingleCoil.value(dev, address, value != 0, unitId), broadcast, address, value)
  }

  function ServeWriteRegister<D>(cbs: Callbacks<D>, dev: D, unitId: byte, broadcast: bool, address: u16, value: u16)
    : (Outcome, D)
  {
    if cbs.writeSingleRegister.None? then (Exception(ILLEGAL_FUNCTION), dev)
    else AfterWrite(cbs.writeSingleRegister.value(dev, address, value, unitId), broadcast, address, value)
  }

  /** The bytes of a request in an array that is zero behind them. */
  function Padded(bytes: seq<byte>): Bitfield
    requires |bytes| <= 250
  {
    bytes + seq(250 - |bytes|, i => 0)
  }

  function ServeWriteCoils<D>(cbs: Callbacks<D>, dev: D, unitId: byte, broadcast: bool,
                              address: u16, quantity: u16, bytes: seq<byte>): (Outcome, D)
    requires |bytes| <= 250
  {
    if quantity < 1 || quantity > 0x07B0 then (Exception(ILLEGAL_DATA_VALUE), dev)
    else if !InRange(address, quantity) then (Exception(ILLEGAL_DATA_ADDRESS), dev)
    else if (quantity + 7) / 8 != |bytes| then (Exception(ILLEGAL_DATA_VALUE), dev)
    else if cbs.writeMultipleCoils.None? then (Exception(ILLEGAL_FUNCTION), dev)
    else AfterWrite(cbs.writeMultipleCoils.value(dev, address, quantity, Padded(bytes), unitId), broadcast,
                    address, quantity)
  }

  function ServeWriteRegisters<D>(cbs: Callbacks<D>, dev: D, unitId: byte, broadcast: bool,
                                  address: u16, quantity: u16, bytes: seq<byte>): (Outcome, D)
  {
    if quantity < 1 || quantity > 0x007B then (Exception(ILLEGAL_DATA_VALUE), dev)
    else if !InRange(address, quantity) then (Exception(ILLEGAL_DATA_ADDRESS), dev)
    else if |bytes| != 2 * quantity then (Exception(ILLEGAL_DATA_VALUE), dev)
    else if cbs.writeMultipleRegisters.None? then (Exception(ILLEGAL_FUNCTION), dev)
    else AfterWrite(cbs.writeMultipleRegisters.value(dev, address, quantity, WordsOf(bytes), unitId), broadcast,
                    address, quantity)
  }

  /** The write comes first; a broadcast does not read at all. */
  function ServeReadWrite<D>(cbs: Callbacks<D>, dev: D, unitId: byte, broadcast: bool, readAddress: u16,
                             readQuantity: u16, address: u16, quantity: u16, bytes: seq<byte>): (Outcome, D)
  {
    if readQuantity < 1 || readQuantity > 0x007D then (Exception(ILLEGAL_DATA_VALUE), dev)
    else if quantity < 1 || quantity > 0x007B then (Exception(ILLEGAL_DATA_VALUE), dev)
    else if |bytes| != 2 * quantity then (Exception(ILLEGAL_DATA_VALUE), dev)
    else if !InRange(readAddress, readQuantity) then (Exception(ILLEGAL_DATA_ADDRESS), dev)
    else if !InRange(address, quantity) then (Exception(ILLEGAL_DATA_ADDRESS), dev)
    else if cbs.writeMultipleRegisters.None? || cbs.readHoldingRegisters.None? then
      (Exception(ILLEGAL_FUNCTION), dev)
    else
      var w := cbs.writeMultipleRegisters.value(dev, address, quantity, WordsOf(bytes), unitId);
      if w.error != ERROR_NONE then (Exception(FailureCode(w.error)), w.dev)
      else if broadcast then (Silent, w.dev)
      else
        var r := cbs.readHoldingRegisters.value(w.dev, readAddress, readQuantity, unitId);
        if r.error != ERROR_NONE then (Exception(FailureCode(r.error)), r.dev)
        else (Reply([2 * readQuantity] + BeAll(r.registers[..readQuantity])), r.dev)
  }
}
