/** The requests that the client functions send: their guards, all in one place. */
module Guards {
  import opened Words
  import opened Requests
  import Serving
  import FileRecords
  import DeviceIds

  const MAX_READ_BITS := 2000
  const MAX_READ_REGISTERS := 125
  const MAX_WRITE_COILS := 0x07B0
  const MAX_WRITE_REGISTERS := 0x007B
  const MAX_READ_WRITE_REGISTERS := 0x0079

  /** The test that all client functions for bits and registers make. */
  predicate Within(address: u16, quantity: u16, most: nat) {
    1 <= quantity <= most && Serving.InRange(address, quantity)
  }

  /** The requests that a client function sends rather than refuse its arguments. */
  predicate Guarded(r: Request) {
    match r
    case ReadBits(_, address, quantity) => Within(address, quantity, MAX_READ_BITS)
    case ReadRegisters(_, address, quantity) => Within(address, quantity, MAX_READ_REGISTERS)
    case WriteCoil(_, value) => value == 0 || value == 0xFF00
    case WriteRegister(_, _) => true
    case WriteCoils(address, quantity, bytes) =>
      Within(address, quantity, MAX_WRITE_COILS) && |bytes| == (quantity + 7) / 8
    case WriteRegisters(address, quantity, bytes) =>
      Within(address, quantity, MAX_WRITE_REGISTERS) && |bytes| == 2 * quantity
    case ReadFile(bytes) => |bytes| == 7 && FileRecords.LegalRead(FileRecords.ReadSubAt(bytes, 0))
    case WriteFile(bytes) =>
      && FileRecords.WriteSubs(bytes).Some? && |FileRecords.WriteSubs(bytes).value| == 1
      && FileRecords.LegalWrite(FileRecords.WriteSubs(bytes).value[0])
    case ReadWrite(readAddress, readQuantity, address, quantity, bytes) =>
      && Within(readAddress, readQuantity, MAX_READ_REGISTERS)
      && Within(address, quantity, MAX_READ_WRITE_REGISTERS) && |bytes| == 2 * quantity
    case ReadDeviceId(meiType, code, objectId) =>
      && meiType == DeviceIds.MEI_TYPE && 1 <= code <= 4
      && (code == 3 ==> objectId >= 0x80)
      && (code == 4 ==> objectId <= 6 || objectId >= 0x80)
  }

  /** The requests for bits and registers. */
  predicate ForBank(r: Request) {
    !r.ReadFile? && !r.WriteFile? && !r.ReadDeviceId?
  }
}
