/** What the callbacks for a request make of it, and how their failures reach the client. */
module Failures {
  import opened Words
  import Frames
  import opened Requests
  import opened Serving
  import opened Guards
  import Polling

  /** The callbacks that a bit or register request needs are there. */
  predicate Provided<D>(cbs: Callbacks<D>, r: Request)
    requires ForBank(r)
  {
    match r
    case ReadBits(inputs, _, _) => (if inputs then cbs.readDiscreteInputs else cbs.readCoils).Some?
    case ReadRegisters(inputs, _, _) => (if inputs then cbs.readInputRegisters else cbs.readHoldingRegisters).Some?
    case WriteCoil(_, _) => cbs.writeSingleCoil.Some?
    case WriteRegister(_, _) => cbs.writeSingleRegister.Some?
    case WriteCoils(_, _, _) => cbs.writeMultipleCoils.Some?
    case WriteRegisters(_, _, _) => cbs.writeMultipleRegisters.Some?
    case ReadWrite(_, _, _, _, _) => cbs.writeMultipleRegisters.Some? && cbs.readHoldingRegisters.Some?
  }

  /** What the callbacks return in the end, and the device they leave; FC 23 reads after its write, but not for all. */
  function Ran<D>(cbs: Callbacks<D>, dev: D, unitId: byte, broadcast: bool, r: Request): Done<D>
    requires ForBank(r) && Provided(cbs, r) && Guarded(r)
  {
    match r
    case ReadBits(inputs, address, quantity) =>
      var x := (if inputs then cbs.readDiscreteInputs else cbs.readCoils).value(dev, address, quantity, unitId);
      Done(x.error, x.dev)
    case ReadRegisters(inputs, address, quantity) =>
      var callback := if inputs then cbs.readInputRegisters else cbs.readHoldingRegisters;
      var x := callback.value(dev, address, quantity, unitId);
      Done(x.error, x.dev)
    case WriteCoil(address, value) => cbs.writeSingleCoil.value(dev, address, value == 0xFF00, unitId)
    case WriteRegister(address, value) => cbs.writeSingleRegister.value(dev, address, value, unitId)
    case WriteCoils(address, quantity, bytes) =>
      cbs.writeMultipleCoils.value(dev, address, quantity, Padded(bytes), unitId)
    case WriteRegisters(address, quantity, bytes) =>
      cbs.writeMultipleRegisters.value(dev, address, quantity, WordsOf(bytes), unitId)
    case ReadWrite(readAddress, readQuantity, address, quantity, bytes) =>
      var w := cbs.writeMultipleRegisters.value(dev, address, quantity, WordsOf(bytes), unitId);
      if w.error != Frames.ERROR_NONE || broadcast then w
      else
        var x := cbs.readHoldingRegisters.value(w.dev, readAddress, readQuantity, unitId);
        Done(x.error, x.dev)
  }

  /** What a client is told when a callback has said error: exceptions as they are, all else as a device failure. */
  function Told(error: int): int {
    if error == Frames.ERROR_NONE then Frames.ERROR_NONE else if 1 <= error <= 4 then error else 4
  }

  /** The verdict of the server's callbacks on a request that passed the client's guards, and the device behind it. */
  function Verdict<D>(cbs: Callbacks<D>, dev: D, unitId: byte, broadcast: bool, r: Request): Done<D>
    requires ForBank(r) && Guarded(r)
  {
    if !Provided(cbs, r) then Done(Frames.ILLEGAL_FUNCTION, dev)
    else
      var done := Ran(cbs, dev, unitId, broadcast, r);
      Done(Told(done.error), done.dev)
  }

  /**
   * A request that passed the client's guards gets an exception exactly when its callbacks are missing or fail, with
   * the verdict as its code; otherwise it gets a reply or, as a broadcast, silence.
   */
  lemma FailuresAreReported<D>(cbs: Callbacks<D>, dev: D, unitId: byte, broadcast: bool, r: Request)
    requires ForBank(r) && Guarded(r)
    ensures var (o, d) := Polling.ServeRequest(cbs, dev, unitId, broadcast, r);
      var verdict := Verdict(cbs, dev, unitId, broadcast, r);
      && d == verdict.dev
      && (o.Exception? <==> verdict.error != Frames.ERROR_NONE)
      && (o.Exception? ==> o.code == verdict.error)
      && (o.Reply? <==> verdict.error == Frames.ERROR_NONE && !broadcast)
  {
    hide BeAll, WordsOf, Padded;
  }
}
