/** The handle_* functions of the server for bits and registers. */
module Server {
  import opened Words
  import opened Frames
  import opened Engine
  import opened Serving

  /** The message that is being handled came off the line with its header. */
  ghost predicate Handling(n: Nmbs)
    reads n`idx, n`avail, n`msg, n`complete, n`rx, n`transactionId, n`unitId, n`fc, n.buf
  {
    && n.InBody()
    && n.idx == HeaderLength(n.transport) <= |n.msg|
    && MbapOk(n.transport, n.msg)
    && n.Head() == HeaderOf(n.transport, n.msg)
    && (n.transport.TCP? ==> |n.msg| == 6 + WordAt(n.msg, 4))
  }

  method AnswerFailure(n: Nmbs, error: int) returns (err: int)
    requires n.Valid()
    modifies n`idx, n`fc, n`tx, n.buf
    ensures n.Valid() && err == ERROR_NONE
    ensures n.tx == old(n.tx) + Emitted(n.transport, n.crc, old(n.Head()), Exception(FailureCode(error)))
  {
    if IsException(error) {
      err := n.SendExceptionMsg(error);
    } else {
      err := n.SendExceptionMsg(SERVER_DEVICE_FAILURE);
    }
  }

  lemma CountThenRest(header: seq<byte>, count: byte, rest: seq<byte>)
    ensures (header + [count]) + rest == header + ([count] + rest)
  {}

  /** put_res_header, the bytes after their count, send_msg. */
  method ReplyBytes(n: Nmbs, bytes: seq<byte>) returns (err: int)
    requires n.Valid() && |bytes| <= 250
    modifies n`idx, n`tx, n.buf
    ensures n.Valid() && err == ERROR_NONE
    ensures n.tx == old(n.tx) + Emitted(n.transport, n.crc, n.Head(), Reply([|bytes|] + bytes))
  {
    hide HeaderBytes;
    n.PutMsgHeader(1 + |bytes|);
    ghost var header := n.Out();
    n.Put1(|bytes|);
    n.PutBytes(bytes);
    CountThenRest(header, |bytes|, bytes);
    err := n.SendMsg();
  }

  method ReplyRegisters(n: Nmbs, registers: seq<u16>) returns (err: int)
    requires n.Valid() && |registers| <= 125
    modifies n`idx, n`tx, n.buf
    ensures n.Valid() && err == ERROR_NONE
    ensures n.tx == old(n.tx) + Emitted(n.transport, n.crc, n.Head(), Reply([2 * |registers|] + BeAll(registers)))
  {
    hide HeaderBytes, BeAll, Nmbs.Out;
    n.PutMsgHeader(1 + 2 * |registers|);
    ghost var header := n.Out();
    n.Put1(2 * |registers|);
    n.PutRegisters(registers);
    CountThenRest(header, 2 * |registers|, BeAll(registers));
    err := n.SendMsg();
  }

  method ReplyTwoWords(n: Nmbs, a: u16, b: u16) returns (err: int)
    requires n.Valid()
    modifies n`idx, n`tx, n.buf
    ensures n.Valid() && err == ERROR_NONE
    ensures n.tx == old(n.tx) + Emitted(n.transport, n.crc, n.Head(), Reply(Be(a) + Be(b)))
  {
    hide HeaderBytes;
    n.PutMsgHeader(4);
    ghost var header := n.Out();
    n.Put2(a);
    n.Put2(b);
    assert n.Out() == header + (Be(a) + Be(b));
    err := n.SendMsg();
  }

  method AnswerReadDiscrete<D>(n: Nmbs, callback: Option<ReadBitsCallback<D>>, dev: D, address: u16, quantity: u16)
    returns (err: int, dev': D)
    requires n.Valid()
    modifies n`idx, n`fc, n`tx, n.buf
    ensures n.Valid() && err == ERROR_NONE
    ensures var (o, d) := ServeReadBits(callback, dev, n.unitId, n.broadcast, address, quantity);
      dev' == d && n.tx == old(n.tx) + Emitted(n.transport, n.crc, old(n.Head()), o)
  {
    dev' := dev;
    if quantity < 1 || quantity > 2000 {
      err := n.SendExceptionMsg(ILLEGAL_DATA_VALUE);
      return;
    }
    if address + quantity > 0xFFFF + 1 {
      err := n.SendExceptionMsg(ILLEGAL_DATA_ADDRESS);
      return;
    }
    if callback.Some? {
      var r := callback.value(dev, address, quantity, n.unitId);
      dev' := r.dev;
      if r.error != ERROR_NONE {
        err := AnswerFailure(n, r.error);
        return;
      }
      if !n.broadcast {
        var discreteBytes := (quantity + 7) / 8;
        err := ReplyBytes(n, r.bits[..discreteBytes]);
        return;
      }
    } else {
      err := n.SendExceptionMsg(ILLEGAL_FUNCTION);
      return;
    }
    err := ERROR_NONE;
  }

  method AnswerReadRegisters<D>(n: Nmbs, callback: Option<ReadRegistersCallback<D>>, dev: D,
                                address: u16, quantity: u16)
    returns (err: int, dev': D)
    requires n.Valid()
    modifies n`idx, n`fc, n`tx, n.buf
    ensures n.Valid() && err == ERROR_NONE
    ensures var (o, d) := ServeReadRegisters(callback, dev, n.unitId, n.broadcast, address, quantity);
      dev' == d && n.tx == old(n.tx) + Emitted(n.transport, n.crc, old(n.Head()), o)
  {
    dev' := dev;
    if quantity < 1 || quantity > 125 {
      err := n.SendExceptionMsg(ILLEGAL_DATA_VALUE);
      return;
    }
    if address + quantity > 0xFFFF + 1 {
      err := n.SendExceptionMsg(ILLEGAL_DATA_ADDRESS);
      return;
    }
    if callback.Some? {
      var r := callback.value(dev, address, quantity, n.unitId);
      dev' := r.dev;
      if r.error != ERROR_NONE {
        err := AnswerFailure(n, r.error);
        return;
      }
      if !n.broadcast {
        err := ReplyRegisters(n, r.registers[..quantity]);
        return;
      }
    } else {
      err := n.SendExceptionMsg(ILLEGAL_FUNCTION);
      return;
    }
    err := ERROR_NONE;
  }

  method AnswerWriteSingleCoil<D>(n: Nmbs, cbs: Callbacks<D>, dev: D, address: u16, value: u16)
    returns (err: int, dev': D)
    requires n.Valid()
    modifies n`idx, n`fc, n`tx, n.buf
    ensures n.Valid() && err == ERROR_NONE
    ensures var (o, d) := ServeWriteCoil(cbs, dev, n.unitId, n.broadcast, address, value);
      dev' == d && n.tx == old(n.tx) + Emitted(n.transport, n.crc, old(n.Head()), o)
  {
    dev' := dev;
    if cbs.writeSingleCoil.Some? {
      if value != 0 && value != 0xFF00 {
        err := n.SendExceptionMsg(ILLEGAL_DATA_VALUE);
        return;
      }
      var r := cbs.writeSingleCoil.value(dev, address, if value == 0 then false else true, n.unitId);
      dev' := r.dev;
      if r.error != ERROR_NONE {
        err := AnswerFailure(n, r.error);
        return;
      }
      if !n.broadcast {
        err := ReplyTwoWords(n, address, value);
        return;
      }
    } else {
      err := n.SendExceptionMsg(ILLEGAL_FUNCTION);
      return;
    }
    err := ERROR_NONE;
  }

  method AnswerWriteSingleRegister<D>(n: Nmbs, cbs: Callbacks<D>, dev: D, address: u16, value: u16)
    returns (err: int, dev': D)
    requires n.Valid()
    modifies n`idx, n`fc, n`tx, n.buf
    ensures n.Valid() && err == ERROR_NONE
    ensures var (o, d) := ServeWriteRegister(cbs, dev, n.unitId, n.broadcast, address, value);
      dev' == d && n.tx == old(n.tx) + Emitted(n.transport, n.crc, old(n.Head()), o)
  {
    dev' := dev;
    if cbs.writeSingleRegister.Some? {
      var r := cbs.writeSingleRegister.value(dev, address, value, n.unitId);
      dev' := r.dev;
      if r.error != ERROR_NONE {
        err := AnswerFailure(n, r.error);
        return;
      }
      if !n.broadcast {
        err := ReplyTwoWords(n, address, value);
        return;
      }
    } else {
      err := n.SendExceptionMsg(ILLEGAL_FUNCTION);
      return;
    }
    err := ERROR_NONE;
  }

  method AnswerWriteMultipleCoils<D>(n: Nmbs, cbs: Callbacks<D>, dev: D, address: u16, quantity: u16,
                                     coils: seq<byte>)
    returns (err: int, dev': D)
    requires n.Valid() && |coils| <= 250
    modifies n`idx, n`fc, n`tx, n.buf
    ensures n.Valid() && err == ERROR_NONE
    ensures var (o, d) := ServeWriteCoils(cbs, dev, n.unitId, n.broadcast, address, quantity, coils);
      dev' == d && n.tx == old(n.tx) + Emitted(n.transport, n.crc, old(n.Head()), o)
  {
    dev' := dev;
    if quantity < 1 || quantity > 0x07B0 {
      err := n.SendExceptionMsg(ILLEGAL_DATA_VALUE);
      return;
    }
    if address + quantity > 0xFFFF + 1 {
      err := n.SendExceptionMsg(ILLEGAL_DATA_ADDRESS);
      return;
    }
    if |coils| == 0 {
      err := n.SendExceptionMsg(ILLEGAL_DATA_VALUE);
      return;
    }
    if (quantity + 7) / 8 != |coils| {
      err := n.SendExceptionMsg(ILLEGAL_DATA_VALUE);
      return;
    }
    if cbs.writeMultipleCoils.Some? {
      var r := cbs.writeMultipleCoils.value(dev, address, quantity, Padded(coils), n.unitId);
      dev' := r.dev;
      if r.error != ERROR_NONE {
        err := AnswerFailure(n, r.error);
        return;
      }
      if !n.broadcast {
        err := ReplyTwoWords(n, address, quantity);
        return;
      }
    } else {
      err := n.SendExceptionMsg(ILLEGAL_FUNCTION);
      return;
    }
    err := ERROR_NONE;
  }

  method AnswerWriteMultipleRegisters<D>(n: Nmbs, cbs: Callbacks<D>, dev: D, address: u16, quantity: u16,
                                         registersBytes: byte, registers: seq<u16>, ghost bytes: seq<byte>)
    returns (err: int, dev': D)
    requires n.Valid() && registers == WordsOf(bytes) && registersBytes == |bytes|
    modifies n`idx, n`fc, n`tx, n.buf
    ensures n.Valid() && err == ERROR_NONE
    ensures var (o, d) := ServeWriteRegisters(cbs, dev, n.unitId, n.broadcast, address, quantity, bytes);
      dev' == d && n.tx == old(n.tx) + Emitted(n.transport, n.crc, old(n.Head()), o)
  {
    dev' := dev;
    if quantity < 1 || quantity > 0x007B {
      err := n.SendExceptionMsg(ILLEGAL_DATA_VALUE);
      return;
    }
    if address + quantity > 0xFFFF + 1 {
      err := n.SendExceptionMsg(ILLEGAL_DATA_ADDRESS);
      return;
    }
    if registersBytes == 0 {
      err := n.SendExceptionMsg(ILLEGAL_DATA_VALUE);
      return;
    }
    if registersBytes != quantity * 2 {
      err := n.SendExceptionMsg(ILLEGAL_DATA_VALUE);
      return;
    }
    if cbs.writeMultipleRegisters.Some? {
      var r := cbs.writeMultipleRegisters.value(dev, address, quantity, registers, n.unitId);
      dev' := r.dev;
      if r.error != ERROR_NONE {
        err := AnswerFailure(n, r.error);
        return;
      }
      if !n.broadcast {
        err := ReplyTwoWords(n, address, quantity);
        return;
      }
    } else {
      err := n.SendExceptionMsg(ILLEGAL_FUNCTION);
      return;
    }
    err := ERROR_NONE;
  }

  method AnswerReadWriteRegisters<D>(n: Nmbs, cbs: Callbacks<D>, dev: D, readAddress: u16, readQuantity: u16,
                                     writeAddress: u16, writeQuantity: u16, byteCountWrite: byte,
                                     registers: seq<u16>, ghost bytes: seq<byte>)
    returns (err: int, dev': D)
    requires n.Valid() && registers == WordsOf(bytes) && byteCountWrite == |bytes|
    modifies n`idx, n`fc, n`tx, n.buf
    ensures n.Valid() && err == ERROR_NONE
    ensures var (o, d) := ServeReadWrite(cbs, dev, n.unitId, n.broadcast, readAddress, readQuantity,
                                         writeAddress, writeQuantity, bytes);
      dev' == d && n.tx == old(n.tx) + Emitted(n.transport, n.crc, old(n.Head()), o)
  {
    dev' := dev;
    if readQuantity < 1 || readQuantity > 0x007D {
      err := n.SendExceptionMsg(ILLEGAL_DATA_VALUE);
      return;
    }
    if writeQuantity < 1 || writeQuantity > 0x007B {
      err := n.SendExceptionMsg(ILLEGAL_DATA_VALUE);
      return;
    }
    if byteCountWrite != writeQuantity * 2 {
      err := n.SendExceptionMsg(ILLEGAL_DATA_VALUE);
      return;
    }
    if readAddress + readQuantity > 0xFFFF + 1 {
      err := n.SendExceptionMsg(ILLEGAL_DATA_ADDRESS);
      return;
    }
    if writeAddress + writeQuantity > 0xFFFF + 1 {
      err := n.SendExceptionMsg(ILLEGAL_DATA_ADDRESS);
      return;
    }
    if cbs.writeMultipleRegisters.None? || cbs.readHoldingRegisters.None? {
      err := n.SendExceptionMsg(ILLEGAL_FUNCTION);
      return;
    }
    var w := cbs.writeMultipleRegisters.value(dev, writeAddress, writeQuantity, registers, n.unitId);
    dev' := w.dev;
    if w.error != ERROR_NONE {
      err := AnswerFailure(n, w.error);
      return;
    }
    if !n.broadcast {
      var r := cbs.readHoldingRegisters.value(dev', readAddress, readQuantity, n.unitId);
      dev' := r.dev;
      if r.error != ERROR_NONE {
        err := AnswerFailure(n, r.error);
        return;
      }
      err := ReplyRegisters(n, r.registers[..readQuantity]);
      return;
    }
    err := ERROR_NONE;
  }
}
