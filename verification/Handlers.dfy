/** The handlers of the bit and register requests: read the request, then answer it or listen to the answer. */
module Handlers {
  import opened Words
  import opened Frames
  import opened Engine
  import opened Responses
  import opened Requests
  import opened Serving
  import opened Server

  /** A server that is not addressed finds on the line, behind the request, nothing or a whole response. */
  ghost predicate Overhears(n: Nmbs, end: nat, f: Form)
    reads n`ignored, n`msg, n`transactionId, n`unitId, n`fc
  {
    n.ignored ==>
      && n.transport.RTU?
      && end + 2 <= |n.msg|
      && ResArrived(RTU, n.crc, n.Head(), n.msg[end + 2..], f)
  }

  method HandleReadDiscrete<D>(n: Nmbs, callback: Option<ReadBitsCallback<D>>, dev: D) returns (err: int, dev': D)
    requires Handling(n) && BodyArrived(n.transport, n.msg, TWO_WORDS)
    requires Overhears(n, BodyEnd(n.transport, n.msg, TWO_WORDS), COUNTED)
    modifies n`idx, n`unitId, n`fc, n`transactionId, n`broadcast, n`ignored, n`complete, n`avail, n`msg, n`rx, n`tx
    modifies n.buf
    ensures n.Valid()
    ensures var m, h := old(n.msg), HeaderLength(n.transport);
      var end := BodyEnd(n.transport, m, TWO_WORDS);
      if !TrailerFits(n.transport, n.crc, m, end) then
        && err == ERROR_CRC && dev' == dev && n.tx == old(n.tx)
        && n.rx == LineLeft(n.transport, m, end + TrailerLength(n.transport), old(n.rx))
      else if !old(n.ignored) then
        var (o, d) := ServeReadBits(callback, dev, old(n.unitId), old(n.broadcast), WordAt(m, h), WordAt(m, h + 2));
        && err == ERROR_NONE && dev' == d
        && n.tx == old(n.tx) + Emitted(n.transport, n.crc, old(n.Head()), o)
        && n.rx == LineLeft(n.transport, m, end + TrailerLength(n.transport), old(n.rx))
      else
        var rest := m[end + 2..];
        && dev' == dev && n.tx == old(n.tx)
        && err == FormError(RTU, n.crc, old(n.Head()), rest, COUNTED)
        && n.rx == FormLeft(RTU, n.crc, old(n.Head()), rest, COUNTED)
  {
    hide Nmbs.Receiving, ServeReadBits, Emitted, TrailerFits, ResArrived, FormError, FormLeft, MbapOk, HeaderOf;
    dev' := dev;
    var address, quantity;
    err, address, quantity := n.RecvTwoWords();
    n.BehindFooter();
    if err != ERROR_NONE {
      return;
    }
    if !n.ignored {
      err, dev' := AnswerReadDiscrete(n, callback, dev, address, quantity);
    } else {
      err := RecvReadDiscreteRes(n, null);
    }
  }

  method HandleReadRegisters<D>(n: Nmbs, callback: Option<ReadRegistersCallback<D>>, dev: D)
    returns (err: int, dev': D)
    requires Handling(n) && BodyArrived(n.transport, n.msg, TWO_WORDS)
    requires Overhears(n, BodyEnd(n.transport, n.msg, TWO_WORDS), COUNTED)
    requires n.ignored ==>
      WholeRegisters(RTU, n.crc, n.Head(), n.msg[BodyEnd(n.transport, n.msg, TWO_WORDS) + 2..])
    modifies n`idx, n`unitId, n`fc, n`transactionId, n`broadcast, n`ignored, n`complete, n`avail, n`msg, n`rx, n`tx
    modifies n.buf
    ensures n.Valid()
    ensures var m, h := old(n.msg), HeaderLength(n.transport);
      var end := BodyEnd(n.transport, m, TWO_WORDS);
      if !TrailerFits(n.transport, n.crc, m, end) then
        && err == ERROR_CRC && dev' == dev && n.tx == old(n.tx)
        && n.rx == LineLeft(n.transport, m, end + TrailerLength(n.transport), old(n.rx))
      else if !old(n.ignored) then
        var (o, d) := ServeReadRegisters(callback, dev, old(n.unitId), old(n.broadcast),
                                         WordAt(m, h), WordAt(m, h + 2));
        && err == ERROR_NONE && dev' == d
        && n.tx == old(n.tx) + Emitted(n.transport, n.crc, old(n.Head()), o)
        && n.rx == LineLeft(n.transport, m, end + TrailerLength(n.transport), old(n.rx))
      else
        var rest := m[end + 2..];
        && dev' == dev && n.tx == old(n.tx)
        && err == RegistersError(RTU, n.crc, old(n.Head()), rest, WordAt(m, h + 2))
        && n.rx == FormLeft(RTU, n.crc, old(n.Head()), rest, COUNTED)
  {
    hide Nmbs.Receiving, ServeReadRegisters, Emitted, TrailerFits, ResArrived, FormError, FormLeft, MbapOk, HeaderOf;
    dev' := dev;
    var address, quantity;
    err, address, quantity := n.RecvTwoWords();
    n.BehindFooter();
    if err != ERROR_NONE {
      return;
    }
    if !n.ignored {
      err, dev' := AnswerReadRegisters(n, callback, dev, address, quantity);
    } else {
      err := RecvReadRegistersRes(n, quantity, null);
    }
  }

  method HandleWriteSingleCoil<D>(n: Nmbs, cbs: Callbacks<D>, dev: D) returns (err: int, dev': D)
    requires Handling(n) && BodyArrived(n.transport, n.msg, TWO_WORDS)
    requires Overhears(n, BodyEnd(n.transport, n.msg, TWO_WORDS), TWO_WORDS)
    modifies n`idx, n`unitId, n`fc, n`transactionId, n`broadcast, n`ignored, n`complete, n`avail, n`msg, n`rx, n`tx
    modifies n.buf
    ensures n.Valid()
    ensures var m, h := old(n.msg), HeaderLength(n.transport);
      var end := BodyEnd(n.transport, m, TWO_WORDS);
      if !TrailerFits(n.transport, n.crc, m, end) then
        && err == ERROR_CRC && dev' == dev && n.tx == old(n.tx)
        && n.rx == LineLeft(n.transport, m, end + TrailerLength(n.transport), old(n.rx))
      else if !old(n.ignored) then
        var (o, d) := ServeWriteCoil(cbs, dev, old(n.unitId), old(n.broadcast), WordAt(m, h), WordAt(m, h + 2));
        && err == ERROR_NONE && dev' == d
        && n.tx == old(n.tx) + Emitted(n.transport, n.crc, old(n.Head()), o)
        && n.rx == LineLeft(n.transport, m, end + TrailerLength(n.transport), old(n.rx))
      else
        var rest := m[end + 2..];
        && dev' == dev && n.tx == old(n.tx)
        && err == WrittenError(RTU, n.crc, old(n.Head()), rest, WordAt(m, h), WordAt(m, h + 2))
        && n.rx == FormLeft(RTU, n.crc, old(n.Head()), rest, TWO_WORDS)
  {
    hide Nmbs.Receiving, ServeWriteCoil, Emitted, TrailerFits, ResArrived, FormError, FormLeft, MbapOk, HeaderOf;
    dev' := dev;
    var address, value;
    err, address, value := n.RecvTwoWords();
    n.BehindFooter();
    if err != ERROR_NONE {
      return;
    }
    if !n.ignored {
      err, dev' := AnswerWriteSingleCoil(n, cbs, dev, address, value);
    } else {
      err := RecvWrittenRes(n, address, value);
    }
  }

  method HandleWriteSingleRegister<D>(n: Nmbs, cbs: Callbacks<D>, dev: D) returns (err: int, dev': D)
    requires Handling(n) && BodyArrived(n.transport, n.msg, TWO_WORDS)
    requires Overhears(n, BodyEnd(n.transport, n.msg, TWO_WORDS), TWO_WORDS)
    modifies n`idx, n`unitId, n`fc, n`transactionId, n`broadcast, n`ignored, n`complete, n`avail, n`msg, n`rx, n`tx
    modifies n.buf
    ensures n.Valid()
    ensures var m, h := old(n.msg), HeaderLength(n.transport);
      var end := BodyEnd(n.transport, m, TWO_WORDS);
      if !TrailerFits(n.transport, n.crc, m, end) then
        && err == ERROR_CRC && dev' == dev && n.tx == old(n.tx)
        && n.rx == LineLeft(n.transport, m, end + TrailerLength(n.transport), old(n.rx))
      else if !old(n.ignored) then
        var (o, d) := ServeWriteRegister(cbs, dev, old(n.unitId), old(n.broadcast), WordAt(m, h), WordAt(m, h + 2));
        && err == ERROR_NONE && dev' == d
        && n.tx == old(n.tx) + Emitted(n.transport, n.crc, old(n.Head()), o)
        && n.rx == LineLeft(n.transport, m, end + TrailerLength(n.transport), old(n.rx))
      else
        var rest := m[end + 2..];
        && dev' == dev && n.tx == old(n.tx)
        && err == WrittenError(RTU, n.crc, old(n.Head()), rest, WordAt(m, h), WordAt(m, h + 2))
        && n.rx == FormLeft(RTU, n.crc, old(n.Head()), rest, TWO_WORDS)
  {
    hide Nmbs.Receiving, ServeWriteRegister, Emitted, TrailerFits, ResArrived, FormError, FormLeft, MbapOk, HeaderOf;
    dev' := dev;
    var address, value;
    err, address, value := n.RecvTwoWords();
    n.BehindFooter();
    if err != ERROR_NONE {
      return;
    }
    if !n.ignored {
      err, dev' := AnswerWriteSingleRegister(n, cbs, dev, address, value);
    } else {
      err := RecvWrittenRes(n, address, value);
    }
  }

  method HandleWriteMultipleCoils<D>(n: Nmbs, cbs: Callbacks<D>, dev: D) returns (err: int, dev': D)
    requires Handling(n) && BodyArrived(n.transport, n.msg, RequestForm(15))
    requires !OverLimit(n.transport, n.msg, RequestForm(15)) ==>
      Overhears(n, BodyEnd(n.transport, n.msg, RequestForm(15)), TWO_WORDS)
    modifies n`idx, n`unitId, n`fc, n`transactionId, n`broadcast, n`ignored, n`complete, n`avail, n`msg, n`rx, n`tx
    modifies n.buf
    ensures n.Valid()
    ensures OverLimit(n.transport, old(n.msg), RequestForm(15)) ==>
      && err == ERROR_INVALID_REQUEST && dev' == dev && n.tx == old(n.tx)
      && n.rx == LineLeft(n.transport, old(n.msg), HeaderLength(n.transport) + RequestForm(15).fixed, old(n.rx))
    ensures !OverLimit(n.transport, old(n.msg), RequestForm(15)) ==>
      var m, h := old(n.msg), HeaderLength(n.transport);
      var end := BodyEnd(n.transport, m, RequestForm(15));
      if !TrailerFits(n.transport, n.crc, m, end) then
        && err == ERROR_CRC && dev' == dev && n.tx == old(n.tx)
        && n.rx == LineLeft(n.transport, m, end + TrailerLength(n.transport), old(n.rx))
      else if !old(n.ignored) then
        var (o, d) := ServeWriteCoils(cbs, dev, old(n.unitId), old(n.broadcast), WordAt(m, h), WordAt(m, h + 2),
                                      m[h + 5..end]);
        && err == ERROR_NONE && dev' == d
        && n.tx == old(n.tx) + Emitted(n.transport, n.crc, old(n.Head()), o)
        && n.rx == LineLeft(n.transport, m, end + TrailerLength(n.transport), old(n.rx))
      else
        var rest := m[end + 2..];
        && dev' == dev && n.tx == old(n.tx)
        && err == WrittenError(RTU, n.crc, old(n.Head()), rest, WordAt(m, h), WordAt(m, h + 2))
        && n.rx == FormLeft(RTU, n.crc, old(n.Head()), rest, TWO_WORDS)
  {
    hide Nmbs.Receiving, ServeWriteCoils, Emitted, TrailerFits, ResArrived, FormError, FormLeft, MbapOk, HeaderOf;
    dev' := dev;
    var address, quantity, coilsBytes;
    err, address, quantity, coilsBytes := RecvCountedWrite(n);
    if err != ERROR_NONE {
      return;
    }
    n.BehindFooter();
    if coilsBytes > 246 {
      return ERROR_INVALID_REQUEST, dev;
    }
    err := n.Recv(coilsBytes);
    if err != ERROR_NONE {
      return;
    }
    var coils := new byte[250](i => 0);
    err := GetBytesThenFooter(n, coilsBytes, coils);
    if err != ERROR_NONE {
      return;
    }
    if !n.ignored {
      err, dev' := AnswerWriteMultipleCoils(n, cbs, dev, address, quantity, coils[..coilsBytes]);
    } else {
      err := RecvWrittenRes(n, address, quantity);
    }
  }

  /** Address, quantity and byte count. */
  method RecvCountedWrite(n: Nmbs) returns (err: int, address: u16, quantity: u16, count: byte)
    requires n.InBody() && n.idx == HeaderLength(n.transport) && n.idx + 5 <= |n.msg|
    modifies n`idx, n`rx, n`avail, n.buf
    ensures n.Valid() && err == ERROR_NONE && n.InBody() && n.idx == old(n.idx) + 5
    ensures address == WordAt(n.msg, old(n.idx)) && quantity == WordAt(n.msg, old(n.idx) + 2)
    ensures count == n.msg[old(n.idx) + 4]
    ensures n.transport.TCP? ==> n.rx == old(n.rx)
  {
    hide Nmbs.Receiving;
    address, quantity, count := 0, 0, 0;
    err := n.Recv(5);
    if err != ERROR_NONE {
      return;
    }
    address := n.Get2();
    quantity := n.Get2();
    count := n.Get1();
  }

  /** A whole request with an even byte count within its limit, which is tested only behind the read. */
  ghost predicate WriteRegistersArrived(t: Transport, m: seq<byte>) {
    && BodyArrived(t, m, RequestForm(16))
    && !OverLimit(t, m, RequestForm(16))
    && m[HeaderLength(t) + 4] % 2 == 0
  }

  method HandleWriteMultipleRegisters<D>(n: Nmbs, cbs: Callbacks<D>, dev: D) returns (err: int, dev': D)
    requires Handling(n) && WriteRegistersArrived(n.transport, n.msg)
    requires Overhears(n, BodyEnd(n.transport, n.msg, RequestForm(16)), TWO_WORDS)
    modifies n`idx, n`unitId, n`fc, n`transactionId, n`broadcast, n`ignored, n`complete, n`avail, n`msg, n`rx, n`tx
    modifies n.buf
    ensures n.Valid()
    ensures var m, h := old(n.msg), HeaderLength(n.transport);
      var end := BodyEnd(n.transport, m, RequestForm(16));
      if !TrailerFits(n.transport, n.crc, m, end) then
        && err == ERROR_CRC && dev' == dev && n.tx == old(n.tx)
        && n.rx == LineLeft(n.transport, m, end + TrailerLength(n.transport), old(n.rx))
      else if !old(n.ignored) then
        var (o, d) := ServeWriteRegisters(cbs, dev, old(n.unitId), old(n.broadcast), WordAt(m, h), WordAt(m, h + 2),
                                          m[h + 5..end]);
        && err == ERROR_NONE && dev' == d
        && n.tx == old(n.tx) + Emitted(n.transport, n.crc, old(n.Head()), o)
        && n.rx == LineLeft(n.transport, m, end + TrailerLength(n.transport), old(n.rx))
      else
        var rest := m[end + 2..];
        && dev' == dev && n.tx == old(n.tx)
        && err == WrittenError(RTU, n.crc, old(n.Head()), rest, WordAt(m, h), WordAt(m, h + 2))
        && n.rx == FormLeft(RTU, n.crc, old(n.Head()), rest, TWO_WORDS)
  {
    hide Nmbs.Receiving, ServeWriteRegisters, Emitted, TrailerFits, ResArrived, FormError, FormLeft;
    hide WordsOf, WordAt, MbapOk;
    dev' := dev;
    var address, quantity, registersBytes;
    err, address, quantity, registersBytes := RecvCountedWrite(n);
    if err != ERROR_NONE {
      return;
    }
    err := n.Recv(registersBytes);
    if err != ERROR_NONE {
      return;
    }
    if registersBytes > 246 {
      return ERROR_INVALID_REQUEST, dev;
    }
    var registers := new u16[0x007B](i => 0);
    ghost var bytes := n.msg[n.idx..n.idx + registersBytes];
    err := GetRegistersThenFooter(n, registersBytes, registers);
    if err != ERROR_NONE {
      return;
    }
    if !n.ignored {
      err, dev' := AnswerWriteMultipleRegisters(n, cbs, dev, address, quantity, registersBytes,
                                                registers[..registersBytes / 2], bytes);
    } else {
      err := RecvWrittenRes(n, address, quantity);
    }
  }

  ghost predicate ReadWriteArrived(t: Transport, m: seq<byte>) {
    BodyArrived(t, m, RequestForm(23)) && m[HeaderLength(t) + 8] % 2 == 0
  }

  /** Two addresses with their quantities, and the byte count. */
  method RecvReadWrite(n: Nmbs)
    returns (err: int, readAddress: u16, readQuantity: u16, writeAddress: u16, writeQuantity: u16, count: byte)
    requires n.InBody() && n.idx == HeaderLength(n.transport) && n.idx + 9 <= |n.msg|
    modifies n`idx, n`rx, n`avail, n.buf
    ensures n.Valid() && err == ERROR_NONE && n.InBody() && n.idx == old(n.idx) + 9
    ensures readAddress == WordAt(n.msg, old(n.idx)) && readQuantity == WordAt(n.msg, old(n.idx) + 2)
    ensures writeAddress == WordAt(n.msg, old(n.idx) + 4) && writeQuantity == WordAt(n.msg, old(n.idx) + 6)
    ensures count == n.msg[old(n.idx) + 8]
    ensures n.transport.TCP? ==> n.rx == old(n.rx)
  {
    hide Nmbs.Receiving;
    readAddress, readQuantity, writeAddress, writeQuantity, count := 0, 0, 0, 0, 0;
    err := n.Recv(9);
    if err != ERROR_NONE {
      return;
    }
    readAddress := n.Get2();
    readQuantity := n.Get2();
    writeAddress := n.Get2();
    writeQuantity := n.Get2();
    count := n.Get1();
  }

  method HandleReadWriteRegisters<D>(n: Nmbs, cbs: Callbacks<D>, dev: D) returns (err: int, dev': D)
    requires Handling(n) && ReadWriteArrived(n.transport, n.msg) && !n.ignored
    modifies n`idx, n`fc, n`tx, n`rx, n`avail, n.buf
    ensures n.Valid()
    ensures OverLimit(n.transport, n.msg, RequestForm(23)) ==>
      && err == ERROR_INVALID_REQUEST && dev' == dev && n.tx == old(n.tx)
      && n.rx == LineLeft(n.transport, n.msg, HeaderLength(n.transport) + RequestForm(23).fixed, old(n.rx))
    ensures !OverLimit(n.transport, n.msg, RequestForm(23)) ==>
      var m, h := n.msg, HeaderLength(n.transport);
      var end := BodyEnd(n.transport, m, RequestForm(23));
      if !TrailerFits(n.transport, n.crc, m, end) then
        && err == ERROR_CRC && dev' == dev && n.tx == old(n.tx)
        && n.rx == LineLeft(n.transport, m, end + TrailerLength(n.transport), old(n.rx))
      else
        var (o, d) := ServeReadWrite(cbs, dev, n.unitId, n.broadcast, WordAt(m, h), WordAt(m, h + 2),
                                     WordAt(m, h + 4), WordAt(m, h + 6), m[h + 9..end]);
        && err == ERROR_NONE && dev' == d
        && n.tx == old(n.tx) + Emitted(n.transport, n.crc, old(n.Head()), o)
        && n.rx == LineLeft(n.transport, m, end + TrailerLength(n.transport), old(n.rx))
  {
    hide Nmbs.Receiving, ServeReadWrite, Emitted, TrailerFits, WordsOf, WordAt;
    dev' := dev;
    var readAddress, readQuantity, writeAddress, writeQuantity, byteCountWrite;
    err, readAddress, readQuantity, writeAddress, writeQuantity, byteCountWrite := RecvReadWrite(n);
    if err != ERROR_NONE {
      return;
    }
    n.BehindFooter();
    if byteCountWrite > 242 {
      return ERROR_INVALID_REQUEST, dev;
    }
    err := n.Recv(byteCountWrite);
    if err != ERROR_NONE {
      return;
    }
    var registers := new u16[byteCountWrite / 2](i => 0);
    ghost var bytes := n.msg[n.idx..n.idx + byteCountWrite];
    err := GetRegistersThenFooter(n, byteCountWrite, registers);
    if err != ERROR_NONE {
      return;
    }
    err, dev' := AnswerReadWriteRegisters(n, cbs, dev, readAddress, readQuantity, writeAddress, writeQuantity,
                                          byteCountWrite, registers[..], bytes);
  }
}
