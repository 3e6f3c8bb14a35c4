# Serial Modbus driver: a verified model

This project models three parts of the repository in Dafny and proves what they promise.

**The Modbus engine** (`serial_driver/nanomodbus.c`). `Engine.Nmbs` is the message state with its 260-byte buffer,
index and two byte queues for the line; the codec, both framings, the server's handlers and poll, and the client's
public functions are methods over it. The checksum is a parameter of the engine, as in the platform configuration;
`Crc` is the default one, and `CrcPolynomial` what it is by the standard. Callbacks are functions on a device of any
type, so that theorems about the server hold for every device and every callback behaviour.

- `Serving`, `FileRecords` and `DeviceIds` say what a server does with a request, as functions on values; the handler
  methods are proved to do exactly that (`Server`, `Handlers`, `FileServer`, `DeviceServer`), and `Polling.Poll` is
  proved equal to one function of the bytes on the line.
- `Wire` shows that a frame is read as what it was built from. With it the client methods (`Client`, `FileClient`,
  `DeviceClient`) get end-to-end contracts: between sending and receiving, the line carries the bytes over and the
  server polls.
- `Banks` and `Session` put plain registers and coils behind the callbacks: any run of calls is the same run of atomic
  operations. `FileSession` does this for files. `SharedLine` has many servers on one line, each with the bytes that it
  has not yet read; what one sends, all others hear.
- `AnswerChecks`, `Refusals` and `WireFormat` say what the specification functions come to in bytes and numbers: which
  lines a client accepts, which requests a server refuses and what it calls, and what stands in a frame, with
  numbers of their own instead of those functions' constants and layouts.
- `Guards` has the tests that the client functions make, `Failures` what the callbacks for a request come to: the
  client's contracts are stated with both. `Corruption` and `Sizes` are about damaged frames and the sizes of what is
  sent.

**The hash table** (`serial_control/ht.c`): `Fnv`, `Slots` and `HashTables`, a table with linear probing that agrees
with a finite map.

**The ring buffer** (`serial_driver/byte_fifo.c`): `Rings` is its state and each step under the lock, `ByteFifos` the
sequential functions, `FifoSystem` any number of calls whose locked regions interleave.

`Bits` defines the bitwise operators on natural numbers by their binary digits, for the checksum, the hash and the
bitfields.

Properties of the code worth knowing, beside those that its documentation promises:

- The counts that `byte_fifo_write` and `byte_fifo_read` return wrap above 32767 (`ByteFifos.ReportedCountIsExact`,
  `ByteFifos.ReportedReadIsExact`); the bytes themselves are right for any length.
- A request with an unknown function code is answered with an exception before its checksum has been read
  (`Polling.HandleReqFc`), so a damaged request with one is answered, and none else
  (`Corruption.DamagedRequestIsAnswered`).
- A broadcast read runs its callback and sends nothing; a broadcast that is refused is answered with an exception
  (`SharedLine.BroadcastIsAnsweredOnlyByExceptions`). The other stations take that for a request of its own, and
  lose the next one if it is already behind it (`SharedLine.NextRequestSurvives`).
- A station that overhears an exception flushes the line, so it too can lose a request that is already there
  (`SharedLine.ListenerKeepsStep`).
- `recv_read_registers_res` and `recv_read_discrete_res` fill the caller's array before they check the footer, and the
  former before it compares the quantity. Only errors in the header and a count over 250 leave the array as it was, and
  125 places, or 250, are required of it (`Responses.RecvReadRegistersRes`, `Client.WrongQuantityIsTaken`).
- `nmbs_read_device_identification_extended` writes behind the caller's list of ids, and succeeds, if the room in it is
  used up exactly where a page ends and objects are still to come: no buffers left mean to the receiving function that
  no strings are wanted (`DeviceClient.RoomDecides`, `DeviceClient.NoRoomOverruns`).
- The regular device identification objects end at id 7 in the handler, though ids above 6 are refused as a start
  (`DeviceIds.LastId`); with reserved ids unmapped this makes no difference.

## Model

| member | source | states |
|---|---|---|
| Crc.CrcCalc | serial_driver/nanomodbus.c:282-302 | The two nested loops over the register return the CRC-16 of the bytes, halves exchanged: the bitwise shift step, applied eight times per byte, from seed 0xFFFF. |
| Crc.StepLinear | serial_driver/nanomodbus.c:289-298 | A shift step of the register is linear over exclusive or. |
| Crc.TurnsInjective | serial_driver/nanomodbus.c:287-299 | Eight shifts, or any number, map different register values to different ones. |
| Crc.ZeroAfterTrailer | serial_driver/nanomodbus.c:301 | The only two trailer bytes that bring the register to zero are its low and then its high half: the exchange at return is exactly what big-endian sending needs. |
| Crc.AcceptedIffZeroResidue | serial_driver/nanomodbus.c:304-323 | The footer check accepts a frame if and only if the raw register over the whole frame, trailer included, is zero. |
| Crc.SealedIsAccepted | serial_driver/nanomodbus.c:430-443 | Every frame closed with its checksum has residue zero and passes the footer check. |
| Crc.TwoBytesSeparate | serial_driver/nanomodbus.c:285-299 | From one register value, different pairs of bytes lead to different register values. |
| Crc.DetectsErrorInTwoAdjacentBytes | serial_driver/nanomodbus.c:282-323 | Of two different frames of equal length that differ only within two adjacent bytes, checksum bytes included, at most one is accepted; any length, any position. |
| Crc.ChecksumParity | serial_driver/nanomodbus.c:282-302 | The parity of the checksum is the parity of all message bits. |
| Crc.DetectsOddNumberOfFlips | serial_driver/nanomodbus.c:282-323 | A frame that differs from an accepted one in an odd number of bits is not accepted. |
| CrcPolynomial.StepIsShifted | serial_driver/nanomodbus.c:289-298 | One shift step in numbers: half of an even register, half of an odd one with 0xA001 exchanged in. |
| CrcPolynomial.RegisterIsRemainder | serial_driver/nanomodbus.c:285-299 | The register over any bytes, reflected, differs by a multiple of x^16 + x^15 + x^2 + 1 from the polynomial of the message times x^16 with 0xFFFF added in front. |
| CrcPolynomial.ChecksumIsTheRemainder | serial_driver/nanomodbus.c:282-302 | For any message: of all numbers below 2^16 exactly one completes a multiple of that polynomial to the dividend, and it is the checksum with its halves exchanged back, reflected; seed, polynomial and bit order stand there as the standard has them. |
| CrcPolynomial.CheckValue | serial_driver/nanomodbus.c:282-302 | The nine characters "123456789" give 0x374B, the published check value with its halves exchanged. |
| Corruption.DamageShows | serial_driver/nanomodbus.c:304-323 | A frame as the engine sends it, once damaged in two adjacent bytes or in an odd number of bits, no longer fits its trailer. |
| Corruption.DamagedRequestIsDropped | serial_driver/nanomodbus.c:2025-2061 | Such a damaged request, if it has a known function code and its own length, ends the poll with the CRC error: no callback, no byte sent, device unchanged. |
| Corruption.DamagedRequestIsAnswered | serial_driver/nanomodbus.c:1991-1997 | At the server to which it seems to be addressed, a damaged request of its own length never runs a callback, and it goes unanswered if and only if its function code is a known one. |
| Corruption.OneBitIsAnswered | serial_driver/nanomodbus.c:1991-1997 | The failing input: one bit makes function code 6 into 7, and the server answers the damaged frame with an exception. |
| Corruption.DamagedAnswerIsRefused | serial_driver/nanomodbus.c:484-531 | Such a damaged answer of its own length is never taken for a good one, whichever byte was hit; if its header still looks right, as that of a reply or of an exception, the client returns the CRC error. |
| Bitfields.BitfieldRead | serial_driver/nanomodbus.h:98 | Reads the bit at a position, lowest bit of a byte first. |
| Bitfields.BitfieldWrite | serial_driver/nanomodbus.h:103-114 | Changes that one bit and no other, whichever value is written; setting and unsetting are its two branches. |
| Bitfields.BitfieldReset | serial_driver/nanomodbus.h:119 | Every bit reads as 0 afterwards. |
| Bitfields.PackedBit | serial_driver/nanomodbus.h:88-114 | Bit i of packed coils is coil i, and 0 behind the last coil. |
| Bitfields.UnpackPacked | serial_driver/nanomodbus.h:88-114 | Unpacking packed coils gives the coils back. |
| Bitfields.PackedByte | serial_driver/nanomodbus.h:88-114 | Eight coils make a byte with the weights 1, 2, 4 to 128, the first coil in the least significant place. |
| Words.WordsOfBeAll | serial_driver/nanomodbus.c:67-82 | Reading words from their big-endian bytes gives the words back. |
| ByteOrder.SwapRegs | serial_driver/nanomodbus.c:139-145 | In place, every register has its two bytes exchanged and nothing else in the array changes. |
| ByteOrder.HostSeesLine | serial_driver/nanomodbus.c:114-145 | What a little-endian host sees after the exchange is what the line carried. |
| ByteOrder.LineCarriesHost | serial_driver/nanomodbus.c:128-145 | What the host stored goes out most significant byte first after the exchange. |
| ByteOrder.ExchangedTwice | serial_driver/nanomodbus.c:114-145 | Exchanging twice restores the bytes. |
| Engine.Nmbs.Get1 | serial_driver/nanomodbus.c:40-45 | Takes the byte of the message that stands at the index and moves past it. |
| Engine.Nmbs.Get2 | serial_driver/nanomodbus.c:67-73 | Takes the big-endian word of the message at the index. |
| Engine.Nmbs.Put1 | serial_driver/nanomodbus.c:47-51 | Appends one byte to what the buffer holds. |
| Engine.Nmbs.Put2 | serial_driver/nanomodbus.c:75-82 | Appends a word, most significant byte first. |
| Engine.Nmbs.Set1 | serial_driver/nanomodbus.c:84-87 | Changes exactly one byte already put. |
| Engine.Nmbs.Set2 | serial_driver/nanomodbus.c:89-95 | Changes exactly two bytes already put, most significant first. |
| Engine.Nmbs.PutN | serial_driver/nanomodbus.c:106-110 | Appends a block of bytes. |
| Engine.Nmbs.PutRegisters | serial_driver/nanomodbus.c:2228-2240 | The client loops append all registers, each most significant byte first. |
| Engine.Nmbs.Recv | serial_driver/nanomodbus.c:147-169 | The next bytes of the message end up behind the index, or the call times out and has emptied the line when there are fewer; nothing is read when the message is complete. |
| Engine.Nmbs.Flush | serial_driver/nanomodbus.c:189-192 | Takes what is waiting on the line, but no more than 260 bytes of it. |
| Engine.Nmbs.MsgStateReq | serial_driver/nanomodbus.c:211-228 | A request gets the next transaction id, never 0, the destination address, and is a broadcast exactly on RTU to address 0. |
| Engine.Nmbs.RecvMsgFooter | serial_driver/nanomodbus.c:304-323 | Consumes the trailer and returns the CRC error exactly when the trailer is not the checksum of all bytes before it; on TCP it does nothing. |
| Engine.Nmbs.PutMsgHeader | serial_driver/nanomodbus.c:398-417 | The buffer holds exactly the RTU header or the MBAP header with its length field. |
| Engine.Nmbs.SetMsgHeaderSize | serial_driver/nanomodbus.c:419-428 | Patches the length field of a message already written, and nothing else. |
| Engine.Nmbs.SendMsg | serial_driver/nanomodbus.c:430-443 | What goes on the line is the message closed by its checksum on RTU, the message itself on TCP. |
| Engine.Nmbs.RecvMsgHeader | serial_driver/nanomodbus.c:325-395 | Reads the header of the message on the line; on TCP refuses a wrong protocol id or length field, having read exactly the message or the eight bytes, and takes exactly the announced bytes otherwise. |
| Engine.Nmbs.RecvReqHeader | serial_driver/nanomodbus.c:446-464 | In addition a request is a broadcast exactly for address 0 on RTU, and is ignored exactly for somebody else's address. |
| Engine.Nmbs.SendExceptionMsg | serial_driver/nanomodbus.c:472-482 | Sends the frame of the exception with the top bit of the function code set. |
| Engine.Nmbs.RecvResHeader | serial_driver/nanomodbus.c:484-531 | The one error, exception or success that an answer's header stands for, case by case, and what each leaves on the line. |
| Engine.HeaderWritesBack | serial_driver/nanomodbus.c:398-417 | A header read off the line and written again is byte for byte the same. |
| Engine.WithLengthIsHeader | serial_driver/nanomodbus.c:419-428 | A length patched afterwards gives the header that would have been written with the right length at once. |
| WireFormat.RtuFrame | serial_driver/nanomodbus.c:398-443 | The bytes of a frame off the line: unit id, function code, data, and the two bytes of the checksum over all of them. |
| WireFormat.TcpFrame | serial_driver/nanomodbus.c:398-443 | The bytes of a frame on TCP: transaction id, two zeros, the length of what follows, unit id, function code, data. |
| WireFormat.ExceptionFrame | serial_driver/nanomodbus.c:467-482 | The bytes of an exception on either transport, with 128 added to the function code. |
| WireFormat.TidsGoAround | serial_driver/nanomodbus.c:211-228 | The transaction ids of a client are 1 to 65535 and around: request n + 1 has the id 1 + n mod 65535. |
| Frames.LengthFieldCountsRest | serial_driver/nanomodbus.c:398-417 | On TCP the length field counts exactly the bytes that follow it. |
| Sizes.RequestsFit | serial_driver/nanomodbus.c:2075-2365 | Every client request that passes its guards has a PDU of at most 253 bytes, a frame of at most 260, and on TCP a length field that counts the bytes behind it. |
| Sizes.PagesFit | serial_driver/nanomodbus.c:1815-1901 | The same for every device identification response, whatever length stood in its header before it was patched. |
| Requests.ParseUndoesWrite | serial_driver/nanomodbus.c:929-1757 | For all ten kinds of request: wherever a request's bytes stand in a message, the server's parsing gives exactly that request back. |
| WireFormat.RequestBytes | serial_driver/nanomodbus.c:2075-2376 | Function code and data bytes of each of the ten kinds of request, byte by byte. |
| WireFormat.ReadRequestBytes | serial_driver/nanomodbus.c:929-1757 | The other way round: whatever the server reads as a request is written as exactly the bytes that it was read from. |
| WireFormat.ReadRecordBytes | serial_driver/nanomodbus.c:1416-1426 | The seven bytes of a sub-request to read; they are read back from any place in a request. |
| WireFormat.WriteRecordBytes | serial_driver/nanomodbus.c:1540-1549 | The bytes of a sub-request to write, each register high byte first. |
| WireFormat.GuardsInNumbers | serial_driver/nanomodbus.c:2075-2365 | A client sends exactly the bit and register requests that a server with all callbacks accepts, but for quantities 122 and 123 of FC 23; a record to read or write, and an object to read, exactly within the limits in numbers. |
| Wire.FrameIsMessage | serial_driver/nanomodbus.c:325-443 | A frame, followed by anything, is read as exactly the message it was built from: header, data, end and a trailer that fits. |
| Wire.PollOfFrame | serial_driver/nanomodbus.c:2025-2061 | A poll of a request frame, whatever follows it, serves exactly the framed request, sends exactly its answer and leaves exactly what follows. |
| Wire.ResponseHeader | serial_driver/nanomodbus.c:484-531 | Whatever the server emits, the client reads a reply as success and an exception as its code, and leaves what follows the exception. |
| Wire.CountedAnswer | serial_driver/nanomodbus.c:556-636 | An emitted counted reply is read as exactly its bytes; behind it, as behind an exception, the line holds exactly what follows. |
| Wire.WrittenAnswer | serial_driver/nanomodbus.c:638-745 | The echo of two words satisfies whoever sent these words, and leaves what follows. |
| Wire.BankAnswers | serial_driver/nanomodbus.c:929-1735 | Whatever the callbacks do, an addressed server answers bit and register requests with an exception 1 to 4 or with a reply of the right size and echo. |
| Responses.RecvWrittenRes | serial_driver/nanomodbus.c:638-745 | Returns the timeout, the CRC error, the exception, a mismatch or success exactly as the bytes on the line say, and leaves on it exactly what has not been read (the four recv_write_*_res functions are one method). |
| Responses.RecvReadDiscreteRes | serial_driver/nanomodbus.c:556-596 | The same. The bytes of the answer are at the beginning of the output, and the rest of it as before, whenever the header is right and the count within its limit, whatever the checksum says; else the output is as it was. |
| Responses.RecvReadRegistersRes | serial_driver/nanomodbus.c:598-636 | The same for registers: once the header is right and the count within its limit they are all in the output, whatever checksum and quantity turn out to be; else the output is as it was. |
| AnswerChecks.RtuHeader | serial_driver/nanomodbus.c:484-531 | The error for every line on RTU, by its first five bytes: -3, -7, -2, -5, 1 to 4 or none. |
| AnswerChecks.TcpHeader | serial_driver/nanomodbus.c:484-531 | The error for every line on TCP, by its first nine bytes: -3, -6 also for another transaction id, -2, 1 to 4 or none. |
| AnswerChecks.RtuException | serial_driver/nanomodbus.c:504-525 | An exception code is returned if and only if the line begins with the exception frame of the request's own header. |
| AnswerChecks.HeaderAccepted | serial_driver/nanomodbus.c:484-531 | The header passes if and only if unit id and function code, or on TCP transaction id, protocol id, length field and function code, are those of the request. |
| AnswerChecks.WrittenAccepted | serial_driver/nanomodbus.c:638-745 | Success if and only if the line begins with the answer that echoes exactly the address and the value or quantity that were sent. |
| AnswerChecks.WrittenRefused | serial_driver/nanomodbus.c:638-745 | Behind a right header any other echo is -2, a wrong checksum -5. |
| AnswerChecks.BitsAccepted | serial_driver/nanomodbus.c:556-596 | Success if and only if the line begins with the right header, a count of at most 250, as many bytes and their checksum. |
| AnswerChecks.RegistersAccepted | serial_driver/nanomodbus.c:598-636 | Success if and only if the line begins with the right answer of exactly as many registers as asked for. |
| AnswerChecks.RecordAccepted | serial_driver/nanomodbus.c:747-788 | Success if and only if the line begins with the right answer of both sizes, the reference type 6 and exactly as many registers as asked for. |
| AnswerChecks.EchoAccepted | serial_driver/nanomodbus.c:790-842 | Success if and only if the line begins with the answer that repeats the sub-request byte for byte. |
| AnswerChecks.PageAccepted | serial_driver/nanomodbus.c:844-925 | Success if and only if the line begins with the right header, 14, a code, a conformity and a continuation of those allowed, the number of objects and their bytes, and the caller has room. |
| AnswerChecks.ReachesExactly | serial_driver/nanomodbus.c:566-593 | The bytes of an answer reach the caller's array if and only if its header is right and its count at most 250. |
| AnswerChecks.LeftBehindWords | serial_driver/nanomodbus.c:638-664 | What stays on the line behind an answer to a write, for every line: on TCP what follows the message, on RTU what follows the eight bytes, an exception or the header. |
| AnswerChecks.LeftBehindCounted | serial_driver/nanomodbus.c:556-636 | The same for answers with a count; a count that is too large leaves what it counts. |
| AnswerChecks.ListenerAccepts | serial_driver/nanomodbus.c:991-994 | A station that is not addressed accepts, off the line, exactly the answers that the addressed one has to send to that request. |
| Client.WrongQuantityIsTaken | serial_driver/nanomodbus.c:619-632 | The failing input: an answer with two registers where one was asked for is refused, and both are in the output. |
| Server.AnswerReadDiscrete | serial_driver/nanomodbus.c:929-999 | Checks quantity and range, runs the callback once, and sends exactly the outcome of the specification. |
| Server.AnswerReadRegisters | serial_driver/nanomodbus.c:1001-1072 | The same for registers. |
| Server.AnswerWriteSingleCoil | serial_driver/nanomodbus.c:1102-1160 | Only 0 and 0xFF00 reach the callback; the reply repeats the request; a broadcast is silent. |
| Server.AnswerWriteSingleRegister | serial_driver/nanomodbus.c:1162-1216 | The reply repeats the request; a broadcast is silent. |
| Server.AnswerWriteMultipleCoils | serial_driver/nanomodbus.c:1218-1300 | Byte count and quantity must agree; the callback gets the bytes of the request, zeros behind them. |
| Server.AnswerWriteMultipleRegisters | serial_driver/nanomodbus.c:1302-1384 | Byte count and quantity must agree; the callback gets the registers of the request. |
| Server.AnswerReadWriteRegisters | serial_driver/nanomodbus.c:1625-1735 | All checks first, then the write callback, then the read callback on what the write left; a failed write does not read. |
| Handlers.HandleReadDiscrete | serial_driver/nanomodbus.c:929-999 | The whole handler: footer, answer or, for somebody else's request, exactly the other server's response consumed. |
| Handlers.HandleReadRegisters | serial_driver/nanomodbus.c:1001-1072 | The same for registers. |
| Handlers.HandleWriteSingleCoil | serial_driver/nanomodbus.c:1102-1160 | The same for one coil. |
| Handlers.HandleWriteSingleRegister | serial_driver/nanomodbus.c:1162-1216 | The same for one register. |
| Handlers.HandleWriteMultipleCoils | serial_driver/nanomodbus.c:1218-1300 | The same for coils. |
| Handlers.HandleWriteMultipleRegisters | serial_driver/nanomodbus.c:1302-1384 | The same for registers. |
| Handlers.HandleReadWriteRegisters | serial_driver/nanomodbus.c:1625-1735 | The same for FC 23, addressed or broadcast. |
| Polling.HandleReqFc | serial_driver/nanomodbus.c:1913-1997 | Every function code reaches its handler; an unknown one is answered with exception 1 unless the request was a broadcast or for another server. |
| Polling.Poll | serial_driver/nanomodbus.c:2025-2061 | A poll is one function of transport, address, callbacks, device and line: its result, the device behind it, the bytes sent and, in every case, the bytes left on the line. |
| WireFormat.RtuPoll | serial_driver/nanomodbus.c:1913-2061 | A poll of a station, for any line and byte by byte: which function codes are known, how many bytes a request may count, which two bytes must follow as checksum, errors -8 and -5, whom it serves, what it sends and what it leaves. |
| WireFormat.TcpPoll | serial_driver/nanomodbus.c:1913-2061 | The same on TCP: error -6 exactly for a protocol id other than 0 or a length field outside 2 to 255, and no broadcast. |
| Refusals.ServedExactly | serial_driver/nanomodbus.c:929-1384 | Every bit or register request, addressed or to all, before callbacks that remember their calls: exception 3 exactly for a bad quantity, byte count or coil value, 2 behind these for a range beyond 65535, 1 for missing callbacks, in the order of each handler and without a call; else the calls and the bytes of the reply. |
| Refusals.ReadWriteServedExactly | serial_driver/nanomodbus.c:1625-1735 | The same for FC 23: all checks before the first call, then the write, then the read unless the write failed or the request is for all. |
| Refusals.CallsAreLegal | serial_driver/nanomodbus.c:929-1735 | Every call has a quantity from 1 to its limit, a range that ends at 65535 at most, and for writes as many registers as its quantity says. |
| Refusals.ReadFileExactly | serial_driver/nanomodbus.c:1386-1503 | For any bytes of an FC 20 request: exception 3 exactly for a size that is no positive multiple of 7, 2 for a sub-request out of its limits, 1 without a callback; else one call for each sub-request up to the first that fails, and the bytes of the reply. |
| Refusals.WriteFileExactly | serial_driver/nanomodbus.c:1507-1621 | For any sub-requests of an FC 21 request: exception 3 for none at all, 2 if one of them is out of its limits, 1 without a callback; else one call for each up to the first that fails, and the request as the reply. |
| Refusals.IdentificationExactly | serial_driver/nanomodbus.c:1739-1909 | For any FC 43 request: exception 1, 3, 2 or that of the callbacks exactly when, and the first bytes of the reply, 14, the code and 131, with the end of each category in numbers. |
| Failures.FailuresAreReported | serial_driver/nanomodbus.c:956-963 | A guarded bit or register request gets an exception if and only if its callbacks are missing or fail: exceptions 1 to 4 as they are, any other error as 4. Otherwise it gets a reply or, sent to all, silence; the device is what the callbacks left. |
| Client.Connect | serial_driver/nanomodbus.c:2006-2073 | A client and a server at its destination address, as they are created, are connected: the state that every end-to-end contract starts from and keeps. |
| Client.Exchange | serial_driver/nanomodbus.c:2085-2096 | What the client sends, to one or to all, reaches the server, which serves exactly that request; its answer, and nothing else, is on the client's line afterwards. |
| Client.ReadDiscrete | serial_driver/nanomodbus.c:2075-2106 | End to end, for any device: guards refuse without sending; otherwise the client returns the verdict of the callback (an exception unchanged, other errors as 4) or, having asked all, the timeout; any failure leaves the output array untouched, and both ends are at a frame boundary. |
| Client.ReadRegisterValues | serial_driver/nanomodbus.c:2108-2139 | The same for registers. |
| Client.WriteSingleCoil | serial_driver/nanomodbus.c:2141-2161 | End to end: the client returns the verdict of the callback, or success at once when it writes to all; the device is what the callback left, both ends at a frame boundary. |
| Client.WriteSingleRegister | serial_driver/nanomodbus.c:2163-2181 | The same for one register. |
| Client.WriteMultipleCoils | serial_driver/nanomodbus.c:2183-2216 | The same for coils, with the guards. |
| Client.WriteMultipleRegisters | serial_driver/nanomodbus.c:2218-2251 | The same for registers, with the guards. |
| Client.ReadWriteRegisters | serial_driver/nanomodbus.c:2318-2365 | The same for FC 23. |
| Banks.BankServes | serial_driver/nanomodbus.c:929-1735 | With a plain bank behind the callbacks, serving the request of an operation is the atomic operation, and decoding the reply gives the operation's answer. |
| Session.Call | serial_driver/nanomodbus.c:2075-2365 | One client call against the server is one atomic operation on the bank. |
| Session.RunCalls | serial_driver/nanomodbus.c:2075-2365 | Every finite run of client calls, FC 1, 3, 5, 6, 15, 16 and 23, on RTU or TCP, gives the answers and the bank of the same run of atomic operations. |
| Banks.LastWriteWins | serial_driver/nanomodbus.c:1102-1384 | After any run every register and coil holds the last value written to it, or its first one; addresses never written are unchanged. |
| Banks.ReadsSeeLastWrites | serial_driver/nanomodbus.c:1625-1735 | Every read of a run returns, address by address, the last values written before it; FC 23 sees its own write. |
| Banks.RefusedExactly | serial_driver/nanomodbus.c:2075-2365 | A call is refused with -1, and changes nothing, exactly outside of 1 to 2000, 125, 1968, 123 or 121 places that end at 65535 at most. |
| SharedLine.ListenerKeepsStep | serial_driver/nanomodbus.c:991-994 | A station that is not addressed consumes exactly the request and the answer, runs no callback and sends nothing. What follows a reply is left for the next poll; behind an exception the poll flushes, so what follows survives if and only if the answer was a reply or nothing follows. |
| SharedLine.NobodyAnswers | serial_driver/nanomodbus.c:2051-2055 | A request that nobody answers ends in a timeout at the others, with nothing left over and nothing flushed. |
| SharedLine.BroadcastIsAnsweredOnlyByExceptions | serial_driver/nanomodbus.c:1117-1150 | Any of the eight requests, sent to all, is never replied to; it is met with silence if and only if its values are in order and its callback exists and succeeds, and else with an exception. |
| SharedLine.RefusalIsFlushed | serial_driver/nanomodbus.c:1991-1997 | A station takes another one's refusal of a broadcast for a broadcast with an unknown function code: it sends nothing, and flushes what is behind it. |
| SharedLine.StationStep | serial_driver/nanomodbus.c:446-464 | In any transaction from a frame boundary each station does to its device what the transaction intends for it, sends only its own answer and reads all that it hears. |
| SharedLine.TransactionAsIntended | serial_driver/nanomodbus.c:2025-2061 | Behind a whole transaction every device is as intended, and what waits on a station's line is exactly what the others have sent to refuse a broadcast. |
| SharedLine.NextRequestSurvives | serial_driver/nanomodbus.c:1991-1993 | The request behind a broadcast, with no poll in between, is answered by the station for which it is if and only if all other stations have accepted the broadcast; else its poll flushes the request and nobody is told. |
| SharedLine.RefusalLosesRequest | serial_driver/nanomodbus.c:1991-1993 | The failing input: one station without callbacks refuses a broadcast, and a write to its neighbour is lost. |
| SharedLine.PollingClears | serial_driver/nanomodbus.c:189-192 | One more poll takes the refusals off a station's line if and only if they are at most 262 bytes, two for the header and one flush. |
| SharedLine.RefusedStep | serial_driver/nanomodbus.c:1991-1993 | A broadcast that some refuse, with one poll more: all stations are as intended and at a frame boundary if and only if no station hears more than 52 refusals. |
| SharedLine.RunAsIntended | serial_driver/nanomodbus.c:2025-2061 | At every moment of a run in which a poll follows every refused broadcast, any number of stations with distinct nonzero addresses are as if only their own requests and the broadcasts existed; whenever a request is sent, and in the end unless the last event was a broadcast, all of them are at a frame boundary. |
| SharedLine.RunSendsAsIntended | serial_driver/nanomodbus.c:2025-2061 | At every event of such a run every station sends exactly the answer intended of it, or its refusal of a broadcast, and else nothing. |
| SharedLine.SettledRunsExist | serial_driver/nanomodbus.c:2025-2061 | In such a run every poll finds a line that it is defined on, so that the run can be made. |
| FileRecords.PartsSizeIsLength | serial_driver/nanomodbus.c:1416-1488 | The response size summed up from the sub-requests is the length of the sub-responses put together. |
| FileRecords.WriteSubsUndo | serial_driver/nanomodbus.c:1540-1563 | Any sub-requests are read back from their bytes as they were. |
| FileServer.PutReadParts | serial_driver/nanomodbus.c:1463-1488 | One callback per sub-request up to the first failure, each with its registers exchanged into line order. |
| FileServer.HandleReadFileRecord | serial_driver/nanomodbus.c:1386-1503 | The whole FC 20 handler sends exactly the specified outcome. |
| FileServer.CheckAll | serial_driver/nanomodbus.c:1533-1566 | The first pass moves only the index and says exactly whether all sub-requests are legal. |
| FileServer.CallInHostOrder | serial_driver/nanomodbus.c:1579-1593 | The callback sees host order; after a success the buffer is byte for byte what it was. |
| FileServer.WriteEach | serial_driver/nanomodbus.c:1570-1601 | The second pass makes one callback per sub-request, in order, up to the first that fails. |
| FileServer.HandleWriteFileRecord | serial_driver/nanomodbus.c:1507-1621 | The whole FC 21 handler sends exactly the specified outcome. |
| FileSession.CheckedBeforeExecuted | serial_driver/nanomodbus.c:1507-1621 | Any sub-requests on the line, whatever follows: an illegal one means no callback at all and exception 2; otherwise the callbacks run, and when all succeed the answer is byte for byte the request; what follows is left. |
| FileSession.CalledOncePerSub | serial_driver/nanomodbus.c:1570-1601 | A device that only remembers its calls remembers exactly the sub-requests, once each, in order and with their registers. |
| FileResponses.RecvReadFileRecordRes | serial_driver/nanomodbus.c:747-788 | Error, exception or success as the bytes say; the registers are written only on success, in host order, behind all checks. |
| FileResponses.RecvWriteFileRecordRes | serial_driver/nanomodbus.c:790-842 | Success exactly when the echo is the sub-request that was sent, registers included. |
| FileClient.PutRegs | serial_driver/nanomodbus.c:128-137 | The loop from the last register down appends all of them, most significant byte first. |
| FileClient.ReadFileRecord | serial_driver/nanomodbus.c:2253-2281 | End to end, for any device: a guarded call is exactly one call of the server's callback, whose registers the client gets through both exchanges, or whose failure it is told; having asked all, it times out. |
| FileClient.WriteFileRecord | serial_driver/nanomodbus.c:2283-2316 | The same for a write of up to 122 registers, to one or to all: one callback with the client's registers, and its verdict. |
| FileSession.RunFileCalls | serial_driver/nanomodbus.c:2253-2316 | Every finite run of file record calls does what the same run of atomic operations on plain files does. |
| FileSession.WriteThenRead | serial_driver/nanomodbus.c:2253-2316 | Writing a record and reading it back gives the same registers. |
| FileSession.LastFileWriteWins | serial_driver/nanomodbus.c:2253-2316 | After any run every register of a file holds the last value written to it; no file appears or disappears. |
| FileSession.FileRefusedExactly | serial_driver/nanomodbus.c:2253-2316 | A call is refused with -1 exactly for file 0, a record above 9999, and more than 124 registers to read or 122 to write; with 2 otherwise if there is no such file; a refused call changes nothing. |
| DeviceIds.PageFits | serial_driver/nanomodbus.c:1827-1897 | A page takes at most 246 bytes of objects. |
| DeviceIds.NoFailure | serial_driver/nanomodbus.c:1857-1874 | The first failure of a range is none if and only if all its strings can be read and no basic id is missing. |
| DeviceIds.PageThenRest | serial_driver/nanomodbus.c:1827-1897 | For any table: a page and all objects from its next id on are all objects from its own id on; the next id is larger and the page not empty, because the first object of a page always fits; a page fails, or leaves the failure to the rest, exactly when there is one. |
| DeviceIds.PagingIsComplete | serial_driver/nanomodbus.c:1827-1897 | If the table fails nowhere in the category, following the pages delivers every mapped object in ascending order, each exactly once; only the last page can be empty. |
| DeviceIds.ObjectsBetweenAreTheMapped | serial_driver/nanomodbus.c:1827-1897 | The objects between two ids are exactly the mapped ones, ascending, with their strings. |
| DeviceServer.PutObjects | serial_driver/nanomodbus.c:1827-1897 | The loop writes exactly the objects of the specified page. |
| DeviceServer.HandleReadDeviceIdentification | serial_driver/nanomodbus.c:1739-1909 | The whole handler sends exactly the specified outcome, with count, next id and length patched in. |
| DeviceResponses.RecvReadDeviceIdentificationRes | serial_driver/nanomodbus.c:844-925 | Each string goes to the buffer of its id or of its turn, each id to the list; wrong fields, too few buffers and a bad checksum give their own errors, too few buffers without touching any. |
| DeviceClient.PageAnswer | serial_driver/nanomodbus.c:844-925 | A page on the line is read as that page, an exception as its code, and silence as the timeout. |
| DevicePaging.PageIsRange | serial_driver/nanomodbus.c:1827-1897 | A page holds exactly the mapped objects of a range of ids that is not empty. |
| DevicePaging.PageIsLongest | serial_driver/nanomodbus.c:1827-1897 | A page is the longest that fits: it ends behind the category or in front of a string that has no room any more, and fails exactly at the first id without an answer if all objects before it fit. |
| DevicePaging.FirstFailureExactly | serial_driver/nanomodbus.c:1857-1874 | The failure of a range is that of the first id that is not answered for: 4 for a basic id that is not mapped, else the code of its string. |
| DevicePaging.PlacedConcat | serial_driver/nanomodbus.c:910-921 | Two pages put into the buffers one after the other are all their objects put at once. |
| DeviceClient.RequestPage | serial_driver/nanomodbus.c:2376-2388 | One turn of the client's loops, with any table and any number of buffers: the page that the server was asked for, without its strings if there is no buffer, or its exception, the timeout or the refusal of a page that is too large, and untouched buffers. |
| DeviceClient.ReadDeviceIdentificationBasic | serial_driver/nanomodbus.c:2367-2402 | For any table and callbacks: the result is why the server refuses, the failure of the first id that the table cannot answer for, or success; then the three buffers hold the three strings, whatever pages they came in. The loop ends. |
| DeviceClient.ReadDeviceIdentificationRegular | serial_driver/nanomodbus.c:2404-2439 | The same for 3 to 6: every mapped string is in its buffer and the other buffers are untouched; where nothing fails, the result is the invalid-response error if and only if none is mapped. |
| DeviceClient.ReadDeviceIdentificationExtended | serial_driver/nanomodbus.c:2441-2476 | All extended objects from the start id on arrive in ascending order, ids and strings, and their number; a refusal, a failure or a page too large for what is left is told as it is, page by page. The loop ends, also when the room that is left wraps. |
| DeviceClient.RoomDecides | serial_driver/nanomodbus.c:879-884 | If the table fails nowhere, the call is refused if and only if there are more objects than room and the room is never used up exactly in front of a page with objects; it succeeds with more objects than room, overrunning the list of ids, if and only if it is. |
| DeviceClient.NoRoomOverruns | serial_driver/nanomodbus.c:907-908 | A failing input: no room and one extended object, which is accepted all the same. |
| DeviceClient.OneRoomOverruns | serial_driver/nanomodbus.c:2463 | Another one: room for one, and two strings of 127 characters, which come in two pages. |
| DeviceClient.ReadDeviceIdentification | serial_driver/nanomodbus.c:2478-2494 | One object by its id: its string, or exactly the error that its table stands for. |
| DeviceClient.RangeToldExactly | serial_driver/nanomodbus.c:2367-2439 | Asking for a category succeeds if and only if callbacks are there, the call is not for all, and the map and every string of the range can be read, no basic one missing; -3 exactly to all, else an exception. |
| DeviceClient.ObjectToldExactly | serial_driver/nanomodbus.c:2478-2494 | Asking for one object is refused with -1 exactly for ids 7 to 127, and succeeds exactly if the table has and shows its string. |
| Rings.Ring.StoreAppends | serial_driver/byte_fifo.c:57-67 | A store under the lock keeps write_index = (read_index + n_elements) mod size and puts the byte behind all resident ones. |
| Rings.Ring.DropTakesOldest | serial_driver/byte_fifo.c:68-74 | A drop, or a read, keeps the invariant and takes exactly the oldest byte. |
| ByteFifos.ByteFifo.Reset | serial_driver/byte_fifo.c:19-33 | Empties the ring; refuses one without storage. |
| ByteFifos.ByteFifo.IsAvailable | serial_driver/byte_fifo.c:35-44 | Says whether a byte fits without dropping one. |
| ByteFifos.ByteFifo.WriteRegion | serial_driver/byte_fifo.c:56-75 | One locked region of a write is one store or one drop. |
| ByteFifos.ByteFifo.ReadRegion | serial_driver/byte_fifo.c:90-104 | One locked region of a read is one drop of the byte returned, or nothing when empty. |
| ByteFifos.ByteFifo.Write | serial_driver/byte_fifo.c:46-79 | Leaves the last size bytes of old contents and input, and returns how many were dropped as its int16_t holds it; the loop ends. |
| ByteFifos.ByteFifo.Read | serial_driver/byte_fifo.c:81-108 | Returns and removes the longest available prefix, in order, and touches nothing else of the buffer. |
| ByteFifos.ReportedCountIsExact | serial_driver/byte_fifo.c:78 | The number of dropped bytes survives the int16_t return if and only if old contents and input together are at most size + 32767 bytes. |
| ByteFifos.ReportedReadIsExact | serial_driver/byte_fifo.c:107 | The number of bytes read survives it if and only if not both the resident bytes and the bytes asked for are more than 32767. |
| ByteFifos.CountsWrap | serial_driver/byte_fifo.c:78 | The failing inputs: 32769 bytes written to a ring of one, or 32768 read, are reported as -32768. |
| ByteFifos.SplitWrite | serial_driver/byte_fifo.c:46-79 | Writing in two pieces leaves and drops the same bytes as writing in one. |
| ByteFifos.WriteInPieces | serial_driver/byte_fifo.c:46-79 | The same for any number of pieces. |
| FifoSystem.NextKeepsInv | serial_driver/byte_fifo.c:46-108 | Every locked region of any reader, writer or reset, in the middle of any other calls, keeps the system invariant. |
| FifoSystem.RunKeepsInv | serial_driver/byte_fifo.c:19-108 | The invariant holds after every step of every run of any number of calls. |
| FifoSystem.NothingInvented | serial_driver/byte_fifo.c:46-108 | At every moment the bytes stored are the bytes removed, in removal order, followed by the resident bytes. |
| FifoSystem.EveryCallHasItsShare | serial_driver/byte_fifo.c:46-108 | A reader holds exactly the bytes delivered to it, a writer has stored exactly its first bytes and counted exactly its drops. |
| FifoSystem.ReaderTurn | serial_driver/byte_fifo.c:88-104 | A turn of an unfinished reader gives it exactly the oldest byte; it ends early exactly on an empty ring. |
| FifoSystem.WriterTurn | serial_driver/byte_fifo.c:54-76 | A turn of an unfinished writer drops the oldest byte exactly when the ring is full, and else stores its next one. |
| FifoSystem.ResetTurn | serial_driver/byte_fifo.c:19-33 | A turn of a reset leaves nothing resident. |
| FifoSystem.ReadAlone | serial_driver/byte_fifo.c:81-108 | All turns of a reader without others in between end, with the longest prefix that was there and asked for, as the sequential read does. |
| FifoSystem.WriteAlone | serial_driver/byte_fifo.c:46-79 | All turns of a writer without others in between end, with the last bytes of contents and input in the ring and the others counted, as the sequential write does. |
| FifoSystem.ResetAlone | serial_driver/byte_fifo.c:19-33 | A reset without others in between leaves the ring empty. |
| Fnv.HashKey | serial_control/ht.c:88-97 | The loop computes the 64-bit FNV-1a hash. |
| Fnv.MixInjective | serial_control/ht.c:93-94 | One step separates register values with the same character and characters with the same register value. |
| Fnv.OneCharacterSeparates | serial_control/ht.c:83-97 | Keys of one length that differ in exactly one character have different hashes. |
| Fnv.KnownHashes | serial_control/ht.c:83-97 | The published 64-bit FNV-1a hashes of no characters, of "a" and of "foobar". |
| Slots.HomeIsRemainder | serial_control/ht.c:101-103 | Masking with capacity - 1 is the remainder by the capacity. |
| Slots.RunBound | serial_control/ht.c:133-148 | A cyclic run of full slots is no longer than the number of full slots, also across the end of the array. |
| Slots.SearchGoesOn | serial_control/ht.c:105-120 | A search for a key that is there cannot stop before it at an empty slot. |
| Slots.InsertRepresents | serial_control/ht.c:150-162 | Filling the first empty slot of a key's chain keeps all probe chains and unique keys, and adds exactly that binding. |
| Slots.UpdateRepresents | serial_control/ht.c:135-140 | Changing a value in place keeps chains and keys and changes exactly that binding. |
| Slots.EachBindingOnce | serial_control/ht.c:226-252 | The full slots from left to right are the bindings of the map, each exactly once. |
| HashTables.SetEntry | serial_control/ht.c:125-163 | Finds or inserts within length + 1 probes; a failed copy of the key changes nothing; an existing key keeps its stored key object. |
| HashTables.Ht.Get | serial_control/ht.c:99-122 | Returns exactly what the map holds for the key, within length + 1 probes. |
| HashTables.Ht.constructor | serial_control/ht.c:47-68 | A new table is empty and has 16 places. |
| HashTables.DoubledSizeT | serial_control/ht.c:170-174 | The overflow test of the doubled capacity is exact. |
| HashTables.Ht.Expand | serial_control/ht.c:167-197 | Twice the capacity, the same map with the same key objects; on overflow or failed allocation nothing changes. |
| HashTables.Ht.Set | serial_control/ht.c:199-219 | Adds or replaces exactly one binding or, when it fails, none; the capacity doubles exactly when the table was half full and the allocation works, and the table is at most half full. |
| HashTables.Ht.Length | serial_control/ht.c:221-224 | The size of the map. |
| HashTables.SetAll | serial_control/ht.c:199-219 | After any sequence of sets, with any allocation failing anywhere, each key's value is that of its last successful set, and there are no other keys. |
| HashTables.Hti.Next | serial_control/ht.c:234-252 | Each step yields the next full slot; the end comes exactly when none is left. |
| HashTables.Pass | serial_control/ht.c:226-252 | A whole pass meets each binding exactly once and nothing else, and stops. |

## Left out

- Polling.Poll: takes lines on which a whole message has arrived, or nothing; partial reads, timeouts within a message
  and transport errors are one outcome that `Engine.Nmbs.Recv` gives, and are not followed further.
- Engine.Nmbs.RecvMsgHeader: no MBAP length field of 255, for which the 260-byte buffer is too short.
- Session.RunCalls: calls for one server, since a client that writes to all is not told what came of it; no discrete
  inputs and input registers, which are the same two handlers with other callbacks. The end-to-end contracts of
  `Client.ReadDiscrete` to `Client.ReadWriteRegisters` cover both.
- Handlers.HandleWriteMultipleRegisters: byte counts up to 246 and even; an odd one leaves a byte behind in the buffer.
- Handlers.HandleReadWriteRegisters: byte counts that are even, and no listening for another server's answer, because
  the code then waits for the wrong shape of response.
- SharedLine.RunAsIntended: FC 1 to 6, 15 and 16, for which listening is defined; requests that keep to the server's
  limits. Everyone polls once in an event, and frames that several stations send at a time do not destroy each other.
- Responses.RecvReadRegistersRes: whole registers; an odd byte count is not followed.
- Responses.RecvWrittenRes: stands for the four functions that differ only in names.
- FileServer.HandleReadFileRecord: responses whose size fits a byte and the buffer.
- FileServer.HandleWriteFileRecord: sub-requests whose sizes add up to exactly the byte count, because the unsigned
  remainder would otherwise wrap; on TCP a length field that ends with them.
- FileResponses.RecvReadFileRecordRes: answers with one sub-response of whole registers whose two sizes agree, and a
  caller that passes an array.
- FileResponses.RecvWriteFileRecordRes: answers of one sub-request as long as its own length field says.
- ByteOrder.SwapRegs: the host is little-endian; alignment of registers in the buffer plays no part.
- DeviceResponses.RecvReadDeviceIdentificationRes: strings are values without NUL of at most 127 bytes; `strncpy` into
  a buffer that is too short, and the bytes it copies behind the string before it is terminated, are not modelled.
- DeviceClient.ReadDeviceIdentificationRegular: a table that does not map the reserved id 7, for which the client's
  list of places has none.
- DeviceClient.ReadDeviceIdentificationExtended: memory behind the caller's arrays. Where the code writes beyond the
  length that it was given, the arrays are longer than that and hold what is written.
- DeviceServer.HandleReadDeviceIdentification: requests for this server or all, with no listening for another
  server's pages; the map of object ids is a set, not a bitfield of 256 bits, and the table's callbacks change no
  device.
- Wire.PollOfFrame: data of at most 252 bytes, which every client function keeps to (`Sizes.RequestsFit`).
- FifoSystem.RunKeepsInv: arguments that are null, and the mutex itself beyond mutual exclusion of its regions.
- ByteFifos.ByteFifo.Write: the local `int` counters are unbounded.
- HashTables.Ht.Set: the `assert` on a null value is taken as compiled out; freeing memory, `ht_create` that fails and
  `ht_destroy`.
- Raw PDU functions, `nmbs_strerror`, debug output, the preprocessor switches, timeouts and the pointer checks of the
  creation functions: they add nothing to the properties above.
- The kernel module, the console programs and `read_serial`: device files and clocks, which are not part of this
  model; a reliable byte queue stands for the line.
