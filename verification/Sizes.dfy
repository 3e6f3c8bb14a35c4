/** What is sent fits: the message buffer, the largest PDU and the length field on TCP. */
module Sizes {
  import opened Words
  import opened Frames
  import Engine
  import Requests
  import Serving
  import Guards
  import opened FileRecords
  import DeviceIds
  import DeviceClient

  const MAX_PDU := 253

  /** The frame fits the buffer, the PDU the standard, and on TCP the length field counts exactly what follows it. */
  ghost predicate WellSized(t: Transport, crc: CrcFunction, h: Header, data: seq<byte>) {
    var f := Frame(t, crc, h, data);
    && 1 + |data| <= MAX_PDU
    && |f| == HeaderLength(t) + |data| + TrailerLength(t) <= BUFFER_SIZE
    && (t.TCP? ==> WordAt(f, 4) == |f| - 6 == 1 + (1 + |data|))
  }

  lemma FitsPduFitsFrame(t: Transport, crc: CrcFunction, h: Header, data: seq<byte>)
    requires 1 + |data| <= MAX_PDU
    ensures WellSized(t, crc, h, data)
  {
    if t.TCP? {
      LengthFieldCountsRest(crc, h, data);
    }
  }

  /** A request to write one record is as long as its record says. */
  lemma OneSubLength(bytes: seq<byte>)
    requires WriteSubs(bytes).Some? && |WriteSubs(bytes).value| == 1
    ensures |bytes| == 7 + 2 * |WriteSubs(bytes).value[0].registers|
  {
    hide WriteSubs, WordAt;
    NoSubs(bytes);
    FirstWriteSub(bytes);
    NoSubs(bytes[WriteSubSize(bytes)..]);
  }

  lemma NoSubs(bytes: seq<byte>)
    requires WriteSubs(bytes).Some?
    ensures WriteSubs(bytes).value == [] <==> bytes == []
  {}

  lemma RequestsFit(t: Transport, crc: CrcFunction, h: Header, r: Requests.Request)
    requires Guards.Guarded(r)
    ensures Requests.Countable(r) && WellSized(t, crc, h, Requests.RequestData(r))
  {
    if r.WriteFile? {
      OneSubLength(r.bytes);
    }
    FitsPduFitsFrame(t, crc, h, Requests.RequestData(r));
  }

  /** The length of a page is put into its header only when all objects are there; it is right all the same. */
  lemma PagesFit<D>(t: Transport, crc: CrcFunction, h: Header, cbs: Serving.Callbacks<D>, dev: D, code: byte,
                    objectId: byte)
    ensures var o := DeviceIds.ServeDeviceId(cbs, dev, false, DeviceIds.MEI_TYPE, code, objectId).0;
      o.Reply? ==>
        && WellSized(t, crc, h, o.data)
        && forall before: nat ::
             var patched := Engine.WithLength(t, HeaderBytes(t, h, before) + o.data, |o.data|);
             Sealed(t, crc, patched) == Frame(t, crc, h, o.data)
  {
    hide DeviceIds.ServeDeviceId, HeaderBytes, Engine.WithLength, Frame;
    DeviceClient.PageServed(cbs, dev, false, code, objectId);
    var o := DeviceIds.ServeDeviceId(cbs, dev, false, DeviceIds.MEI_TYPE, code, objectId).0;
    if o.Reply? {
      FitsPduFitsFrame(t, crc, h, o.data);
      forall before: nat
        ensures var patched := Engine.WithLength(t, HeaderBytes(t, h, before) + o.data, |o.data|);
          Sealed(t, crc, patched) == Frame(t, crc, h, o.data)
      {
        Engine.WithLengthIsHeader(t, h, o.data, before, |o.data|);
        SealedHeader(t, crc, h, o.data);
      }
    }
  }

  lemma SealedHeader(t: Transport, crc: CrcFunction, h: Header, data: seq<byte>)
    ensures Sealed(t, crc, HeaderBytes(t, h, |data|) + data) == Frame(t, crc, h, data)
  {}
}
