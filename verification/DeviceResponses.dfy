/** What a client makes of the answer to FC 43 / 14: one page of objects, put where the caller wants them. */
module DeviceResponses {
  import opened Words
  import opened Frames
  import opened Engine
  import opened Serving
  import opened DeviceIds

  /** No more pages follow. */
  const LAST_PAGE: byte := 0x7F

  // ----- the message

  /** The fields in front of the objects that have only some values. */
  predicate FieldsOk(m: seq<byte>, h: nat)
    requires |m| >= h + 6
  {
    && m[h] == MEI_TYPE
    && 1 <= m[h + 1] <= 4
    && (1 <= m[h + 2] <= 3 || 0x81 <= m[h + 2] <= 0x83)
    && (m[h + 3] == 0 || m[h + 3] == 0xFF)
  }

  function NextId(m: seq<byte>, h: nat): byte
    requires |m| >= h + 6
  {
    if m[h + 3] == 0 then LAST_PAGE else m[h + 4]
  }

  ghost function ObjectsEnd(t: Transport, objects: seq<Object>): nat {
    HeaderLength(t) + 6 + |AllObjectBytes(objects)|
  }

  /** The six bytes and, behind them, as many objects as the last of them says. */
  ghost predicate ObjectsArrived(t: Transport, m: seq<byte>, objects: seq<Object>) {
    var h := HeaderLength(t);
    && |m| >= h + 6
    && (FieldsOk(m, h) ==>
         && m[h + 5] == |objects|
         && |AllObjectBytes(objects)| <= PAGE_ROOM
         && |m| >= ObjectsEnd(t, objects) + TrailerLength(t)
         && m[h + 6..ObjectsEnd(t, objects)] == AllObjectBytes(objects))
  }

  ghost predicate PageArrived(t: Transport, crc: CrcFunction, req: Header, s: seq<byte>, objects: seq<Object>) {
    && ResHeaderArrived(t, req, s)
    && (ResHeaderError(t, crc, req, s) == ERROR_NONE ==> ObjectsArrived(t, Message(t, s), objects))
  }

  /** What comes of a message, for a caller with so many buffers; none at all mean that it does not want the strings. */
  ghost function BodyError(t: Transport, crc: CrcFunction, m: seq<byte>, objects: seq<Object>, room: byte): int
    requires ObjectsArrived(t, m, objects)
  {
    if !FieldsOk(m, HeaderLength(t)) then ERROR_INVALID_RESPONSE
    else if room != 0 && |objects| > room then ERROR_INVALID_ARGUMENT
    else if !TrailerFits(t, crc, m, ObjectsEnd(t, objects)) then ERROR_CRC
    else ERROR_NONE
  }

  ghost function PageError(t: Transport, crc: CrcFunction, req: Header, s: seq<byte>, objects: seq<Object>, room: byte)
    : int
    requires PageArrived(t, crc, req, s, objects)
  {
    var e := ResHeaderError(t, crc, req, s);
    if e != ERROR_NONE then e else BodyError(t, crc, Message(t, s), objects, room)
  }

  // ----- where the objects go

  /** The buffer of the k-th object of a page: by its id if there is an order, else the next free one. */
  function Slot(first: nat, order: seq<byte>, k: nat, id: byte): nat {
    if order == [] then first + k else if id < |order| then order[id] else 0
  }

  ghost predicate Placeable(first: nat, order: seq<byte>, objects: seq<Object>, count: nat) {
    forall k {:trigger objects[k]} :: 0 <= k < |objects| ==>
      (order != [] ==> objects[k].id < |order|) && Slot(first, order, k, objects[k].id) < count
  }

  ghost function Placed(buffers: seq<Text>, first: nat, order: seq<byte>, objects: seq<Object>): (r: seq<Text>)
    ensures |r| == |buffers|
  {
    if objects == [] then buffers
    else
      var k := |objects| - 1;
      var r, at := Placed(buffers, first, order, objects[..k]), Slot(first, order, k, objects[k].id);
      if at < |r| then r[at := objects[k].text] else r
  }

  ghost function PlacedIds(ids: seq<byte>, first: nat, objects: seq<Object>): (r: seq<byte>)
    requires first + |objects| <= |ids|
    ensures |r| == |ids|
  {
    ids[..first] + IdsOf(objects) + ids[first + |objects|..]
  }

  function IdsOf(objects: seq<Object>): (r: seq<byte>)
    ensures |r| == |objects|
  {
    seq(|objects|, i requires 0 <= i < |objects| => objects[i].id)
  }

  // ----- the methods

  lemma ObjectInBytes(objects: seq<Object>, k: nat)
    requires k < |objects|
    ensures var at := |AllObjectBytes(objects[..k])|;
      && 2 * k <= at && at + 2 + |objects[k].text| <= |AllObjectBytes(objects)|
      && |AllObjectBytes(objects[..k + 1])| == at + 2 + |objects[k].text|
      && AllObjectBytes(objects)[at..at + 2 + |objects[k].text|] == ObjectBytes(objects[k])
  {
    hide ObjectBytes;
    var front, back := objects[..k + 1], objects[k + 1..];
    assert front[..k] == objects[..k];
    assert objects == front + back;
    AllObjectBytesConcat(front, back);
    TwoBytesEach(objects[..k]);
    var at := |AllObjectBytes(objects[..k])|;
    assert AllObjectBytes(objects)[..|AllObjectBytes(front)|] == AllObjectBytes(front);
    assert AllObjectBytes(front)[at..] == ObjectBytes(objects[k]);
  }

  lemma {:induction false} TwoBytesEach(objects: seq<Object>)
    ensures |AllObjectBytes(objects)| >= 2 * |objects|
  {
    if objects != [] {
      TwoBytesEach(objects[..|objects| - 1]);
    }
  }

  /** One object off the line. */
  method GetObject(n: Nmbs, left: byte, ghost o: Object) returns (err: int, id: byte, text: seq<byte>)
    requires n.InBody() && |o.text| <= left && n.idx + 2 + |o.text| <= |n.msg| && n.idx + 2 + |o.text| <= BUFFER_SIZE
    requires n.msg[n.idx..n.idx + 2 + |o.text|] == ObjectBytes(o)
    modifies n`idx, n`avail, n`rx, n.buf
    ensures n.InBody() && n.idx == old(n.idx) + 2 + |o.text| && (n.transport.TCP? ==> n.rx == old(n.rx))
    ensures err == ERROR_NONE && id == o.id && text == o.text
  {
    hide Nmbs.Receiving;
    n.Bounds();
    id, text := 0, [];
    ghost var b := n.msg[n.idx..n.idx + 2 + |o.text|];
    assert b[0] == n.msg[n.idx] && b[1] == n.msg[n.idx + 1];
    assert b[2..] == n.msg[n.idx + 2..n.idx + 2 + |o.text|];
    err := n.Recv(2);
    if err != ERROR_NONE {
      return;
    }
    id := n.Get1();
    var objectLength := n.Get1();
    if objectLength > left {
      return ERROR_INVALID_RESPONSE, id, [];
    }
    err := n.Recv(objectLength);
    if err != ERROR_NONE {
      return;
    }
    var at := n.idx;
    n.DiscardN(objectLength);
    n.InBuffer(at, n.idx);
    text := n.buf[at..n.idx];
  }

  /** The objects of a page, each to its buffer and its id to the list of ids. */
  method GetObjects(n: Nmbs, room: byte, buffers: array<Text>, first: nat, order: seq<byte>, ids: array?<byte>,
                    ghost objects: seq<Object>, objectsCount: byte)
    returns (err: int)
    requires n.InBody() && n.idx == HeaderLength(n.transport) + 6
    requires objectsCount == |objects| && |AllObjectBytes(objects)| <= PAGE_ROOM
    requires |n.msg| >= ObjectsEnd(n.transport, objects)
    requires n.msg[n.idx..ObjectsEnd(n.transport, objects)] == AllObjectBytes(objects)
    requires room != 0 ==> Placeable(first, order, objects, buffers.Length)
    requires ids != null ==> ids != n.buf && first + |objects| <= ids.Length
    modifies n`idx, n`avail, n`rx, n.buf, buffers, ids
    ensures n.InBody() && n.idx == ObjectsEnd(n.transport, objects) && (n.transport.TCP? ==> n.rx == old(n.rx))
    ensures err == ERROR_NONE
    ensures buffers[..] == if room == 0 then old(buffers[..]) else Placed(old(buffers[..]), first, order, objects)
    ensures ids != null ==> ids[..] == PlacedIds(old(ids[..]), first, objects)
  {
    hide Nmbs.InBody, AllObjectBytes, ObjectBytes, Placed, PlacedIds, Placeable;
    ghost var from := n.idx;
    err := ERROR_NONE;
    var resSizeLeft: int := PAGE_ROOM;
    NothingPut(old(buffers[..]), first, order, if ids != null then ids[..] else []);
    assert objects[..0] == [];
    for i := 0 to objectsCount
      invariant n.InBody() && n.idx == from + |AllObjectBytes(objects[..i])| && (n.transport.TCP? ==> n.rx == old(n.rx))
      invariant resSizeLeft == PAGE_ROOM - 2 * i && err == ERROR_NONE
      invariant buffers[..] ==
        if room == 0 then old(buffers[..]) else Placed(old(buffers[..]), first, order, objects[..i])
      invariant ids != null ==> ids[..] == PlacedIds(old(ids[..]), first, objects[..i])
      modifies n`idx, n`avail, n`rx, n.buf, buffers, ids
    {
      ghost var o := objects[i];
      ObjectOnLine(n.msg, from, objects, i);
      resSizeLeft := resSizeLeft - 2;
      var id, text;
      err, id, text := GetObject(n, resSizeLeft, o);
      PlaceObject(room, buffers, first, order, ids, objects, i, id, text);
    }
    assert objects[..objectsCount] == objects;
  }

  lemma NothingPut(buffers: seq<Text>, first: nat, order: seq<byte>, ids: seq<byte>)
    ensures AllObjectBytes([]) == [] && Placed(buffers, first, order, []) == buffers
    ensures first <= |ids| ==> PlacedIds(ids, first, []) == ids
  {}

  lemma ObjectOnLine(m: seq<byte>, from: nat, objects: seq<Object>, k: nat)
    requires k < |objects| && from + |AllObjectBytes(objects)| <= |m|
    requires m[from..from + |AllObjectBytes(objects)|] == AllObjectBytes(objects)
    ensures var o, at := objects[k], |AllObjectBytes(objects[..k])|;
      && 2 * k <= at && at + 2 + |o.text| <= |AllObjectBytes(objects)|
      && |AllObjectBytes(objects[..k + 1])| == at + 2 + |o.text|
      && m[from + at..from + at + 2 + |o.text|] == ObjectBytes(o)
  {
    hide ObjectBytes;
    ObjectInBytes(objects, k);
    var bytes, n := AllObjectBytes(objects), 2 + |objects[k].text|;
    var at := |AllObjectBytes(objects[..k])|;
    SliceOfSlice(m, from, from + |bytes|, at, at + n);
  }

  /** The k-th object of a page put where it belongs. */
  method PlaceObject(room: byte, buffers: array<Text>, first: nat, order: seq<byte>, ids: array?<byte>,
                     ghost objects: seq<Object>, k: nat, id: byte, text: Text)
    requires k < |objects| && id == objects[k].id && text == objects[k].text
    requires room != 0 ==> Placeable(first, order, objects, buffers.Length)
    requires ids != null ==> first + |objects| <= ids.Length
    modifies buffers, ids
    ensures forall before: seq<Text> | room != 0 && old(buffers[..]) == Placed(before, first, order, objects[..k]) ::
      buffers[..] == Placed(before, first, order, objects[..k + 1])
    ensures room == 0 ==> buffers[..] == old(buffers[..])
    ensures ids != null ==> forall before: seq<byte> |
      |before| == ids.Length && old(ids[..]) == PlacedIds(before, first, objects[..k]) ::
      ids[..] == PlacedIds(before, first, objects[..k + 1])
  {
    assert objects[..k + 1][..k] == objects[..k];
    if ids != null {
      ids[first + k] := id;
    }
    if room != 0 {
      assert objects[k] == objects[..k + 1][k];
      var bufIndex := Slot(first, order, k, id);
      buffers[bufIndex] := text;
    }
  }

  method RecvReadDeviceIdentificationRes(n: Nmbs, room: byte, buffers: array<Text>, first: nat, order: seq<byte>,
                                         ids: array?<byte>, ghost objects: seq<Object>)
    returns (err: int, nextObjectId: byte, objectsCount: byte)
    requires n.Valid() && ids != n.buf
    requires PageArrived(n.transport, n.crc, n.Head(), n.rx, objects)
    requires room != 0 && |objects| <= room ==> Placeable(first, order, objects, buffers.Length)
    requires ids != null && (room == 0 || |objects| <= room) ==> first + |objects| <= ids.Length
    modifies n`idx, n`unitId, n`fc, n`transactionId, n`broadcast, n`ignored, n`complete, n`avail, n`msg, n`rx, n.buf
    modifies buffers, ids
    ensures n.Valid()
    ensures err == PageError(n.transport, n.crc, old(n.Head()), old(n.rx), objects, room)
    ensures err == ERROR_NONE ==>
      && nextObjectId == NextId(Message(n.transport, old(n.rx)), HeaderLength(n.transport))
      && objectsCount == |objects|
      && buffers[..] == (if room == 0 then old(buffers[..]) else Placed(old(buffers[..]), first, order, objects))
      && (ids != null ==> ids[..] == PlacedIds(old(ids[..]), first, objects))
      && n.rx == LineLeft(n.transport, old(n.rx), ObjectsEnd(n.transport, objects) + TrailerLength(n.transport),
                          old(n.rx)[|Message(n.transport, old(n.rx))|..])
    ensures ResHeaderError(n.transport, n.crc, old(n.Head()), old(n.rx)) != ERROR_NONE ==>
      n.rx == ResHeaderLeft(n.transport, old(n.Head()), old(n.rx))
    ensures
      || ResHeaderError(n.transport, n.crc, old(n.Head()), old(n.rx)) != ERROR_NONE
      || err == ERROR_INVALID_ARGUMENT ==>
      buffers[..] == old(buffers[..]) && (ids != null ==> ids[..] == old(ids[..]))
    ensures |n.rx| <= |old(n.rx)|
  {
    hide ResHeaderError, ResHeaderArrived, Nmbs.Receiving, AllObjectBytes, Placed, PlacedIds, Placeable;
    nextObjectId, objectsCount := 0, 0;
    err := n.RecvResHeader();
    if err != ERROR_NONE {
      return;
    }
    n.BehindFooter();
    var ok;
    ok, nextObjectId, objectsCount := GetFields(n);
    if !ok {
      return ERROR_INVALID_RESPONSE, 0, 0;
    }
    if room != 0 && objectsCount > room {
      return ERROR_INVALID_ARGUMENT, nextObjectId, objectsCount;
    }
    err := GetObjects(n, room, buffers, first, order, ids, objects, objectsCount);
    if err != ERROR_NONE {
      return;
    }
    err := n.RecvMsgFooter();
    n.BehindFooter();
  }

  /** The six bytes before the objects. */
  method GetFields(n: Nmbs) returns (ok: bool, nextObjectId: byte, objectsCount: byte)
    requires n.InBody() && n.idx == HeaderLength(n.transport) && |n.msg| >= n.idx + 6
    modifies n`idx, n`avail, n`rx, n.buf
    ensures n.Valid() && (ok <==> FieldsOk(n.msg, old(n.idx))) && (n.transport.TCP? ==> n.rx == old(n.rx))
    ensures |n.rx| <= |old(n.rx)|
    ensures ok ==>
      && n.InBody() && n.idx == old(n.idx) + 6
      && nextObjectId == NextId(n.msg, old(n.idx)) && objectsCount == n.msg[old(n.idx) + 5]
  {
    hide Nmbs.Receiving;
    ok, nextObjectId, objectsCount := false, 0, 0;
    var err := n.Recv(6);
    if err != ERROR_NONE {
      return;
    }
    var meiType := n.Get1();
    if meiType != 0x0E {
      return;
    }
    var readDeviceIdCode := n.Get1();
    if readDeviceIdCode < 1 || readDeviceIdCode > 4 {
      return;
    }
    var conformityLevel := n.Get1();
    if conformityLevel < 1 || (conformityLevel > 3 && conformityLevel < 0x81) || conformityLevel > 0x83 {
      return;
    }
    var moreFollows := n.Get1();
    if moreFollows != 0 && moreFollows != 0xFF {
      return;
    }
    nextObjectId := n.Get1();
    objectsCount := n.Get1();
    if moreFollows == 0 {
      nextObjectId := 0x7F;
    }
    ok := true;
  }
}
