/** The client functions for device identification, each with the server's turns in its middle. */
module DeviceClient {
  import opened Words
  import opened Frames
  import opened Engine
  import Requests
  import opened Serving
  import opened DeviceIds
  import opened DeviceResponses
  import opened DevicePaging
  import Wire
  import opened Client

  // ----- one page

  method SendIdRequest(n: Nmbs, code: byte, objectId: byte) returns (err: int)
    requires n.Valid() && |n.rx| <= BUFFER_SIZE
    modifies n, n.buf
    ensures n.Valid() && err == ERROR_NONE && n.rx == []
    ensures n.addressRtu == old(n.addressRtu) && n.destAddressRtu == old(n.destAddressRtu)
    ensures n.currentTid == NextTid(old(n.currentTid)) && n.Head() == Header(n.currentTid, n.destAddressRtu, 43)
    ensures n.tx == old(n.tx) + Frame(n.transport, n.crc, n.Head(), [MEI_TYPE, code, objectId])
  {
    hide HeaderBytes, Nmbs.Out;
    n.MsgStateReq(43);
    n.PutMsgHeader(3);
    ghost var header := n.Out();
    n.Put1(0x0E);
    n.Put1(code);
    n.Put1(objectId);
    assert header + [MEI_TYPE] + [code] + [objectId] == header + [MEI_TYPE, code, objectId];
    err := n.SendMsg();
  }

  /** The page that answers a request which is not refused. */
  function PageAsked(t: ObjectTable, code: byte, objectId: byte): Page {
    if code == 4 then Page([Object(objectId, t.stringOf(objectId).text)], None)
    else if objectId > LastId(code) then Page([], None)
    else PageFrom(t, objectId, LastId(code), PAGE_ROOM)
  }

  lemma {:induction false} PageFailsAsException(t: ObjectTable, id: nat, last: byte, left: nat)
    requires id <= last + 1
    ensures var p := PageFrom(t, id, last, left); p.Failed? ==> IsException(p.code)
    decreases last + 1 - id
  {
    if id <= last {
      if id !in t.mapped {
        PageFailsAsException(t, id + 1, last, left);
      } else if left >= 2 + |t.stringOf(id).text| {
        PageFailsAsException(t, id + 1, last, left - 2 - |t.stringOf(id).text|);
      }
    }
  }

  /** What a client is told that gets no page at all: the callbacks are missing, nobody answers, or the map is bad. */
  function Refusal<D>(cbs: Callbacks<D>, broadcast: bool): int {
    if cbs.objects.None? then ILLEGAL_FUNCTION
    else if broadcast then ERROR_TIMEOUT
    else if cbs.objects.value.mapError != ERROR_NONE then FailureCode(cbs.objects.value.mapError)
    else ERROR_NONE
  }

  /** The server's answer: a page of at most 246 bytes of objects, an exception or, to all, silence. */
  lemma PageServed<D>(cbs: Callbacks<D>, dev: D, broadcast: bool, code: byte, objectId: byte)
    ensures var (o, d) := ServeDeviceId(cbs, dev, broadcast, MEI_TYPE, code, objectId);
      && d == dev && (o.Silent? ==> broadcast) && (o.Exception? ==> IsException(o.code))
      && (o.Reply? ==>
           && Refusal(cbs, broadcast) == ERROR_NONE && 1 <= code <= 4
           && var p := PageAsked(cbs.objects.value, code, objectId);
              && p.Page? && |p.objects| < 0x100 && |AllObjectBytes(p.objects)| <= PAGE_ROOM
              && o.data == PageData(code, p))
  {
    hide PageFrom, PageData, AllObjectBytes;
    if cbs.objects.Some? {
      var t := cbs.objects.value;
      if code == 4 {
        OneObject(Object(objectId, t.stringOf(objectId).text));
      } else if objectId <= LastId(code) {
        PageFits(t, objectId, LastId(code), PAGE_ROOM);
        PageFailsAsException(t, objectId, LastId(code), PAGE_ROOM);
      }
    }
  }

  /** A page on the line is read as that page, an exception as its code, and nothing as a timeout. */
  lemma PageAnswer(t: Transport, crc: CrcFunction, h: Header, o: Outcome, code: byte, p: Page, room: byte)
    requires h.fc < 0x80 && 1 <= code <= 4
    requires o.Exception? ==> IsException(o.code)
    requires p.Page? && |p.objects| < 0x100 && |AllObjectBytes(p.objects)| <= PAGE_ROOM
    requires o.Reply? ==> o.data == PageData(code, p)
    ensures var s := Emitted(t, crc, h, o);
      && PageArrived(t, crc, h, s, p.objects)
      && PageError(t, crc, h, s, p.objects, room)
      == (if !o.Reply? then Returned(o)
          else if TooMany(p.objects, room) then ERROR_INVALID_ARGUMENT
          else ERROR_NONE)
      && ResHeaderError(t, crc, h, s) == Returned(o)
      && (!o.Reply? ==> ResHeaderLeft(t, h, s) == [])
      && (o.Reply? ==>
           && s != [] && HeaderArrived(t, s) && MbapOk(t, s) && |Message(t, s)| >= HeaderLength(t) + 6
           && NextId(Message(t, s), HeaderLength(t)) == (if p.next.None? then LAST_PAGE else p.next.value)
           && |Message(t, s)| == |s| == ObjectsEnd(t, p.objects) + TrailerLength(t))
      && |s| <= BUFFER_SIZE
  {
    hide Emitted, ResHeaderError, ResHeaderArrived, ResHeaderLeft, TrailerFits, AllObjectBytes, HeaderOf, MbapOk;
    var s := Emitted(t, crc, h, o);
    if o.Silent? {
      NothingArrives(t, crc, h);
    } else {
      assert s + [] == s;
      Wire.ResponseHeader(t, crc, h, o, []);
      AnswerFitsFlush(t, crc, h, o);
      if o.Reply? {
        PageInMessage(Message(t, s), HeaderLength(t), code, p);
      }
    }
  }

  lemma NothingArrives(t: Transport, crc: CrcFunction, h: Header)
    ensures Emitted(t, crc, h, Silent) == [] && ResHeaderArrived(t, h, [])
    ensures ResHeaderError(t, crc, h, []) == ERROR_TIMEOUT && ResHeaderLeft(t, h, []) == []
  {}

  lemma PageInMessage(m: seq<byte>, h: nat, code: byte, p: Page)
    requires 1 <= code <= 4 && p.Page? && |p.objects| < 0x100
    requires Requests.DataAt(m, h, PageData(code, p))
    ensures |PageData(code, p)| == 6 + |AllObjectBytes(p.objects)|
    ensures FieldsOk(m, h) && m[h + 5] == |p.objects|
    ensures NextId(m, h) == if p.next.None? then LAST_PAGE else p.next.value
    ensures m[h + 6..h + 6 + |AllObjectBytes(p.objects)|] == AllObjectBytes(p.objects)
  {
    hide AllObjectBytes;
    var data := PageData(code, p);
    forall i | 0 <= i < 6
      ensures m[h + i] == data[i]
    {
      Requests.ByteInData(m, h, data, i);
    }
    SliceOfSlice(m, h, h + |data|, 6, |data|);
    assert data[6..] == AllObjectBytes(p.objects);
  }

  /** A page is refused for having more objects than there is room; but no room at all stands for no strings wanted. */
  predicate TooMany(objects: seq<Object>, room: byte) {
    room != 0 && |objects| > room
  }

  /** What is written for a page that is not refused stays inside the caller's arrays. */
  ghost predicate RoomForPage(p: Page, room: byte, first: nat, order: seq<byte>, buffersCount: nat, idsCount: nat) {
    p.Page? && !TooMany(p.objects, room) ==>
      && first + |p.objects| <= idsCount
      && (room != 0 ==> Placeable(first, order, p.objects, buffersCount))
  }

  /** One request and its answer: the body of the client functions' loops. */
  method RequestPage<D>(client: Nmbs, server: Nmbs, cbs: Callbacks<D>, dev: D, code: byte, objectId: byte, room: byte,
                        buffers: array<Text>, first: nat, order: seq<byte>, ids: array?<byte>)
    returns (err: int, next: byte, count: byte)
    requires Connected(client, server)
    requires buffers as object !in {client.buf, server.buf} && ids !in {client.buf, server.buf}
    requires ids != null ==> first <= ids.Length
    requires Refusal(cbs, ToAll(client)) == ERROR_NONE ==>
      RoomForPage(PageAsked(cbs.objects.value, code, objectId), room, first, order, buffers.Length,
                  if ids == null then first + 0x100 else ids.Length)
    modifies client, client.buf, server, server.buf, buffers, ids
    ensures Connected(client, server) && client.destAddressRtu == old(client.destAddressRtu)
    ensures err != ERROR_INVALID_ARGUMENT ==> AtBoundary(client, server)
    ensures err != ERROR_NONE ==> buffers[..] == old(buffers[..]) && (ids != null ==> ids[..] == old(ids[..]))
    ensures var o := ServeDeviceId(cbs, dev, ToAll(client), MEI_TYPE, code, objectId).0;
      if !o.Reply? then err == Returned(o) && err != ERROR_NONE
      else
        && Refusal(cbs, ToAll(client)) == ERROR_NONE
        && var p := PageAsked(cbs.objects.value, code, objectId);
           && p.Page?
           && if TooMany(p.objects, room) then err == ERROR_INVALID_ARGUMENT
              else
                && err == ERROR_NONE && count == |p.objects|
                && next == (if p.next.None? then LAST_PAGE else p.next.value)
                && buffers[..] == (if room == 0 then old(buffers[..])
                                   else Placed(old(buffers[..]), first, order, p.objects))
                && (ids != null ==>
                     first + |p.objects| <= ids.Length && ids[..] == PlacedIds(old(ids[..]), first, p.objects))
  {
    hide ServeDeviceId, Frame, Wire.Serveable, Emitted, PageData, PageAsked, AllObjectBytes;
    hide Placed, PlacedIds, Placeable, PageArrived, PageError, NextId;
    hide ResHeaderLeft, ResHeaderError, HeaderOf, MbapOk, HeaderArrived, Message;
    ghost var r := Requests.ReadDeviceId(MEI_TYPE, code, objectId);
    var sent := |client.tx|;
    err := SendIdRequest(client, code, objectId);
    ghost var h := client.Head();
    IdRequestServeable(client.transport, r);
    var dev' := Exchange(client, server, cbs, dev, sent, h, r);
    PageServed(cbs, dev, ToAll(client), code, objectId);
    ghost var o := ServeDeviceId(cbs, dev, ToAll(client), MEI_TYPE, code, objectId).0;
    ghost var p := if o.Reply? then PageAsked(cbs.objects.value, code, objectId) else Page([], None);
    NoBytes();
    PageAnswer(client.transport, client.crc, h, o, if o.Reply? then code else 1, p, room);
    if !o.Reply? {
      NothingToPlace(first, order, buffers.Length);
    }
    err, next, count := RecvReadDeviceIdentificationRes(client, room, buffers, first, order, ids, p.objects);
  }

  lemma NoBytes()
    ensures AllObjectBytes([]) == []
  {}

  lemma NothingToPlace(first: nat, order: seq<byte>, count: nat)
    ensures Placeable(first, order, [], count)
  {}

  lemma IdRequestServeable(t: Transport, r: Requests.Request)
    requires r.ReadDeviceId?
    ensures Wire.Serveable(t, r) && Requests.RequestData(r) == [r.meiType, r.code, r.objectId]
  {}

  // ----- the public functions

  /** The object table, or an empty one. */
  function TableOf<D>(cbs: Callbacks<D>): ObjectTable {
    if cbs.objects.Some? then cbs.objects.value else ObjectTable(ERROR_NONE, {}, id => ObjectString(ERROR_NONE, []))
  }

  /** Inside a category a server refuses every page request, or none; a page can still fail on its objects. */
  lemma PageOrFailure<D>(cbs: Callbacks<D>, dev: D, broadcast: bool, code: byte, objectId: byte)
    requires 1 <= code <= 3 && InCategory(code, objectId) && !(6 < objectId < 0x80)
    ensures PageAsked(TableOf(cbs), code, objectId) == PageFrom(TableOf(cbs), objectId, LastId(code), PAGE_ROOM)
    ensures var o, p := ServeDeviceId(cbs, dev, broadcast, MEI_TYPE, code, objectId).0,
                        PageFrom(TableOf(cbs), objectId, LastId(code), PAGE_ROOM);
      && (o.Reply? <==> Refusal(cbs, broadcast) == ERROR_NONE && p.Page?)
      && (!o.Reply? ==>
           Returned(o) == if Refusal(cbs, broadcast) != ERROR_NONE then Refusal(cbs, broadcast) else p.code)
  {
    hide PageFrom, PageData;
    PageFits(TableOf(cbs), objectId, LastId(code), PAGE_ROOM);
  }

  /** What a client is told that asks for a range of objects: why it is refused, or the first failure in the range. */
  function RangeError<D>(cbs: Callbacks<D>, broadcast: bool, start: byte, last: byte): int
    requires start <= last
  {
    if Refusal(cbs, broadcast) != ERROR_NONE then Refusal(cbs, broadcast)
    else
      match FirstFailure(TableOf(cbs), start, last)
      case None => ERROR_NONE
      case Some(code) => code
  }

  /** Where the loops have come: the next object id, or the end of the category. */
  function Reached(next: byte, last: byte): nat {
    if next == LAST_PAGE then last + 1 else next
  }

  /** The objects of the pages so far are those of the ids so far, and a failure of the range is still to come. */
  ghost predicate Received(t: ObjectTable, start: byte, next: byte, last: byte, order: seq<byte>,
                           before: seq<Text>, buffers: seq<Text>, total: nat)
  {
    && start <= Reached(next, last) <= last + 1
    && (next != LAST_PAGE && next != start ==> next in t.mapped)
    && total == |ObjectsUpTo(t, start, Reached(next, last))|
    && buffers == Placed(before, 0, order, ObjectsUpTo(t, start, Reached(next, last)))
    && FirstFailure(t, start, last) == FirstFailure(t, Reached(next, last), last)
  }

  /** One more page received. */
  lemma OneMoreReceived(t: ObjectTable, start: byte, next: byte, last: byte, order: seq<byte>, before: seq<Text>,
                        buffers: seq<Text>, total: nat, p: Page, buffers': seq<Text>, next': byte)
    requires Received(t, start, next, last, order, before, buffers, total) && next != LAST_PAGE
    requires next <= last && p == PageFrom(t, next, last, PAGE_ROOM) && p.Page?
    requires last < LAST_PAGE || next > LAST_PAGE
    requires buffers' == Placed(buffers, total, order, p.objects)
    requires next' == if p.next.None? then LAST_PAGE else p.next.value
    ensures Received(t, start, next', last, order, before, buffers', total + |p.objects|)
    ensures Reached(next, last) < Reached(next', last) && (next' != LAST_PAGE ==> next' <= last && next' in t.mapped)
    ensures p.objects == ObjectsUpTo(t, next, Reached(next', last)) && total == |ObjectsUpTo(t, start, next)|
    ensures next in t.mapped ==> p.objects != []
    ensures next' == LAST_PAGE || p.objects != []
  {
    hide PageFrom, Placed, ObjectsUpTo, FirstFailure;
    PageIsRange(t, next, last);
    PageThenRest(t, next, last, PAGE_ROOM);
    NoFailureLeft(t, last);
    OneMorePageReceived(t, start, next, PageEnd(p, last), before, order);
    if next in t.mapped {
      MappedIsThere(t, next, PageEnd(p, last));
    }
  }

  lemma NoFailureLeft(t: ObjectTable, last: byte)
    ensures FirstFailure(t, last + 1, last) == None
  {}

  lemma MappedIsThere(t: ObjectTable, id: byte, end: nat)
    requires id < end <= 0x100 && id in t.mapped
    ensures ObjectsUpTo(t, id, end) != []
  {}

  lemma OneMorePageReceived(t: ObjectTable, start: nat, id: nat, end: nat, before: seq<Text>, order: seq<byte>)
    requires start <= id < end <= 0x100
    ensures var a, b := ObjectsUpTo(t, start, id), ObjectsUpTo(t, id, end);
      && ObjectsUpTo(t, start, end) == a + b
      && Placed(Placed(before, 0, order, a), |a|, order, b) == Placed(before, 0, order, a + b)
  {
    OneMorePage(t, start, id, end);
    PlacedConcat(before, 0, order, ObjectsUpTo(t, start, id), ObjectsUpTo(t, id, end));
  }

  lemma NothingReceived(t: ObjectTable, start: byte, last: byte, order: seq<byte>, before: seq<Text>)
    requires start != LAST_PAGE && start <= last
    ensures Received(t, start, start, last, order, before, before, 0)
  {
    assert ObjectsUpTo(t, start, start) == [];
  }

  /** A page that fails is the first failure of the whole range. */
  lemma FailedPage(t: ObjectTable, start: byte, next: byte, last: byte, order: seq<byte>, before: seq<Text>,
                   buffers: seq<Text>, total: nat)
    requires Received(t, start, next, last, order, before, buffers, total) && next != LAST_PAGE && next <= last
    ensures var p := PageFrom(t, next, last, PAGE_ROOM);
      p.Failed? ==> FirstFailure(t, start, last) == Some(p.code)
  {
    PageThenRest(t, next, last, PAGE_ROOM);
  }

  /** There are no more objects than ids, up to the last one that can be mapped. */
  lemma NotTooMany(t: ObjectTable, start: byte, next: byte, last: byte, high: byte, order: seq<byte>, before: seq<Text>,
                   buffers: seq<Text>, total: nat)
    requires Received(t, start, next, last, order, before, buffers, total)
    requires start <= high <= last && forall x :: high < x <= last ==> x !in t.mapped
    ensures total <= high + 1 - start
  {
    var end := Reached(next, last);
    if end != 0 {
      FewObjects(t, start, end - 1, high);
    }
  }

  /** Ids that have their buffers in order have room for every page. */
  lemma PageHasRoom(t: ObjectTable, code: byte, objectId: byte, order: seq<byte>, low: byte, high: byte, first: nat)
    requires 1 <= code <= 2 && forall x :: high < x <= LastId(code) ==> x !in t.mapped
    requires InIdOrder(order, low, high) && low <= objectId <= high <= LastId(code)
    ensures var p := PageAsked(t, code, objectId);
      && RoomForPage(p, high + 1 - low, first, order, high + 1 - low, first + 0x100)
      && (p.Page? ==> |p.objects| <= high + 1 - low)
  {
    hide PageFrom;
    var last := LastId(code);
    if PageFrom(t, objectId, last, PAGE_ROOM).Page? {
      PageIsRange(t, objectId, last);
      var end := PageEnd(PageFrom(t, objectId, last, PAGE_ROOM), last);
      UpToPlaceable(t, order, low, high, objectId, end, first);
      FewObjects(t, objectId, end - 1, high);
    }
  }

  /** Behind the last page, all objects of the category have been received, and nothing has failed. */
  lemma AllReceived(t: ObjectTable, start: byte, last: byte, order: seq<byte>, before: seq<Text>, buffers: seq<Text>,
                    total: nat)
    requires start <= last && Received(t, start, LAST_PAGE, last, order, before, buffers, total)
    ensures total == |ObjectsBetween(t, start, last)|
    ensures buffers == Placed(before, 0, order, ObjectsBetween(t, start, last))
    ensures FirstFailure(t, start, last) == None
  {}

  /** The three basic objects. */
  method ReadDeviceIdentificationBasic<D>(client: Nmbs, server: Nmbs, cbs: Callbacks<D>, dev: D, buffers: array<Text>)
    returns (err: int)
    requires Connected(client, server)
    requires buffers as object !in {client.buf, server.buf} && buffers.Length == 3
    modifies client, client.buf, server, server.buf, buffers
    ensures Connected(client, server) && AtBoundary(client, server)
    ensures err == RangeError(cbs, ToAll(client), 0, 2)
    ensures err == ERROR_NONE ==>
      forall id: byte {:trigger buffers[id]} :: 0 <= id <= 2 ==>
        id in cbs.objects.value.mapped && buffers[id] == cbs.objects.value.stringOf(id).text
  {
    hide ServeDeviceId, PageAsked, PageFrom, Placed, Received, Connected, Placeable, ObjectsBetween, FirstFailure;
    hide RoomForPage;
    ghost var t, before := TableOf(cbs), buffers[..];
    var order: seq<byte> := [0, 1, 2];
    var totalReceived: nat := 0;
    var nextObjectId: byte := 0x00;
    NothingReceived(t, 0, 2, order, before);
    while nextObjectId != 0x7F
      invariant Connected(client, server) && client.destAddressRtu == old(client.destAddressRtu)
      invariant (nextObjectId != 0x7F ==> nextObjectId <= 2) && (totalReceived > 0 ==> AtBoundary(client, server))
      invariant totalReceived == 0 ==> nextObjectId == 0
      invariant totalReceived > 0 ==> Refusal(cbs, ToAll(client)) == ERROR_NONE
      invariant Received(t, 0, nextObjectId, 2, order, before, buffers[..], totalReceived)
      decreases 3 - Reached(nextObjectId, 2)
    {
      PageHasRoom(t, 1, nextObjectId, order, 0, 2, totalReceived);
      PageOrFailure(cbs, dev, ToAll(client), 1, nextObjectId);
      FailedPage(t, 0, nextObjectId, 2, order, before, buffers[..], totalReceived);
      BasicPage(t, nextObjectId, 2);
      ghost var p, was, id := PageFrom(t, nextObjectId, 2, PAGE_ROOM), buffers[..], nextObjectId;
      var objectsReceived;
      err, nextObjectId, objectsReceived :=
        RequestPage(client, server, cbs, dev, 1, nextObjectId, 3, buffers, totalReceived, order, null);
      if err != ERROR_NONE {
        return;
      }
      OneMoreReceived(t, 0, id, 2, order, before, was, totalReceived, p, buffers[..], nextObjectId);
      totalReceived := totalReceived + objectsReceived;
      NotTooMany(t, 0, nextObjectId, 2, 2, order, before, buffers[..], totalReceived);
      if totalReceived > 3 {
        return ERROR_INVALID_RESPONSE;
      }
      if objectsReceived == 0 {
        return ERROR_INVALID_RESPONSE;
      }
    }
    AllReceived(t, 0, 2, order, before, buffers[..], totalReceived);
    NoFailure(t, 0, 2);
    forall id: byte | 0 <= id <= 2
      ensures id in t.mapped && buffers[id] == t.stringOf(id).text
    {
      OneIdPlaced(t, before, order, 0, 2, 2, id);
      assert buffers[..][id - 0] == buffers[id];
    }
    err := ERROR_NONE;
  }

  /** A page that begins at a basic id has that object, or fails. */
  lemma BasicPage(t: ObjectTable, id: byte, last: byte)
    requires id <= 2 <= last
    ensures PageFrom(t, id, last, PAGE_ROOM).Page? ==> id in t.mapped
  {}

  /** The regular objects 3 to 6, of which none, some or all may be mapped: it is an error that none is. */
  method ReadDeviceIdentificationRegular<D>(client: Nmbs, server: Nmbs, cbs: Callbacks<D>, dev: D, buffers: array<Text>)
    returns (err: int)
    requires Connected(client, server)
    requires buffers as object !in {client.buf, server.buf} && buffers.Length == 4
    requires 0x07 !in TableOf(cbs).mapped
    modifies client, client.buf, server, server.buf, buffers
    ensures Connected(client, server) && AtBoundary(client, server)
    ensures var e := RangeError(cbs, ToAll(client), 3, 7);
      err == if e == ERROR_NONE && {3, 4, 5, 6} !! cbs.objects.value.mapped then ERROR_INVALID_RESPONSE else e
    ensures RangeError(cbs, ToAll(client), 3, 7) == ERROR_NONE ==>
      forall id: byte {:trigger buffers[id - 3]} :: 3 <= id <= 6 ==>
        buffers[id - 3] == if id in cbs.objects.value.mapped then cbs.objects.value.stringOf(id).text
                           else old(buffers[id - 3])
  {
    hide ServeDeviceId, PageAsked, PageFrom, Placed, Received, Connected, Placeable, ObjectsBetween, FirstFailure;
    hide RoomForPage;
    ghost var t, before := TableOf(cbs), buffers[..];
    var order: seq<byte> := [0, 0, 0, 0, 1, 2, 3];
    var totalReceived: nat := 0;
    var nextObjectId: byte := 0x03;
    NothingReceived(t, 3, 7, order, before);
    ghost var all := Placed(before, 0, order, ObjectsBetween(t, 3, 7));
    forall id: byte | 3 <= id <= 6
      ensures all[id - 3] == if id in t.mapped then t.stringOf(id).text else before[id - 3]
    {
      OneIdPlaced(t, before, order, 3, 6, 7, id);
    }
    AnyRegular(t);
    while nextObjectId != 0x7F
      invariant Connected(client, server) && client.destAddressRtu == old(client.destAddressRtu)
      invariant Received(t, 3, nextObjectId, 7, order, before, buffers[..], totalReceived)
      invariant nextObjectId != 0x7F ==> 3 <= nextObjectId <= 6
      invariant (nextObjectId == 3 && totalReceived == 0) || ObjectsBetween(t, 3, 7) != []
      invariant nextObjectId == 3 || nextObjectId == 0x7F || nextObjectId in t.mapped
      invariant nextObjectId == 3 ||
        (AtBoundary(client, server) && Refusal(cbs, ToAll(client)) == ERROR_NONE)
      decreases 8 - Reached(nextObjectId, 7)
    {
      PageHasRoom(t, 2, nextObjectId, order, 3, 6, totalReceived);
      PageOrFailure(cbs, dev, ToAll(client), 2, nextObjectId);
      FailedPage(t, 3, nextObjectId, 7, order, before, buffers[..], totalReceived);
      ghost var p, was, id := PageFrom(t, nextObjectId, 7, PAGE_ROOM), buffers[..], nextObjectId;
      var objectsReceived;
      err, nextObjectId, objectsReceived :=
        RequestPage(client, server, cbs, dev, 2, nextObjectId, 4, buffers, totalReceived, order, null);
      if err != ERROR_NONE {
        return;
      }
      OneMoreReceived(t, 3, id, 7, order, before, was, totalReceived, p, buffers[..], nextObjectId);
      totalReceived := totalReceived + objectsReceived;
      NotTooMany(t, 3, nextObjectId, 7, 6, order, before, buffers[..], totalReceived);
      if totalReceived > 4 {
        return ERROR_INVALID_RESPONSE;
      }
      if objectsReceived == 0 {
        AllReceived(t, 3, 7, order, before, buffers[..], totalReceived);
        return ERROR_INVALID_RESPONSE;
      }
    }
    AllReceived(t, 3, 7, order, before, buffers[..], totalReceived);
    err := ERROR_NONE;
  }

  lemma AnyRegular(t: ObjectTable)
    requires 0x07 !in t.mapped
    ensures ObjectsBetween(t, 3, 7) == [] <==> {3, 4, 5, 6} !! t.mapped
  {
    ObjectsBetweenAreTheMapped(t, 3, 7);
    var objects := ObjectsBetween(t, 3, 7);
    assert forall id :: id in {3, 4, 5, 6} && id in t.mapped ==> Object(id, t.stringOf(id).text) in objects;
    if objects != [] {
      assert objects[0] in objects && objects[0].id in {3, 4, 5, 6};
    }
  }

  // ----- the extended objects, for a caller with so much room

  /** The room that is left, as the uint8_t parameter has it. */
  function RoomLeft(room: int): byte {
    room % 0x100
  }

  /** What the pages from an id on come to: a page that fails, one that is refused, or success. */
  function PagesError(t: ObjectTable, id: byte, room: byte): int
    decreases 0xFF - id
  {
    PageThenRest(t, id, 0xFF, PAGE_ROOM);
    match PageFrom(t, id, 0xFF, PAGE_ROOM)
    case Failed(code) => code
    case Page(objects, next) =>
      if TooMany(objects, room) then ERROR_INVALID_ARGUMENT
      else if next.None? then ERROR_NONE
      else PagesError(t, next.value, RoomLeft(room - |objects|))
  }

  /** The room is never all used up in front of a page with objects. */
  predicate NeverFull(t: ObjectTable, id: byte, room: byte)
    decreases 0xFF - id
  {
    PageThenRest(t, id, 0xFF, PAGE_ROOM);
    match PageFrom(t, id, 0xFF, PAGE_ROOM)
    case Failed(code) => true
    case Page(objects, next) =>
      && (objects != [] ==> room > 0)
      && (|objects| <= room && next.Some? ==> NeverFull(t, next.value, room - |objects|))
  }

  /** With room for all objects, the room never gets full, and only a failure keeps them from being received. */
  lemma {:induction false} EnoughRoom(t: ObjectTable, id: byte, room: byte)
    requires |ObjectsBetween(t, id, 0xFF)| <= room
    ensures NeverFull(t, id, room)
    ensures PagesError(t, id, room)
         == match FirstFailure(t, id, 0xFF) case None => ERROR_NONE case Some(code) => code
    decreases 0xFF - id
  {
    hide PageFrom, FirstFailure, ObjectsBetween;
    PageThenRest(t, id, 0xFF, PAGE_ROOM);
    var p := PageFrom(t, id, 0xFF, PAGE_ROOM);
    if p.Page? && p.next.Some? {
      EnoughRoom(t, p.next.value, room - |p.objects|);
    }
  }

  /** With too little room, the call is refused or, if the room gets full in front of a page, overruns and succeeds. */
  lemma {:induction false} TooLittleRoom(t: ObjectTable, id: byte, room: byte)
    requires id >= 0x80 && |ObjectsBetween(t, id, 0xFF)| > room && FirstFailure(t, id, 0xFF).None?
    ensures PagesError(t, id, room) == if NeverFull(t, id, room) then ERROR_INVALID_ARGUMENT else ERROR_NONE
    decreases 0xFF - id
  {
    hide PageFrom, FirstFailure, ObjectsBetween;
    PageThenRest(t, id, 0xFF, PAGE_ROOM);
    var p := PageFrom(t, id, 0xFF, PAGE_ROOM);
    if |p.objects| <= room {
      TooLittleRoom(t, p.next.value, room - |p.objects|);
    } else if room == 0 && p.next.Some? {
      PageIsRange(t, id, 0xFF);
      FewObjects(t, id, p.next.value - 1, p.next.value - 1);
      FewObjects(t, p.next.value, 0xFF, 0xFF);
      EnoughRoom(t, p.next.value, RoomLeft(room - |p.objects|));
    }
  }

  /**
   * If the table fails nowhere: the call is refused exactly if there are more objects than room, unless the room gets
   * full in front of a page with objects. In that case, and only in that, it succeeds without having the room.
   */
  lemma RoomDecides(t: ObjectTable, id: byte, room: byte)
    requires id >= 0x80 && FirstFailure(t, id, 0xFF).None?
    ensures var count := |ObjectsBetween(t, id, 0xFF)|;
      && (PagesError(t, id, room) == ERROR_INVALID_ARGUMENT <==> count > room && NeverFull(t, id, room))
      && (PagesError(t, id, room) == ERROR_NONE && count > room <==> !NeverFull(t, id, room))
      && PagesError(t, id, room) in {ERROR_NONE, ERROR_INVALID_ARGUMENT}
  {
    if |ObjectsBetween(t, id, 0xFF)| <= room {
      EnoughRoom(t, id, room);
    } else {
      TooLittleRoom(t, id, room);
    }
  }

  lemma {:induction false} NothingMapped(t: ObjectTable, id: nat, last: byte, left: nat)
    requires 0x03 <= id <= last + 1 && forall x :: id <= x <= last ==> x !in t.mapped
    ensures PageFrom(t, id, last, left) == Page([], None)
    decreases last + 1 - id
  {
    if id <= last {
      NothingMapped(t, id + 1, last, left);
    }
  }

  /** One extended object, and a caller with no room for any: the page is accepted, behind the caller's arrays. */
  lemma NoRoomOverruns(text: Text)
    ensures var t := ObjectTable(ERROR_NONE, {0x80}, id => ObjectString(ERROR_NONE, text));
      && PagesError(t, 0x80, 0) == ERROR_NONE && |ObjectsBetween(t, 0x80, 0xFF)| == 1
      && !NeverFull(t, 0x80, 0)
  {
    var t := ObjectTable(ERROR_NONE, {0x80}, id => ObjectString(ERROR_NONE, text));
    NothingMapped(t, 0x81, 0xFF, PAGE_ROOM - 2 - |text|);
    FewObjects(t, 0x81, 0xFF, 0x80);
  }

  /** Two objects too long for one page, and a caller with room for one: the second comes when there is none left. */
  lemma OneRoomOverruns(text: Text)
    requires |text| == 127
    ensures var t := ObjectTable(ERROR_NONE, {0x80, 0x81}, id => ObjectString(ERROR_NONE, text));
      && PagesError(t, 0x80, 1) == ERROR_NONE && |ObjectsBetween(t, 0x80, 0xFF)| == 2
      && !NeverFull(t, 0x80, 1)
  {
    var t := ObjectTable(ERROR_NONE, {0x80, 0x81}, id => ObjectString(ERROR_NONE, text));
    assert PageFrom(t, 0x81, 0xFF, PAGE_ROOM - 129) == Page([], Some(0x81));
    assert PageFrom(t, 0x80, 0xFF, PAGE_ROOM) == Page([Object(0x80, text)], Some(0x81));
    NothingMapped(t, 0x82, 0xFF, PAGE_ROOM - 129);
    assert PageFrom(t, 0x81, 0xFF, PAGE_ROOM) == Page([Object(0x81, text)], None);
    FewObjects(t, 0x82, 0xFF, 0x81);
  }

  /** What comes of asking for the extended objects from an id on. */
  function ExtendedError<D>(cbs: Callbacks<D>, broadcast: bool, start: byte, room: byte): int {
    if start < 0x80 then ERROR_INVALID_ARGUMENT
    else if Refusal(cbs, broadcast) != ERROR_NONE then Refusal(cbs, broadcast)
    else PagesError(TableOf(cbs), start, room)
  }

  /** Where the loop stands in PagesError and, if the room never gets full, in NeverFull. */
  ghost predicate StillRoom(t: ObjectTable, start: byte, next: byte, idsLength: byte, total: nat) {
    && PagesError(t, start, idsLength)
    == (if next == LAST_PAGE then ERROR_NONE else PagesError(t, next, RoomLeft(idsLength - total)))
    && (NeverFull(t, start, idsLength) ==>
         total <= idsLength && (next != LAST_PAGE ==> NeverFull(t, next, idsLength - total)))
  }

  lemma OneMorePageInRoom(t: ObjectTable, start: byte, next: byte, idsLength: byte, total: nat)
    requires StillRoom(t, start, next, idsLength, total) && next > LAST_PAGE
    ensures var room := RoomLeft(idsLength - total);
      match PageFrom(t, next, 0xFF, PAGE_ROOM)
      case Failed(code) => PagesError(t, start, idsLength) == code
      case Page(objects, more) =>
        && (NeverFull(t, start, idsLength) ==> total + room == idsLength && (objects != [] ==> room > 0))
        && if TooMany(objects, room) then PagesError(t, start, idsLength) == ERROR_INVALID_ARGUMENT
           else StillRoom(t, start, if more.None? then LAST_PAGE else more.value, idsLength, total + |objects|)
  {
    hide PageFrom;
    PageThenRest(t, next, 0xFF, PAGE_ROOM);
    var p := PageFrom(t, next, 0xFF, PAGE_ROOM);
    if p.Page? {
      RoomLeftAgain(idsLength - total, |p.objects|);
    }
  }

  lemma RoomLeftAgain(room: int, n: nat)
    ensures RoomLeft(RoomLeft(room) - n) == RoomLeft(room - n)
  {}

  /**
   * All extended objects from an id on, with their ids. If the room gets full in front of a page with objects, what the
   * pages behind it write goes beyond the length that the caller gave, so that its arrays have to be longer than that.
   */
  method ReadDeviceIdentificationExtended<D>(client: Nmbs, server: Nmbs, cbs: Callbacks<D>, dev: D, objectIdStart: byte,
                                             ids: array<byte>, buffers: array<Text>, idsLength: byte)
    returns (err: int, objectsCount: byte)
    requires Connected(client, server)
    requires buffers as object !in {client.buf, server.buf} && ids !in {client.buf, server.buf}
    requires idsLength <= ids.Length && idsLength <= buffers.Length
    requires objectIdStart >= 0x80 && Refusal(cbs, ToAll(client)) == ERROR_NONE ==>
      || NeverFull(TableOf(cbs), objectIdStart, idsLength)
      || var count := |ObjectsBetween(TableOf(cbs), objectIdStart, 0xFF)|;
         count <= ids.Length && count <= buffers.Length
    modifies client, client.buf, server, server.buf, buffers, ids
    ensures Connected(client, server)
    ensures err == ExtendedError(cbs, ToAll(client), objectIdStart, idsLength)
    ensures objectIdStart < 0x80 || Refusal(cbs, ToAll(client)) != ERROR_NONE ==>
      buffers[..] == old(buffers[..]) && ids[..] == old(ids[..])
    ensures err == ERROR_NONE ==>
      var objects := ObjectsBetween(cbs.objects.value, objectIdStart, 0xFF);
      && objectsCount == |objects| <= ids.Length
      && ids[..] == IdsOf(objects) + old(ids[..])[objectsCount..]
      && (objectsCount <= idsLength ==> buffers[..] == TextsOf(objects) + old(buffers[..])[objectsCount..])
      && AtBoundary(client, server)
  {
    hide ServeDeviceId, PageAsked, PageFrom, Placed, PlacedIds, Received, Connected, Placeable, ObjectsBetween;
    hide FirstFailure, StillRoom, PagesError, NeverFull, IdsReceived;
    if objectIdStart < 0x80 {
      return ERROR_INVALID_ARGUMENT, 0;
    }
    objectsCount := 0;
    ghost var t, before, idsBefore := TableOf(cbs), buffers[..], ids[..];
    ghost var refusal, neverFull := Refusal(cbs, ToAll(client)), NeverFull(TableOf(cbs), objectIdStart, idsLength);
    ghost var placed := before;
    var totalReceived: byte := 0;
    var nextObjectId: byte := objectIdStart;
    NothingReceived(t, objectIdStart, 0xFF, [], before);
    NoIdsReceived(t, objectIdStart, idsBefore);
    FromTheStart(t, objectIdStart, idsLength);
    while nextObjectId != 0x7F
      invariant Connected(client, server) && client.destAddressRtu == old(client.destAddressRtu)
      invariant nextObjectId != 0x7F ==> 0x80 <= objectIdStart <= nextObjectId
      invariant Received(t, objectIdStart, nextObjectId, 0xFF, [], before, placed, totalReceived)
      invariant neverFull ==> buffers[..] == placed
      invariant IdsReceived(t, objectIdStart, nextObjectId, idsBefore, ids[..])
      invariant StillRoom(t, objectIdStart, nextObjectId, idsLength, totalReceived)
      invariant totalReceived <= 0x80 && totalReceived <= ids.Length
      invariant refusal != ERROR_NONE ==>
        nextObjectId != 0x7F && buffers[..] == before && ids[..] == idsBefore
      invariant nextObjectId == 0x7F ==> AtBoundary(client, server)
      decreases 0x100 - Reached(nextObjectId, 0xFF)
    {
      var room := RoomLeft(idsLength - totalReceived);
      PageOrFailure(cbs, dev, ToAll(client), 3, nextObjectId);
      OneMorePageInRoom(t, objectIdStart, nextObjectId, idsLength, totalReceived);
      ghost var p, was, idsWere, id := PageFrom(t, nextObjectId, 0xFF, PAGE_ROOM), placed, ids[..], nextObjectId;
      if refusal == ERROR_NONE {
        PageFitsArrays(t, objectIdStart, id, before, was, totalReceived, idsLength, buffers.Length, ids.Length);
      }
      var objectsReceived;
      err, nextObjectId, objectsReceived :=
        RequestPage(client, server, cbs, dev, 3, nextObjectId, room, buffers, totalReceived, [], ids);
      if err != ERROR_NONE {
        return;
      }
      placed := Placed(placed, totalReceived, [], p.objects);
      NothingPlaced(was, totalReceived);
      OneMoreReceived(t, objectIdStart, id, 0xFF, [], before, was, totalReceived, p, placed, nextObjectId);
      OneMoreIds(t, objectIdStart, id, nextObjectId, idsBefore, idsWere, totalReceived, p.objects, ids[..]);
      NotTooMany(t, objectIdStart, nextObjectId, 0xFF, 0xFF, [], before, placed, totalReceived + |p.objects|);
      totalReceived := totalReceived + objectsReceived;
    }
    PagesDone(t, objectIdStart, idsLength, totalReceived);
    AllReceived(t, objectIdStart, 0xFF, [], before, placed, totalReceived);
    AllIdsReceived(t, objectIdStart, idsBefore, ids[..]);
    if totalReceived <= idsLength {
      EnoughRoom(t, objectIdStart, idsLength);
      PlacedInTurn(before, ObjectsBetween(t, objectIdStart, 0xFF));
    }
    objectsCount := totalReceived;
    err := ERROR_NONE;
  }

  lemma FromTheStart(t: ObjectTable, start: byte, idsLength: byte)
    requires start >= 0x80
    ensures StillRoom(t, start, start, idsLength, 0)
  {}

  lemma PagesDone(t: ObjectTable, start: byte, idsLength: byte, total: nat)
    requires StillRoom(t, start, LAST_PAGE, idsLength, total)
    ensures PagesError(t, start, idsLength) == ERROR_NONE
  {}

  lemma NothingPlaced(buffers: seq<Text>, first: nat)
    ensures Placed(buffers, first, [], []) == buffers
  {}

  /** What a page that is not refused writes is inside arrays with room for all objects, or for as many as was said. */
  lemma PageFitsArrays(t: ObjectTable, start: byte, next: byte, before: seq<Text>, placed: seq<Text>, total: nat,
                       idsLength: byte, buffersCount: nat, idsCount: nat)
    requires start <= next && next > LAST_PAGE && Received(t, start, next, 0xFF, [], before, placed, total)
    requires StillRoom(t, start, next, idsLength, total) && idsLength <= buffersCount && idsLength <= idsCount
    requires !NeverFull(t, start, idsLength) ==>
      var count := |ObjectsBetween(t, start, 0xFF)|; count <= buffersCount && count <= idsCount
    ensures var p := PageFrom(t, next, 0xFF, PAGE_ROOM);
      RoomForPage(p, RoomLeft(idsLength - total), total, [], buffersCount, idsCount)
  {
    hide PageFrom, StillRoom, ObjectsBetween, NeverFull;
    OneMorePageInRoom(t, start, next, idsLength, total);
    var p := PageFrom(t, next, 0xFF, PAGE_ROOM);
    if p.Page? {
      PageIsRange(t, next, 0xFF);
      var end := PageEnd(p, 0xFF);
      OneMorePage(t, start, next, end);
      if end <= 0xFF {
        BetweenSplit(t, start, end, 0xFF);
      }
      assert total + |p.objects| <= |ObjectsBetween(t, start, 0xFF)|;
    }
  }

  ghost predicate IdsReceived(t: ObjectTable, start: byte, next: byte, before: seq<byte>, ids: seq<byte>) {
    && start <= Reached(next, 0xFF)
    && |ObjectsUpTo(t, start, Reached(next, 0xFF))| <= |before|
    && ids == PlacedIds(before, 0, ObjectsUpTo(t, start, Reached(next, 0xFF)))
  }

  lemma NoIdsReceived(t: ObjectTable, start: byte, before: seq<byte>)
    requires start != LAST_PAGE
    ensures IdsReceived(t, start, start, before, before)
  {
    NothingPut([], 0, [], before);
  }

  lemma OneMoreIds(t: ObjectTable, start: byte, next: byte, next': byte, before: seq<byte>, ids: seq<byte>, total: nat,
                   objects: seq<Object>, ids': seq<byte>)
    requires IdsReceived(t, start, next, before, ids) && next != LAST_PAGE
    requires Reached(next, 0xFF) < Reached(next', 0xFF) && total == |ObjectsUpTo(t, start, next)|
    requires objects == ObjectsUpTo(t, next, Reached(next', 0xFF)) && total + |objects| <= |ids|
    requires ids' == PlacedIds(ids, total, objects)
    ensures IdsReceived(t, start, next', before, ids')
  {
    hide PlacedIds, ObjectsUpTo;
    OneMorePage(t, start, next, Reached(next', 0xFF));
    PlacedIdsConcat(before, ObjectsUpTo(t, start, next), objects);
  }

  lemma AllIdsReceived(t: ObjectTable, start: byte, before: seq<byte>, ids: seq<byte>)
    requires IdsReceived(t, start, LAST_PAGE, before, ids)
    ensures var objects := ObjectsBetween(t, start, 0xFF);
      |objects| <= |before| && ids == IdsOf(objects) + before[|objects|..]
  {}

  /** One object by its id. */
  method ReadDeviceIdentification<D>(client: Nmbs, server: Nmbs, cbs: Callbacks<D>, dev: D, objectId: byte,
                                     buffers: array<Text>)
    returns (err: int)
    requires Connected(client, server)
    requires buffers as object !in {client.buf, server.buf} && buffers.Length == 1
    modifies client, client.buf, server, server.buf, buffers
    ensures Connected(client, server)
    ensures err == ObjectError(cbs, ToAll(client), objectId)
    ensures buffers[0] == if err == ERROR_NONE then cbs.objects.value.stringOf(objectId).text else old(buffers[0])
  {
    hide Connected, PageFrom;
    if objectId > 0x06 && objectId < 0x80 {
      return ERROR_INVALID_ARGUMENT;
    }
    var next, count;
    err, next, count := RequestPage(client, server, cbs, dev, 4, objectId, 1, buffers, 0, [], null);
  }

  /** What a client is told that asks for one object. */
  function ObjectError<D>(cbs: Callbacks<D>, broadcast: bool, objectId: byte): int {
    if 6 < objectId < 0x80 then ERROR_INVALID_ARGUMENT
    else if Refusal(cbs, broadcast) != ERROR_NONE then Refusal(cbs, broadcast)
    else if objectId !in cbs.objects.value.mapped then ILLEGAL_DATA_ADDRESS
    else
      var error := cbs.objects.value.stringOf(objectId).error;
      if error != ERROR_NONE then FailureCode(error) else ERROR_NONE
  }

  // ----- what the caller is told, in numbers

  /** The callbacks are there, somebody answers, and the map of ids can be read. */
  predicate TableShown<D>(cbs: Callbacks<D>, broadcast: bool) {
    cbs.objects.Some? && !broadcast && cbs.objects.value.mapError == 0
  }

  /** Asking for a range of objects succeeds exactly if the table is shown and answers for each id. */
  lemma RangeToldExactly<D>(cbs: Callbacks<D>, broadcast: bool, start: byte, last: byte)
    requires start <= last
    ensures var e := RangeError(cbs, broadcast, start, last);
      && (e == 0 <==> TableShown(cbs, broadcast)
                      && forall x: byte :: start <= x <= last ==> Answers(cbs.objects.value, x))
      && (e == -3 <==> cbs.objects.Some? && broadcast)
      && (e == 0 || e == -3 || 1 <= e <= 4)
      && (cbs.objects.None? ==> e == 1)
  {
    if cbs.objects.Some? {
      FirstFailureExactly(cbs.objects.value, start, last);
    }
  }

  /** Asking for one object succeeds exactly if its id is none of 7 to 127, the table is shown and has its string. */
  lemma ObjectToldExactly<D>(cbs: Callbacks<D>, broadcast: bool, id: byte)
    ensures var e := ObjectError(cbs, broadcast, id);
      && (e == -1 <==> 7 <= id <= 127)
      && (e == 0 <==> (id <= 6 || id >= 128) && TableShown(cbs, broadcast) && id in cbs.objects.value.mapped
                      && cbs.objects.value.stringOf(id).error == 0)
      && (e == -3 <==> (id <= 6 || id >= 128) && cbs.objects.Some? && broadcast)
      && (e < 0 || e <= 4)
  {}
}
