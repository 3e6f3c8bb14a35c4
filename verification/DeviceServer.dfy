/** The handler of FC 43 / 14. */
module DeviceServer {
  import opened Words
  import opened Frames
  import opened Engine
  import Responses
  import Requests
  import Serving
  import opened DeviceIds
  import Server

  /** The loop over the object ids: how the page ends, with the bytes put so far. */
  method PutObjects(n: Nmbs, t: Serving.ObjectTable, objectId: byte, lastId: byte) returns (p: Page, msgSize: nat)
    requires n.Valid() && objectId <= lastId && n.idx + PAGE_ROOM <= BUFFER_SIZE
    modifies n`idx, n.buf
    ensures n.Valid() && n.idx <= old(n.idx) + PAGE_ROOM
    ensures p == PageFrom(t, objectId, lastId, PAGE_ROOM)
    ensures p.Page? ==>
      && n.Out() == old(n.Out()) + AllObjectBytes(p.objects)
      && n.idx == old(n.idx) + |AllObjectBytes(p.objects)|
      && msgSize == 6 + |AllObjectBytes(p.objects)| && |p.objects| < 0x100
  {
    hide Nmbs.Out, ObjectBytes, AllObjectBytes;
    ghost var before, from := n.Out(), n.idx;
    ghost var whole := PageFrom(t, objectId, lastId, PAGE_ROOM);
    PageFits(t, objectId, lastId, PAGE_ROOM);
    var id: nat := objectId;
    var resSizeLeft: int := PAGE_ROOM;
    var objects: seq<Object> := [];
    NoObjects(before);
    while id <= lastId
      invariant objectId <= id <= lastId + 1 && 0 <= resSizeLeft
      invariant n.Valid() && n.idx == from + |AllObjectBytes(objects)| && n.idx + resSizeLeft == from + PAGE_ROOM
      invariant n.Out() == before + AllObjectBytes(objects)
      invariant whole == Prepend(objects, PageFrom(t, id, lastId, resSizeLeft))
      decreases lastId + 1 - id
    {
      if id !in t.mapped {
        if id < 0x03 {
          return Failed(SERVER_DEVICE_FAILURE), 0;
        }
        id := id + 1;
      } else {
        var s := t.stringOf(id);
        if s.error != ERROR_NONE {
          return Failed(Serving.FailureCode(s.error)), 0;
        }
        resSizeLeft := resSizeLeft - 2 - |s.text|;
        if resSizeLeft < 0 {
          assert whole == Page(objects, Some(id));
          return Page(objects, Some(id)), 6 + ObjectsLength(objects);
        }
        var o := Object(id, s.text);
        PutObject(n, o);
        PrependMore(objects, o, PageFrom(t, id + 1, lastId, resSizeLeft));
        OneMoreObject(before, objects, o);
        objects := objects + [o];
        id := id + 1;
      }
    }
    assert whole == Page(objects, None) by {
      assert objects + [] == objects;
    }
    p := Page(objects, None);
    msgSize := 6 + ObjectsLength(objects);
  }

  function ObjectsLength(objects: seq<Object>): (n: nat)
    ensures n == |AllObjectBytes(objects)|
  {
    |AllObjectBytes(objects)|
  }

  function Prepend(objects: seq<Object>, p: Page): Page {
    match p
    case Failed(code) => Failed(code)
    case Page(rest, next) => Page(objects + rest, next)
  }

  lemma PrependMore(objects: seq<Object>, o: Object, p: Page)
    ensures Prepend(objects, Prepend([o], p)) == Prepend(objects + [o], p)
  {
    if p.Page? {
      assert objects + ([o] + p.objects) == (objects + [o]) + p.objects;
    }
  }

  lemma NoObjects(before: seq<byte>)
    ensures AllObjectBytes([]) == [] && before + AllObjectBytes([]) == before
  {}

  lemma OneMoreObject(before: seq<byte>, objects: seq<Object>, o: Object)
    ensures (before + AllObjectBytes(objects)) + ObjectBytes(o) == before + AllObjectBytes(objects + [o])
    ensures |AllObjectBytes(objects + [o])| == |AllObjectBytes(objects)| + 2 + |o.text|
  {
    assert (objects + [o])[..|objects|] == objects;
  }

  method PutObject(n: Nmbs, o: Object)
    requires n.Valid() && n.idx + 2 + |o.text| <= BUFFER_SIZE
    modifies n`idx, n.buf
    ensures n.Valid() && n.idx == old(n.idx) + |ObjectBytes(o)|
    ensures n.Out() == old(n.Out()) + ObjectBytes(o)
  {
    hide Nmbs.Out;
    ghost var before := n.Out();
    n.Put1(o.id);
    n.Put1(|o.text|);
    n.PutN(o.text);
    assert before + [o.id] + [|o.text|] + o.text == before + ObjectBytes(o);
  }

  lemma OneObjectData(h: seq<byte>, o: Object)
    ensures var data := PageData(4, Page([o], None));
      h + [MEI_TYPE, 4, CONFORMITY] + [0] + [0] + [1] + ObjectBytes(o) == h + data && |data| == 8 + |o.text|
  {
    OneObject(o);
  }

  /** Code 4: the one object that was asked for. */
  method SendOneObject(n: Nmbs, objectId: byte, text: Serving.Text) returns (err: int)
    requires n.Valid() && n.idx == HeaderLength(n.transport) + 3
    requires n.Out() == HeaderBytes(n.transport, n.Head(), 0) + [MEI_TYPE, 4, CONFORMITY]
    modifies n`idx, n`tx, n.buf
    ensures n.Valid() && err == ERROR_NONE
    ensures n.tx == old(n.tx) + Emitted(n.transport, n.crc, n.Head(),
                                        Reply(PageData(4, Page([Object(objectId, text)], None))))
  {
    hide Nmbs.Out, HeaderBytes, WithLength, AllObjectBytes, PageData, ObjectBytes;
    ghost var h := HeaderBytes(n.transport, n.Head(), 0);
    var o := Object(objectId, text);
    n.Put1(0);
    n.Put1(0);
    n.Put1(1);
    PutObject(n, o);
    n.SetMsgHeaderSize(6 + 2 + |text|);
    ghost var data := PageData(4, Page([o], None));
    OneObjectData(h, o);
    WithLengthIsHeader(n.transport, n.Head(), data, 0, |data|);
    err := n.SendMsg();
  }

  /** Codes 1 to 3: the loop, and then the three bytes and the length that only it could tell. */
  method SendPage(n: Nmbs, t: Serving.ObjectTable, code: byte, objectId: byte) returns (err: int)
    requires n.Valid() && n.idx == HeaderLength(n.transport) + 3 && 1 <= code <= 3 && InCategory(code, objectId)
    requires n.Out() == HeaderBytes(n.transport, n.Head(), 0) + [MEI_TYPE, code, CONFORMITY]
    modifies n`idx, n`fc, n`tx, n.buf
    ensures n.Valid() && err == ERROR_NONE
    ensures var p := PageFrom(t, objectId, LastId(code), PAGE_ROOM);
      && (p.Page? ==> |p.objects| < 0x100)
      && n.tx == old(n.tx) + Emitted(n.transport, n.crc, old(n.Head()),
           if p.Failed? then Exception(p.code) else Reply(PageData(code, p)))
  {
    hide Nmbs.Out, HeaderBytes, WithLength, PageFrom, AllObjectBytes;
    ghost var h, at := HeaderBytes(n.transport, n.Head(), 0), n.idx;
    var moreFollowsIdx := n.idx;
    n.Put1(0);
    var nextObjectIdIdx := n.idx;
    n.Put1(0);
    var numberOfObjectsIdx := n.idx;
    n.Put1(0);
    ghost var front := n.Out();
    assert front == h + [MEI_TYPE, code, CONFORMITY, 0, 0, 0];
    var p, msgSize := PutObjects(n, t, objectId, LastId(code));
    if p.Failed? {
      err := n.SendExceptionMsg(p.code);
      return;
    }
    n.Set1(if p.next.Some? then 0xFF else 0, moreFollowsIdx);
    n.Set1(if p.next.Some? then p.next.value else 0, nextObjectIdIdx);
    n.Set1(|p.objects|, numberOfObjectsIdx);
    PatchPage(h, code, p);
    assert n.Out() == h + PageData(code, p);
    n.SetMsgHeaderSize(msgSize);
    WithLengthIsHeader(n.transport, n.Head(), PageData(code, p), 0, msgSize);
    err := n.SendMsg();
  }

  lemma PatchPage(h: seq<byte>, code: byte, p: Page)
    requires p.Page? && |p.objects| < 0x100
    ensures var m := h + [MEI_TYPE, code, CONFORMITY, 0, 0, 0] + AllObjectBytes(p.objects);
      m[|h| + 3 := if p.next.Some? then 0xFF else 0]
       [|h| + 4 := if p.next.Some? then p.next.value else 0]
       [|h| + 5 := |p.objects|] == h + PageData(code, p)
  {}

  method AnswerDeviceId<D>(n: Nmbs, cbs: Serving.Callbacks<D>, dev: D, meiType: byte, code: byte, objectId: byte)
    returns (err: int)
    requires n.Valid()
    modifies n`idx, n`fc, n`tx, n.buf
    ensures n.Valid() && err == ERROR_NONE
    ensures var (o, d) := ServeDeviceId(cbs, dev, n.broadcast, meiType, code, objectId);
      d == dev && n.tx == old(n.tx) + Emitted(n.transport, n.crc, old(n.Head()), o)
  {
    hide Nmbs.Out, HeaderBytes, PageFrom, PageData, Emitted;
    if cbs.objects.None? {
      err := n.SendExceptionMsg(ILLEGAL_FUNCTION);
      return;
    }
    if meiType != 0x0E {
      err := n.SendExceptionMsg(ILLEGAL_FUNCTION);
      return;
    }
    if code < 1 || code > 4 {
      err := n.SendExceptionMsg(ILLEGAL_DATA_VALUE);
      return;
    }
    if objectId > 6 && objectId < 0x80 {
      err := n.SendExceptionMsg(ILLEGAL_DATA_ADDRESS);
      return;
    }
    if n.broadcast {
      SilenceIsEmpty(n.transport, n.crc, n.Head(), n.tx);
      return ERROR_NONE;
    }
    var t := cbs.objects.value;
    if t.mapError != ERROR_NONE {
      err := Server.AnswerFailure(n, t.mapError);
      return;
    }
    n.PutMsgHeader(0);
    ghost var h := n.Out();
    n.Put1(0x0E);
    n.Put1(code);
    n.Put1(0x83);
    assert n.Out() == h + [MEI_TYPE, code, CONFORMITY];
    if code == 4 {
      if objectId !in t.mapped {
        err := n.SendExceptionMsg(ILLEGAL_DATA_ADDRESS);
        return;
      }
      var s := t.stringOf(objectId);
      if s.error != ERROR_NONE {
        err := Server.AnswerFailure(n, s.error);
        return;
      }
      err := SendOneObject(n, objectId, s.text);
      return;
    }
    if !InCategory(code, objectId) {
      err := n.SendExceptionMsg(ILLEGAL_DATA_ADDRESS);
      return;
    }
    err := SendPage(n, t, code, objectId);
  }

  method HandleReadDeviceIdentification<D>(n: Nmbs, cbs: Serving.Callbacks<D>, dev: D) returns (err: int)
    requires Server.Handling(n) && n.fc == 43 && !n.ignored
    requires Responses.BodyArrived(n.transport, n.msg, Requests.RequestForm(43))
    modifies n`idx, n`fc, n`tx, n`rx, n`avail, n.buf
    ensures n.Valid()
    ensures var end := Responses.BodyEnd(n.transport, n.msg, Requests.RequestForm(43));
      if !TrailerFits(n.transport, n.crc, n.msg, end) then
        && err == ERROR_CRC && n.tx == old(n.tx)
        && n.rx == LineLeft(n.transport, n.msg, end + TrailerLength(n.transport), old(n.rx))
      else
        var (o, d) := ServeDeviceId(cbs, dev, n.broadcast, n.msg[end - 3], n.msg[end - 2], n.msg[end - 1]);
        && err == ERROR_NONE && d == dev
        && n.tx == old(n.tx) + Emitted(n.transport, n.crc, old(n.Head()), o)
        && n.rx == LineLeft(n.transport, n.msg, end + TrailerLength(n.transport), old(n.rx))
  {
    hide Nmbs.Receiving, ServeDeviceId, Emitted, TrailerFits;
    err := n.Recv(3);
    if err != ERROR_NONE {
      return;
    }
    var meiType := n.Get1();
    var readDeviceIdCode := n.Get1();
    var objectId := n.Get1();
    err := n.RecvMsgFooter();
    n.BehindFooter();
    if err != ERROR_NONE {
      return;
    }
    err := AnswerDeviceId(n, cbs, dev, meiType, readDeviceIdCode, objectId);
  }
}
