/** Device identification, FC 43 / 14: the pages that the server sends, and following them to the end. */
module DeviceIds {
  import opened Words
  import opened Frames
  import opened Serving

  const MEI_TYPE: byte := 0x0E
  const CONFORMITY: byte := 0x83
  /** Room for objects in a response: the largest PDU without the seven bytes before them. */
  const PAGE_ROOM := 246

  /** The last object id of a category of objects: 1 basic, 2 regular, 3 extended. */
  function LastId(code: byte): byte {
    if code == 1 then 0x02 else if code == 2 then 0x07 else 0xFF
  }

  predicate InCategory(code: byte, id: byte) {
    if code == 1 then id <= 0x02 else if code == 2 then 0x03 <= id <= 0x07 else id >= 0x80
  }

  datatype Object = Object(id: byte, text: Text)

  /** The objects of one page and, when not all fit, the id at which the next page begins; or an exception. */
  datatype Page = Page(objects: seq<Object>, next: Option<byte>) | Failed(code: byte)

  /** The page that begins at an id, for objects that may take up so many bytes more. */
  function PageFrom(t: ObjectTable, id: nat, last: byte, left: nat): Page
    requires id <= last + 1
    decreases last + 1 - id
  {
    if id > last then Page([], None)
    else if id !in t.mapped then
      if id < 0x03 then Failed(SERVER_DEVICE_FAILURE) else PageFrom(t, id + 1, last, left)
    else
      var s := t.stringOf(id);
      if s.error != ERROR_NONE then Failed(FailureCode(s.error))
      else if left < 2 + |s.text| then Page([], Some(id))
      else
        match PageFrom(t, id + 1, last, left - 2 - |s.text|)
        case Failed(code) => Failed(code)
        case Page(objects, next) => Page([Object(id, s.text)] + objects, next)
  }

  function ObjectBytes(o: Object): (s: seq<byte>)
    ensures |s| == 2 + |o.text|
  {
    [o.id, |o.text|] + o.text
  }

  function AllObjectBytes(objects: seq<Object>): seq<byte> {
    if objects == [] then [] else AllObjectBytes(objects[..|objects| - 1]) + ObjectBytes(objects[|objects| - 1])
  }

  /** The data of a response that carries a page. */
  function PageData(code: byte, p: Page): seq<byte>
    requires p.Page? && |p.objects| < 0x100
  {
    [MEI_TYPE, code, CONFORMITY, if p.next.Some? then 0xFF else 0, if p.next.Some? then p.next.value else 0,
     |p.objects|] + AllObjectBytes(p.objects)
  }

  function ServeDeviceId<D>(cbs: Callbacks<D>, dev: D, broadcast: bool, meiType: byte, code: byte, objectId: byte)
    : (Outcome, D)
  {
    if cbs.objects.None? then (Exception(ILLEGAL_FUNCTION), dev)
    else if meiType != MEI_TYPE then (Exception(ILLEGAL_FUNCTION), dev)
    else if code < 1 || code > 4 then (Exception(ILLEGAL_DATA_VALUE), dev)
    else if 6 < objectId < 0x80 then (Exception(ILLEGAL_DATA_ADDRESS), dev)
    else if broadcast then (Silent, dev)
    else
      var t := cbs.objects.value;
      if t.mapError != ERROR_NONE then (Exception(FailureCode(t.mapError)), dev)
      else if code == 4 then
        if objectId !in t.mapped then (Exception(ILLEGAL_DATA_ADDRESS), dev)
        else
          var s := t.stringOf(objectId);
          if s.error != ERROR_NONE then (Exception(FailureCode(s.error)), dev)
          else (Reply(PageData(4, Page([Object(objectId, s.text)], None))), dev)
      else if !InCategory(code, objectId) then (Exception(ILLEGAL_DATA_ADDRESS), dev)
      else
        PageFits(t, objectId, LastId(code), PAGE_ROOM);
        match PageFrom(t, objectId, LastId(code), PAGE_ROOM)
        case Failed(e) => (Exception(e), dev)
        case p => (Reply(PageData(code, p)), dev)
  }

  // ----- what a page holds

  lemma AllObjectBytesConcat(a: seq<Object>, b: seq<Object>)
    ensures AllObjectBytes(a + b) == AllObjectBytes(a) + AllObjectBytes(b)
  {
    if b == [] {
      assert a + b == a;
    } else {
      var b' := b[..|b| - 1];
      assert (a + b)[..|a + b| - 1] == a + b';
      AllObjectBytesConcat(a, b');
    }
  }

  lemma OneObject(o: Object)
    ensures AllObjectBytes([o]) == ObjectBytes(o)
  {
    assert [o][..0] == [];
  }

  /** A page never takes up more than its room, and so has at most half as many objects. */
  lemma {:induction false} PageFits(t: ObjectTable, id: nat, last: byte, left: nat)
    requires id <= last + 1
    ensures var p := PageFrom(t, id, last, left);
      p.Page? ==> |AllObjectBytes(p.objects)| <= left && 2 * |p.objects| <= left
    decreases last + 1 - id
  {
    if id <= last {
      if id !in t.mapped {
        PageFits(t, id + 1, last, left);
      } else {
        var s := t.stringOf(id);
        if s.error == ERROR_NONE && left >= 2 + |s.text| {
          PageFits(t, id + 1, last, left - 2 - |s.text|);
          var rest := PageFrom(t, id + 1, last, left - 2 - |s.text|);
          if rest.Page? {
            AllObjectBytesConcat([Object(id, s.text)], rest.objects);
            OneObject(Object(id, s.text));
          }
        }
      }
    }
  }

  /** The exception for the first id of a range that the table cannot answer for. */
  function FirstFailure(t: ObjectTable, id: nat, last: byte): Option<byte>
    requires id <= last + 1
    decreases last + 1 - id
  {
    if id > last then None
    else if id !in t.mapped then if id < 0x03 then Some(SERVER_DEVICE_FAILURE) else FirstFailure(t, id + 1, last)
    else if t.stringOf(id).error != ERROR_NONE then Some(FailureCode(t.stringOf(id).error))
    else FirstFailure(t, id + 1, last)
  }

  /** The table answers for a range if all strings can be read in it, and no basic id is missing. */
  lemma {:induction false} NoFailure(t: ObjectTable, id: nat, last: byte)
    requires id <= last + 1
    ensures FirstFailure(t, id, last).None? <==>
      forall x: byte {:trigger x in t.mapped} :: id <= x <= last ==>
        if x in t.mapped then t.stringOf(x).error == ERROR_NONE else x >= 0x03
    decreases last + 1 - id
  {
    if id <= last {
      NoFailure(t, id + 1, last);
      var first: byte := id;
      assert first in t.mapped || first !in t.mapped;
    }
  }

  /** All mapped objects with ids from one to another, in ascending order. */
  function ObjectsBetween(t: ObjectTable, id: nat, last: byte): seq<Object>
    requires id <= last + 1
    decreases last + 1 - id
  {
    if id > last then []
    else if id in t.mapped then [Object(id, t.stringOf(id).text)] + ObjectsBetween(t, id + 1, last)
    else ObjectsBetween(t, id + 1, last)
  }

  /**
   * Page and rest together are all objects; the next page begins further on, unless it would begin with nothing. A page
   * fails, or leaves a failure to the rest, exactly when there is one.
   */
  lemma {:induction false} PageThenRest(t: ObjectTable, id: nat, last: byte, left: nat)
    requires id <= last + 1
    ensures var p := PageFrom(t, id, last, left);
      match p
      case Failed(code) => FirstFailure(t, id, last) == Some(code)
      case Page(objects, None) => objects == ObjectsBetween(t, id, last) && FirstFailure(t, id, last) == None
      case Page(objects, Some(next)) =>
        && id <= next <= last && next in t.mapped && t.stringOf(next).error == ERROR_NONE
        && ObjectsBetween(t, id, last) == objects + ObjectsBetween(t, next, last)
        && FirstFailure(t, id, last) == FirstFailure(t, next, last)
        && (left >= 129 ==> next > id && objects != [])
    decreases last + 1 - id
  {
    if id <= last {
      if id !in t.mapped {
        if id >= 0x03 {
          PageThenRest(t, id + 1, last, left);
        }
      } else {
        var s := t.stringOf(id);
        if s.error == ERROR_NONE && left >= 2 + |s.text| {
          var o := Object(id, s.text);
          PageThenRest(t, id + 1, last, left - 2 - |s.text|);
          var rest := PageFrom(t, id + 1, last, left - 2 - |s.text|);
          if rest.Page? && rest.next.Some? {
            assert [o] + (rest.objects + ObjectsBetween(t, rest.next.value, last))
                == ([o] + rest.objects) + ObjectsBetween(t, rest.next.value, last);
          }
        }
      }
    }
  }

  /** What is met by following the pages from an id on. */
  function FollowPages(t: ObjectTable, id: byte, last: byte): seq<seq<Object>>
    requires id <= last && FirstFailure(t, id, last).None?
    decreases last - id
  {
    PageThenRest(t, id, last, PAGE_ROOM);
    var p := PageFrom(t, id, last, PAGE_ROOM);
    if p.next.None? then [p.objects] else [p.objects] + FollowPages(t, p.next.value, last)
  }

  function Flatten(pages: seq<seq<Object>>): seq<Object> {
    if pages == [] then [] else pages[0] + Flatten(pages[1..])
  }

  /** Following the pages delivers every mapped object of the range, in ascending order, each exactly once. */
  lemma {:induction false} PagingIsComplete(t: ObjectTable, id: byte, last: byte)
    requires id <= last && FirstFailure(t, id, last).None?
    ensures Flatten(FollowPages(t, id, last)) == ObjectsBetween(t, id, last)
    ensures forall k :: 0 <= k < |FollowPages(t, id, last)| - 1 ==> FollowPages(t, id, last)[k] != []
    decreases last - id
  {
    PageThenRest(t, id, last, PAGE_ROOM);
    var p := PageFrom(t, id, last, PAGE_ROOM);
    if p.next.Some? {
      PagingIsComplete(t, p.next.value, last);
      var rest := FollowPages(t, p.next.value, last);
      assert ([p.objects] + rest)[1..] == rest;
      forall k | 0 <= k < |[p.objects] + rest| - 1
        ensures ([p.objects] + rest)[k] != []
      {
        if k > 0 {
          assert ([p.objects] + rest)[k] == rest[k - 1];
        }
      }
    } else {
      assert Flatten([p.objects]) == p.objects + Flatten([p.objects][1..]);
    }
  }

  /** The objects between two ids are exactly the mapped ones, in ascending order of their ids. */
  lemma {:induction false} ObjectsBetweenAreTheMapped(t: ObjectTable, id: nat, last: byte)
    requires id <= last + 1
    ensures forall o :: o in ObjectsBetween(t, id, last) <==>
      id <= o.id <= last && o.id in t.mapped && o.text == t.stringOf(o.id).text
    ensures forall i, j :: 0 <= i < j < |ObjectsBetween(t, id, last)| ==>
      ObjectsBetween(t, id, last)[i].id < ObjectsBetween(t, id, last)[j].id
    decreases last + 1 - id
  {
    if id <= last {
      ObjectsBetweenAreTheMapped(t, id + 1, last);
    }
  }
}
