/** What the pages of FC 43 / 14 add up to, by range of ids and by buffer. */
module DevicePaging {
  import opened Words
  import opened Serving
  import opened DeviceIds
  import opened DeviceResponses

  /** All mapped objects from one id up to, but not including, another. */
  function ObjectsUpTo(t: ObjectTable, id: nat, end: nat): seq<Object>
    requires id <= end <= 0x100
  {
    if end == 0 then [] else ObjectsBetween(t, id, end - 1)
  }

  lemma {:induction false} BetweenSplit(t: ObjectTable, id: nat, mid: nat, last: byte)
    requires id <= mid <= last
    ensures ObjectsBetween(t, id, last) == ObjectsUpTo(t, id, mid) + ObjectsBetween(t, mid, last)
    decreases mid - id
  {
    if id < mid {
      BetweenSplit(t, id + 1, mid, last);
    }
  }

  /** Where the ids of a page end. */
  function PageEnd(p: Page, last: byte): nat
    requires p.Page?
  {
    if p.next.None? then last + 1 else p.next.value
  }

  /** A page holds exactly the mapped objects of a range of ids that is not empty. */
  lemma PageIsRange(t: ObjectTable, id: byte, last: byte)
    requires id <= last && PageFrom(t, id, last, PAGE_ROOM).Page?
    ensures var p := PageFrom(t, id, last, PAGE_ROOM);
      && id < PageEnd(p, last) <= last + 1
      && p.objects == ObjectsUpTo(t, id, PageEnd(p, last))
      && (p.next.Some? ==> p.objects != [] && p.next.value <= last && p.next.value in t.mapped)
  {
    PageThenRest(t, id, last, PAGE_ROOM);
    var p := PageFrom(t, id, last, PAGE_ROOM);
    if p.next.Some? {
      BetweenSplit(t, id, p.next.value, last);
      SameFront(p.objects, ObjectsUpTo(t, id, p.next.value), ObjectsBetween(t, p.next.value, last));
    }
  }

  /** The table can answer for an id: it has no string there, unless there must be one, or one that can be read. */
  predicate Answers(t: ObjectTable, id: byte) {
    if id in t.mapped then t.stringOf(id).error == 0 else id >= 3
  }

  /**
   * A page is the longest that fits: it ends behind the last id, in front of a string for which no room is left, or
   * fails at the first id for which there is no answer.
   */
  ghost predicate Longest(t: ObjectTable, id: nat, last: byte, left: nat, p: Page)
    requires id <= last + 1
  {
    match p
    case Page(objects, next) =>
      var end: nat := if next.None? then last + 1 else next.value;
      && id <= end && objects == ObjectsUpTo(t, id, end) && (forall x :: id <= x < end ==> Answers(t, x))
      && |AllObjectBytes(objects)| <= left
      && (next.Some? ==>
           && end <= last && end in t.mapped && t.stringOf(end).error == 0
           && |AllObjectBytes(objects)| + 2 + |t.stringOf(end).text| > left)
    case Failed(code) =>
      exists x: byte :: FailsAt(t, id, last, left, x) && code == FailureAt(t, x)
  }

  ghost predicate FailsAt(t: ObjectTable, id: nat, last: byte, left: nat, x: byte) {
    FirstWithout(t, id, last, x) && |AllObjectBytes(ObjectsUpTo(t, id, x))| <= left
  }

  function FailureAt(t: ObjectTable, x: byte): byte {
    var e := t.stringOf(x).error;
    if x in t.mapped && 1 <= e <= 4 then e else 4
  }

  lemma {:induction false} PageIsLongest(t: ObjectTable, id: nat, last: byte, left: nat)
    requires id <= last + 1
    ensures Longest(t, id, last, left, PageFrom(t, id, last, left))
    decreases last + 1 - id
  {
    hide AllObjectBytes;
    EmptyIsShort();
    var p := PageFrom(t, id, last, left);
    if id <= last {
      if !Answers(t, id) {
        assert FailsAt(t, id, last, left, id);
      } else if id !in t.mapped {
        PageIsLongest(t, id + 1, last, left);
        Prolonged(t, id, last, left, left, p, p);
      } else if left >= 2 + |t.stringOf(id).text| {
        var left' := left - 2 - |t.stringOf(id).text|;
        PageIsLongest(t, id + 1, last, left');
        Prolonged(t, id, last, left, left', PageFrom(t, id + 1, last, left'), p);
      }
    }
  }

  lemma EmptyIsShort()
    ensures AllObjectBytes([]) == []
  {}

  /** One more id in front. */
  lemma Prolonged(t: ObjectTable, id: nat, last: byte, left: nat, left': nat, rest: Page, p: Page)
    requires id <= last && Answers(t, id) && Longest(t, id + 1, last, left', rest)
    requires
      if id in t.mapped then
        var o := Object(id, t.stringOf(id).text);
        left == left' + 2 + |o.text| && p == if rest.Failed? then rest else Page([o] + rest.objects, rest.next)
      else left == left' && p == rest
    ensures Longest(t, id, last, left, p)
  {
    hide AllObjectBytes;
    if rest.Page? {
      var end: nat := if rest.next.None? then last + 1 else rest.next.value;
      OneIdInFront(t, id, end);
    } else {
      var x: byte :| FailsAt(t, id + 1, last, left', x) && rest.code == FailureAt(t, x);
      OneIdInFront(t, id, x);
      assert FailsAt(t, id, last, left, x);
    }
  }

  lemma OneIdInFront(t: ObjectTable, id: nat, end: nat)
    requires id < end <= 0x100
    ensures var o := Object(id, t.stringOf(id).text);
      if id in t.mapped then
        && ObjectsUpTo(t, id, end) == [o] + ObjectsUpTo(t, id + 1, end)
        && |AllObjectBytes(ObjectsUpTo(t, id, end))|
        == 2 + |o.text| + |AllObjectBytes(ObjectsUpTo(t, id + 1, end))|
      else ObjectsUpTo(t, id, end) == ObjectsUpTo(t, id + 1, end)
  {
    hide AllObjectBytes;
    if id in t.mapped {
      var o := Object(id, t.stringOf(id).text);
      AllObjectBytesConcat([o], ObjectsUpTo(t, id + 1, end));
      OneObject(o);
    }
  }

  /** The first failure of a range is that of the first id for which the table has no answer. */
  lemma {:induction false} FirstFailureExactly(t: ObjectTable, id: nat, last: byte)
    requires id <= last + 1
    ensures match FirstFailure(t, id, last)
      case None => forall x :: id <= x <= last ==> Answers(t, x)
      case Some(code) => exists x: byte :: FirstWithout(t, id, last, x) && code == FailureAt(t, x)
    decreases last + 1 - id
  {
    if id <= last {
      if !Answers(t, id) {
        assert FirstWithout(t, id, last, id);
      } else {
        FirstFailureExactly(t, id + 1, last);
        if FirstFailure(t, id, last).Some? {
          var x: byte :| FirstWithout(t, id + 1, last, x) && FirstFailure(t, id, last) == Some(FailureAt(t, x));
          assert FirstWithout(t, id, last, x);
        }
      }
    }
  }

  ghost predicate FirstWithout(t: ObjectTable, id: nat, last: byte, x: byte) {
    id <= x <= last && !Answers(t, x) && forall y :: id <= y < x ==> Answers(t, y)
  }

  lemma SameFront(a: seq<Object>, b: seq<Object>, c: seq<Object>)
    requires a + c == b + c
    ensures a == b
  {
    assert |a| == |b|;
    assert a == (a + c)[..|a|] && b == (b + c)[..|b|];
  }

  /** The objects of one page behind those of the pages before it. */
  lemma OneMorePage(t: ObjectTable, start: nat, id: nat, end: nat)
    requires start <= id < end <= 0x100
    ensures ObjectsUpTo(t, start, end) == ObjectsUpTo(t, start, id) + ObjectsUpTo(t, id, end)
  {
    BetweenSplit(t, start, id, end - 1);
  }

  /** At most one object for each id, up to the last one that can be mapped. */
  lemma {:induction false} FewObjects(t: ObjectTable, id: nat, last: nat, high: byte)
    requires id <= last + 1 <= 0x100
    requires forall x :: high < x <= last ==> x !in t.mapped
    ensures |ObjectsBetween(t, id, last)| <= if id <= high then high + 1 - id else 0
    decreases last + 1 - id
  {
    if id <= last {
      FewObjects(t, id + 1, last, high);
    }
  }

  // ----- the buffers

  /** Two pages put one after the other are all their objects put at once. */
  lemma {:induction false} PlacedConcat(buffers: seq<Text>, first: nat, order: seq<byte>,
                                        xs: seq<Object>, ys: seq<Object>)
    ensures Placed(Placed(buffers, first, order, xs), first + |xs|, order, ys) == Placed(buffers, first, order, xs + ys)
  {
    if ys == [] {
      assert xs + ys == xs;
    } else {
      var k := |ys| - 1;
      PlacedConcat(buffers, first, order, xs, ys[..k]);
      assert (xs + ys)[..|xs| + k] == xs + ys[..k];
      assert (xs + ys)[|xs| + k] == ys[k];
    }
  }

  lemma PlacedIdsConcat(ids: seq<byte>, xs: seq<Object>, ys: seq<Object>)
    requires |xs| + |ys| <= |ids|
    ensures PlacedIds(PlacedIds(ids, 0, xs), |xs|, ys) == PlacedIds(ids, 0, xs + ys)
  {
    assert IdsOf(xs + ys) == IdsOf(xs) + IdsOf(ys);
    assert PlacedIds(ids, 0, xs)[..|xs|] == IdsOf(xs);
    assert PlacedIds(ids, 0, xs)[|xs| + |ys|..] == ids[|xs| + |ys|..];
  }

  function TextsOf(objects: seq<Object>): (r: seq<Text>)
    ensures |r| == |objects|
  {
    seq(|objects|, i requires 0 <= i < |objects| => objects[i].text)
  }

  /** Without an order, the strings stand one after another. */
  lemma {:induction false} PlacedInTurn(buffers: seq<Text>, objects: seq<Object>)
    requires |objects| <= |buffers|
    ensures Placed(buffers, 0, [], objects) == TextsOf(objects) + buffers[|objects|..]
  {
    if objects != [] {
      var k := |objects| - 1;
      PlacedInTurn(buffers, objects[..k]);
      assert TextsOf(objects) == TextsOf(objects[..k]) + [objects[k].text];
    }
  }

  /** With an order that keeps ids apart, every string stands at its place and all other buffers are as before. */
  lemma {:induction false} PlacedById(buffers: seq<Text>, order: seq<byte>, objects: seq<Object>)
    requires order != [] && Placeable(0, order, objects, |buffers|)
    requires forall i, j :: 0 <= i < j < |objects| ==> order[objects[i].id] != order[objects[j].id]
    ensures forall i {:trigger objects[i]} :: 0 <= i < |objects| ==>
      Placed(buffers, 0, order, objects)[order[objects[i].id]] == objects[i].text
    ensures forall s :: 0 <= s < |buffers| && (forall i :: 0 <= i < |objects| ==> order[objects[i].id] != s) ==>
      Placed(buffers, 0, order, objects)[s] == buffers[s]
  {
    if objects != [] {
      var k := |objects| - 1;
      var front := objects[..k];
      assert forall i {:trigger front[i]} :: 0 <= i < k ==> front[i] == objects[i];
      PlacedById(buffers, order, front);
      var r := Placed(buffers, 0, order, front);
      assert Placed(buffers, 0, order, objects) == r[order[objects[k].id] := objects[k].text];
      forall i | 0 <= i < |objects|
        ensures Placed(buffers, 0, order, objects)[order[objects[i].id]] == objects[i].text
      {
        if i < k {
          assert front[i] == objects[i];
        }
      }
      forall s | 0 <= s < |buffers| && (forall i :: 0 <= i < |objects| ==> order[objects[i].id] != s)
        ensures Placed(buffers, 0, order, objects)[s] == buffers[s]
      {
        assert forall i :: 0 <= i < k ==> order[front[i].id] != s;
      }
    }
  }

  /** The ids of a range have their buffers in the same order. */
  predicate InIdOrder(order: seq<byte>, low: byte, high: byte) {
    low <= high && |order| == high + 1 && forall id :: low <= id <= high ==> order[id] == id - low
  }

  /** The objects of a range all have their places. */
  lemma RangeHasPlaces(t: ObjectTable, order: seq<byte>, low: byte, high: byte, last: byte)
    requires InIdOrder(order, low, high) && high <= last && forall x :: high < x <= last ==> x !in t.mapped
    ensures var objects := ObjectsBetween(t, low, last);
      && Placeable(0, order, objects, high + 1 - low)
      && (forall k {:trigger objects[k]} :: 0 <= k < |objects| ==>
           low <= objects[k].id <= high && objects[k].id in t.mapped && order[objects[k].id] == objects[k].id - low)
      && (forall i, j :: 0 <= i < j < |objects| ==> order[objects[i].id] != order[objects[j].id])
  {
    hide ObjectsBetween;
    var objects := ObjectsBetween(t, low, last);
    ObjectsBetweenAreTheMapped(t, low, last);
    assert forall k {:trigger objects[k]} :: 0 <= k < |objects| ==> objects[k] in objects;
  }

  /** A mapped object of the range lands in its buffer; a buffer whose object is not mapped is left alone. */
  lemma OneIdPlaced(t: ObjectTable, buffers: seq<Text>, order: seq<byte>, low: byte, high: byte, last: byte, id: byte)
    requires InIdOrder(order, low, high) && high <= last && |buffers| == high + 1 - low && low <= id <= high
    requires forall x :: high < x <= last ==> x !in t.mapped
    ensures Placed(buffers, 0, order, ObjectsBetween(t, low, last))[id - low]
         == if id in t.mapped then t.stringOf(id).text else buffers[id - low]
  {
    hide Placed, ObjectsBetween, Placeable;
    var objects := ObjectsBetween(t, low, last);
    RangeHasPlaces(t, order, low, high, last);
    assert high + 1 - low == |buffers|;
    PlacedById(buffers, order, objects);
    if id in t.mapped {
      var k := IndexOfObject(t, low, last, id);
      assert objects[k].id == id;
    }
  }

  lemma IndexOfObject(t: ObjectTable, low: byte, last: byte, id: byte) returns (k: nat)
    requires low <= id <= last && id in t.mapped
    ensures k < |ObjectsBetween(t, low, last)|
    ensures ObjectsBetween(t, low, last)[k] == Object(id, t.stringOf(id).text)
  {
    hide ObjectsBetween;
    ObjectsBetweenAreTheMapped(t, low, last);
    assert Object(id, t.stringOf(id).text) in ObjectsBetween(t, low, last);
    k :| k < |ObjectsBetween(t, low, last)| && ObjectsBetween(t, low, last)[k] == Object(id, t.stringOf(id).text);
  }

  /** Every page of the range has places for its objects. */
  lemma UpToPlaceable(t: ObjectTable, order: seq<byte>, low: byte, high: byte, id: nat, end: nat, first: nat)
    requires InIdOrder(order, low, high) && low <= id <= end <= 0x100
    requires forall x :: high < x < end ==> x !in t.mapped
    ensures Placeable(first, order, ObjectsUpTo(t, id, end), high + 1 - low)
  {
    var objects := ObjectsUpTo(t, id, end);
    if end != 0 {
      ObjectsBetweenAreTheMapped(t, id, end - 1);
      assert forall k {:trigger objects[k]} :: 0 <= k < |objects| ==>
        objects[k] in objects && low <= objects[k].id <= high;
    }
  }
}
