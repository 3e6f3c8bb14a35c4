/** byte_fifo.c: a ring buffer that drops its oldest byte when it is full. */
module ByteFifos {
  import opened Words
  import Rings

  const EFAULT := 14

  /** The last n bytes of s, or all of it. */
  function LastOf(s: seq<byte>, n: nat): seq<byte> {
    if |s| <= n then s else s[|s| - n..]
  }

  /** By how many bytes s is longer than n. */
  function Excess(s: seq<byte>, n: nat): nat {
    if |s| <= n then 0 else |s| - n
  }

  /** The value that an int16_t return holds. */
  function Int16(n: int): int {
    (n + 0x8000) % 0x1_0000 - 0x8000
  }

  class ByteFifo {
    const data: array<byte>
    var writeIndex: nat
    var readIndex: nat
    var nElements: nat

    ghost function View(): Rings.Ring
      reads this, data
    {
      Rings.Ring(data[..], writeIndex, readIndex, nElements)
    }

    ghost predicate Valid()
      reads this, data
    {
      View().Valid()
    }

    ghost function Contents(): seq<byte>
      requires Valid()
      reads this, data
    {
      View().Contents()
    }

    lemma ContentsSize()
      requires Valid()
      ensures |Contents()| == nElements <= data.Length
    {}

    constructor (storage: array<byte>)
      requires storage.Length >= 1
      ensures data == storage && Valid() && Contents() == []
    {
      data := storage;
      writeIndex, readIndex, nElements := 0, 0, 0;
    }

    method Reset() returns (r: int)
      modifies this, data
      ensures data.Length == 0 ==> r == -EFAULT && View() == old(View())
      ensures data.Length > 0 ==> r == 0 && View() == old(View()).Reset()
      ensures data.Length > 0 ==> Valid() && Contents() == []
    {
      if data.Length == 0 {
        return -EFAULT;
      }
      writeIndex := 0;
      readIndex := 0;
      nElements := 0;
      for i := 0 to data.Length
        invariant writeIndex == readIndex == nElements == 0
        invariant forall j :: 0 <= j < i ==> data[j] == 0
      {
        data[i] := 0;
      }
      assert data[..] == old(View()).Reset().data;
      r := 0;
    }

    method IsAvailable() returns (r: bool)
      requires Valid()
      ensures r <==> |Contents()| < data.Length
    {
      r := nElements < data.Length;
    }

    /** The region that byte_fifo_write runs under the lock. */
    method WriteRegion(b: byte) returns (stored: bool)
      requires Valid()
      modifies this, data
      ensures Valid()
      ensures stored <==> old(nElements) < data.Length
      ensures stored ==> View() == old(View()).Store(b) && Contents() == old(Contents()) + [b]
      ensures !stored ==> View() == old(View()).Drop() && Contents() == old(Contents())[1..]
    {
      if nElements < data.Length {
        View().StoreAppends(b);
        var index := writeIndex;
        data[index] := b;
        writeIndex := if index < data.Length - 1 then index + 1 else 0;
        nElements := nElements + 1;
        stored := true;
      } else {
        View().DropTakesOldest();
        var index := readIndex;
        readIndex := if index < data.Length - 1 then index + 1 else 0;
        nElements := nElements - 1;
        stored := false;
      }
    }

    /** The region that byte_fifo_read runs under the lock. */
    method ReadRegion() returns (b: Option<byte>)
      requires Valid()
      modifies this
      ensures Valid()
      ensures b.None? <==> old(Contents()) == []
      ensures b.None? ==> View() == old(View())
      ensures b.Some? ==> View() == old(View()).Drop() && old(Contents()) == [b.value] + Contents()
    {
      if nElements > 0 {
        View().DropTakesOldest();
        var index := readIndex;
        b := Some(data[index]);
        readIndex := if index < data.Length - 1 then index + 1 else 0;
        nElements := nElements - 1;
      } else {
        b := None;
      }
    }

    /** Everything offered is stored; what no longer fits is dropped from the old end. */
    method Write(bytes: array<byte>, len: nat) returns (r: int)
      requires Valid() && bytes != data && len <= bytes.Length
      modifies this, data
      ensures Valid()
      ensures Contents() == LastOf(old(Contents()) + bytes[..len], data.Length)
      ensures r == Int16(Excess(old(Contents()) + bytes[..len], data.Length))
    {
      hide Contents, LastOf, Excess, Rings.Ring.Store, Rings.Ring.Drop;
      var nBytesWritten := 0;
      var nBytesOverwritten := 0;
      var left := len;
      ghost var input := bytes[..len];
      ghost var all := Contents() + input;
      ContentsSize();
      ghost var end := |all| - len;
      while left > 0
        invariant Valid()
        invariant nBytesWritten + left == len && 0 <= left && end == |all| - left
        invariant bytes[..len] == input
        invariant nBytesOverwritten <= end && Contents() == all[nBytesOverwritten..end]
        invariant nBytesOverwritten > 0 ==> nElements + (if left > 0 then 1 else 0) >= data.Length
        decreases left, nElements
      {
        ContentsSize();
        assert all[end] == input[nBytesWritten] == bytes[nBytesWritten];
        var stored := WriteRegion(bytes[nBytesWritten]);
        if stored {
          SliceGrows(all, nBytesOverwritten, end);
          nBytesWritten := nBytesWritten + 1;
          left := left - 1;
          end := end + 1;
        } else {
          SliceShrinks(all, nBytesOverwritten, end);
          nBytesOverwritten := nBytesOverwritten + 1;
        }
        ContentsSize();
      }
      ContentsSize();
      assert all[nBytesOverwritten..end] == all[nBytesOverwritten..];
      Kept(all, nBytesOverwritten, data.Length);
      r := Int16(nBytesOverwritten);
    }

    /** The longest available prefix, oldest byte first. */
    method Read(buffer: array<byte>, maxLen: nat) returns (r: int)
      requires Valid() && buffer != data && maxLen <= buffer.Length
      modifies this, buffer
      ensures Valid()
      ensures var n := if maxLen < |old(Contents())| then maxLen else |old(Contents())|;
        && r == Int16(n)
        && buffer[..n] == old(Contents())[..n]
        && buffer[n..] == old(buffer[n..])
        && Contents() == old(Contents())[n..]
    {
      var nBytesRead := 0;
      ghost var before := Contents();
      while nBytesRead < maxLen
        invariant Valid()
        invariant nBytesRead <= maxLen && nBytesRead <= |before|
        invariant Contents() == before[nBytesRead..]
        invariant buffer[..nBytesRead] == before[..nBytesRead]
        invariant buffer[nBytesRead..] == old(buffer[..])[nBytesRead..]
      {
        var b := ReadRegion();
        if b.None? {
          break;
        }
        assert before[nBytesRead] == b.value;
        buffer[nBytesRead] := b.value;
        nBytesRead := nBytesRead + 1;
      }
      r := Int16(nBytesRead);
    }
  }

  /** A suffix that is as long as it may be, unless it is all. */
  lemma Kept(all: seq<byte>, dropped: nat, size: nat)
    requires dropped <= |all| <= dropped + size && (dropped > 0 ==> |all| == dropped + size)
    ensures all[dropped..] == LastOf(all, size) && dropped == Excess(all, size)
  {}

  lemma SliceGrows(s: seq<byte>, from: nat, to: nat)
    requires from <= to < |s|
    ensures s[from..to] + [s[to]] == s[from..to + 1]
  {}

  lemma SliceShrinks(s: seq<byte>, from: nat, to: nat)
    requires from < to <= |s|
    ensures s[from..to][1..] == s[from + 1..to]
  {}

  /** byte_fifo_write reports how many bytes it has dropped exactly if old contents and input are not 32768 too long. */
  lemma ReportedCountIsExact(before: seq<byte>, bytes: seq<byte>, size: nat)
    ensures Int16(Excess(before + bytes, size)) == Excess(before + bytes, size) <==>
      |before| + |bytes| <= size + 0x7FFF
  {
    Int16Exact(Excess(before + bytes, size));
  }

  /** byte_fifo_read reports how many bytes it has read exactly if it has not found, and been asked for, 32768. */
  lemma ReportedReadIsExact(before: seq<byte>, maxLen: nat)
    ensures var n := if maxLen < |before| then maxLen else |before|;
      Int16(n) == n <==> maxLen <= 0x7FFF || |before| <= 0x7FFF
  {
    Int16Exact(if maxLen < |before| then maxLen else |before|);
  }

  lemma Int16Exact(n: nat)
    ensures Int16(n) == n <==> n <= 0x7FFF
  {}

  /** A ring of one byte reports 32768 dropped bytes as -32768, and a full one of 32768 bytes the same when read. */
  lemma CountsWrap(bytes: seq<byte>)
    requires |bytes| == 32769
    ensures Int16(Excess([] + bytes, 1)) == -32768
    ensures Int16(|bytes[1..]|) == -32768
  {}

  /** Writing in two pieces leaves and drops the same bytes as writing in one. */
  lemma SplitWrite(before: seq<byte>, a: seq<byte>, b: seq<byte>, size: nat)
    ensures LastOf(LastOf(before + a, size) + b, size) == LastOf(before + (a + b), size)
    ensures |before| <= size ==>
      Excess(before + a, size) + Excess(LastOf(before + a, size) + b, size) == Excess(before + (a + b), size)
  {
    assert before + (a + b) == (before + a) + b;
    LastOfExtended(before + a, b, size);
  }

  lemma LastOfExtended(s: seq<byte>, b: seq<byte>, size: nat)
    ensures LastOf(LastOf(s, size) + b, size) == LastOf(s + b, size)
  {
    if |s| > size {
      var front, last := s[..|s| - size], s[|s| - size..];
      assert s + b == front + (last + b) by {
        assert s == front + last;
      }
      FrontIsLost(front, last + b, size);
    }
  }

  /** What stands in front of enough bytes does not matter. */
  lemma FrontIsLost(front: seq<byte>, s: seq<byte>, size: nat)
    requires |s| >= size
    ensures LastOf(front + s, size) == LastOf(s, size)
  {
    var t := front + s;
    assert t[|t| - size..] == s[|s| - size..];
  }

  /** However the input is cut into pieces, the same bytes are left and the same number is dropped. */
  lemma {:induction false} WriteInPieces(before: seq<byte>, pieces: seq<seq<byte>>, size: nat)
    requires |before| <= size
    ensures WriteAll(before, pieces, size).0 == LastOf(before + Joined(pieces), size)
    ensures WriteAll(before, pieces, size).1 == Excess(before + Joined(pieces), size)
  {
    if pieces == [] {
      assert before + [] == before;
    } else {
      var k := |pieces| - 1;
      WriteInPieces(before, pieces[..k], size);
      SplitWrite(before, Joined(pieces[..k]), pieces[k], size);
    }
  }

  function Joined(pieces: seq<seq<byte>>): seq<byte> {
    if pieces == [] then [] else Joined(pieces[..|pieces| - 1]) + pieces[|pieces| - 1]
  }

  /** The contents and the total dropped after one call of Write for each piece. */
  function WriteAll(before: seq<byte>, pieces: seq<seq<byte>>, size: nat): (seq<byte>, nat) {
    if pieces == [] then (before, 0)
    else
      var (c, dropped) := WriteAll(before, pieces[..|pieces| - 1], size);
      var all := c + pieces[|pieces| - 1];
      (LastOf(all, size), dropped + Excess(all, size))
  }
}
