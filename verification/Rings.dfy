/** The circular array of byte_fifo_t as a value, and what each region under the lock does to it. */
module Rings {
  import opened Words

  datatype Ring = Ring(data: seq<byte>, writeIndex: nat, readIndex: nat, nElements: nat) {

    ghost predicate Valid() {
      && 1 <= |data|
      && readIndex < |data|
      && nElements <= |data|
      && writeIndex == (readIndex + nElements) % |data|
    }

    /** The resident bytes, oldest first. */
    function Contents(): (s: seq<byte>)
      requires Valid()
      ensures |s| == nElements
    {
      seq(nElements, i requires 0 <= i < nElements => data[(readIndex + i) % |data|])
    }

    function After(index: nat): nat
      requires index < |data|
    {
      if index < |data| - 1 then index + 1 else 0
    }

    function Store(b: byte): Ring
      requires Valid() && nElements < |data|
    {
      Ring(data[writeIndex := b], After(writeIndex), readIndex, nElements + 1)
    }

    function Drop(): Ring
      requires Valid() && nElements > 0
    {
      Ring(data, writeIndex, After(readIndex), nElements - 1)
    }

    function Reset(): Ring {
      Ring(seq(|data|, i => 0), 0, 0, 0)
    }

    /** Storing puts the byte behind everything resident. */
    lemma StoreAppends(b: byte)
      requires Valid() && nElements < |data|
      ensures Store(b).Valid()
      ensures Store(b).Contents() == Contents() + [b]
    {
      var n := |data|;
      WrapOnce(readIndex + nElements, n);
      WrapOnce(readIndex + nElements + 1, n);
      var r := Store(b);
      forall i | 0 <= i < nElements
        ensures r.Contents()[i] == Contents()[i]
      {
        DistinctSlots(readIndex, i, nElements, n);
      }
      assert r.Contents()[nElements] == b;
    }

    /** Dropping takes away the oldest byte, which stands at the read index. */
    lemma DropTakesOldest()
      requires Valid() && nElements > 0
      ensures Drop().Valid()
      ensures Contents() == [data[readIndex]] + Drop().Contents()
    {
      var n := |data|;
      var r := Drop();
      WrapOnce(readIndex + nElements, n);
      WrapOnce(r.readIndex + r.nElements, n);
      forall i | 0 <= i < r.nElements
        ensures r.Contents()[i] == Contents()[i + 1]
      {
        WrapOnce(readIndex + (i + 1), n);
        WrapOnce(r.readIndex + i, n);
      }
      WrapOnce(readIndex + 0, n);
      assert Contents()[0] == data[readIndex];
    }

    lemma ResetEmpties()
      requires 1 <= |data|
      ensures Reset().Valid() && Reset().Contents() == []
    {}
  }

  /** Fewer than n steps from one slot reach different slots. */
  lemma DistinctSlots(start: nat, i: nat, j: nat, n: nat)
    requires start < n && i < j < n
    ensures (start + i) % n != (start + j) % n
  {
    WrapOnce(start + i, n);
    WrapOnce(start + j, n);
  }

  lemma WrapOnce(k: nat, n: nat)
    requires n >= 1 && k < 2 * n
    ensures k % n == if k < n then k else k - n
  {}
}
