/** The entries array of ht.c as a sequence of slots, its probe chains, and the finite map it stands for. */
module Slots {
  import Bits
  import opened Fnv

  /** A stored string; two of them can have the same characters and still be different objects. */
  class CString {
    const chars: seq<Char>

    constructor (chars: seq<Char>)
      ensures this.chars == chars
    {
      this.chars := chars;
    }
  }

  datatype Slot<V> = Empty | Full(key: CString, value: V)

  /** Every key's stored key object and value. */
  type Bindings<V> = map<seq<Char>, (CString, V)>

  /** n is a power of two. */
  predicate PowerOfTwo(n: nat) {
    n == 1 || (n > 0 && n % 2 == 0 && PowerOfTwo(n / 2))
  }

  lemma {:induction false} PowerOfTwoIsPow2(n: nat) returns (k: nat)
    requires PowerOfTwo(n)
    ensures n == Bits.Pow2(k)
  {
    if n == 1 {
      k := 0;
    } else {
      k := PowerOfTwoIsPow2(n / 2);
      k := k + 1;
    }
  }

  /** The slot at which the search for a key begins, with the mask that the code uses. */
  function Home(key: seq<Char>, capacity: nat): nat
    requires capacity >= 1
  {
    Bits.And(Hash(key), capacity - 1)
  }

  /** The mask is the remainder, so the search begins inside the array. */
  lemma HomeIsRemainder(key: seq<Char>, capacity: nat)
    requires PowerOfTwo(capacity)
    ensures Home(key, capacity) == Hash(key) % capacity < capacity
  {
    hide Hash, PowerOfTwo, Bits.And;
    var k := PowerOfTwoIsPow2(capacity);
    Bits.MaskIsRemainder(Hash(key), k);
  }

  /** The slot d steps after home, wrapping around at the end. */
  function At(home: nat, d: nat, n: nat): nat
    requires home < n && d < n
    ensures At(home, d, n) < n
  {
    if home + d < n then home + d else home + d - n
  }

  /** How many steps lead from home to slot i. */
  function Distance(home: nat, i: nat, n: nat): (d: nat)
    requires home < n && i < n
    ensures d < n && At(home, d, n) == i
  {
    if home <= i then i - home else i + n - home
  }

  lemma DistanceUnique(home: nat, d: nat, n: nat)
    requires home < n && d < n
    ensures Distance(home, At(home, d, n), n) == d
  {}

  /** The first d slots from home on are full. */
  ghost predicate FullRun<V>(s: seq<Slot<V>>, home: nat, d: nat)
    requires home < |s| && d <= |s|
  {
    forall e :: 0 <= e < d ==> s[At(home, e, |s|)].Full?
  }

  /** Every slot between a key's home and the key's slot is full. */
  ghost predicate Chained<V>(s: seq<Slot<V>>)
    requires PowerOfTwo(|s|)
  {
    forall i :: 0 <= i < |s| && s[i].Full? ==> ChainedAt(s, i)
  }

  ghost predicate ChainedAt<V>(s: seq<Slot<V>>, i: nat)
    requires PowerOfTwo(|s|) && i < |s| && s[i].Full?
  {
    HomeIsRemainder(s[i].key.chars, |s|);
    var home := Home(s[i].key.chars, |s|);
    FullRun(s, home, Distance(home, i, |s|))
  }

  ghost predicate UniqueKeys<V>(s: seq<Slot<V>>) {
    forall i, j :: 0 <= i < j < |s| && s[i].Full? && s[j].Full? ==> s[i].key.chars != s[j].key.chars
  }

  /** The full slots hold exactly the bindings of m. */
  ghost predicate Holds<V>(s: seq<Slot<V>>, m: Bindings<V>) {
    && (forall i :: 0 <= i < |s| && s[i].Full? ==> s[i].key.chars in m && m[s[i].key.chars] == (s[i].key, s[i].value))
    && (forall k :: k in m ==> HasKey(s, k))
  }

  ghost predicate HasKey<V>(s: seq<Slot<V>>, k: seq<Char>) {
    exists i :: 0 <= i < |s| && s[i].Full? && s[i].key.chars == k
  }

  function FullCount<V>(s: seq<Slot<V>>): (n: nat)
    ensures n <= |s|
  {
    if s == [] then 0 else FullCount(s[..|s| - 1]) + if s[|s| - 1].Full? then 1 else 0
  }

  /** s is a hash table that stands for m. */
  ghost predicate Represents<V>(s: seq<Slot<V>>, m: Bindings<V>) {
    && PowerOfTwo(|s|)
    && Chained(s)
    && UniqueKeys(s)
    && Holds(s, m)
    && FullCount(s) == |m|
  }

  /** What a search needs to know of the table. */
  lemma Searchable<V>(s: seq<Slot<V>>, m: Bindings<V>, key: seq<Char>)
    requires Represents(s, m)
    ensures PowerOfTwo(|s|) && Chained(s) && FullCount(s) == |m|
    ensures Home(key, |s|) == Hash(key) % |s| < |s|
    ensures key in m <==> HasKey(s, key)
  {
    HomeIsRemainder(key, |s|);
  }

  lemma FoundSlot<V>(s: seq<Slot<V>>, m: Bindings<V>, i: nat)
    requires Represents(s, m) && i < |s| && s[i].Full?
    ensures s[i].key.chars in m && m[s[i].key.chars] == (s[i].key, s[i].value)
  {}

  // ----- counting full slots

  lemma {:induction false} FullCountConcat<V>(s: seq<Slot<V>>, t: seq<Slot<V>>)
    ensures FullCount(s + t) == FullCount(s) + FullCount(t)
  {
    if t == [] {
      assert s + t == s;
    } else {
      FullCountConcat(s, t[..|t| - 1]);
      assert (s + t)[..|s + t| - 1] == s + t[..|t| - 1];
    }
  }

  lemma FullCountUpdate<V>(s: seq<Slot<V>>, i: nat, x: Slot<V>)
    requires i < |s| && x.Full?
    ensures FullCount(s[i := x]) == FullCount(s) + if s[i].Full? then 0 else 1
  {
    assert s == (s[..i] + [s[i]]) + s[i + 1..];
    assert s[i := x] == (s[..i] + [x]) + s[i + 1..];
    FullCountConcat(s[..i] + [s[i]], s[i + 1..]);
    FullCountConcat(s[..i] + [x], s[i + 1..]);
    FullCountConcat(s[..i], [s[i]]);
    FullCountConcat(s[..i], [x]);
  }

  lemma {:induction false} AllFull<V>(s: seq<Slot<V>>)
    requires forall i :: 0 <= i < |s| ==> s[i].Full?
    ensures FullCount(s) == |s|
  {
    if s != [] {
      AllFull(s[..|s| - 1]);
    }
  }

  lemma {:induction false} AllEmpty<V>(s: seq<Slot<V>>)
    requires forall i :: 0 <= i < |s| ==> s[i].Empty?
    ensures FullCount(s) == 0
  {
    if s != [] {
      AllEmpty(s[..|s| - 1]);
    }
  }

  lemma FullPrefix<V>(s: seq<Slot<V>>, k: nat)
    requires k <= |s| && forall i :: 0 <= i < k ==> s[i].Full?
    ensures k <= FullCount(s)
  {
    AllFull(s[..k]);
    FullCountConcat(s[..k], s[k..]);
    assert s == s[..k] + s[k..];
  }

  /** A run of full slots is no longer than the number of full slots, also when it wraps around. */
  lemma RunBound<V>(s: seq<Slot<V>>, home: nat, d: nat)
    requires home < |s| && d <= |s| && FullRun(s, home, d)
    ensures d <= FullCount(s)
  {
    hide FullCount;
    var n := |s|;
    var left, right := s[..home], s[home..];
    assert s == left + right;
    FullCountConcat(left, right);
    var inRight := if home + d <= n then d else n - home;
    forall i | 0 <= i < inRight
      ensures right[i].Full?
    {
      assert s[At(home, i, n)].Full?;
    }
    FullPrefix(right, inRight);
    forall i | 0 <= i < d - inRight
      ensures left[i].Full?
    {
      assert s[At(home, inRight + i, n)].Full?;
    }
    FullPrefix(left, d - inRight);
  }

  // ----- searching

  /** None of the first d slots from home on has the key. */
  ghost predicate NotInRun<V>(s: seq<Slot<V>>, home: nat, d: nat, key: seq<Char>)
    requires home < |s| && d <= |s|
  {
    forall e :: 0 <= e < d ==> s[At(home, e, |s|)].Full? && s[At(home, e, |s|)].key.chars != key
  }

  /** As long as a key that is present has not been met, the next slot is full. */
  lemma SearchGoesOn<V>(s: seq<Slot<V>>, d: nat, key: seq<Char>)
    requires PowerOfTwo(|s|) && Chained(s) && d < |s|
    requires Home(key, |s|) < |s|
    requires NotInRun(s, Home(key, |s|), d, key)
    requires HasKey(s, key)
    ensures s[At(Home(key, |s|), d, |s|)].Full?
  {
    var i :| 0 <= i < |s| && s[i].Full? && s[i].key.chars == key;
    assert ChainedAt(s, i);
    var far := Distance(Home(key, |s|), i, |s|);
    assert far >= d;
  }

  lemma UpdateRepresents<V>(s: seq<Slot<V>>, m: Bindings<V>, i: nat, value: V)
    requires Represents(s, m) && i < |s| && s[i].Full?
    ensures Represents(s[i := Full(s[i].key, value)], m[s[i].key.chars := (s[i].key, value)])
  {
    hide FullCount, Holds, HasKey, UniqueKeys, Home;
    FoundSlot(s, m, i);
    var x := Full(s[i].key, value);
    var t, key := s[i := x], s[i].key.chars;
    var m' := m[key := (s[i].key, value)];
    FullCountUpdate(s, i, x);
    assert m'.Keys == m.Keys;
    SameKeysStayChained(s, t);
    UpdateHolds(s, m, i, value);
  }

  lemma UpdateHolds<V>(s: seq<Slot<V>>, m: Bindings<V>, i: nat, value: V)
    requires UniqueKeys(s) && Holds(s, m) && i < |s| && s[i].Full?
    ensures UniqueKeys(s[i := Full(s[i].key, value)])
    ensures Holds(s[i := Full(s[i].key, value)], m[s[i].key.chars := (s[i].key, value)])
  {
    var t := s[i := Full(s[i].key, value)];
    forall k | k in m
      ensures HasKey(t, k)
    {
      assert HasKey(s, k);
      var j :| 0 <= j < |s| && s[j].Full? && s[j].key.chars == k;
      assert t[j].Full? && t[j].key.chars == k;
    }
  }

  lemma SameKeysStayChained<V>(s: seq<Slot<V>>, t: seq<Slot<V>>)
    requires PowerOfTwo(|s|) && Chained(s) && |t| == |s|
    requires forall i :: 0 <= i < |s| ==> (s[i].Full? <==> t[i].Full?)
    requires forall i :: 0 <= i < |s| && s[i].Full? ==> t[i].key == s[i].key
    ensures Chained(t)
  {
    forall i | 0 <= i < |t| && t[i].Full?
      ensures ChainedAt(t, i)
    {
      assert ChainedAt(s, i);
    }
  }

  lemma InsertRepresents<V>(s: seq<Slot<V>>, m: Bindings<V>, d: nat, key: CString, value: V)
    requires Represents(s, m) && key.chars !in m && d < |s|
    requires Home(key.chars, |s|) < |s|
    requires FullRun(s, Home(key.chars, |s|), d)
    requires s[At(Home(key.chars, |s|), d, |s|)].Empty?
    ensures Represents(s[At(Home(key.chars, |s|), d, |s|) := Full(key, value)], m[key.chars := (key, value)])
  {
    var home := Home(key.chars, |s|);
    var i, x := At(home, d, |s|), Full(key, value);
    FullCountUpdate(s, i, x);
    InsertStaysChained(s, d, key, value);
    InsertHolds(s, m, i, key, value);
    assert m[key.chars := (key, value)].Keys == m.Keys + {key.chars};
  }

  lemma InsertHolds<V>(s: seq<Slot<V>>, m: Bindings<V>, i: nat, key: CString, value: V)
    requires UniqueKeys(s) && Holds(s, m) && i < |s| && s[i].Empty? && key.chars !in m
    ensures UniqueKeys(s[i := Full(key, value)])
    ensures Holds(s[i := Full(key, value)], m[key.chars := (key, value)])
  {
    var t := s[i := Full(key, value)];
    assert t[i].Full? && t[i].key.chars == key.chars;
    forall k | k in m
      ensures HasKey(t, k)
    {
      assert HasKey(s, k);
      var j :| 0 <= j < |s| && s[j].Full? && s[j].key.chars == k;
      assert t[j].Full? && t[j].key.chars == k;
    }
  }

  lemma InsertStaysChained<V>(s: seq<Slot<V>>, d: nat, key: CString, value: V)
    requires PowerOfTwo(|s|) && Chained(s) && d < |s|
    requires Home(key.chars, |s|) < |s|
    requires FullRun(s, Home(key.chars, |s|), d)
    requires s[At(Home(key.chars, |s|), d, |s|)].Empty?
    ensures Chained(s[At(Home(key.chars, |s|), d, |s|) := Full(key, value)])
  {
    var home := Home(key.chars, |s|);
    var i := At(home, d, |s|);
    var t := s[i := Full(key, value)];
    DistanceUnique(home, d, |s|);
    forall j | 0 <= j < |t| && t[j].Full?
      ensures ChainedAt(t, j)
    {
      HomeIsRemainder(t[j].key.chars, |s|);
      if j != i {
        assert ChainedAt(s, j);
      }
      var h := Home(t[j].key.chars, |t|);
      forall e | 0 <= e < Distance(h, j, |t|)
        ensures t[At(h, e, |t|)].Full?
      {
        assert s[At(h, e, |s|)].Full?;
      }
    }
  }

  lemma EmptyRepresents<V>(s: seq<Slot<V>>)
    requires PowerOfTwo(|s|)
    requires forall i :: 0 <= i < |s| ==> s[i].Empty?
    ensures Represents(s, map[])
  {
    AllEmpty(s);
  }

  // ----- iteration

  /** The bindings met when the slots are passed from the left. */
  function Visible<V>(s: seq<Slot<V>>): seq<(seq<Char>, V)> {
    if s == [] then []
    else
      var x := s[|s| - 1];
      Visible(s[..|s| - 1]) + if x.Full? then [(x.key.chars, x.value)] else []
  }

  lemma {:induction false} VisibleFrom<V>(s: seq<Slot<V>>, j: nat) returns (i: nat)
    requires j < |Visible(s)|
    ensures i < |s| && s[i].Full? && Visible(s)[j] == (s[i].key.chars, s[i].value)
    ensures j == FullCount(s[..i])
  {
    var k := |s| - 1;
    VisibleLength(s[..k]);
    if j < |Visible(s[..k])| {
      i := VisibleFrom(s[..k], j);
      assert s[..k][..i] == s[..i];
    } else {
      i := k;
    }
  }

  lemma {:induction false} VisibleLength<V>(s: seq<Slot<V>>)
    ensures |Visible(s)| == FullCount(s)
  {
    if s != [] {
      VisibleLength(s[..|s| - 1]);
    }
  }

  lemma {:induction false} VisibleHas<V>(s: seq<Slot<V>>, i: nat)
    requires i < |s| && s[i].Full?
    ensures (s[i].key.chars, s[i].value) in Visible(s)
  {
    if i < |s| - 1 {
      VisibleHas(s[..|s| - 1], i);
    }
  }

  /** A complete pass meets every binding of the map exactly once and nothing else. */
  lemma EachBindingOnce<V>(s: seq<Slot<V>>, m: Bindings<V>)
    requires Represents(s, m)
    ensures |Visible(s)| == |m|
    ensures forall i, j :: 0 <= i < j < |Visible(s)| ==> Visible(s)[i].0 != Visible(s)[j].0
    ensures forall b :: b in Visible(s) <==> b.0 in m && m[b.0].1 == b.1
  {
    VisibleLength(s);
    forall i, j | 0 <= i < j < |Visible(s)|
      ensures Visible(s)[i].0 != Visible(s)[j].0
    {
      var x := VisibleFrom(s, i);
      var y := VisibleFrom(s, j);
    }
    forall b | b in Visible(s)
      ensures b.0 in m && m[b.0].1 == b.1
    {
      var j :| 0 <= j < |Visible(s)| && Visible(s)[j] == b;
      var i := VisibleFrom(s, j);
    }
    forall b: (seq<Char>, V) | b.0 in m && m[b.0].1 == b.1
      ensures b in Visible(s)
    {
      assert HasKey(s, b.0);
      var i :| 0 <= i < |s| && s[i].Full? && s[i].key.chars == b.0;
      VisibleHas(s, i);
    }
  }
}
