/** ht.c: an open-addressing hash table that agrees with a finite map. */
module HashTables {
  import opened Words
  import opened Fnv
  import opened Slots

  const INITIAL_CAPACITY := 16

  /** The value that a size_t holds. */
  function SizeT(n: nat): u64 {
    n % MODULUS
  }

  /** The test for overflow in ht_expand is exact. */
  lemma DoubledSizeT(n: u64)
    requires n > 0
    ensures SizeT(n * 2) < n <==> n * 2 >= MODULUS
    ensures n * 2 < MODULUS ==> SizeT(n * 2) == n * 2
  {}

  /** What ht_get finds for a key. */
  function Lookup<V>(m: Bindings<V>, key: seq<Char>): Option<V> {
    if key in m then Some(m[key].1) else None
  }

  /**
   * ht_set_entry. plength tells whether the caller passed a length to count up: only then is the key copied,
   * and strdupSucceeds decides whether that allocation works.
   */
  method SetEntry<V>(entries: array<Slot<V>>, key: CString, value: V, plength: bool, strdupSucceeds: bool,
                     ghost m: Bindings<V>)
    returns (stored: Option<CString>, counted: nat, ghost probes: nat)
    requires Represents(entries[..], m) && |m| < entries.Length
    modifies entries
    ensures probes <= |m| + 1
    ensures stored.None? <==> key.chars !in m && plength && !strdupSucceeds
    ensures stored.None? ==> entries[..] == old(entries[..])
    ensures stored.Some? ==> stored.value.chars == key.chars
    ensures stored.Some? ==> Represents(entries[..], m[key.chars := (stored.value, value)])
    ensures key.chars in m ==> stored == Some(m[key.chars].0)
    ensures key.chars !in m && stored.Some? ==> if plength then fresh(stored.value) else stored.value == key
    ensures counted == if key.chars !in m && stored.Some? && plength then 1 else 0
  {
    hide Represents, Chained, HasKey, Home, FullCount;
    counted := 0;
    ghost var s := entries[..];
    ghost var n := |s|;
    Searchable(s, m, key.chars);
    ghost var home := Home(key.chars, n);
    var index := Home(key.chars, entries.Length);
    probes := 0;
    while entries[index].Full?
      invariant entries[..] == s
      invariant probes < n && index == At(home, probes, n)
      invariant NotInRun(s, home, probes, key.chars)
      decreases |m| + 1 - probes
    {
      Crowded(s, home, probes, key.chars);
      if entries[index].key.chars == key.chars {
        FoundSlot(s, m, index);
        UpdateRepresents(s, m, index, value);
        entries[index] := Full(entries[index].key, value);
        assert entries[..] == s[index := Full(s[index].key, value)];
        probes := probes + 1;
        return Some(entries[index].key), 0, probes;
      }
      index := index + 1;
      if index >= entries.Length {
        index := 0;
      }
      probes := probes + 1;
    }
    assert key.chars !in m by {
      if HasKey(s, key.chars) {
        SearchGoesOn(s, probes, key.chars);
      }
    }
    RunBound(s, home, probes);
    ghost var d := probes;
    probes := probes + 1;
    var toStore := key;
    if plength {
      if !strdupSucceeds {
        return None, 0, probes;
      }
      toStore := new CString(key.chars);
      counted := 1;
    }
    InsertRepresents(s, m, d, toStore, value);
    entries[index] := Full(toStore, value);
    assert entries[..] == s[index := Full(toStore, value)];
    stored := Some(toStore);
  }

  class Ht<V(0)> {
    var entries: array<Slot<V>>
    var capacity: nat
    var length: nat
    /** The finite map that the table stands for. */
    ghost var bindings: Bindings<V>

    ghost predicate Valid()
      reads this, entries
    {
      && capacity == entries.Length
      && INITIAL_CAPACITY <= capacity < MODULUS
      && Represents(entries[..], bindings)
      && length == |bindings| <= capacity / 2
    }

    constructor ()
      ensures Valid() && fresh(entries) && bindings == map[]
      ensures capacity == 16 && length == 0
    {
      length := 0;
      capacity := INITIAL_CAPACITY;
      bindings := map[];
      entries := new Slot<V>[INITIAL_CAPACITY](i => Empty);
      new;
      assert PowerOfTwo(16) by {
        assert PowerOfTwo(4);
      }
      EmptyRepresents(entries[..]);
    }

    method Get(key: seq<Char>) returns (value: Option<V>, ghost probes: nat)
      requires Valid()
      ensures value == Lookup(bindings, key)
      ensures probes <= length + 1
    {
      hide Represents, Chained, HasKey, Home, FullCount;
      ghost var s := entries[..];
      Searchable(s, bindings, key);
      ghost var home := Home(key, capacity);
      var index := Home(key, capacity);
      probes := 0;
      while entries[index].Full?
        invariant probes < capacity && index == At(home, probes, capacity)
        invariant NotInRun(s, home, probes, key)
        decreases length + 1 - probes
      {
        Crowded(s, home, probes, key);
        if key == entries[index].key.chars {
          FoundSlot(s, bindings, index);
          probes := probes + 1;
          return Some(entries[index].value), probes;
        }
        index := index + 1;
        if index >= capacity {
          index := 0;
        }
        probes := probes + 1;
      }
      assert key !in bindings by {
        if HasKey(s, key) {
          SearchGoesOn(s, probes, key);
        }
      }
      RunBound(s, home, probes);
      probes := probes + 1;
      value := None;
    }

    /** Twice the room, the same map, the same stored keys. */
    method Expand(callocSucceeds: bool) returns (ok: bool)
      requires Valid()
      modifies this`entries, this`capacity
      ensures Valid()
      ensures ok <==> 2 * old(capacity) < MODULUS && callocSucceeds
      ensures ok ==> capacity == 2 * old(capacity) && fresh(entries)
      ensures !ok ==> capacity == old(capacity) && entries == old(entries)
    {
      hide Represents, Moved, PowerOfTwo, SizeT, HasKey, Home, FullCount, Chained;
      DoubledSizeT(capacity);
      var newCapacity := SizeT(capacity * 2);
      if newCapacity < capacity {
        return false;
      }
      if !callocSucceeds {
        return false;
      }
      var newEntries := new Slot<V>[newCapacity](i => Empty);
      ghost var s := entries[..];
      Searchable(s, bindings, []);
      Doubled(capacity);
      EmptyRepresents(newEntries[..]);
      MovedNone(s, bindings);
      for i := 0 to capacity
        invariant entries[..] == s
        invariant Represents(newEntries[..], Moved(s, bindings, i))
      {
        var entry := entries[i];
        MoveOne(s, bindings, i);
        if entry.Full? {
          var stored, counted, probes :=
            SetEntry(newEntries, entry.key, entry.value, false, true, Moved(s, bindings, i));
        }
      }
      MovedAll(s, bindings);
      entries := newEntries;
      capacity := newCapacity;
      ok := true;
    }

    method Set(key: CString, value: Option<V>, callocSucceeds: bool, strdupSucceeds: bool)
      returns (stored: Option<CString>)
      requires Valid()
      modifies this, entries
      ensures Valid()
      ensures stored.None? <==>
        || value.None?
        || (old(length >= capacity / 2) && !(2 * old(capacity) < MODULUS && callocSucceeds))
        || (key.chars !in old(bindings) && !strdupSucceeds)
      ensures stored.None? ==> bindings == old(bindings)
      ensures stored.Some? ==> bindings == old(bindings)[key.chars := (stored.value, value.value)]
      ensures stored.Some? ==> stored.value.chars == key.chars
      ensures stored.Some? && key.chars in old(bindings) ==> stored.value == old(bindings)[key.chars].0
      ensures stored.Some? && key.chars !in old(bindings) ==> fresh(stored.value)
      ensures entries == old(entries) || fresh(entries)
      ensures var full := old(length >= capacity / 2);
        capacity == if value.Some? && full && callocSucceeds && old(capacity) < 0x8000_0000_0000_0000
                    then 2 * old(capacity) else old(capacity)
      ensures capacity == old(capacity) ==> entries == old(entries)
    {
      hide Represents;
      if value.None? {
        return None;
      }
      if length >= capacity / 2 {
        var ok := Expand(callocSucceeds);
        if !ok {
          return None;
        }
      }
      var counted;
      ghost var probes;
      stored, counted, probes := SetEntry(entries, key, value.value, true, strdupSucceeds, bindings);
      length := length + counted;
      if stored.Some? {
        bindings := bindings[key.chars := (stored.value, value.value)];
        assert key.chars in old(bindings) ==> bindings.Keys == old(bindings).Keys;
        assert key.chars !in old(bindings) ==> bindings.Keys == old(bindings).Keys + {key.chars};
      }
    }

    method Length() returns (n: nat)
      requires Valid()
      ensures n == |bindings|
    {
      n := length;
    }
  }

  /** A search that stands on a full slot has an empty one still ahead, and few slots behind. */
  lemma Crowded<V>(s: seq<Slot<V>>, home: nat, d: nat, key: seq<Char>)
    requires home < |s| && d < |s| && NotInRun(s, home, d, key) && s[At(home, d, |s|)].Full?
    ensures d + 1 <= FullCount(s)
  {
    assert FullRun(s, home, d + 1) by {
      assert s[At(home, d, |s|)].Full?;
    }
    RunBound(s, home, d + 1);
  }

  // ----- the part of the map that ht_expand has moved

  ghost function Moved<V>(s: seq<Slot<V>>, m: Bindings<V>, i: nat): Bindings<V>
    requires i <= |s|
  {
    map k | k in m && HasKey(s[..i], k) :: m[k]
  }

  lemma Doubled(n: nat)
    requires PowerOfTwo(n)
    ensures PowerOfTwo(2 * n)
  {}

  lemma MovedNone<V>(s: seq<Slot<V>>, m: Bindings<V>)
    ensures Moved(s, m, 0) == map[]
  {}

  lemma HasKeyUpTo<V>(s: seq<Slot<V>>, i: nat, k: seq<Char>)
    requires i < |s|
    ensures HasKey(s[..i + 1], k) <==> HasKey(s[..i], k) || (s[i].Full? && s[i].key.chars == k)
  {
    if HasKey(s[..i], k) {
      var j :| 0 <= j < i && s[..i][j].Full? && s[..i][j].key.chars == k;
      assert s[..i + 1][j].Full? && s[..i + 1][j].key.chars == k;
    }
    if HasKey(s[..i + 1], k) {
      var j :| 0 <= j < i + 1 && s[..i + 1][j].Full? && s[..i + 1][j].key.chars == k;
      if j < i {
        assert s[..i][j].Full? && s[..i][j].key.chars == k;
      }
    }
    if s[i].Full? {
      assert s[..i + 1][i].Full?;
    }
  }

  lemma NotYetMoved<V>(s: seq<Slot<V>>, m: Bindings<V>, i: nat)
    requires Represents(s, m) && i < |s| && s[i].Full?
    ensures !HasKey(s[..i], s[i].key.chars)
  {}

  lemma MoveOne<V>(s: seq<Slot<V>>, m: Bindings<V>, i: nat)
    requires Represents(s, m) && i < |s|
    ensures s[i].Empty? ==> Moved(s, m, i + 1) == Moved(s, m, i)
    ensures s[i].Full? ==> s[i].key.chars !in Moved(s, m, i)
    ensures s[i].Full? ==> Moved(s, m, i + 1) == Moved(s, m, i)[s[i].key.chars := (s[i].key, s[i].value)]
    ensures |Moved(s, m, i)| <= |m|
  {
    hide Represents, HasKey;
    assert Moved(s, m, i).Keys <= m.Keys;
    SubsetIsSmaller(Moved(s, m, i).Keys, m.Keys);
    forall k
      ensures HasKey(s[..i + 1], k) <==> HasKey(s[..i], k) || (s[i].Full? && s[i].key.chars == k)
    {
      HasKeyUpTo(s, i, k);
    }
    if s[i].Full? {
      FoundSlot(s, m, i);
      NotYetMoved(s, m, i);
    }
  }

  lemma MovedAll<V>(s: seq<Slot<V>>, m: Bindings<V>)
    requires Represents(s, m)
    ensures Moved(s, m, |s|) == m
  {
    assert s[..|s|] == s;
    assert forall k :: k in m ==> HasKey(s, k);
  }

  lemma {:induction false} SubsetIsSmaller<T>(a: set<T>, b: set<T>)
    requires a <= b
    ensures |a| <= |b|
  {
    assert b == a + (b - a);
  }

  // ----- iteration

  class Hti<V(0)> {
    const table: Ht<V>
    var index: nat
    var key: Option<CString>
    var value: Option<V>

    constructor (table: Ht<V>)
      ensures this.table == table && index == 0
    {
      this.table := table;
      index := 0;
      key, value := None, None;
    }

    /** One step of a pass: the next binding of the slots not yet passed, or the end of the pass. */
    method Next() returns (more: bool)
      requires table.Valid() && index <= table.capacity
      modifies this
      ensures old(index) <= index <= table.capacity
      ensures more ==>
        && key.Some? && value.Some? && old(index) < index
        && Visible(table.entries[..index]) == Visible(table.entries[..old(index)]) + [(key.value.chars, value.value)]
      ensures !more ==>
        && index == table.capacity
        && Visible(table.entries[..old(index)]) == Visible(table.entries[..])
    {
      hide Represents;
      ghost var s := table.entries[..];
      while index < table.capacity
        invariant old(index) <= index <= table.capacity
        invariant Visible(s[..index]) == Visible(s[..old(index)])
      {
        var i := index;
        index := index + 1;
        assert s[..index][..i] == s[..i];
        if table.entries[i].Full? {
          key := Some(table.entries[i].key);
          value := Some(table.entries[i].value);
          assert table.entries[..index] == s[..index] && table.entries[..old(index)] == s[..old(index)];
          return true;
        }
      }
      assert s[..index] == s;
      assert table.entries[..old(index)] == s[..old(index)];
      more := false;
    }
  }

  /** A whole pass over a table meets each of its bindings exactly once, and nothing else. */
  method Pass<V(0)>(table: Ht<V>) returns (met: seq<(seq<Char>, V)>)
    requires table.Valid()
    ensures |met| == table.length == |table.bindings|
    ensures forall i, j :: 0 <= i < j < |met| ==> met[i].0 != met[j].0
    ensures forall b :: b in met <==> b.0 in table.bindings && table.bindings[b.0].1 == b.1
  {
    hide Represents, Visible;
    ghost var s := table.entries[..];
    var it := new Hti(table);
    NothingVisible(s);
    assert table.entries[..0] == s[..0];
    met := [];
    var more := it.Next();
    while more
      invariant table.Valid() && it.table == table && it.index <= table.capacity && fresh(it)
      invariant more ==> it.key.Some? && it.value.Some?
      invariant more ==> Visible(table.entries[..it.index]) == met + [(it.key.value.chars, it.value.value)]
      invariant !more ==> met == Visible(s)
      decreases table.capacity - it.index, more
    {
      met := met + [(it.key.value.chars, it.value.value)];
      more := it.Next();
    }
    EachBindingOnce(s, table.bindings);
  }

  lemma NothingVisible<V>(s: seq<Slot<V>>)
    ensures Visible(s[..0]) == []
  {}

  // ----- every sequence of sets

  /** One call of ht_set, with the fate of its two possible allocations. */
  datatype SetCall<V> = SetCall(key: CString, value: Option<V>, callocSucceeds: bool, strdupSucceeds: bool)

  /** The value of the last successful set of a key. */
  function LastSet<V>(calls: seq<SetCall<V>>, succeeded: seq<bool>, key: seq<Char>): Option<V>
    requires |succeeded| == |calls|
  {
    if calls == [] then None
    else
      var n := |calls| - 1;
      if succeeded[n] && calls[n].key.chars == key then calls[n].value
      else LastSet(calls[..n], succeeded[..n], key)
  }

  /** How many different keys have been set successfully. */
  ghost function KeysSet<V>(calls: seq<SetCall<V>>, succeeded: seq<bool>): set<seq<Char>>
    requires |succeeded| == |calls|
  {
    set i | 0 <= i < |calls| && succeeded[i] :: calls[i].key.chars
  }

  /** The map is what the successful ones of some calls have made of the empty map. */
  ghost predicate MadeBy<V>(m: Bindings<V>, calls: seq<SetCall<V>>, succeeded: seq<bool>) {
    && |succeeded| == |calls|
    && (forall k :: Lookup(m, k) == LastSet(calls, succeeded, k))
    && m.Keys == KeysSet(calls, succeeded)
  }

  lemma NoneMadeYet<V>(calls: seq<SetCall<V>>)
    ensures MadeBy(map[], calls[..0], [])
  {}

  /** One more call binds its key, if it succeeds, and nothing else. */
  lemma OneMoreCall<V>(calls: seq<SetCall<V>>, succeeded: seq<bool>, i: nat, before: Bindings<V>, key: CString,
                       ok: bool)
    requires i < |calls| && MadeBy(before, calls[..i], succeeded)
    requires ok ==> calls[i].value.Some?
    ensures MadeBy(if ok then before[calls[i].key.chars := (key, calls[i].value.value)] else before,
                   calls[..i + 1], succeeded + [ok])
  {
    assert calls[..i + 1][..i] == calls[..i] && (succeeded + [ok])[..i] == succeeded;
    KeysSetGrows(calls, succeeded + [ok], i);
    var c, flags := calls[i], succeeded + [ok];
    var after := if ok then before[c.key.chars := (key, c.value.value)] else before;
    assert after.Keys == before.Keys + if ok then {c.key.chars} else {};
    forall k
      ensures Lookup(after, k) == LastSet(calls[..i + 1], flags, k)
    {
      assert Lookup(before, k) == LastSet(calls[..i], succeeded, k);
    }
  }

  /** After any calls of ht_set, each key's value is that of its last successful set. */
  method SetAll<V(0)>(calls: seq<SetCall<V>>) returns (table: Ht<V>, succeeded: seq<bool>)
    ensures fresh(table) && table.Valid()
    ensures |succeeded| == |calls|
    ensures forall k :: Lookup(table.bindings, k) == LastSet(calls, succeeded, k)
    ensures table.bindings.Keys == KeysSet(calls, succeeded)
  {
    hide Represents, LastSet, KeysSet, MadeBy;
    table := new Ht();
    succeeded := [];
    NoneMadeYet(calls);
    for i := 0 to |calls|
      invariant fresh(table) && fresh(table.entries) && table.Valid()
      invariant MadeBy(table.bindings, calls[..i], succeeded)
    {
      var c := calls[i];
      ghost var before := table.bindings;
      var stored := table.Set(c.key, c.value, c.callocSucceeds, c.strdupSucceeds);
      OneMoreCall(calls, succeeded, i, before, if stored.Some? then stored.value else c.key, stored.Some?);
      succeeded := succeeded + [stored.Some?];
    }
    assert calls[..|calls|] == calls;
    Unfold(table.bindings, calls, succeeded);
  }

  lemma Unfold<V>(m: Bindings<V>, calls: seq<SetCall<V>>, succeeded: seq<bool>)
    requires MadeBy(m, calls, succeeded)
    ensures |succeeded| == |calls|
    ensures forall k :: Lookup(m, k) == LastSet(calls, succeeded, k)
    ensures m.Keys == KeysSet(calls, succeeded)
  {}

  lemma KeysSetGrows<V>(calls: seq<SetCall<V>>, succeeded: seq<bool>, i: nat)
    requires i < |calls| && |succeeded| == i + 1
    ensures KeysSet(calls[..i + 1], succeeded)
         == KeysSet(calls[..i], succeeded[..i]) + if succeeded[i] then {calls[i].key.chars} else {}
  {
    var next, prev := KeysSet(calls[..i + 1], succeeded), KeysSet(calls[..i], succeeded[..i]);
    forall k | k in prev
      ensures k in next
    {
      var j :| 0 <= j < i && succeeded[..i][j] && calls[..i][j].key.chars == k;
      assert succeeded[j] && calls[..i + 1][j].key.chars == k;
    }
    forall k | k in next
      ensures k in prev || (succeeded[i] && k == calls[i].key.chars)
    {
      var j :| 0 <= j < i + 1 && succeeded[j] && calls[..i + 1][j].key.chars == k;
      if j < i {
        assert succeeded[..i][j] && calls[..i][j].key.chars == k;
      }
    }
    if succeeded[i] {
      assert calls[..i + 1][i].key.chars in next;
    }
  }
}
