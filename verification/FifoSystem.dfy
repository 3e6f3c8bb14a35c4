/**
 * Calls of byte_fifo_write, byte_fifo_read and byte_fifo_reset that overlap in time. The lock is released
 * after every byte, so a run is any interleaving of single regions under the lock.
 */
module FifoSystem {
  import opened Words
  import opened Rings
  import ByteFifos

  /** A call in progress, with its local variables. */
  datatype Call =
    | Writing(bytes: seq<byte>, written: nat, overwritten: nat)
    | Reading(maxLen: nat, buffer: seq<byte>, done: bool)
    | Resetting(done: bool)

  /** A byte that left the ring: handed to a reader, dropped by a writer, or cleared by a reset. */
  datatype Removal =
    | Delivered(reader: nat, b: byte)
    | Dropped(writer: nat, b: byte)
    | Cleared(b: byte)

  datatype Stored = Stored(writer: nat, b: byte)

  /** The ring, all calls made so far, and what has gone in and out, in order. */
  datatype System = System(ring: Ring, calls: seq<Call>, stored: seq<Stored>, removed: seq<Removal>)

  datatype Action = Begin(call: Call) | Turn(caller: nat)

  ghost predicate Fresh(c: Call) {
    match c
    case Writing(_, written, overwritten) => written == 0 && overwritten == 0
    case Reading(_, buffer, done) => buffer == [] && !done
    case Resetting(done) => !done
  }

  /** One region under the lock, run by call t; a finished call runs none. */
  function Region(s: System, t: nat): System
    requires s.ring.Valid() && t < |s.calls|
  {
    match s.calls[t]
    case Writing(bytes, written, overwritten) =>
      if written >= |bytes| then s
      else if s.ring.nElements < |s.ring.data| then
        System(s.ring.Store(bytes[written]), s.calls[t := Writing(bytes, written + 1, overwritten)],
               s.stored + [Stored(t, bytes[written])], s.removed)
      else
        System(s.ring.Drop(), s.calls[t := Writing(bytes, written, overwritten + 1)],
               s.stored, s.removed + [Dropped(t, s.ring.data[s.ring.readIndex])])
    case Reading(maxLen, buffer, done) =>
      if done || |buffer| >= maxLen then s
      else if s.ring.nElements > 0 then
        var b := s.ring.data[s.ring.readIndex];
        System(s.ring.Drop(), s.calls[t := Reading(maxLen, buffer + [b], done)],
               s.stored, s.removed + [Delivered(t, b)])
      else s.(calls := s.calls[t := Reading(maxLen, buffer, true)])
    case Resetting(done) =>
      if done then s
      else System(s.ring.Reset(), s.calls[t := Resetting(true)], s.stored,
                  s.removed + ClearedAll(s.ring.Contents()))
  }

  function ClearedAll(bytes: seq<byte>): (r: seq<Removal>)
    ensures |r| == |bytes|
  {
    if bytes == [] then [] else ClearedAll(bytes[..|bytes| - 1]) + [Cleared(bytes[|bytes| - 1])]
  }

  ghost predicate Possible(s: System, a: Action) {
    match a
    case Begin(call) => Fresh(call)
    case Turn(caller) => caller < |s.calls|
  }

  ghost predicate Next(s: System, a: Action, s': System) {
    && s.ring.Valid()
    && Possible(s, a)
    && match a
       case Begin(call) => s' == s.(calls := s.calls + [call])
       case Turn(caller) => s' == Region(s, caller)
  }

  ghost predicate Init(s: System) {
    s.ring.Valid() && s.ring.nElements == 0 && s.calls == [] && s.stored == [] && s.removed == []
  }

  /** Any number of calls, begun and run in any order. */
  ghost predicate Run(states: seq<System>, actions: seq<Action>) {
    && |states| == |actions| + 1
    && Init(states[0])
    && forall i :: 0 <= i < |actions| ==> Next(states[i], actions[i], states[i + 1])
  }

  // ----- what the logs say

  function BytesStored(log: seq<Stored>): seq<byte> {
    if log == [] then [] else BytesStored(log[..|log| - 1]) + [log[|log| - 1].b]
  }

  function BytesRemoved(log: seq<Removal>): seq<byte> {
    if log == [] then [] else BytesRemoved(log[..|log| - 1]) + [log[|log| - 1].b]
  }

  /** The bytes that call t put in, in order. */
  function StoredBy(log: seq<Stored>, t: nat): seq<byte> {
    if log == [] then []
    else
      var last := log[|log| - 1];
      StoredBy(log[..|log| - 1], t) + if last.writer == t then [last.b] else []
  }

  /** The bytes handed to call t, in order. */
  function DeliveredTo(log: seq<Removal>, t: nat): seq<byte> {
    if log == [] then []
    else
      var last := log[|log| - 1];
      DeliveredTo(log[..|log| - 1], t) + if last.Delivered? && last.reader == t then [last.b] else []
  }

  function DroppedBy(log: seq<Removal>, t: nat): nat {
    if log == [] then 0
    else
      var last := log[|log| - 1];
      DroppedBy(log[..|log| - 1], t) + if last.Dropped? && last.writer == t then 1 else 0
  }

  /** What call t has in its hands is what the logs say about it. */
  ghost predicate CallAgrees(s: System, t: nat)
    requires t < |s.calls|
  {
    match s.calls[t]
    case Writing(bytes, written, overwritten) =>
      && written <= |bytes|
      && StoredBy(s.stored, t) == bytes[..written]
      && DroppedBy(s.removed, t) == overwritten
      && DeliveredTo(s.removed, t) == []
    case Reading(maxLen, buffer, _) =>
      && |buffer| <= maxLen
      && DeliveredTo(s.removed, t) == buffer
      && StoredBy(s.stored, t) == []
      && DroppedBy(s.removed, t) == 0
    case Resetting(_) =>
      && StoredBy(s.stored, t) == []
      && DeliveredTo(s.removed, t) == []
      && DroppedBy(s.removed, t) == 0
  }

  /**
   * The indices fit together, everything ever stored is what has been removed, in removal order, followed by
   * what is resident, and every call's own bytes are its share of the logs.
   */
  ghost predicate Inv(s: System) {
    && s.ring.Valid()
    && BytesStored(s.stored) == BytesRemoved(s.removed) + s.ring.Contents()
    && (forall t :: 0 <= t < |s.calls| ==> CallAgrees(s, t))
    && (forall i :: 0 <= i < |s.stored| ==> s.stored[i].writer < |s.calls|)
    && (forall i :: 0 <= i < |s.removed| && s.removed[i].Delivered? ==> s.removed[i].reader < |s.calls|)
    && (forall i :: 0 <= i < |s.removed| && s.removed[i].Dropped? ==> s.removed[i].writer < |s.calls|)
  }

  lemma LogAppend(stored: seq<Stored>, removed: seq<Removal>, e: Stored, r: Removal, t: nat)
    ensures BytesStored(stored + [e]) == BytesStored(stored) + [e.b]
    ensures BytesRemoved(removed + [r]) == BytesRemoved(removed) + [r.b]
    ensures StoredBy(stored + [e], t) == StoredBy(stored, t) + if e.writer == t then [e.b] else []
    ensures DeliveredTo(removed + [r], t) ==
      DeliveredTo(removed, t) + if r.Delivered? && r.reader == t then [r.b] else []
    ensures DroppedBy(removed + [r], t) == DroppedBy(removed, t) + if r.Dropped? && r.writer == t then 1 else 0
  {
    assert (stored + [e])[..|stored|] == stored;
    assert (removed + [r])[..|removed|] == removed;
  }

  lemma {:induction false} LogClear(removed: seq<Removal>, bytes: seq<byte>, t: nat)
    ensures BytesRemoved(removed + ClearedAll(bytes)) == BytesRemoved(removed) + bytes
    ensures DeliveredTo(removed + ClearedAll(bytes), t) == DeliveredTo(removed, t)
    ensures DroppedBy(removed + ClearedAll(bytes), t) == DroppedBy(removed, t)
    ensures forall i :: 0 <= i < |bytes| ==> ClearedAll(bytes)[i].Cleared?
  {
    if bytes == [] {
      assert removed + ClearedAll(bytes) == removed;
    } else {
      var init, last := bytes[..|bytes| - 1], Cleared(bytes[|bytes| - 1]);
      LogClear(removed, init, t);
      LogAppend([], removed + ClearedAll(init), Stored(0, 0), last, t);
      assert removed + ClearedAll(bytes) == (removed + ClearedAll(init)) + [last];
    }
  }

  lemma {:induction false} NoShareYet(stored: seq<Stored>, removed: seq<Removal>, t: nat)
    requires forall i :: 0 <= i < |stored| ==> stored[i].writer < t
    requires forall i :: 0 <= i < |removed| && removed[i].Delivered? ==> removed[i].reader < t
    requires forall i :: 0 <= i < |removed| && removed[i].Dropped? ==> removed[i].writer < t
    ensures StoredBy(stored, t) == [] && DeliveredTo(removed, t) == [] && DroppedBy(removed, t) == 0
    decreases |stored| + |removed|
  {
    if stored != [] {
      NoShareYet(stored[..|stored| - 1], removed, t);
    } else if removed != [] {
      NoShareYet(stored, removed[..|removed| - 1], t);
    }
  }

  lemma BeginKeepsInv(s: System, call: Call)
    requires Inv(s) && Fresh(call)
    ensures Inv(s.(calls := s.calls + [call]))
  {
    var s' := s.(calls := s.calls + [call]);
    NoShareYet(s.stored, s.removed, |s.calls|);
    forall t | 0 <= t < |s'.calls|
      ensures CallAgrees(s', t)
    {
      if t < |s.calls| {
        assert CallAgrees(s, t);
      }
    }
  }

  lemma WriterStores(s: System, t: nat)
    requires Inv(s) && t < |s.calls| && s.calls[t].Writing?
    requires s.calls[t].written < |s.calls[t].bytes| && s.ring.nElements < |s.ring.data|
    ensures Inv(Region(s, t))
  {
    hide BytesStored, BytesRemoved, StoredBy, DeliveredTo, DroppedBy, Ring.Contents, Ring.Store;
    var Writing(bytes, written, overwritten) := s.calls[t];
    var s' := Region(s, t);
    var e := Stored(t, bytes[written]);
    s.ring.StoreAppends(bytes[written]);
    forall u | 0 <= u < |s'.calls|
      ensures CallAgrees(s', u)
    {
      assert CallAgrees(s, u);
      LogAppend(s.stored, s.removed, e, Cleared(0), u);
      assert bytes[..written] + [bytes[written]] == bytes[..written + 1];
    }
    LogAppend(s.stored, s.removed, e, Cleared(0), t);
  }

  lemma WriterDrops(s: System, t: nat)
    requires Inv(s) && t < |s.calls| && s.calls[t].Writing?
    requires s.calls[t].written < |s.calls[t].bytes| && s.ring.nElements >= |s.ring.data|
    ensures Inv(Region(s, t))
  {
    hide BytesStored, BytesRemoved, StoredBy, DeliveredTo, DroppedBy, Ring.Contents, Ring.Drop;
    var s' := Region(s, t);
    var r := Dropped(t, s.ring.data[s.ring.readIndex]);
    s.ring.DropTakesOldest();
    forall u | 0 <= u < |s'.calls|
      ensures CallAgrees(s', u)
    {
      assert CallAgrees(s, u);
      LogAppend(s.stored, s.removed, Stored(0, 0), r, u);
    }
    LogAppend(s.stored, s.removed, Stored(0, 0), r, t);
  }

  lemma WriterKeepsInv(s: System, t: nat)
    requires Inv(s) && t < |s.calls| && s.calls[t].Writing?
    ensures Inv(Region(s, t))
  {
    if s.calls[t].written < |s.calls[t].bytes| {
      if s.ring.nElements < |s.ring.data| {
        WriterStores(s, t);
      } else {
        WriterDrops(s, t);
      }
    }
  }

  lemma ReaderKeepsInv(s: System, t: nat)
    requires Inv(s) && t < |s.calls| && s.calls[t].Reading?
    ensures Inv(Region(s, t))
  {
    hide BytesStored, BytesRemoved, StoredBy, DeliveredTo, DroppedBy, Ring.Contents, Ring.Drop;
    var Reading(maxLen, buffer, done) := s.calls[t];
    var s' := Region(s, t);
    assert CallAgrees(s, t);
    var r := Delivered(t, s.ring.data[s.ring.readIndex]);
    if !done && |buffer| < maxLen && s.ring.nElements > 0 {
      s.ring.DropTakesOldest();
      LogAppend(s.stored, s.removed, Stored(0, 0), r, t);
    }
    forall u | 0 <= u < |s'.calls|
      ensures CallAgrees(s', u)
    {
      assert CallAgrees(s, u);
      LogAppend(s.stored, s.removed, Stored(0, 0), r, u);
    }
  }

  lemma ResetKeepsInv(s: System, t: nat)
    requires Inv(s) && t < |s.calls| && s.calls[t].Resetting?
    ensures Inv(Region(s, t))
  {
    hide BytesStored, BytesRemoved, StoredBy, DeliveredTo, DroppedBy, Ring.Contents, Ring.Reset;
    hide ClearedAll;
    var s' := Region(s, t);
    s.ring.ResetEmpties();
    LogClear(s.removed, s.ring.Contents(), t);
    forall u | 0 <= u < |s'.calls|
      ensures CallAgrees(s', u)
    {
      assert CallAgrees(s, u);
      LogClear(s.removed, s.ring.Contents(), u);
    }
  }

  lemma NextKeepsInv(s: System, a: Action, s': System)
    requires Inv(s) && Next(s, a, s')
    ensures Inv(s')
  {
    match a
    case Begin(call) => BeginKeepsInv(s, call);
    case Turn(t) =>
      match s.calls[t]
      case Writing(_, _, _) => WriterKeepsInv(s, t);
      case Reading(_, _, _) => ReaderKeepsInv(s, t);
      case Resetting(_) => ResetKeepsInv(s, t);
  }

  /** The invariant holds in every state of every run. */
  lemma {:induction false} RunKeepsInv(states: seq<System>, actions: seq<Action>, k: nat)
    requires Run(states, actions) && k < |states|
    ensures Inv(states[k])
  {
    if k > 0 {
      RunKeepsInv(states, actions, k - 1);
      NextKeepsInv(states[k - 1], actions[k - 1], states[k]);
    }
  }

  /**
   * In every run, all deliveries, drops and clears together, in removal order, are a prefix of what the
   * writers stored, and the rest of it is resident: nothing is duplicated, reordered or invented.
   */
  lemma NothingInvented(states: seq<System>, actions: seq<Action>, k: nat)
    requires Run(states, actions) && k < |states|
    ensures states[k].ring.Valid()
    ensures BytesStored(states[k].stored) == BytesRemoved(states[k].removed) + states[k].ring.Contents()
  {
    RunKeepsInv(states, actions, k);
  }

  /** A reader holds exactly its deliveries; what the log says of a writer is the part it has written. */
  lemma EveryCallHasItsShare(states: seq<System>, actions: seq<Action>, k: nat, t: nat)
    requires Run(states, actions) && k < |states| && t < |states[k].calls|
    ensures states[k].calls[t].Reading? ==>
      states[k].calls[t].buffer == DeliveredTo(states[k].removed, t)
    ensures states[k].calls[t].Writing? ==>
      && states[k].calls[t].written <= |states[k].calls[t].bytes|
      && states[k].calls[t].bytes[..states[k].calls[t].written] == StoredBy(states[k].stored, t)
      && states[k].calls[t].overwritten == DroppedBy(states[k].removed, t)
  {
    RunKeepsInv(states, actions, k);
    assert CallAgrees(states[k], t);
  }

  // ----- what one turn does, and what a call comes to

  predicate Finished(c: Call) {
    match c
    case Writing(bytes, written, _) => written >= |bytes|
    case Reading(maxLen, buffer, done) => done || |buffer| >= maxLen
    case Resetting(done) => done
  }

  /** A finished call runs no region. */
  lemma NoTurn(s: System, t: nat)
    requires s.ring.Valid() && t < |s.calls| && Finished(s.calls[t])
    ensures Region(s, t) == s
  {}

  /** A turn of an unfinished reader takes the oldest byte, if there is one; only an empty ring ends it early. */
  lemma ReaderTurn(s: System, t: nat)
    requires s.ring.Valid() && t < |s.calls| && s.calls[t].Reading? && !Finished(s.calls[t])
    ensures var Reading(maxLen, buffer, done) := s.calls[t];
      var was, s' := s.ring.Contents(), Region(s, t);
      && s'.ring.Valid() && |s'.ring.data| == |s.ring.data| && s'.stored == s.stored
      && if was == [] then
           s'.ring == s.ring && s'.removed == s.removed && s'.calls == s.calls[t := Reading(maxLen, buffer, true)]
         else
           && s'.ring.Contents() == was[1..] && s'.removed == s.removed + [Delivered(t, was[0])]
           && s'.calls == s.calls[t := Reading(maxLen, buffer + [was[0]], false)]
  {
    hide Ring.Contents, Ring.Drop;
    if s.ring.nElements > 0 {
      s.ring.DropTakesOldest();
      KeepsSize(s.ring, 0);
    }
  }

  /** A turn of an unfinished writer stores its next byte or, exactly if the ring is full, drops the oldest one. */
  lemma WriterTurn(s: System, t: nat)
    requires s.ring.Valid() && t < |s.calls| && s.calls[t].Writing? && !Finished(s.calls[t])
    ensures var Writing(bytes, written, overwritten) := s.calls[t];
      var was, s' := s.ring.Contents(), Region(s, t);
      && s'.ring.Valid() && |s'.ring.data| == |s.ring.data|
      && if |was| == |s.ring.data| then
           && s'.ring.Contents() == was[1..] && s'.removed == s.removed + [Dropped(t, was[0])] && s'.stored == s.stored
           && s'.calls == s.calls[t := Writing(bytes, written, overwritten + 1)]
         else
           && s'.ring.Contents() == was + [bytes[written]] && s'.stored == s.stored + [Stored(t, bytes[written])]
           && s'.removed == s.removed && s'.calls == s.calls[t := Writing(bytes, written + 1, overwritten)]
  {
    hide Ring.Contents, Ring.Drop, Ring.Store;
    var b := s.calls[t].bytes[s.calls[t].written];
    KeepsSize(s.ring, b);
    if s.ring.nElements < |s.ring.data| {
      s.ring.StoreAppends(b);
    } else {
      s.ring.DropTakesOldest();
    }
  }

  /** A turn of a reset leaves nothing resident. */
  lemma ResetTurn(s: System, t: nat)
    requires s.ring.Valid() && t < |s.calls| && s.calls[t].Resetting? && !Finished(s.calls[t])
    ensures var s' := Region(s, t);
      && s'.ring.Valid() && |s'.ring.data| == |s.ring.data| && s'.ring.Contents() == []
      && s'.removed == s.removed + ClearedAll(s.ring.Contents()) && s'.stored == s.stored
      && s'.calls == s.calls[t := Resetting(true)]
  {
    s.ring.ResetEmpties();
  }

  lemma KeepsSize(r: Ring, b: byte)
    requires r.Valid()
    ensures r.nElements < |r.data| ==> |r.Store(b).data| == |r.data|
    ensures r.nElements > 0 ==> |r.Drop().data| == |r.data|
  {}

  /** How many bytes, or turns, a call still has before it. */
  function Left(c: Call): nat {
    match c
    case Writing(bytes, written, _) => if written >= |bytes| then 0 else |bytes| - written
    case Reading(maxLen, buffer, done) => if done || |buffer| >= maxLen then 0 else maxLen - |buffer|
    case Resetting(done) => if done then 0 else 1
  }

  /** All turns of one call, with nobody else in between: every turn brings it nearer to its end. */
  function Alone(s: System, t: nat): System
    requires s.ring.Valid() && t < |s.calls|
    decreases if t < |s.calls| then Left(s.calls[t]) else 0, s.ring.nElements
  {
    if Finished(s.calls[t]) then s
    else
      TurnApproachesEnd(s, t);
      Alone(Region(s, t), t)
  }

  lemma TurnApproachesEnd(s: System, t: nat)
    requires s.ring.Valid() && t < |s.calls| && !Finished(s.calls[t])
    ensures var s' := Region(s, t);
      && s'.ring.Valid() && |s'.calls| == |s.calls|
      && (Left(s'.calls[t]) < Left(s.calls[t])
          || (Left(s'.calls[t]) == Left(s.calls[t]) && s'.ring.nElements < s.ring.nElements))
  {
    hide Region, Ring.Contents;
    match s.calls[t]
    case Writing(_, _, _) => WriterTurn(s, t);
    case Reading(_, _, _) => ReaderTurn(s, t);
    case Resetting(_) => ResetTurn(s, t);
  }

  /** A read by itself comes to what the sequential one does: the longest prefix that is there and was asked for. */
  lemma {:induction false} ReadAlone(s: System, t: nat)
    requires s.ring.Valid() && t < |s.calls| && s.calls[t].Reading? && !s.calls[t].done
    ensures var Reading(maxLen, buffer, done) := s.calls[t];
      var was, s' := s.ring.Contents(), Alone(s, t);
      var n := if |buffer| >= maxLen then 0 else if maxLen - |buffer| < |was| then maxLen - |buffer| else |was|;
      && s'.ring.Valid() && |s'.calls| == |s.calls| && Finished(s'.calls[t])
      && s'.calls[t].Reading? && s'.calls[t].buffer == buffer + was[..n] && s'.ring.Contents() == was[n..]
    decreases Left(s.calls[t])
  {
    hide Region, Ring.Contents;
    if !Finished(s.calls[t]) {
      ReaderTurn(s, t);
      var was := s.ring.Contents();
      if was != [] {
        ReadAlone(Region(s, t), t);
        assert forall n: nat :: n < |was| ==> [was[0]] + was[1..][..n] == was[..n + 1] && was[1..][n..] == was[n + 1..];
      }
    }
  }

  /** A write by itself comes to what the sequential one does: the last bytes of all stay, the others are counted. */
  lemma {:induction false} WriteAlone(s: System, t: nat)
    requires s.ring.Valid() && t < |s.calls| && s.calls[t].Writing? && s.calls[t].written <= |s.calls[t].bytes|
    ensures var Writing(bytes, written, overwritten) := s.calls[t];
      var all, size, s' := s.ring.Contents() + bytes[written..], |s.ring.data|, Alone(s, t);
      && s'.ring.Valid() && s'.ring.Contents() == ByteFifos.LastOf(all, size)
      && |s'.calls| == |s.calls| && s'.calls[t] == Writing(bytes, |bytes|, overwritten + ByteFifos.Excess(all, size))
    decreases Left(s.calls[t]), s.ring.nElements
  {
    hide Region, Ring.Contents;
    var Writing(bytes, written, overwritten) := s.calls[t];
    var was, rest := s.ring.Contents(), bytes[written..];
    if Finished(s.calls[t]) {
      assert was + rest == was;
    } else {
      WriterTurn(s, t);
      var s' := Region(s, t);
      WriteAlone(s', t);
      if |was| == |s.ring.data| {
        assert was + rest == [was[0]] + (was[1..] + rest);
        ByteFifos.FrontIsLost([was[0]], was[1..] + rest, |s.ring.data|);
      } else {
        assert (was + [bytes[written]]) + bytes[written + 1..] == was + rest;
      }
    }
  }

  lemma ResetAlone(s: System, t: nat)
    requires s.ring.Valid() && t < |s.calls| && s.calls[t].Resetting? && !s.calls[t].done
    ensures Alone(s, t).ring.Contents() == [] && Alone(s, t).ring.Valid()
  {
    hide Region, Ring.Contents;
    ResetTurn(s, t);
  }
}
