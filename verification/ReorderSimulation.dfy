/**
 * The 16-bit buffer behaves as the reference buffer over true packet indices, for every
 * interleaving of its critical sections and across any number of wraparounds.
 */
module ReorderSimulation {
  import opened Bytes
  import opened SequenceNumbers
  import Indexed = IndexedReorder
  import opened ReorderMachine

  /** `s` is `b` with every index cut down to its sequence number. */
  ghost predicate Represents(s: State, b: Indexed.Buffer) {
    && SameOutput(s.emitted, b.emitted)
    && if b.next.None? then s.expected.None? && s.pending == map[] && b.pending == map[]
       else s.expected == Some(Wire(b.next.value)) && SameKeys(s.pending, b.next.value, b.pending)
  }

  ghost predicate SameKeys(wired: map<Word, Packet>, e: int, indexed: map<int, Packet>) {
    && (forall i :: i in indexed ==> Ahead(e, i) && Carries(wired, i, indexed[i]))
    && (forall k :: k in wired ==> Unwrap(e, k) in indexed)
  }

  predicate Ahead(e: int, i: int) {
    e <= i < e + HALF
  }

  predicate Carries(wired: map<Word, Packet>, i: int, packet: Packet) {
    Wire(i) in wired && wired[Wire(i)] == packet && ParseRtpSequence(packet) == Wire(i)
  }

  ghost predicate SameOutput(sent: seq<Packet>, emitted: seq<Indexed.Arrival>) {
    && sent == Indexed.Packets(emitted)
    && Numbered(emitted)
  }

  /** Each packet bears the sequence number of its index. */
  ghost predicate Numbered(arrivals: seq<Indexed.Arrival>) {
    forall j :: 0 <= j < |arrivals| ==> ParseRtpSequence(arrivals[j].packet) == Wire(arrivals[j].index)
  }

  // ---------------------------------------------------------------- one critical section

  /** While the pending packets lie ahead of both, moving the expectation keeps the keys. */
  lemma Reexpect(wired: map<Word, Packet>, e: int, e': int, indexed: map<int, Packet>)
    requires SameKeys(wired, e, indexed)
    requires forall i :: i in indexed ==> Ahead(e', i)
    ensures SameKeys(wired, e', indexed)
  {
    forall k | k in wired ensures Unwrap(e', k) in indexed {
      UnwrapExact(e', Unwrap(e, k));
    }
  }

  lemma ExpectedPending(wired: map<Word, Packet>, e: int, indexed: map<int, Packet>)
    requires SameKeys(wired, e, indexed)
    ensures Wire(e) in wired <==> e in indexed
  {
    UnwrapExact(e, e);
  }

  lemma {:induction false} SameSize(keys: set<Word>, indices: set<int>, e: int)
    requires forall i :: i in indices ==> Ahead(e, i) && Wire(i) in keys
    requires forall k :: k in keys ==> Unwrap(e, k) in indices
    ensures |keys| == |indices|
    decreases indices
  {
    if indices == {} {
      assert keys == {};
    } else {
      var i := Member(indices);
      forall j | j in indices - {i} ensures Wire(j) in keys - {Wire(i)} {
        if Wire(j) == Wire(i) { WireInjective(i, j); }
      }
      forall k | k in keys - {Wire(i)} ensures Unwrap(e, k) in indices - {i} {}
      SameSize(keys - {Wire(i)}, indices - {i}, e);
    }
  }

  lemma EqualSizes(s: State, b: Indexed.Buffer)
    requires Represents(s, b)
    ensures |s.pending| == |b.pending| && (s.pending == map[] <==> b.pending == map[])
    ensures s.expected.Some? == b.next.Some?
    ensures b.next.Some? ==> (s.expected.value in s.pending <==> b.next.value in b.pending)
  {
    if b.next.Some? {
      SameSize(s.pending.Keys, b.pending.Keys, b.next.value);
      assert |s.pending| == |s.pending.Keys| && |b.pending| == |b.pending.Keys|;
      ExpectedPending(s.pending, b.next.value, b.pending);
    }
  }

  lemma RemoveExpected(wired: map<Word, Packet>, e: int, indexed: map<int, Packet>)
    requires SameKeys(wired, e, indexed) && e in indexed
    ensures SameKeys(wired - {Wire(e)}, e + 1, indexed - {e})
  {
    forall i | i in indexed - {e} ensures Ahead(e + 1, i) && Carries(wired - {Wire(e)}, i, indexed[i]) {
      assert Ahead(e, i) && Carries(wired, i, indexed[i]);
      if Wire(i) == Wire(e) { WireInjective(i, e); }
    }
    forall k | k in wired - {Wire(e)} ensures Unwrap(e + 1, k) in indexed - {e} {
      var i := Unwrap(e, k);
      assert i in indexed && i != e;
      UnwrapExact(e + 1, i);
    }
  }

  lemma HeadCarried(wired: map<Word, Packet>, e: int, indexed: map<int, Packet>)
    requires SameKeys(wired, e, indexed) && e in indexed
    ensures Carries(wired, e, indexed[e])
  {
  }

  lemma AppendOutput(sent: seq<Packet>, emitted: seq<Indexed.Arrival>, a: Indexed.Arrival)
    requires SameOutput(sent, emitted) && ParseRtpSequence(a.packet) == Wire(a.index)
    ensures SameOutput(sent + [a.packet], emitted + [a])
  {
  }

  lemma EmitAlike(s: State, b: Indexed.Buffer)
    requires Represents(s, b) && b.next.Some? && b.next.value in b.pending
    ensures s.expected.value in s.pending
    ensures Represents(EmitExpected(s), Indexed.EmitNext(b))
  {
    hide SameKeys, SameOutput;
    var n := b.next.value;
    HeadCarried(s.pending, n, b.pending);
    RemoveExpected(s.pending, n, b.pending);
    AppendOutput(s.emitted, b.emitted, Indexed.Arrival(n, b.pending[n]));
    assert Wire(Wire(n) + 1) == Wire(n + 1);
  }

  lemma {:induction false} EmitRunAlike(s: State, b: Indexed.Buffer)
    requires Represents(s, b) && b.next.Some?
    ensures Represents(EmitRun(s), Indexed.Drain(b))
    decreases |b.pending|
  {
    hide SameKeys, SameOutput;
    EqualSizes(s, b);
    if b.next.value in b.pending {
      EmitAlike(s, b);
      EmitRunAlike(EmitExpected(s), Indexed.EmitNext(b));
    }
  }

  lemma FlushAvailableAlike(s: State, b: Indexed.Buffer, race: bool)
    requires Represents(s, b) && b.next.Some?
    ensures Represents(FlushAvailable(s, race), Indexed.Drain(b))
  {
    hide SameKeys, SameOutput;
    EmitRunAlike(s, b);
  }

  /** The first pending number around the circle belongs to the pending packet with the least index. */
  lemma FirstIsLeast(wired: map<Word, Packet>, e: int, indexed: map<int, Packet>, k: Word, least: int)
    requires SameKeys(wired, e, indexed) && k in wired && least in indexed
    requires forall x :: x in wired ==> SequenceDistance(Wire(e), k) <= SequenceDistance(Wire(e), x)
    requires forall i :: i in indexed ==> least <= i
    ensures k == Wire(least)
  {
    hide SequenceDistance;
    var i := Unwrap(e, k);
    assert Ahead(e, i) && Carries(wired, least, indexed[least]);
    DistanceIsIndexDifference(e, i);
    DistanceIsIndexDifference(e, least);
  }

  lemma ExpectLeast(wired: map<Word, Packet>, e: int, indexed: map<int, Packet>, least: int)
    requires SameKeys(wired, e, indexed) && least in indexed
    requires forall i :: i in indexed ==> least <= i
    ensures SameKeys(wired, least, indexed)
  {
    assert Ahead(e, least);
    forall i | i in indexed ensures Ahead(least, i) {
      assert Ahead(e, i);
    }
    Reexpect(wired, e, least, indexed);
  }

  /** The nearest pending number around the circle is the pending packet with the least index. */
  lemma NearestIsLeast(wired: map<Word, Packet>, e: int, indexed: map<int, Packet>)
    requires SameKeys(wired, e, indexed) && wired != map[] && indexed != map[]
    ensures Nearest(Wire(e), wired.Keys) == Wire(Indexed.Least(indexed.Keys))
    ensures SameKeys(wired, Indexed.Least(indexed.Keys), indexed)
  {
    hide *;
    var k, least := Nearest(Wire(e), wired.Keys), Indexed.Least(indexed.Keys);
    FirstIsLeast(wired, e, indexed, k, least);
    ExpectLeast(wired, e, indexed, least);
  }

  lemma SkipAlike(s: State, b: Indexed.Buffer)
    requires Represents(s, b) && b.next.Some? && b.pending != map[] && Waiting(s)
    ensures Represents(SkipToNearest(s), Indexed.Skip(b))
  {
    hide SameKeys, SameOutput;
    EqualSizes(s, b);
    NearestIsLeast(s.pending, b.next.value, b.pending);
  }

  lemma InsertAlike(s: State, b: Indexed.Buffer, a: Indexed.Arrival)
    requires Represents(s, b) && ParseRtpSequence(a.packet) == Wire(a.index)
    requires b.next.Some? ==> Ahead(b.next.value, a.index)
    ensures
      var e := if b.next.Some? then b.next.value else a.index;
      Represents(Insert(s, a.packet), Indexed.Store(b.(next := Some(e)), a))
  {
    var e := if b.next.Some? then b.next.value else a.index;
    var s', b' := Insert(s, a.packet), Indexed.Store(b.(next := Some(e)), a);
    UnwrapExact(e, a.index);
    assert Wire(a.index) in s.pending <==> a.index in b.pending;
    forall i | i in b'.pending ensures Ahead(e, i) && Carries(s'.pending, i, b'.pending[i]) {
      if i != a.index {
        assert Carries(s.pending, i, b.pending[i]);
        if Wire(i) == Wire(a.index) { WireInjective(i, a.index); }
      }
    }
  }

  lemma RelieveAlike(s: State, b: Indexed.Buffer, race: bool)
    requires Represents(s, b) && b.next.Some? && b.next.value !in b.pending
    ensures Represents(RelieveOverflow(s, race), Indexed.Relieve(b))
  {
    hide SameKeys, SameOutput;
    EqualSizes(s, b);
    if |b.pending| > Indexed.MAX_PENDING {
      SkipAlike(s, b);
      FlushAvailableAlike(SkipToNearest(s), Indexed.Skip(b), race);
    }
  }

  lemma PushAlike(s: State, b: Indexed.Buffer, a: Indexed.Arrival, race: bool)
    requires Represents(s, b) && Indexed.Settled(b) && ParseRtpSequence(a.packet) == Wire(a.index)
    requires b.next.Some? ==> InWindow(b.next.value, a.index)
    ensures Represents(Push(s, a.packet, race), Indexed.Push(b, a))
  {
    hide SameKeys, SameOutput, EmitRun, FlushAvailable, RelieveOverflow;
    hide Indexed.Draining, Indexed.Drain, Indexed.Relieve;
    var e := if b.next.Some? then b.next.value else a.index;
    StaleIffOverdue(e, a.index);
    if a.index >= e {
      InsertAlike(s, b, a);
      var t, c := Insert(s, a.packet), Indexed.Store(b.(next := Some(e)), a);
      FlushAvailableAlike(t, c, race);
      Indexed.StoreDraining(b, a, e);
      Indexed.DrainSettles(c);
      RelieveAlike(FlushAvailable(t, race), Indexed.Drain(c), race);
    }
  }

  lemma FireAlike(s: State, b: Indexed.Buffer, id: nat, race: bool)
    requires Represents(s, b) && Indexed.Settled(b)
    ensures Represents(Fire(s, id, race), Indexed.Expire(b))
  {
    hide SameKeys, SameOutput;
    EqualSizes(s, b);
    if b.pending != map[] {
      var t := s.(timer := None, outstanding := s.outstanding - {id});
      SkipAlike(t, b);
      FlushAvailableAlike(SkipToNearest(t), Indexed.Skip(b), race);
    }
  }

  lemma {:induction false} FlushRemainingAlike(s: State, b: Indexed.Buffer, race: bool)
    requires Represents(s, b) && Indexed.Settled(b)
    ensures Represents(FlushRemaining(s, race), Indexed.FlushRemaining(b))
    decreases |b.pending|
  {
    hide SameKeys, SameOutput;
    EqualSizes(s, b);
    if b.pending != map[] {
      SkipAlike(s, b);
      FlushAvailableAlike(SkipToNearest(s), Indexed.Skip(b), race);
      Indexed.SkipDrainShrinks(b);
      Indexed.ExpireSettles(b);
      FlushRemainingAlike(FlushAvailable(SkipToNearest(s), race), Indexed.Drain(Indexed.Skip(b)), race);
    }
  }

  // ---------------------------------------------------------------- runs

  /** The reference buffer's answer to an event; `index` is the true index of an arriving packet. */
  ghost function IndexedStep(b: Indexed.Buffer, e: Event, index: int): Indexed.Buffer {
    match e
    case Arrived(packet, _) => Indexed.Push(b, Indexed.Arrival(index, packet))
    case TimerFired(_, _) => Indexed.Expire(b)
    case Flushed(_) => Indexed.FlushRemaining(b)
    case Stopped(_) => b
  }

  ghost function IndexedRun(events: seq<Event>, indices: seq<int>): Indexed.Buffer
    requires |indices| == |events|
  {
    if events == [] then Indexed.EMPTY
    else
      var n := |events| - 1;
      IndexedStep(IndexedRun(events[..n], indices[..n]), events[n], indices[n])
  }

  /** The packets of a run, with their true indices, in the order of arrival. */
  ghost function Arrivals(events: seq<Event>, indices: seq<int>): seq<Indexed.Arrival>
    requires |indices| == |events|
  {
    if events == [] then []
    else
      var n := |events| - 1;
      Arrivals(events[..n], indices[..n]) +
      if events[n].Arrived? then [Indexed.Arrival(indices[n], events[n].packet)] else []
  }

  /** `index` can be the true index of the packet that event `e` brings to `b`. */
  ghost predicate Plausible(b: Indexed.Buffer, e: Event, index: int) {
    e.Arrived? ==>
      && ParseRtpSequence(e.packet) == Wire(index)
      && (b.next.Some? ==> InWindow(b.next.value, index))
  }

  /** Every packet arrives within half the number space of the one expected then. */
  ghost predicate WithinWindow(events: seq<Event>, indices: seq<int>) {
    && |indices| == |events|
    && forall n :: 0 <= n < |events| ==> Plausible(IndexedRun(events[..n], indices[..n]), events[n], indices[n])
  }

  lemma WithinWindowPrefix(events: seq<Event>, indices: seq<int>, n: nat)
    requires WithinWindow(events, indices) && n <= |events|
    ensures WithinWindow(events[..n], indices[..n])
  {
    forall m | 0 <= m < n
      ensures Plausible(IndexedRun(events[..n][..m], indices[..n][..m]), events[..n][m], indices[..n][m])
    {
      assert events[..n][..m] == events[..m] && indices[..n][..m] == indices[..m];
    }
  }

  lemma WithinWindowExtend(events: seq<Event>, indices: seq<int>)
    requires events != [] && |indices| == |events|
    requires
      var n := |events| - 1;
      WithinWindow(events[..n], indices[..n]) && Plausible(IndexedRun(events[..n], indices[..n]), events[n], indices[n])
    ensures WithinWindow(events, indices)
  {
    hide IndexedRun, Plausible;
    var n := |events| - 1;
    forall m | 0 <= m <= n
      ensures Plausible(IndexedRun(events[..m], indices[..m]), events[m], indices[m])
    {
      if m < n {
        assert events[..n][..m] == events[..m] && indices[..n][..m] == indices[..m];
        assert Plausible(IndexedRun(events[..n][..m], indices[..n][..m]), events[..n][m], indices[..n][m]);
      }
    }
  }

  lemma StepAlike(s: State, b: Indexed.Buffer, e: Event, index: int)
    requires Represents(s, b) && Indexed.Settled(b) && Plausible(b, e, index)
    ensures Represents(Step(s, e), IndexedStep(b, e, index)) && Indexed.Settled(IndexedStep(b, e, index))
  {
    hide SameKeys, SameOutput, Indexed.Draining;
    match e
    case Arrived(packet, race) =>
      PushAlike(s, b, Indexed.Arrival(index, packet), race);
      Indexed.PushSettles(b, Indexed.Arrival(index, packet));
    case TimerFired(id, race) =>
      FireAlike(s, b, id, race);
      Indexed.ExpireSettles(b);
    case Flushed(race) =>
      FlushRemainingAlike(s, b, race);
      Indexed.FlushSettles(b);
    case Stopped(_) =>
  }

  lemma StepConserves(b: Indexed.Buffer, e: Event, index: int)
    ensures Indexed.Ledger(IndexedStep(b, e, index)) ==
            Indexed.Ledger(b) + if e.Arrived? then multiset{Indexed.Arrival(index, e.packet)} else multiset{}
  {
    match e
    case Arrived(packet, _) => Indexed.PushConserves(b, Indexed.Arrival(index, packet));
    case TimerFired(_, _) => Indexed.ExpireConserves(b);
    case Flushed(_) => Indexed.FlushConserves(b);
    case Stopped(_) =>
  }

  /** The simulation, over whole runs. */
  lemma {:induction false} RunAlike(events: seq<Event>, indices: seq<int>)
    requires WithinWindow(events, indices)
    ensures Represents(Run(INITIAL, events), IndexedRun(events, indices))
    ensures Indexed.Settled(IndexedRun(events, indices))
  {
    if events != [] {
      var n := |events| - 1;
      WithinWindowPrefix(events, indices, n);
      RunAlike(events[..n], indices[..n]);
      StepAlike(Run(INITIAL, events[..n]), IndexedRun(events[..n], indices[..n]), events[n], indices[n]);
    }
  }

  /** What the last event finds. */
  lemma LastStep(events: seq<Event>, xs: seq<int>) returns (b: Indexed.Buffer)
    requires WithinWindow(events, xs) && events != []
    ensures
      var n := |events| - 1;
      && |xs| == |events| && b == IndexedRun(events[..n], xs[..n])
      && IndexedRun(events, xs) == IndexedStep(b, events[n], xs[n])
      && WithinWindow(events[..n], xs[..n]) && Plausible(b, events[n], xs[n])
      && Indexed.Settled(b) && Represents(Run(INITIAL, events[..n]), b)
  {
    hide IndexedStep, Plausible, Indexed.Settled, Represents;
    var n := |events| - 1;
    b := IndexedRun(events[..n], xs[..n]);
    WithinWindowPrefix(events, xs, n);
    RunAlike(events[..n], xs[..n]);
  }

  /** Packets leave in the order of their true indices, at most half the number space apart. */
  lemma EmittedInOrder(events: seq<Event>, indices: seq<int>) returns (out: seq<Indexed.Arrival>)
    requires WithinWindow(events, indices)
    ensures Indexed.InOrder(out) && out == IndexedRun(events, indices).emitted
    ensures Run(INITIAL, events).emitted == Indexed.Packets(out) && Numbered(out)
  {
    RunAlike(events, indices);
    out := IndexedRun(events, indices).emitted;
  }

  /** Every arrival is emitted, held, dropped as stale or dropped as a duplicate: one of them, once. */
  lemma {:induction false} Conservation(events: seq<Event>, indices: seq<int>)
    requires |indices| == |events|
    ensures Indexed.Ledger(IndexedRun(events, indices)) == multiset(Arrivals(events, indices))
  {
    if events != [] {
      var n := |events| - 1;
      Conservation(events[..n], indices[..n]);
      StepConserves(IndexedRun(events[..n], indices[..n]), events[n], indices[n]);
    }
  }

  /** No index is emitted twice. */
  lemma EmittedOnce(events: seq<Event>, indices: seq<int>, i: int, j: int)
    requires WithinWindow(events, indices)
    requires 0 <= i < j < |Run(INITIAL, events).emitted|
    ensures
      var out := IndexedRun(events, indices).emitted;
      |out| == |Run(INITIAL, events).emitted| && out[i].index < out[j].index
  {
    RunAlike(events, indices);
  }

  /** Flushing emits exactly what was held, in ascending order of true index. */
  lemma FlushEmitsPending(events: seq<Event>, indices: seq<int>, race: bool) returns (rest: seq<Indexed.Arrival>)
    requires |indices| == |events| && WithinWindow(events, indices)
    ensures Indexed.InOrder(rest)
    ensures multiset(rest) == multiset(Indexed.PendingArrivals(IndexedRun(events, indices).pending))
    ensures FlushRemaining(Run(INITIAL, events), race).emitted ==
            Run(INITIAL, events).emitted + Indexed.Packets(rest)
  {
    hide *;
    RunAlike(events, indices);
    var s, b := Run(INITIAL, events), IndexedRun(events, indices);
    FlushRemainingAlike(s, b, race);
    Indexed.FlushSettles(b);
    rest := Indexed.FlushRemaining(b).emitted[|b.emitted|..];
    Indexed.FlushEmitsPending(b, rest);
    RepresentsOutput(s, b);
    RepresentsOutput(FlushRemaining(s, race), Indexed.FlushRemaining(b));
    assert Indexed.Packets(b.emitted + rest) == Indexed.Packets(b.emitted) + Indexed.Packets(rest);
  }

  lemma RepresentsOutput(s: State, b: Indexed.Buffer)
    requires Represents(s, b)
    ensures s.emitted == Indexed.Packets(b.emitted)
  {
  }

  /** Every run of the buffer has such indices: unwrap each sequence number around the expected one. */
  ghost function Unwrapped(events: seq<Event>): (indices: seq<int>)
    ensures |indices| == |events|
  {
    if events == [] then []
    else
      var n := |events| - 1;
      var before := Unwrapped(events[..n]);
      var b := IndexedRun(events[..n], before);
      before + [if !events[n].Arrived? then 0
                else if b.next.Some? then Unwrap(b.next.value, ParseRtpSequence(events[n].packet))
                else ParseRtpSequence(events[n].packet)]
  }

  lemma {:induction false} UnwrappedWithinWindow(events: seq<Event>)
    ensures WithinWindow(events, Unwrapped(events))
  {
    if events != [] {
      var n := |events| - 1;
      var indices := Unwrapped(events);
      UnwrappedWithinWindow(events[..n]);
      assert indices[..n] == Unwrapped(events[..n]);
      WithinWindowExtend(events, indices);
    }
  }
}
