/**
 * Conservation for the 16-bit buffer, in every run: a packet that arrives is emitted, held,
 * dropped as stale or dropped as a duplicate, and these are decided by its true index.
 */
module ReorderLedger {
  import opened Bytes
  import opened SequenceNumbers
  import Indexed = IndexedReorder
  import opened ReorderMachine
  import Simulation = ReorderSimulation
  import Timers = ReorderTimers

  /** Every packet is held under its own sequence number. */
  ghost predicate Keyed(s: State) {
    forall k :: k in s.pending ==> ParseRtpSequence(s.pending[k]) == k
  }

  /** The packets emitted or held. */
  ghost function Kept(s: State): multiset<Packet> {
    multiset(s.emitted) + multiset(s.pending.Values)
  }

  predicate Late(s: State, packet: Packet) {
    s.expected.Some? && IsStaleSequence(ParseRtpSequence(packet), s.expected.value)
  }

  predicate Repeated(s: State, packet: Packet) {
    !Late(s, packet) && ParseRtpSequence(packet) in s.pending
  }

  // ---------------------------------------------------------------- one critical section

  lemma EmitKeeps(s: State)
    requires Keyed(s) && s.expected.Some? && s.expected.value in s.pending
    ensures Keyed(EmitExpected(s)) && Kept(EmitExpected(s)) == Kept(s)
  {
    var k := s.expected.value;
    var rest := s.pending - {k};
    assert rest[k := s.pending[k]] == s.pending;
    ValuesAdd(rest, s.pending[k]);
  }

  lemma ValuesAdd(pending: map<Word, Packet>, packet: Packet)
    requires forall k :: k in pending ==> ParseRtpSequence(pending[k]) == k
    requires ParseRtpSequence(packet) !in pending
    ensures multiset(pending[ParseRtpSequence(packet) := packet].Values) == multiset(pending.Values) + multiset{packet}
  {
    var k := ParseRtpSequence(packet);
    assert pending[k := packet].Values == pending.Values + {packet} by {
      forall v | v in pending.Values ensures v in pending[k := packet].Values {
        assert v == pending[k := packet][ParseRtpSequence(v)];
      }
      assert pending[k := packet][k] == packet;
    }
    assert packet !in pending.Values;
  }

  lemma {:induction false} EmitRunKeeps(s: State)
    requires Keyed(s)
    ensures Keyed(EmitRun(s)) && Kept(EmitRun(s)) == Kept(s)
    decreases |s.pending|
  {
    if s.expected.Some? && s.expected.value in s.pending {
      hide Kept;
      EmitKeeps(s);
      EmitRunKeeps(EmitExpected(s));
    }
  }

  lemma FlushAvailableKeeps(s: State, race: bool)
    requires Keyed(s)
    ensures Keyed(FlushAvailable(s, race)) && Kept(FlushAvailable(s, race)) == Kept(s)
  {
    EmitRunKeeps(s);
  }

  lemma InsertKeeps(s: State, packet: Packet)
    requires Keyed(s) && !Late(s, packet)
    ensures Keyed(Insert(s, packet))
    ensures Kept(Insert(s, packet)) == Kept(s) + if Repeated(s, packet) then multiset{} else multiset{packet}
  {
    if ParseRtpSequence(packet) !in s.pending {
      ValuesAdd(s.pending, packet);
    }
  }

  /** Skipping and arming the timer move no packet. */
  lemma RelieveKeeps(s: State, race: bool)
    requires Keyed(s)
    ensures Keyed(Rearm(RelieveOverflow(s, race))) && Kept(Rearm(RelieveOverflow(s, race))) == Kept(s)
  {
    hide FlushAvailable;
    FlushAvailableKeeps(SkipToNearest(s), race);
  }

  lemma PushKeeps(s: State, packet: Packet, race: bool)
    requires Keyed(s)
    ensures Keyed(Push(s, packet, race))
    ensures Kept(Push(s, packet, race)) ==
            Kept(s) + if Late(s, packet) || Repeated(s, packet) then multiset{} else multiset{packet}
  {
    if !Late(s, packet) {
      var t := Insert(s, packet);
      InsertKeeps(s, packet);
      hide Insert, FlushAvailable, RelieveOverflow, Rearm, Keyed, Kept, Late, Repeated;
      FlushAvailableKeeps(t, race);
      RelieveKeeps(FlushAvailable(t, race), race);
    }
  }

  lemma FireKeeps(s: State, id: nat, race: bool)
    requires Keyed(s)
    ensures Keyed(Fire(s, id, race)) && Kept(Fire(s, id, race)) == Kept(s)
  {
    hide FlushAvailable;
    FlushAvailableKeeps(SkipToNearest(s.(timer := None, outstanding := s.outstanding - {id})), race);
  }

  lemma {:induction false} FlushRemainingKeeps(s: State, race: bool)
    requires Keyed(s)
    ensures Keyed(FlushRemaining(s, race)) && Kept(FlushRemaining(s, race)) == Kept(s)
    decreases |s.pending|
  {
    if s.pending != map[] && s.expected.Some? {
      var t := SkipToNearest(s);
      assert Keyed(t) && Kept(t) == Kept(s);
      hide FlushAvailable, Kept;
      FlushAvailableShrinks(t, race);
      FlushAvailableKeeps(t, race);
      FlushRemainingKeeps(FlushAvailable(t, race), race);
    }
  }

  // ---------------------------------------------------------------- whole runs

  function ArrivedPackets(events: seq<Event>): seq<Packet> {
    if events == [] then []
    else
      var n := |events| - 1;
      ArrivedPackets(events[..n]) + if events[n].Arrived? then [events[n].packet] else []
  }

  /** The packets that were stale when they arrived. */
  ghost function Stale(events: seq<Event>): seq<Packet> {
    if events == [] then []
    else
      var n := |events| - 1;
      Stale(events[..n]) +
      if events[n].Arrived? && Late(Run(INITIAL, events[..n]), events[n].packet) then [events[n].packet] else []
  }

  /** The packets whose number was held already when they arrived. */
  ghost function Duplicates(events: seq<Event>): seq<Packet> {
    if events == [] then []
    else
      var n := |events| - 1;
      Duplicates(events[..n]) +
      if events[n].Arrived? && Repeated(Run(INITIAL, events[..n]), events[n].packet) then [events[n].packet] else []
  }

  /** What a step adds to what is emitted or held. */
  lemma StepKeeps(s: State, e: Event)
    requires Keyed(s)
    ensures Keyed(Step(s, e))
    ensures Kept(Step(s, e)) ==
            Kept(s) +
            if e.Arrived? && !Late(s, e.packet) && !Repeated(s, e.packet) then multiset{e.packet} else multiset{}
  {
    hide Push, Fire, FlushRemaining;
    match e
    case Arrived(packet, race) => PushKeeps(s, packet, race);
    case TimerFired(id, race) => FireKeeps(s, id, race);
    case Flushed(race) => FlushRemainingKeeps(s, race);
    case Stopped(_) =>
  }

  /** Every packet that arrives is in exactly one place, as often as it has arrived. */
  lemma {:induction false} Conservation(events: seq<Event>)
    ensures
      var s := Run(INITIAL, events);
      && Keyed(s)
      && multiset(ArrivedPackets(events)) ==
         multiset(s.emitted) + multiset(s.pending.Values) + multiset(Stale(events)) + multiset(Duplicates(events))
  {
    if events != [] {
      var n := |events| - 1;
      Conservation(events[..n]);
      StepKeeps(Run(INITIAL, events[..n]), events[n]);
      hide Step, Keyed, Late;
    }
  }

  /** Without arrivals the emitted and held packets stay the same, and what is emitted stays so. */
  lemma {:induction false} QuietKeeps(s: State, events: seq<Event>)
    requires Keyed(s) && Timers.Valid(s) && forall n :: 0 <= n < |events| ==> !events[n].Arrived?
    ensures
      var r := Run(s, events);
      Keyed(r) && Timers.Valid(r) && Kept(r) == Kept(s) && s.emitted <= r.emitted
  {
    hide Keyed, Kept, Step, Timers.Valid;
    if events != [] {
      var n := |events| - 1;
      QuietKeeps(s, events[..n]);
      StepKeeps(Run(s, events[..n]), events[n]);
      Timers.StepKeeps(Run(s, events[..n]), events[n]);
    }
  }

  // ---------------------------------------------------------------- why packets are dropped

  lemma {:induction false} DrainKeepsDrops(b: Indexed.Buffer)
    requires b.next.Some?
    ensures Indexed.Drain(b).stale == b.stale && Indexed.Drain(b).duplicate == b.duplicate
    decreases |b.pending|
  {
    if b.next.value in b.pending {
      DrainKeepsDrops(Indexed.EmitNext(b));
    }
  }

  lemma PushDrops(b: Indexed.Buffer, a: Indexed.Arrival)
    ensures
      var e := if b.next.Some? then b.next.value else a.index;
      var r := Indexed.Push(b, a);
      && r.stale == b.stale + (if a.index < e then [a] else [])
      && r.duplicate == b.duplicate + (if e <= a.index && a.index in b.pending then [a] else [])
  {
    var e := if b.next.Some? then b.next.value else a.index;
    if e <= a.index {
      var c := Indexed.Store(b.(next := Some(e)), a);
      hide Indexed.Drain, Indexed.Least;
      DrainKeepsDrops(c);
      if |Indexed.Drain(c).pending| > Indexed.MAX_PENDING {
        DrainKeepsDrops(Indexed.Skip(Indexed.Drain(c)));
      }
    }
  }

  /** The decisions on 16 bits are those on true indices. */
  lemma DroppedAlike(s: State, b: Indexed.Buffer, packet: Packet, index: int)
    requires Simulation.Represents(s, b) && ParseRtpSequence(packet) == Wire(index)
    requires b.next.Some? ==> InWindow(b.next.value, index)
    ensures
      var e := if b.next.Some? then b.next.value else index;
      && (Late(s, packet) <==> index < e)
      && (Repeated(s, packet) <==> e <= index && index in b.pending)
  {
    hide Simulation.SameOutput, IsStaleSequence, Wire, ParseRtpSequence;
    if b.next.Some? {
      StaleIffOverdue(b.next.value, index);
      UnwrapExact(b.next.value, index);
      hide Unwrap;
      if index in b.pending {
        assert Simulation.Carries(s.pending, index, b.pending[index]);
      }
    }
  }

  lemma StepDrops(s: State, b: Indexed.Buffer, e: Event, index: int)
    requires Simulation.Represents(s, b) && Indexed.Settled(b) && Simulation.Plausible(b, e, index)
    ensures
      var r := Simulation.IndexedStep(b, e, index);
      var late, repeated := e.Arrived? && Late(s, e.packet), e.Arrived? && Repeated(s, e.packet);
      && r.stale == b.stale + (if late then [Indexed.Arrival(index, e.packet)] else [])
      && r.duplicate == b.duplicate + (if repeated then [Indexed.Arrival(index, e.packet)] else [])
  {
    hide Simulation.Represents, Indexed.Settled, Indexed.Push, Indexed.Drain, Late, Repeated;
    match e
    case Arrived(packet, _) =>
      PushDrops(b, Indexed.Arrival(index, packet));
      DroppedAlike(s, b, packet, index);
    case TimerFired(_, _) =>
      if b.pending != map[] {
        DrainKeepsDrops(Indexed.Skip(b));
      }
    case Flushed(_) => Indexed.FlushKeepsDrops(b);
    case Stopped(_) =>
  }

  lemma PacketsNext(s: seq<Indexed.Arrival>, a: Indexed.Arrival)
    ensures Indexed.Packets(s + [a]) == Indexed.Packets(s) + [a.packet] && Indexed.Packets(s + []) == Indexed.Packets(s)
  {
    assert s + [] == s;
  }

  /** Dropped as stale: overdue by true index. Dropped as duplicate: held under the same true index. */
  lemma {:induction false} DropsAlike(events: seq<Event>, indices: seq<int>)
    requires Simulation.WithinWindow(events, indices)
    ensures
      var b := Simulation.IndexedRun(events, indices);
      Stale(events) == Indexed.Packets(b.stale) && Duplicates(events) == Indexed.Packets(b.duplicate)
  {
    if events != [] {
      var n := |events| - 1;
      var b := Simulation.LastStep(events, indices);
      DropsAlike(events[..n], indices[..n]);
      var late := events[n].Arrived? && Late(Run(INITIAL, events[..n]), events[n].packet);
      var repeated := events[n].Arrived? && Repeated(Run(INITIAL, events[..n]), events[n].packet);
      assert Stale(events) == Stale(events[..n]) + if late then [events[n].packet] else [];
      assert Duplicates(events) == Duplicates(events[..n]) + if repeated then [events[n].packet] else [];
      hide *;
      StepDrops(Run(INITIAL, events[..n]), b, events[n], indices[n]);
      if events[n].Arrived? {
        PacketsNext(b.stale, Indexed.Arrival(indices[n], events[n].packet));
        PacketsNext(b.duplicate, Indexed.Arrival(indices[n], events[n].packet));
      }
    }
  }
}
