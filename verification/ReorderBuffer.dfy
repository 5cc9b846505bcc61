/**
 * The reorder buffer as the relay runs it: an object whose critical sections update the
 * expected number, the pending map and the flush timer in place. Each is proved to be the
 * corresponding transition of the state machine.
 */
module ReorderBuffer {
  import opened Bytes
  import opened SequenceNumbers
  import Indexed = IndexedReorder
  import Machine = ReorderMachine
  import Timers = ReorderTimers

  method Pick<T(==)>(s: set<T>) returns (x: T)
    requires s != {}
    ensures x in s
  {
    x :| x in s;
  }

  /** Distances from one number determine the other, so the nearest pending number is unique. */
  lemma NearestUnique(e: Word, keys: set<Word>, k: Word)
    requires k in keys && forall x :: x in keys ==> SequenceDistance(e, k) <= SequenceDistance(e, x)
    ensures k == Machine.Nearest(e, keys)
  {
    var n := Machine.Nearest(e, keys);
    hide Machine.Nearest;
    assert SequenceDistance(e, k) == SequenceDistance(e, n);
  }

  /** A callback that runs late, and whether it loses the race when it stops a timer. */
  datatype Late = Late(id: nat, race: bool)

  class UdpRtpReorderBuffer {
    var expectedSeq: Option<Word>
    var pending: map<Word, Packet>
    var flushTimer: Option<nat>
    /** What the emit callback has been given. */
    var emitted: seq<Packet>
    /** The runtime's side of the timers: the next identity, and the callbacks still to run. */
    var nextTimer: nat
    var outstanding: set<nat>

    ghost function State(): Machine.State
      reads this
    {
      Machine.State(expectedSeq, pending, flushTimer, outstanding, nextTimer, emitted)
    }

    ghost predicate Valid()
      reads this
    {
      Timers.Valid(State())
    }

    constructor ()
      ensures Valid() && State() == Machine.INITIAL
    {
      expectedSeq, pending, flushTimer, emitted, nextTimer, outstanding := None, map[], None, [], 0, {};
    }

    predicate HasPending(sequence: Word)
      reads this
    {
      sequence in pending
    }

    method StopTimer(race: bool)
      modifies this`flushTimer, this`outstanding
      ensures State() == Machine.StopTimer(old(State()), race)
    {
      if flushTimer.Some? {
        outstanding := if race then outstanding else outstanding - {flushTimer.value};
        flushTimer := None;
      }
    }

    method FlushAvailableLocked(race: bool)
      modifies this
      ensures State() == Machine.FlushAvailable(old(State()), race)
    {
      if expectedSeq.None? {
        return;
      }
      while HasPending(expectedSeq.value)
        invariant expectedSeq.Some?
        invariant Machine.EmitRun(State()) == Machine.EmitRun(old(State()))
        decreases |pending|
      {
        ghost var before := State();
        var k: Word, successor: int := expectedSeq.value, expectedSeq.value;
        var packet := pending[k];
        pending := pending - {k};
        emitted := emitted + [packet];
        successor := successor + 1;
        expectedSeq := Some(Wire(successor));
        assert State() == Machine.EmitExpected(before);
      }
      if |pending| == 0 {
        StopTimer(race);
      }
    }

    method ArmFlushTimerLocked()
      modifies this`flushTimer, this`outstanding, this`nextTimer
      ensures State() == Machine.ArmTimer(old(State()))
    {
      if flushTimer.Some? {
        return;
      }
      flushTimer := Some(nextTimer);
      outstanding := outstanding + {nextTimer};
      nextTimer := nextTimer + 1;
    }

    /** The map is visited in an arbitrary order. */
    method FindNearestPendingSequence() returns (nearest: Word, found: bool)
      ensures found <==> pending != map[]
      ensures found ==> nearest in pending
      ensures found && expectedSeq.Some? ==> nearest == Machine.Nearest(expectedSeq.value, pending.Keys)
    {
      nearest, found := 0, false;
      var dist: Word := 0;
      if expectedSeq.None? {
        if pending.Keys != {} {
          nearest := Pick(pending.Keys);
          found := true;
        }
        return;
      }
      var rest := pending.Keys;
      while rest != {}
        invariant rest <= pending.Keys
        invariant found <==> rest != pending.Keys
        invariant found ==> nearest in pending && dist == SequenceDistance(expectedSeq.value, nearest)
        invariant found ==> forall x :: x in pending.Keys - rest ==> dist <= SequenceDistance(expectedSeq.value, x)
        decreases rest
      {
        var sequence := Pick(rest);
        var current := SequenceDistance(expectedSeq.value, sequence);
        if !found || current < dist {
          nearest, dist, found := sequence, current, true;
        }
        rest := rest - {sequence};
      }
      if found {
        NearestUnique(expectedSeq.value, pending.Keys, nearest);
      }
    }

    method SkipToNearest()
      requires expectedSeq.Some? && !HasPending(expectedSeq.value)
      modifies this`expectedSeq
      ensures State() == Machine.SkipToNearest(old(State()))
    {
      var next, ok := FindNearestPendingSequence();
      if ok {
        expectedSeq := Some(next);
      }
    }

    method Push(packet: Packet, race: bool)
      requires Valid()
      modifies this
      ensures Valid() && State() == Machine.Push(old(State()), packet, race)
    {
      hide Machine.EmitRun, Timers.TimersKnown;
      Timers.PushKeeps(State(), packet, race);
      var sequence := ParseRtpSequence(packet);
      if expectedSeq.None? {
        expectedSeq := Some(sequence);
      } else if IsStaleSequence(sequence, expectedSeq.value) {
        return;
      }
      if !HasPending(sequence) {
        pending := pending[sequence := packet];
      }
      assert State() == Machine.Insert(old(State()), packet);
      Timers.EmitRunWaits(State());
      FlushAvailableLocked(race);
      if expectedSeq.Some? && |pending| > Indexed.MAX_PENDING && !HasPending(expectedSeq.value) {
        SkipToNearest();
        FlushAvailableLocked(race);
      }
      if |pending| > 0 && expectedSeq.Some? && !HasPending(expectedSeq.value) {
        ArmFlushTimerLocked();
      }
    }

    method TimerCallback(id: nat, race: bool)
      requires Valid() && id in outstanding
      modifies this
      ensures Valid() && State() == Machine.Fire(old(State()), id, race)
    {
      Timers.FireKeeps(State(), id, race);
      outstanding := outstanding - {id};
      flushTimer := None;
      if |pending| == 0 {
        return;
      }
      if !HasPending(expectedSeq.value) {
        SkipToNearest();
      }
      FlushAvailableLocked(race);
      if |pending| > 0 && expectedSeq.Some? && !HasPending(expectedSeq.value) {
        ArmFlushTimerLocked();
      }
    }

    method FlushRemaining(race: bool)
      requires Valid()
      modifies this
      ensures Valid() && State() == Machine.FlushRemaining(old(State()), race)
      ensures pending == map[] && flushTimer.None?
    {
      Timers.FlushRemainingKeeps(State(), race);
      while |pending| > 0
        invariant Valid()
        invariant Machine.FlushRemaining(State(), race) == Machine.FlushRemaining(old(State()), race)
        decreases |pending|
      {
        Timers.FlushAvailableWaits(Machine.SkipToNearest(State()), race);
        if expectedSeq.None? || !HasPending(expectedSeq.value) {
          SkipToNearest();
        }
        FlushAvailableLocked(race);
      }
    }

    method Stop(race: bool)
      requires Valid()
      modifies this
      ensures Valid() && State() == Machine.Stop(old(State()), race)
    {
      StopTimer(race);
    }

    /** Two critical sections; late callbacks, each if it is outstanding then, run in between. */
    method Close(stopRace: bool, between: seq<Late>, flushRace: bool) returns (ghost happened: seq<Machine.Event>)
      requires Valid()
      modifies this
      ensures forall e :: e in happened ==> e.TimerFired?
      ensures
        var stopped := Machine.Stop(old(State()), stopRace);
        && Machine.Possible(stopped, happened)
        && State() == Machine.FlushRemaining(Machine.Run(stopped, happened), flushRace)
      ensures Valid() && pending == map[] && flushTimer.None? && old(emitted) <= emitted
    {
      Stop(stopRace);
      ghost var stopped := State();
      happened := [];
      for i := 0 to |between|
        invariant Valid() && State() == Machine.Run(stopped, happened) && old(emitted) <= emitted
        invariant Machine.Possible(stopped, happened) && forall e :: e in happened ==> e.TimerFired?
      {
        var late := between[i];
        if late.id in outstanding {
          hide Machine.Fire, Machine.Run;
          Timers.FireKeeps(State(), late.id, late.race);
          Machine.PossibleNext(stopped, happened, Machine.TimerFired(late.id, late.race));
          TimerCallback(late.id, late.race);
          happened := happened + [Machine.TimerFired(late.id, late.race)];
        }
      }
      Timers.FlushRemainingKeeps(State(), flushRace);
      FlushRemaining(flushRace);
    }
  }
}
