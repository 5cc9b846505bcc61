/** Capacity, wake-ups and quiescence of the reorder buffer, over every run of its state machine. */
module ReorderTimers {
  import opened Bytes
  import opened SequenceNumbers
  import opened ReorderMachine

  ghost predicate TimersKnown(s: State) {
    && (forall t :: t in s.outstanding ==> t < s.nextTimer)
    && (s.timer.Some? ==> s.timer.value in s.outstanding)
  }

  /** Holds between operations. */
  ghost predicate Valid(s: State) {
    && TimersKnown(s)
    && (s.timer.Some? ==> s.pending != map[])
    && (s.expected.None? ==> s.pending == map[] && s.emitted == [])
    && (s.expected.Some? ==> Waiting(s))
    && |s.pending| <= Indexed.MAX_PENDING
  }

  /** Held packets have a wake-up to come. */
  ghost predicate Armed(s: State) {
    s.pending != map[] ==> s.timer.Some? && s.timer.value in s.outstanding
  }

  lemma {:induction false} EmitRunWaits(s: State)
    requires s.expected.Some?
    ensures Waiting(EmitRun(s)) && s.emitted <= EmitRun(s).emitted
    ensures
      var r := EmitRun(s);
      r.timer == s.timer && r.outstanding == s.outstanding && r.nextTimer == s.nextTimer
    decreases |s.pending|
  {
    if s.expected.value in s.pending {
      EmitRunWaits(EmitExpected(s));
    }
  }

  lemma FlushAvailableWaits(s: State, race: bool)
    requires s.expected.Some? && TimersKnown(s)
    ensures
      var r := FlushAvailable(s, race);
      && Waiting(r) && TimersKnown(r) && |r.pending| <= |s.pending|
      && (s.expected.value in s.pending ==> |r.pending| < |s.pending|)
      && (r.pending == map[] ==> r.timer.None?)
      && s.emitted <= r.emitted
  {
    EmitRunWaits(s);
    FlushAvailableShrinks(s, race);
  }

  lemma RelieveOverflowCaps(s: State, race: bool)
    requires Waiting(s) && TimersKnown(s) && |s.pending| <= Indexed.MAX_PENDING + 1
    requires s.pending == map[] ==> s.timer.None?
    ensures
      var r := RelieveOverflow(s, race);
      && Waiting(r) && TimersKnown(r) && |r.pending| <= Indexed.MAX_PENDING
      && (r.pending == map[] ==> r.timer.None?)
      && s.emitted <= r.emitted
  {
    if |s.pending| > Indexed.MAX_PENDING {
      FlushAvailableWaits(SkipToNearest(s), race);
    }
  }

  /** Inside push at most one packet exceeds the capacity, and push gets rid of it. */
  lemma PushKeeps(s: State, packet: Packet, race: bool)
    requires Valid(s)
    ensures Valid(Push(s, packet, race)) && (Armed(s) ==> Armed(Push(s, packet, race)))
    ensures |Insert(s, packet).pending| <= 65
    ensures s.emitted <= Push(s, packet, race).emitted
  {
    var t := Insert(s, packet);
    hide EmitRun;
    FlushAvailableWaits(t, race);
    RelieveOverflowCaps(FlushAvailable(t, race), race);
  }

  lemma FireKeeps(s: State, id: nat, race: bool)
    requires Valid(s)
    ensures
      var r := Fire(s, id, race);
      && Valid(r) && Armed(r)
      && (s.pending != map[] ==> |r.pending| < |s.pending|)
      && (s.pending == map[] ==> r.emitted == s.emitted && r.pending == map[])
      && s.emitted <= r.emitted
  {
    var t := s.(timer := None, outstanding := s.outstanding - {id});
    if t.pending != map[] {
      FlushAvailableWaits(SkipToNearest(t), race);
    }
  }

  lemma {:induction false} FlushRemainingKeeps(s: State, race: bool)
    requires TimersKnown(s) && |s.pending| <= Indexed.MAX_PENDING
    requires s.expected.None? ==> s.pending == map[] && s.emitted == []
    requires s.expected.Some? ==> Waiting(s)
    requires s.pending == map[] ==> s.timer.None?
    ensures
      var r := FlushRemaining(s, race);
      Valid(r) && r.pending == map[] && r.timer.None? && s.emitted <= r.emitted
    decreases |s.pending|
  {
    if s.pending != map[] {
      var t := SkipToNearest(s);
      FlushAvailableWaits(t, race);
      FlushRemainingKeeps(FlushAvailable(t, race), race);
    }
  }

  lemma StepKeeps(s: State, e: Event)
    requires Valid(s)
    ensures Valid(Step(s, e))
    ensures Armed(s) && !e.Stopped? ==> Armed(Step(s, e))
    ensures s.emitted <= Step(s, e).emitted
  {
    match e
    case Arrived(packet, race) => PushKeeps(s, packet, race);
    case TimerFired(id, race) => FireKeeps(s, id, race);
    case Flushed(race) => FlushRemainingKeeps(s, race);
    case Stopped(race) =>
  }

  /** No run exceeds the capacity, and no run without `stop` loses a wake-up. */
  lemma {:induction false} NoLostWakeup(s: State, events: seq<Event>)
    requires Valid(s)
    ensures Valid(Run(s, events)) && |Run(s, events).pending| <= 64
    ensures Armed(s) && (forall e :: e in events ==> !e.Stopped?) ==> Armed(Run(s, events))
  {
    if events != [] {
      var n := |events| - 1;
      NoLostWakeup(s, events[..n]);
      StepKeeps(Run(s, events[..n]), events[n]);
      assert forall e :: e in events[..n] ==> e in events;
    }
  }

  /** Each callback takes at least one packet out, so the callbacks alone empty the buffer. */
  lemma {:induction false} CallbacksDrain(s: State, callbacks: seq<Event>)
    requires Valid(s)
    requires forall e :: e in callbacks ==> e.TimerFired?
    ensures |Run(s, callbacks).pending| + |callbacks| <= |s.pending| || Run(s, callbacks).pending == map[]
    ensures |callbacks| >= 64 ==> Run(s, callbacks).pending == map[]
  {
    hide Fire, TimersKnown;
    if callbacks != [] {
      var n := |callbacks| - 1;
      assert forall e :: e in callbacks[..n] ==> e in callbacks;
      CallbacksDrain(s, callbacks[..n]);
      NoLostWakeup(s, callbacks[..n]);
      assert callbacks[n].TimerFired?;
      FireKeeps(Run(s, callbacks[..n]), callbacks[n].id, callbacks[n].race);
    }
  }

  /** Running a first event and then the others is running them all. */
  lemma RunFirst(s: State, e: Event, events: seq<Event>)
    ensures Run(s, [e] + events) == Run(Step(s, e), events)
  {
    hide Run, Step;
    RunAppend(s, [e], events);
    RunNothing(s, []);
    RunNext(s, [], e);
    assert [] + [e] == [e];
  }

  lemma PossibleFirst(s: State, e: Event, events: seq<Event>)
    requires Enabled(s, e) && Possible(Step(s, e), events)
    ensures Possible(s, [e] + events)
  {
    hide Step, Run;
    forall n | 0 <= n < |[e] + events| ensures Enabled(Run(s, ([e] + events)[..n]), ([e] + events)[n]) {
      if n == 0 {
        RunNothing(s, ([e] + events)[..0]);
      } else {
        assert ([e] + events)[..n] == [e] + events[..n - 1];
        RunFirst(s, e, events[..n - 1]);
      }
    }
  }

  /**
   * Wake-ups are enough: while packets are held there is a callback that can run, and the
   * callbacks that can run one after the other release every packet.
   */
  lemma {:induction false} WakeupsRelease(s: State) returns (callbacks: seq<Event>)
    requires Valid(s) && Armed(s)
    ensures forall e :: e in callbacks ==> e.TimerFired?
    ensures Possible(s, callbacks) && |callbacks| <= |s.pending|
    ensures Run(s, callbacks).pending == map[]
    decreases |s.pending|
  {
    if s.pending == map[] {
      callbacks := [];
    } else {
      hide Fire, Run, Possible, TimersKnown;
      var first := TimerFired(s.timer.value, false);
      FireKeeps(s, s.timer.value, false);
      var more := WakeupsRelease(Step(s, first));
      callbacks := [first] + more;
      RunFirst(s, first, more);
      PossibleFirst(s, first, more);
    }
  }

  /** The one callback that is outstanding is that of the armed timer. */
  ghost predicate OneCallback(s: State) {
    s.outstanding == if s.timer.Some? then {s.timer.value} else {}
  }

  lemma {:induction false} EmitRunTimers(s: State)
    ensures EmitRun(s).timer == s.timer && EmitRun(s).outstanding == s.outstanding
    decreases |s.pending|
  {
    if s.expected.Some? && s.expected.value in s.pending {
      EmitRunTimers(EmitExpected(s));
    }
  }

  lemma FlushAvailableTimers(s: State)
    requires OneCallback(s)
    ensures OneCallback(FlushAvailable(s, false))
  {
    EmitRunTimers(s);
  }

  lemma {:induction false} FlushRemainingTimers(s: State)
    requires OneCallback(s)
    ensures OneCallback(FlushRemaining(s, false))
    decreases |s.pending|
  {
    if s.pending != map[] && s.expected.Some? {
      FlushAvailableTimers(SkipToNearest(s));
      FlushAvailableShrinks(SkipToNearest(s), false);
      hide OneCallback, FlushAvailable;
      FlushRemainingTimers(FlushAvailable(SkipToNearest(s), false));
    }
  }

  lemma PushTimers(s: State, packet: Packet)
    requires OneCallback(s)
    ensures OneCallback(Push(s, packet, false))
  {
    hide FlushAvailable;
    var t := FlushAvailable(Insert(s, packet), false);
    FlushAvailableTimers(Insert(s, packet));
    FlushAvailableTimers(SkipToNearest(t));
  }

  /** As long as every timer is stopped in time, no callback is late: stopping a timer cancels it. */
  lemma {:induction false} StoppedInTime(events: seq<Event>)
    requires Possible(INITIAL, events) && forall n :: 0 <= n < |events| ==> !events[n].race
    ensures OneCallback(Run(INITIAL, events))
  {
    if events != [] {
      var n := |events| - 1;
      PossiblePrefix(INITIAL, events, n);
      StoppedInTime(events[..n]);
      var s := Run(INITIAL, events[..n]);
      hide FlushAvailable, FlushRemaining, Push, Run, Possible;
      match events[n]
      case Arrived(packet, _) => PushTimers(s, packet);
      case TimerFired(id, _) =>
        FlushAvailableTimers(SkipToNearest(s.(timer := None, outstanding := s.outstanding - {id})));
      case Flushed(_) => FlushRemainingTimers(s);
      case Stopped(_) =>
    }
  }

  lemma PossiblePrefix(s: State, events: seq<Event>, n: nat)
    requires Possible(s, events) && n < |events|
    ensures Possible(s, events[..n]) && Enabled(Run(s, events[..n]), events[n])
    ensures n + 1 == |events| ==> Run(s, events) == Step(Run(s, events[..n]), events[n])
  {
    forall m | 0 <= m < n ensures Enabled(Run(s, events[..n][..m]), events[..n][m]) {
      assert events[..n][..m] == events[..m];
    }
  }

  /** A closed buffer stays silent, whichever callbacks are still to come. */
  lemma {:induction false} EmptyIsSilent(s: State, after: seq<Event>)
    requires Valid(s) && s.pending == map[]
    requires forall e :: e in after ==> !e.Arrived?
    ensures
      var r := Run(s, after);
      Valid(r) && r.emitted == s.emitted && r.pending == map[] && r.timer.None?
  {
    if after != [] {
      var n := |after| - 1;
      assert forall e :: e in after[..n] ==> e in after;
      EmptyIsSilent(s, after[..n]);
      assert !after[n].Arrived?;
      StepKeeps(Run(s, after[..n]), after[n]);
    }
  }

  /**
   * `close` is `stop` followed by `flushRemaining`. Late callbacks may run in between, and
   * may even arm new timers; still nothing is held, armed or ever emitted afterwards.
   */
  lemma CloseIsQuiescent(events: seq<Event>, stopRace: bool, between: seq<Event>, flushRace: bool, after: seq<Event>)
    requires forall e :: e in between ==> e.TimerFired?
    requires forall e :: e in after ==> !e.Arrived?
    ensures
      var stopped := Stop(Run(INITIAL, events), stopRace);
      var closed := FlushRemaining(Run(stopped, between), flushRace);
      var later := Run(closed, after);
      && closed.pending == map[] && closed.timer.None?
      && later.pending == map[] && later.timer.None? && later.emitted == closed.emitted
  {
    NoLostWakeup(INITIAL, events);
    var stopped := Stop(Run(INITIAL, events), stopRace);
    NoLostWakeup(stopped, between);
    FlushRemainingKeeps(Run(stopped, between), flushRace);
    EmptyIsSilent(FlushRemaining(Run(stopped, between), flushRace), after);
  }
}
