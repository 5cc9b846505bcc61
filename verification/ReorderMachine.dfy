/**
 * The UDP RTP reorder buffer as a state machine over 16-bit sequence numbers and one-shot
 * timers. Every critical section of the buffer is one function on states.
 *
 * `outstanding` holds the timers whose callback has still to run. Stopping a timer is a race
 * with the runtime: `race` says that the callback had already been released, so that it is
 * still outstanding afterwards.
 */
module ReorderMachine {
  import opened Bytes
  import opened SequenceNumbers
  import Indexed = IndexedReorder

  datatype State = State(
    expected: Option<Word>,
    pending: map<Word, Packet>,
    timer: Option<nat>,
    outstanding: set<nat>,
    nextTimer: nat,
    emitted: seq<Packet>)

  const INITIAL := State(None, map[], None, {}, 0, [])

  // ---------------------------------------------------------------- critical sections

  /** The buffer waits for a packet that it does not hold. */
  predicate Waiting(s: State) {
    s.expected.Some? && s.expected.value !in s.pending
  }

  function StopTimer(s: State, race: bool): State {
    if s.timer.None? then s
    else s.(timer := None, outstanding := if race then s.outstanding else s.outstanding - {s.timer.value})
  }

  function ArmTimer(s: State): State {
    if s.timer.Some? then s
    else s.(timer := Some(s.nextTimer), outstanding := s.outstanding + {s.nextTimer}, nextTimer := s.nextTimer + 1)
  }

  function EmitExpected(s: State): (r: State)
    requires s.expected.Some? && s.expected.value in s.pending
    ensures |r.pending| == |s.pending| - 1
  {
    var k := s.expected.value;
    assert (s.pending - {k}).Keys == s.pending.Keys - {k};
    s.(expected := Some(Wire(k + 1)), pending := s.pending - {k}, emitted := s.emitted + [s.pending[k]])
  }

  function EmitRun(s: State): State
    decreases |s.pending|
  {
    if s.expected.None? || Waiting(s) then s else EmitRun(EmitExpected(s))
  }

  function FlushAvailable(s: State, race: bool): State {
    if s.expected.None? then s
    else
      var r := EmitRun(s);
      if r.pending == map[] then StopTimer(r, race) else r
  }

  ghost function Distances(e: Word, keys: set<Word>): set<int> {
    set k | k in keys :: SequenceDistance(e, k) as int
  }

  /** The pending number reached first when counting up from `e` around the circle. */
  ghost function Nearest(e: Word, keys: set<Word>): (k: Word)
    requires keys != {}
    ensures k in keys && forall x :: x in keys ==> SequenceDistance(e, k) <= SequenceDistance(e, x)
  {
    var some := Member(keys);
    assert SequenceDistance(e, some) in Distances(e, keys);
    var d := Indexed.Least(Distances(e, keys));
    var k: Word :| k in keys && SequenceDistance(e, k) == d;
    assert forall x :: x in keys ==> SequenceDistance(e, x) in Distances(e, keys);
    k
  }

  ghost function SkipToNearest(s: State): State {
    if Waiting(s) && s.pending != map[] then s.(expected := Some(Nearest(s.expected.value, s.pending.Keys)))
    else s
  }

  function Rearm(s: State): State {
    if s.pending != map[] && Waiting(s) then ArmTimer(s) else s
  }

  function Insert(s: State, packet: Packet): State {
    var sequence := ParseRtpSequence(packet);
    var t := if s.expected.None? then s.(expected := Some(sequence)) else s;
    if sequence in t.pending then t else t.(pending := t.pending[sequence := packet])
  }

  ghost function RelieveOverflow(s: State, race: bool): State {
    if |s.pending| > Indexed.MAX_PENDING && Waiting(s) then FlushAvailable(SkipToNearest(s), race) else s
  }

  ghost function Push(s: State, packet: Packet, race: bool): State {
    if s.expected.Some? && IsStaleSequence(ParseRtpSequence(packet), s.expected.value) then s
    else Rearm(RelieveOverflow(FlushAvailable(Insert(s, packet), race), race))
  }

  /** The callback of timer `id`. It forgets the armed timer even when that is a newer one. */
  ghost function Fire(s: State, id: nat, race: bool): State {
    var t := s.(timer := None, outstanding := s.outstanding - {id});
    if t.pending == map[] then t else Rearm(FlushAvailable(SkipToNearest(t), race))
  }

  ghost function FlushRemaining(s: State, race: bool): State
    decreases |s.pending|
  {
    if s.pending == map[] || s.expected.None? then s
    else
      FlushAvailableShrinks(SkipToNearest(s), race);
      FlushRemaining(FlushAvailable(SkipToNearest(s), race), race)
  }

  function Stop(s: State, race: bool): State {
    StopTimer(s, race)
  }

  lemma {:induction false} EmitRunShrinks(s: State)
    ensures |EmitRun(s).pending| <= |s.pending|
    ensures s.expected.Some? && s.expected.value in s.pending ==> |EmitRun(s).pending| < |s.pending|
    decreases |s.pending|
  {
    if s.expected.Some? && s.expected.value in s.pending {
      EmitRunShrinks(EmitExpected(s));
    }
  }

  lemma FlushAvailableShrinks(s: State, race: bool)
    ensures |FlushAvailable(s, race).pending| <= |s.pending|
    ensures s.expected.Some? && s.expected.value in s.pending ==> |FlushAvailable(s, race).pending| < |s.pending|
  {
    EmitRunShrinks(s);
  }

  // ---------------------------------------------------------------- runs

  datatype Event =
    | Arrived(packet: Packet, race: bool)
    | TimerFired(id: nat, race: bool)
    | Flushed(race: bool)
    | Stopped(race: bool)

  predicate Enabled(s: State, e: Event) {
    e.TimerFired? ==> e.id in s.outstanding
  }

  ghost function Step(s: State, e: Event): State {
    match e
    case Arrived(packet, race) => Push(s, packet, race)
    case TimerFired(id, race) => Fire(s, id, race)
    case Flushed(race) => FlushRemaining(s, race)
    case Stopped(race) => Stop(s, race)
  }

  ghost function Run(s: State, events: seq<Event>): State {
    if events == [] then s
    else var n := |events| - 1; Step(Run(s, events[..n]), events[n])
  }

  /** Only timers that were armed and not cancelled call back, each once. */
  ghost predicate Possible(s: State, events: seq<Event>) {
    forall n :: 0 <= n < |events| ==> Enabled(Run(s, events[..n]), events[n])
  }

  lemma RunNext(s: State, events: seq<Event>, e: Event)
    ensures Run(s, events + [e]) == Step(Run(s, events), e)
  {
    assert (events + [e])[..|events|] == events;
  }

  lemma PossibleNext(s: State, events: seq<Event>, e: Event)
    requires Possible(s, events) && Enabled(Run(s, events), e)
    ensures Possible(s, events + [e]) && Run(s, events + [e]) == Step(Run(s, events), e)
  {
    RunNext(s, events, e);
    forall n | 0 <= n < |events + [e]| ensures Enabled(Run(s, (events + [e])[..n]), (events + [e])[n]) {
      if n < |events| {
        assert (events + [e])[..n] == events[..n];
      } else {
        assert (events + [e])[..n] == events;
      }
    }
  }

  lemma RunNothing(s: State, none: seq<Event>)
    requires none == []
    ensures Run(s, none) == s
  {
  }

  lemma {:induction false} RunAppend(s: State, a: seq<Event>, b: seq<Event>)
    ensures Run(s, a + b) == Run(Run(s, a), b)
  {
    hide Run, Step;
    if b == [] {
      assert a + b == a;
      RunNothing(Run(s, a), b);
    } else {
      var n := |b| - 1;
      RunAppend(s, a, b[..n]);
      RunNext(s, a + b[..n], b[n]);
      RunNext(Run(s, a), b[..n], b[n]);
      assert b == b[..n] + [b[n]];
      Reassociate(a, b[..n], [b[n]]);
    }
  }
}
