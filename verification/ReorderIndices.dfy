/**
 * Sequence numbers determine the true packet indices: over a whole run, the indices within the
 * window are the unwrapped ones, up to one multiple of 65536 that is the same for every packet.
 */
module ReorderIndices {
  import opened Bytes
  import opened SequenceNumbers
  import opened Indexed = IndexedReorder
  import Machine = ReorderMachine
  import opened ReorderSimulation

  const TURN := 0x1_0000

  // ---------------------------------------------------------------- how far a step moves on

  /** The next index and the held ones lie in a range. */
  ghost predicate Between(b: Buffer, lo: int, hi: int) {
    b.next.Some? && lo <= b.next.value <= hi && forall i :: i in b.pending ==> lo <= i < hi
  }

  lemma {:induction false} DrainBetween(b: Buffer, lo: int, hi: int)
    requires Between(b, lo, hi)
    ensures Between(Drain(b), lo, hi)
    decreases |b.pending|
  {
    if b.next.value in b.pending {
      DrainBetween(EmitNext(b), lo, hi);
    }
  }

  lemma SkipBetween(b: Buffer, lo: int, hi: int)
    requires Between(b, lo, hi) && b.pending != map[]
    ensures Between(Drain(Skip(b)), lo, hi)
  {
    DrainBetween(Skip(b), lo, hi);
  }

  lemma {:induction false} FlushBetween(b: Buffer, lo: int, hi: int)
    requires Between(b, lo, hi)
    ensures Between(FlushRemaining(b), lo, hi)
    decreases |b.pending|
  {
    if b.pending != map[] {
      SkipBetween(b, lo, hi);
      SkipDrainShrinks(b);
      FlushBetween(Drain(Skip(b)), lo, hi);
    }
  }

  lemma PushBetween(b: Buffer, a: Arrival)
    requires Settled(b) && (b.next.Some? ==> InWindow(b.next.value, a.index))
    ensures
      var e := if b.next.Some? then b.next.value else a.index;
      Between(Indexed.Push(b, a), e, e + HALF)
  {
    var e := if b.next.Some? then b.next.value else a.index;
    if a.index >= e {
      var c := Store(b.(next := Some(e)), a);
      assert Between(c, e, e + HALF);
      DrainBetween(c, e, e + HALF);
      if |Drain(c).pending| > MAX_PENDING {
        SkipBetween(Drain(c), e, e + HALF);
      }
    }
  }

  /** A step moves the expectation on by at most half the number space. */
  lemma StepBetween(b: Buffer, e: Machine.Event, index: int)
    requires Settled(b) && Plausible(b, e, index)
    ensures
      var r := IndexedStep(b, e, index);
      if b.next.Some? then Between(r, b.next.value, b.next.value + HALF)
      else if e.Arrived? then Between(r, index, index + HALF)
      else r.next.None?
  {
    hide Drain, Skip, Relieve, Store, Indexed.Push;
    match e
    case Arrived(packet, _) => PushBetween(b, Arrival(index, packet));
    case TimerFired(_, _) =>
      if b.pending != map[] {
        SkipBetween(b, b.next.value, b.next.value + HALF);
      }
    case Flushed(_) =>
      if b.next.Some? {
        FlushBetween(b, b.next.value, b.next.value + HALF);
      }
    case Stopped(_) =>
  }

  /** Steps of less than a turn that end at the same number keep the distance. */
  lemma SameAdvance(x: int, y: int, x': int, y': int, k: int)
    requires x == y + TURN * k && x <= x' <= x + HALF && y <= y' <= y + HALF
    requires Wire(x') == Wire(y')
    ensures x' == y' + TURN * k
  {
    WireShift(y', k);
    WireInjective(x', y' + TURN * k);
  }

  lemma WireShift(i: int, k: int)
    ensures Wire(i + TURN * k) == Wire(i)
  {
  }

  lemma SameWire(x: int, y: int) returns (k: int)
    requires Wire(x) == Wire(y)
    ensures x == y + TURN * k
  {
    k := (x - y) / TURN;
  }

  // ---------------------------------------------------------------- whole runs

  /** Every packet has the same number of turns more in `xs` than in `ys`. */
  ghost predicate TurnsApart(events: seq<Machine.Event>, xs: seq<int>, ys: seq<int>, k: int) {
    && |xs| == |ys| == |events|
    && forall n :: 0 <= n < |events| && events[n].Arrived? ==> xs[n] == ys[n] + TURN * k
  }

  ghost predicate WholeTurnsApart(events: seq<Machine.Event>, xs: seq<int>, ys: seq<int>) {
    exists k :: TurnsApart(events, xs, ys, k)
  }

  ghost predicate NoArrivals(events: seq<Machine.Event>) {
    forall n :: 0 <= n < |events| ==> !events[n].Arrived?
  }

  /** The two expectations are as far apart as the packets. */
  ghost predicate NextApart(b: Buffer, c: Buffer, k: int) {
    b.next.Some? == c.next.Some? && (b.next.Some? ==> b.next.value == c.next.value + TURN * k)
  }

  /** One more event; `k` is settled by the first packet. */
  lemma StepApart(s: Machine.State, b: Buffer, c: Buffer, e: Machine.Event, x: int, y: int, k: int) returns (k': int)
    requires Represents(s, b) && Represents(s, c) && Settled(b) && Settled(c) && NextApart(b, c, k)
    requires Plausible(b, e, x) && Plausible(c, e, y)
    ensures b.next.Some? || !e.Arrived? ==> k' == k
    ensures e.Arrived? ==> x == y + TURN * k'
    ensures NextApart(IndexedStep(b, e, x), IndexedStep(c, e, y), k')
  {
    hide *;
    StepBetween(b, e, x);
    StepBetween(c, e, y);
    StepAlike(s, b, e, x);
    StepAlike(s, c, e, y);
    var b', c' := IndexedStep(b, e, x), IndexedStep(c, e, y);
    SameExpectation(s, b, c);
    SameExpectation(Machine.Step(s, e), b', c');
    k' := Apart(b, c, b', c', e, x, y, k);
  }

  lemma SameExpectation(s: Machine.State, b: Buffer, c: Buffer)
    requires Represents(s, b) && Represents(s, c)
    ensures b.next.Some? == c.next.Some? && (b.next.Some? ==> Wire(b.next.value) == Wire(c.next.value))
  {
    hide SameOutput, SameKeys, Wire;
  }

  lemma Apart(b: Buffer, c: Buffer, b': Buffer, c': Buffer, e: Machine.Event, x: int, y: int, k: int)
    returns (k': int)
    requires NextApart(b, c, k) && Plausible(b, e, x) && Plausible(c, e, y)
    requires b'.next.Some? == c'.next.Some? && (b'.next.Some? ==> Wire(b'.next.value) == Wire(c'.next.value))
    requires if b.next.Some? then Between(b', b.next.value, b.next.value + HALF)
             else if e.Arrived? then Between(b', x, x + HALF)
             else b'.next.None?
    requires if c.next.Some? then Between(c', c.next.value, c.next.value + HALF)
             else if e.Arrived? then Between(c', y, y + HALF)
             else c'.next.None?
    ensures b.next.Some? || !e.Arrived? ==> k' == k
    ensures e.Arrived? ==> x == y + TURN * k'
    ensures NextApart(b', c', k')
  {
    hide Wire;
    k' := k;
    if b.next.Some? {
      SameAdvance(b.next.value, c.next.value, b'.next.value, c'.next.value, k);
      if e.Arrived? {
        WireShift(y, k);
        WireInjective(x, y + TURN * k);
      }
    } else if e.Arrived? {
      k' := SameWire(x, y);
      SameAdvance(x, y, b'.next.value, c'.next.value, k');
    }
  }

  /** Two readings of the same run differ by whole turns, the same number for every packet. */
  lemma {:induction false} ReadingsAgree(events: seq<Machine.Event>, xs: seq<int>, ys: seq<int>) returns (k: int)
    requires WithinWindow(events, xs) && WithinWindow(events, ys)
    ensures TurnsApart(events, xs, ys, k)
    ensures NextApart(IndexedRun(events, xs), IndexedRun(events, ys), k)
    ensures IndexedRun(events, xs).next.None? <==> NoArrivals(events)
  {
    k := 0;
    if events != [] {
      var n := |events| - 1;
      var b := LastStep(events, xs);
      var c := LastStep(events, ys);
      hide *;
      k := ReadingsAgree(events[..n], xs[..n], ys[..n]);
      StepBetween(b, events[n], xs[n]);
      var j := StepApart(Machine.Run(Machine.INITIAL, events[..n]), b, c, events[n], xs[n], ys[n], k);
      TurnsApartNext(events, xs, ys, k, j, b.next.Some?);
      BetweenIsSome();
      k := j;
    }
  }

  lemma BetweenIsSome()
    ensures forall b, lo, hi :: Between(b, lo, hi) ==> b.next.Some?
  {
  }

  lemma TurnsApartNext(events: seq<Machine.Event>, xs: seq<int>, ys: seq<int>, k: int, k': int, begun: bool)
    requires events != [] && |xs| == |ys| == |events|
    requires
      var n := |events| - 1;
      && TurnsApart(events[..n], xs[..n], ys[..n], k)
      && (!begun <==> NoArrivals(events[..n]))
      && (begun || !events[n].Arrived? ==> k' == k)
      && (events[n].Arrived? ==> xs[n] == ys[n] + TURN * k')
    ensures TurnsApart(events, xs, ys, k')
    ensures NoArrivals(events) <==> NoArrivals(events[..|events| - 1]) && !events[|events| - 1].Arrived?
  {
    var n := |events| - 1;
    forall m | 0 <= m < |events| && events[m].Arrived? ensures xs[m] == ys[m] + TURN * k' {
      if m < n {
        assert events[..n][m].Arrived? && xs[..n][m] == ys[..n][m] + TURN * k;
      }
    }
    if NoArrivals(events) {
      forall m | 0 <= m < n ensures !events[..n][m].Arrived? {
        assert !events[m].Arrived?;
      }
    }
    if NoArrivals(events[..n]) && !events[n].Arrived? {
      forall m | 0 <= m < |events| ensures !events[m].Arrived? {
        if m < n {
          assert !events[..n][m].Arrived?;
        }
      }
    }
  }

  /** Moving every packet by the same number of turns gives another reading. */
  lemma {:induction false} TurnedWithinWindow(events: seq<Machine.Event>, xs: seq<int>, ys: seq<int>, k: int)
    requires WithinWindow(events, ys) && TurnsApart(events, xs, ys, k)
    ensures WithinWindow(events, xs)
  {
    if events != [] {
      var n := |events| - 1;
      assert TurnsApart(events[..n], xs[..n], ys[..n], k);
      var c := LastStep(events, ys);
      TurnedWithinWindow(events[..n], xs[..n], ys[..n], k);
      var j := ReadingsAgree(events[..n], xs[..n], ys[..n]);
      hide *;
      var b := IndexedRun(events[..n], xs[..n]);
      if b.next.Some? {
        SameCount(events[..n], xs[..n], ys[..n], j, k);
      }
      TurnsApartLast(events, xs, ys, k);
      PlausibleTurned(b, c, events[n], xs[n], ys[n], k);
      WithinWindowExtend(events, xs);
    }
  }

  lemma SameCount(events: seq<Machine.Event>, xs: seq<int>, ys: seq<int>, j: int, k: int)
    requires TurnsApart(events, xs, ys, j) && TurnsApart(events, xs, ys, k) && !NoArrivals(events)
    ensures j == k
  {
  }

  lemma TurnsApartLast(events: seq<Machine.Event>, xs: seq<int>, ys: seq<int>, k: int)
    requires TurnsApart(events, xs, ys, k) && events != []
    ensures |xs| == |ys| == |events|
    ensures
      var n := |events| - 1;
      events[n].Arrived? ==> xs[n] == ys[n] + TURN * k
  {
  }

  lemma PlausibleTurned(b: Buffer, c: Buffer, e: Machine.Event, x: int, y: int, k: int)
    requires Plausible(c, e, y) && (e.Arrived? ==> x == y + TURN * k)
    requires b.next.Some? ==> NextApart(b, c, k)
    ensures Plausible(b, e, x)
  {
    hide Wire;
    WireShift(y, k);
  }

  lemma ReadingsAreTurns(events: seq<Machine.Event>, xs: seq<int>, ys: seq<int>)
    requires WithinWindow(events, ys)
    ensures WithinWindow(events, xs) <==> WholeTurnsApart(events, xs, ys)
  {
    hide WithinWindow, TurnsApart;
    if WithinWindow(events, xs) {
      var k := ReadingsAgree(events, xs, ys);
      assert TurnsApart(events, xs, ys, k);
    }
    forall k | TurnsApart(events, xs, ys, k) ensures WithinWindow(events, xs) {
      TurnedWithinWindow(events, xs, ys, k);
    }
  }

  /**
   * The true indices of a run, known only through 16 bits: exactly the unwrapped indices, moved
   * by one number of turns for the whole run.
   */
  lemma UnwrapRecovers(events: seq<Machine.Event>, indices: seq<int>)
    ensures WithinWindow(events, indices) <==> WholeTurnsApart(events, indices, Unwrapped(events))
  {
    hide WithinWindow, WholeTurnsApart;
    UnwrappedWithinWindow(events);
    ReadingsAreTurns(events, indices, Unwrapped(events));
  }
}
