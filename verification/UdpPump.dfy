/**
 * The UDP pump: datagrams go into the reorder buffer, and what it emits goes to the packet
 * handler, while the buffer's timer callbacks run in between.
 */
module UdpPump {
  import opened Bytes
  import opened SequenceNumbers
  import opened MediaRelay
  import opened ReorderLedger
  import Machine = ReorderMachine
  import Buffer = ReorderBuffer

  /**
   * What wakes the relay up. A datagram is what the network delivers, of any length. A callback
   * can run only while its timer is outstanding; `polled` says that the pump looks for a handler
   * error before it waits for the next datagram. Below, `race(n)` is the outcome of the timer
   * race at wake-up n, and `cancelled(n)` says that the context is found done before it.
   */
  datatype Wake = Datagram(bytes: seq<Byte>) | Callback(id: nat, polled: bool)

  datatype UdpResult = Ended | NoFirstPacket | ContextCancelled | HandlerError | ReadError | Panicked

  /** The error that the pump returns; `error` is that of the failed read or of the handler. */
  function UdpEnd(result: UdpResult, error: PumpEnd): PumpEnd
    requires result != Panicked
  {
    match result
    case Ended => Finished
    case NoFirstPacket => OtherError
    case ContextCancelled => ContextDone
    case HandlerError => error
    case ReadError => error
  }

  /** A datagram that ends before its sequence number does; push indexes beyond its end. */
  predicate IsShort(wake: Wake) {
    wake.Datagram? && |wake.bytes| < 4
  }

  function Datagrams(wakes: seq<Wake>): seq<seq<Byte>> {
    if wakes == [] then []
    else
      var n := |wakes| - 1;
      Datagrams(wakes[..n]) + if wakes[n].Datagram? then [wakes[n].bytes] else []
  }

  lemma ArrivedNext(events: seq<Machine.Event>, e: Machine.Event)
    ensures ArrivedPackets(events + [e]) == ArrivedPackets(events) + if e.Arrived? then [e.packet] else []
  {
    assert (events + [e])[..|events|] == events;
  }

  lemma {:induction false} ArrivedQuietly(events: seq<Machine.Event>, more: seq<Machine.Event>)
    requires forall e :: e in more ==> !e.Arrived?
    ensures ArrivedPackets(events + more) == ArrivedPackets(events)
  {
    if more == [] {
      assert events + more == events;
    } else {
      var n := |more| - 1;
      assert !more[n].Arrived? && forall e :: e in more[..n] ==> e in more;
      assert (events + more)[..|events| + n] == events + more[..n];
      ArrivedQuietly(events, more[..n]);
    }
  }

  lemma DatagramsNext(wakes: seq<Wake>, n: nat)
    requires n < |wakes|
    ensures Datagrams(wakes[..n + 1]) == Datagrams(wakes[..n]) + if wakes[n].Datagram? then [wakes[n].bytes] else []
  {
    assert wakes[..n + 1][..n] == wakes[..n];
  }

  /** What a wake-up does to the reorder buffer: a callback that has been cancelled does nothing. */
  ghost function Answer(s: Machine.State, wake: Wake, race: bool): seq<Machine.Event> {
    match wake
    case Datagram(bytes) => if |bytes| < 4 then [] else [Machine.Arrived(bytes, race)]
    case Callback(id, _) => if id in s.outstanding then [Machine.TimerFired(id, race)] else []
  }

  ghost function EventsOf(wakes: seq<Wake>, race: nat -> bool): seq<Machine.Event> {
    if wakes == [] then []
    else
      var n := |wakes| - 1;
      var before := EventsOf(wakes[..n], race);
      before + Answer(Machine.Run(Machine.INITIAL, before), wakes[n], race(n))
  }

  lemma EventsOfNext(wakes: seq<Wake>, race: nat -> bool, n: nat)
    requires n < |wakes|
    ensures
      var before := EventsOf(wakes[..n], race);
      EventsOf(wakes[..n + 1], race) == before + Answer(Machine.Run(Machine.INITIAL, before), wakes[n], race(n))
  {
    assert wakes[..n + 1][..n] == wakes[..n];
  }

  /** The run of close: stop, late callbacks, flush. */
  ghost predicate Closing(events: seq<Machine.Event>) {
    && 2 <= |events|
    && events[0].Stopped? && events[|events| - 1].Flushed?
    && forall n :: 0 < n < |events| - 1 ==> events[n].TimerFired?
  }

  /** The run of a bare stop. */
  ghost predicate Stopping(events: seq<Machine.Event>) {
    |events| == 1 && events[0].Stopped?
  }

  /** What the buffer has emitted after some wake-ups. */
  ghost function SentBy(wakes: seq<Wake>, race: nat -> bool): seq<Packet> {
    Machine.Run(Machine.INITIAL, EventsOf(wakes, race)).emitted
  }

  /** The pump looks for a handler error after this wake-up, before it waits for a datagram. */
  predicate Polls(wake: Wake) {
    wake.Datagram? || wake.polled
  }

  /** At every look during the first `n` wake-ups, all was well. */
  ghost predicate NothingSeen(client: Client, wakes: seq<Wake>, race: nat -> bool, n: nat)
    requires n <= |wakes|
  {
    forall r: nat :: r < n && Polls(wakes[r]) ==> AllFine(client, SentBy(wakes[..r + 1], race))
  }

  /** Why the pump stops feeding the buffer after `reached` wake-ups; Ended: no more datagrams come. */
  ghost predicate Explains(wakes: seq<Wake>, cancelled: nat -> bool, reached: nat, failed: bool, result: UdpResult) {
    && reached <= |wakes|
    && (reached < |wakes| && !cancelled(reached) && result != HandlerError ==> result == Panicked)
    && match result
       case Ended => reached == |wakes| && !failed && !cancelled(reached) && !cancelled(reached + 1)
       case ContextCancelled => cancelled(reached) || (reached == |wakes| && cancelled(reached + 1) && !failed)
       case HandlerError => failed && (reached == |wakes| || (0 < reached && Polls(wakes[reached - 1])))
       case Panicked =>
         reached < |wakes| && wakes[reached].Datagram? && |wakes[reached].bytes| < 4 && !cancelled(reached)
       case _ => false
  }

  /** What the pump's result says; `sent` is what the buffer has emitted before the close or the stop. */
  ghost predicate Reports(
      client: Client, wakes: seq<Wake>, cancelled: nat -> bool, timedOut: bool, reached: nat, sent: seq<Packet>,
      result: UdpResult)
  {
    && Explains(
         wakes, cancelled, reached, !AllFine(client, sent),
         if result == NoFirstPacket || result == ReadError then Ended else result)
    && match result
       case Ended => timedOut && Datagrams(wakes) != []
       case NoFirstPacket => timedOut && Datagrams(wakes) == []
       case ReadError => !timedOut
       case _ => true
  }

  /** How many wake-ups had passed when the pump last found that all was well. */
  function Looks(result: UdpResult, reached: nat): nat {
    if result == HandlerError && 0 < reached then reached - 1 else reached
  }

  lemma NothingFed(client: Client, wakes: seq<Wake>, race: nat -> bool)
    ensures NothingSeen(client, wakes, race, 0)
    ensures EventsOf(wakes[..0], race) == [] && Datagrams(wakes[..0]) == [] && ArrivedPackets([]) == []
  {
  }

  lemma NothingSeenBefore(client: Client, wakes: seq<Wake>, race: nat -> bool, n: nat, m: nat)
    requires m <= n <= |wakes| && NothingSeen(client, wakes, race, n)
    ensures NothingSeen(client, wakes, race, m)
  {
  }

  lemma NothingSeenNext(client: Client, wakes: seq<Wake>, race: nat -> bool, n: nat)
    requires n < |wakes| && NothingSeen(client, wakes, race, n)
    requires Polls(wakes[n]) ==> AllFine(client, SentBy(wakes[..n + 1], race))
    ensures NothingSeen(client, wakes, race, n + 1)
  {
  }

  /** Nothing but time ends the pump: the context is never done, and no datagram is short. */
  ghost predicate Undisturbed(wakes: seq<Wake>, cancelled: nat -> bool) {
    && (forall t: nat :: !cancelled(t))
    && (forall n :: 0 <= n < |wakes| ==> !IsShort(wakes[n]))
  }

  lemma SentByNext(wakes: seq<Wake>, race: nat -> bool, n: nat)
    requires n < |wakes|
    ensures SentBy(wakes[..n], race) <= SentBy(wakes[..n + 1], race)
  {
    hide Machine.Run, Machine.Step, EventsOf;
    EventsOfNext(wakes, race, n);
    var before := EventsOf(wakes[..n], race);
    var s := Machine.Run(Machine.INITIAL, before);
    var answer := Answer(s, wakes[n], race(n));
    Buffer.Timers.NoLostWakeup(Machine.INITIAL, before);
    if answer == [] {
      assert before + answer == before;
    } else {
      Machine.RunNext(Machine.INITIAL, before, answer[0]);
      Buffer.Timers.StepKeeps(s, answer[0]);
    }
  }

  /** What has been emitted stays emitted. */
  lemma {:induction false} SentByPrefix(wakes: seq<Wake>, race: nat -> bool, n: nat)
    requires n <= |wakes|
    ensures SentBy(wakes[..n], race) <= SentBy(wakes, race)
    decreases |wakes| - n
  {
    if n == |wakes| {
      assert wakes[..n] == wakes;
    } else {
      hide SentBy;
      SentByNext(wakes, race, n);
      SentByPrefix(wakes, race, n + 1);
    }
  }

  class UdpPump {
    const reorder: Buffer.UdpRtpReorderBuffer
    const handler: MediaHandler
    /** The error channel holds one error. */
    var handlerErr: bool
    /** What has happened to the reorder buffer. */
    ghost var events: seq<Machine.Event>

    /**
     * The buffer has gone through `events`, the handler has been given what it emitted, and
     * there is an error exactly if one of those packets could not be relayed.
     */
    ghost predicate Wired()
      reads this, reorder, handler, handler.diagnostics
    {
      && reorder.Valid()
      && reorder.State() == Machine.Run(Machine.INITIAL, events)
      && handler.State() == HandleEach(handler.client, reorder.emitted)
      && (handlerErr <==> !AllFine(handler.client, reorder.emitted))
    }

    lemma WiredMeans()
      requires Wired()
      ensures handler.State() == HandleEach(handler.client, reorder.emitted)
      ensures reorder.emitted == Machine.Run(Machine.INITIAL, events).emitted
    {
    }

    constructor (client: Client)
      ensures Wired() && events == [] && handler.client == client
      ensures fresh(reorder) && fresh(handler) && fresh(handler.diagnostics)
    {
      reorder := new Buffer.UdpRtpReorderBuffer();
      handler := new MediaHandler(client);
      handlerErr, events := false, [];
    }

    /** Gives the handler what has been emitted since `from`. */
    method HandOver(from: nat)
      requires from <= |reorder.emitted|
      requires handler.State() == HandleEach(handler.client, reorder.emitted[..from])
      requires handlerErr <==> !AllFine(handler.client, reorder.emitted[..from])
      modifies this`handlerErr, handler, handler.diagnostics
      ensures handler.State() == HandleEach(handler.client, reorder.emitted)
      ensures handlerErr <==> !AllFine(handler.client, reorder.emitted)
    {
      hide HandlePacket, HandleEach, AllFine;
      for i := from to |reorder.emitted|
        invariant handler.State() == HandleEach(handler.client, reorder.emitted[..i])
        invariant handlerErr <==> !AllFine(handler.client, reorder.emitted[..i])
      {
        HandleEachNext(handler.client, reorder.emitted, i);
        var ok := handler.Handle(reorder.emitted[i]);
        handlerErr := handlerErr || !ok;
      }
      assert reorder.emitted[..|reorder.emitted|] == reorder.emitted;
    }

    method WakeUp(wake: Wake, race: bool)
      requires Wired() && !IsShort(wake)
      modifies this, reorder, handler, handler.diagnostics
      ensures Wired()
      ensures ArrivedPackets(events) == old(ArrivedPackets(events)) + if wake.Datagram? then [wake.bytes] else []
      ensures events == old(events) + Answer(Machine.Run(Machine.INITIAL, old(events)), wake, race)
    {
      hide Machine.Push, Machine.Fire, Machine.Run, HandleEach, AllFine;
      var from := |reorder.emitted|;
      ghost var before := reorder.emitted;
      match wake {
        case Datagram(bytes) =>
          Buffer.Timers.PushKeeps(reorder.State(), bytes, race);
          reorder.Push(bytes, race);
          Record(Machine.Arrived(bytes, race));
        case Callback(id, _) =>
          if id in reorder.outstanding {
            Buffer.Timers.FireKeeps(reorder.State(), id, race);
            reorder.TimerCallback(id, race);
            Record(Machine.TimerFired(id, race));
          }
      }
      assert reorder.emitted[..from] == before;
      HandOver(from);
    }

    ghost method Record(e: Machine.Event)
      modifies this`events
      ensures events == old(events) + [e]
      ensures Machine.Run(Machine.INITIAL, events) == Machine.Step(Machine.Run(Machine.INITIAL, old(events)), e)
      ensures ArrivedPackets(events) == old(ArrivedPackets(events)) + if e.Arrived? then [e.packet] else []
    {
      Machine.RunNext(Machine.INITIAL, events, e);
      ArrivedNext(events, e);
      events := events + [e];
    }

    /** The read deadline has passed: whatever is held is flushed. */
    method CloseBuffer(stopRace: bool, between: seq<Buffer.Late>, flushRace: bool)
      requires Wired()
      modifies this, reorder, handler, handler.diagnostics
      ensures Wired() && reorder.pending == map[] && reorder.flushTimer.None?
      ensures old(events) <= events && Closing(events[|old(events)|..])
      ensures ArrivedPackets(events) == old(ArrivedPackets(events))
    {
      hide HandleEach, AllFine, Closing, ClosingEvents, ArrivedPackets, Buffer.Timers.Valid;
      hide Machine.Run, Machine.FlushRemaining, Machine.Stop, Machine.Possible;
      var from := |reorder.emitted|;
      ghost var before := reorder.emitted;
      ghost var happened := reorder.Close(stopRace, between, flushRace);
      RunClosing(events, stopRace, happened, flushRace);
      events := events + ClosingEvents(stopRace, happened, flushRace);
      assert events[|old(events)|..] == ClosingEvents(stopRace, happened, flushRace);
      assert reorder.emitted[..from] == before;
      HandOver(from);
    }

    /** The deferred stop of every other exit. */
    method StopBuffer(race: bool)
      requires Wired()
      modifies this`events, reorder
      ensures Wired() && reorder.emitted == old(reorder.emitted)
      ensures ArrivedPackets(events) == old(ArrivedPackets(events))
      ensures old(events) <= events && Stopping(events[|old(events)|..])
    {
      hide HandleEach, AllFine;
      reorder.Stop(race);
      Record(Machine.Stopped(race));
    }

    /** The first `n` wake-ups have been dealt with. */
    ghost predicate Fed(wakes: seq<Wake>, race: nat -> bool, n: nat)
      requires n <= |wakes|
      reads this
    {
      events == EventsOf(wakes[..n], race) && ArrivedPackets(events) == Datagrams(wakes[..n])
    }

    method FeedNext(wakes: seq<Wake>, race: nat -> bool, n: nat)
      requires Wired() && n < |wakes| && !IsShort(wakes[n]) && Fed(wakes, race, n)
      modifies this, reorder, handler, handler.diagnostics
      ensures Wired() && Fed(wakes, race, n + 1)
      ensures handlerErr <==> !AllFine(handler.client, SentBy(wakes[..n + 1], race))
    {
      hide Machine.Run, HandleEach, AllFine, ArrivedPackets, EventsOf, Answer, Datagrams;
      DatagramsNext(wakes, n);
      EventsOfNext(wakes, race, n);
      WakeUp(wakes[n], race(n));
    }

    lemma StartFeeding(wakes: seq<Wake>, race: nat -> bool)
      requires events == []
      ensures Fed(wakes, race, 0)
    {
      NothingFed(handler.client, wakes, race);
      hide EventsOf, ArrivedPackets, Datagrams;
    }

    /** One turn of the pump. */
    method Turn(wakes: seq<Wake>, cancelled: nat -> bool, race: nat -> bool, n: nat)
      returns (ended: bool, result: UdpResult, ghost reached: nat)
      requires Wired() && n < |wakes| && Fed(wakes, race, n)
      requires NotDone(cancelled, n) && NothingSeen(handler.client, wakes, race, n)
      modifies this, reorder, handler, handler.diagnostics
      ensures Wired() && reached <= |wakes| && NotDone(cancelled, reached) && Fed(wakes, race, reached)
      ensures ended ==> Explains(wakes, cancelled, reached, handlerErr, result)
      ensures ended ==> NothingSeen(handler.client, wakes, race, Looks(result, reached))
      ensures !ended ==> reached == n + 1 && NothingSeen(handler.client, wakes, race, reached)
    {
      hide Wired, AllFine, NotDone, NothingSeen, SentBy, Fed;
      if cancelled(n) {
        return true, ContextCancelled, n;
      }
      NotDoneYet(cancelled, n);
      if IsShort(wakes[n]) {
        return true, Panicked, n;
      }
      FeedNext(wakes, race, n);
      if handlerErr && Polls(wakes[n]) {
        return true, HandlerError, n + 1;
      }
      NothingSeenNext(handler.client, wakes, race, n);
      return false, Ended, n + 1;
    }

    /** Feeds the buffer until the context is done, the handler has failed, push panics or nothing arrives. */
    method Feed(wakes: seq<Wake>, cancelled: nat -> bool, race: nat -> bool)
      returns (result: UdpResult, ghost reached: nat)
      requires Wired() && events == []
      modifies this, reorder, handler, handler.diagnostics
      ensures Wired() && reached <= |wakes| && NotDone(cancelled, reached) && Fed(wakes, race, reached)
      ensures Explains(wakes, cancelled, reached, handlerErr, result)
      ensures NothingSeen(handler.client, wakes, race, Looks(result, reached))
    {
      hide Wired, AllFine, NotDone, NothingSeen, SentBy, EventsOf, Datagrams, ArrivedPackets, Fed, Machine.Run;
      var n := 0;
      NothingDone(cancelled);
      NothingFed(handler.client, wakes, race);
      StartFeeding(wakes, race);
      while n < |wakes|
        invariant n <= |wakes| && Wired() && NotDone(cancelled, n)
        invariant NothingSeen(handler.client, wakes, race, n)
        invariant Fed(wakes, race, n)
      {
        var ended;
        ended, result, reached := Turn(wakes, cancelled, race, n);
        if ended {
          return;
        }
        n := n + 1;
      }
      if cancelled(n) {
        return ContextCancelled, n;
      }
      if handlerErr {
        NothingSeenBefore(handler.client, wakes, race, n, Looks(HandlerError, n));
        return HandlerError, n;
      }
      return if cancelled(n + 1) then ContextCancelled else Ended, n;
    }

    /**
     * `reached` wake-ups have been dealt with, and then the pump has ended, for the reason that
     * `result` says. Everything the buffer has emitted has been handed over. When the pump ends
     * because nothing arrives any more, every datagram has been through the buffer, nothing is
     * held, and all was well up to the close. A handler error ends the pump as soon as it looks;
     * what fails in the close is not reported.
     */
    method PumpUdp(
        wakes: seq<Wake>, cancelled: nat -> bool, timedOut: bool, race: nat -> bool, between: seq<Buffer.Late>)
      returns (result: UdpResult, ghost reached: nat)
      requires Wired() && events == []
      modifies this, reorder, handler, handler.diagnostics
      ensures Wired() && HasWritten(handler.State(), Body(reorder.emitted))
      ensures reached <= |wakes| && NotDone(cancelled, reached) && Concluded(wakes, race, reached, result)
      ensures Reports(handler.client, wakes, cancelled, timedOut, reached, SentBy(wakes[..reached], race), result)
      ensures NothingSeen(handler.client, wakes, race, Looks(result, reached))
      ensures Undisturbed(wakes, cancelled) && timedOut && Datagrams(wakes) != [] ==>
                result == if AllFine(handler.client, SentBy(wakes, race)) then Ended else HandlerError
    {
      hide HandleEach, Body, AllFine, NotDone, NothingSeen, SentBy, EventsOf, Datagrams, ArrivedPackets, Machine.Run;
      result, reached := Feed(wakes, cancelled, race);
      assert wakes[..|wakes|] == wakes;
      SentByEvents(wakes[..reached], race);
      SentByPrefix(wakes, race, reached);
      FinePrefixes(handler.client, reorder.emitted, SentBy(wakes, race));
      ghost var before := events;
      if result == Ended && timedOut && |Datagrams(wakes)| > 0 {
        CloseBuffer(race(|wakes|), between, race(|wakes| + 1));
      } else {
        if result == Ended {
          result := if timedOut then NoFirstPacket else ReadError;
        }
        StopBuffer(race(|wakes|));
      }
      EachIsWritten(handler.client, reorder.emitted);
    }

    /** The wake-ups, and then the close or the stop; only the close can emit more. */
    ghost predicate Concluded(wakes: seq<Wake>, race: nat -> bool, reached: nat, result: UdpResult)
      requires reached <= |wakes|
      reads this, reorder
    {
      var before := EventsOf(wakes[..reached], race);
      && ArrivedPackets(events) == Datagrams(wakes[..reached])
      && before <= events
      && if result == Ended then
           Closing(events[|before|..]) && reorder.pending == map[] && reorder.flushTimer.None?
         else
           Stopping(events[|before|..]) && reorder.emitted == SentBy(wakes[..reached], race)
    }
  }

  lemma SentByEvents(wakes: seq<Wake>, race: nat -> bool)
    ensures SentBy(wakes, race) == Machine.Run(Machine.INITIAL, EventsOf(wakes, race)).emitted
  {
  }

  ghost function ClosingEvents(stopRace: bool, happened: seq<Machine.Event>, flushRace: bool): seq<Machine.Event> {
    [Machine.Stopped(stopRace)] + happened + [Machine.Flushed(flushRace)]
  }

  lemma RunClosing(events: seq<Machine.Event>, stopRace: bool, happened: seq<Machine.Event>, flushRace: bool)
    requires forall e :: e in happened ==> e.TimerFired?
    ensures
      var closing := ClosingEvents(stopRace, happened, flushRace);
      var stopped := Machine.Stop(Machine.Run(Machine.INITIAL, events), stopRace);
      && Closing(closing)
      && Machine.Run(Machine.INITIAL, events + closing) ==
         Machine.FlushRemaining(Machine.Run(stopped, happened), flushRace)
      && ArrivedPackets(events + closing) == ArrivedPackets(events)
  {
    hide Machine.FlushRemaining, Machine.Run, ArrivedPackets;
    var stop, flush := Machine.Stopped(stopRace), Machine.Flushed(flushRace);
    ArrivedQuietly(events, ClosingEvents(stopRace, happened, flushRace));
    assert events + ClosingEvents(stopRace, happened, flushRace) == events + [stop] + happened + [flush];
    Machine.RunNext(Machine.INITIAL, events + [stop] + happened, flush);
    Machine.RunAppend(Machine.INITIAL, events + [stop], happened);
    Machine.RunNext(Machine.INITIAL, events, stop);
  }
}
