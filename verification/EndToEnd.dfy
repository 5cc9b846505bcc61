/** The relayed body, from the packets the upstream server sends to the writes to the client. */
module EndToEnd {
  import opened Bytes
  import opened SequenceNumbers
  import opened RtpPayload
  import opened MediaRelay
  import opened Interleaved
  import opened RtspConnection
  import Indexed = IndexedReorder
  import Machine = ReorderMachine
  import Simulation = ReorderSimulation
  import Sort = ReorderSort
  import Ledger = ReorderLedger
  import Rtp = RtpLoss
  import Pump = UdpPump
  import Buffer = ReorderBuffer
  import Timers = ReorderTimers

  predicate AllValid(media: seq<RtpPacket>) {
    forall j :: 0 <= j < |media| ==> media[j].Valid()
  }

  function SerializeAll(media: seq<RtpPacket>): (packets: seq<seq<Byte>>)
    requires AllValid(media)
    ensures |packets| == |media|
  {
    seq(|media|, j requires 0 <= j < |media| => media[j].Serialize())
  }

  /** The media that were sent: the non-empty payloads. */
  function Payloads(media: seq<RtpPacket>): seq<seq<Byte>> {
    if media == [] then []
    else (if media[0].payload == [] then [] else [media[0].payload]) + Payloads(media[1..])
  }

  lemma {:induction false} BodyOfSerialized(media: seq<RtpPacket>)
    requires AllValid(media)
    ensures Body(SerializeAll(media)) == Payloads(media)
  {
    if media != [] {
      BodyOfSerialized(media[1..]);
      DepacketizeSerialize(media[0]);
      assert SerializeAll(media)[1..] == SerializeAll(media[1..]);
    }
  }

  lemma SerializedPrefix(media: seq<RtpPacket>, n: nat)
    requires AllValid(media) && n <= |media|
    ensures SerializeAll(media)[..n] == SerializeAll(media[..n])
    ensures |Payloads(media[..n])| <= |Payloads(media)|
    ensures Payloads(media[..n]) == Payloads(media)[..|Payloads(media[..n])|]
  {
    var packets := SerializeAll(media);
    assert packets[..n] == SerializeAll(media[..n]);
    assert packets == packets[..n] + packets[n..];
    BodyAppend(packets[..n], packets[n..]);
    BodyOfSerialized(media);
    BodyOfSerialized(media[..n]);
  }

  /** The client refuses write number f, and none before. */
  ghost predicate FirstRefusal(client: Client, f: nat) {
    !client(f) && AcceptsUpTo(client, f)
  }

  /** The body has been written up to and including the first write that was refused. */
  ghost predicate WrittenToRefusal(client: Client, m: Media, body: seq<seq<Byte>>) {
    exists f: nat :: f < |body| && FirstRefusal(client, f) && HasWritten(m, body[..f + 1])
  }

  ghost predicate WrittenPart(m: Media, body: seq<seq<Byte>>) {
    exists n: nat :: n <= |body| && HasWritten(m, body[..n])
  }

  /** Nothing well-formed stops the relay, so it goes on exactly as long as the client accepts the writes. */
  lemma SerializedOutcome(client: Client, media: seq<RtpPacket>)
    requires AllValid(media)
    ensures
      var h, body := HandleAll(client, IDLE, SerializeAll(media)), Payloads(media);
      if h.ok then AcceptsUpTo(client, |body|) && HasWritten(h.media, body)
      else WrittenToRefusal(client, h.media, body)
  {
    hide HandleAll, HasWritten, Breaks, Body, Payloads, RtpPacket.Serialize, DepacketizeRtpPayload;
    var packets, body := SerializeAll(media), Payloads(media);
    var n := HandleOutcome(client, packets);
    BodyOfSerialized(media);
    AcceptsWhileFine(client, packets, n);
    if n == |packets| {
      assert packets[..n] == packets;
    } else {
      DepacketizeSerialize(media[n]);
      RefusedWrite(client, packets, n);
      SerializedPrefix(media, n + 1);
      BodyOfSerialized(media[..n + 1]);
      var f: nat := |Body(packets[..n])|;
      assert FirstRefusal(client, f) && Body(packets[..n + 1]) == body[..f + 1];
    }
  }

  /** A sound packet breaks the relay only if its payload is refused. */
  lemma RefusedWrite(client: Client, packets: seq<seq<Byte>>, n: nat)
    requires n < |packets| && DepacketizeRtpPayload(packets[n]).Payload?
    requires Breaks(client, |Body(packets[..n])|, packets[n])
    ensures !client(|Body(packets[..n])|) && |Body(packets[..n + 1])| == |Body(packets[..n])| + 1
  {
    hide DepacketizeRtpPayload;
    HandleLast(client, packets, n);
  }

  /**
   * Over TCP: packets are framed on even channels, among other frames and responses, and the
   * stream is cut into reads in any way. The client gets exactly the payloads, up to the first
   * write it refuses; a relay that is cancelled has written the first of them. An error is
   * reported exactly if no write was attempted.
   */
  method TcpRelay(
      items: seq<Item>, media: seq<RtpPacket>, chunks: seq<seq<Byte>>, last: seq<Byte>,
      client: Client, cancelled: nat -> bool, contextDone: bool, error: PumpEnd)
    returns (connection: Connection, handler: MediaHandler, result: PumpResult, report: PumpEnd)
    requires error != Finished
    requires forall i :: 0 <= i < |items| ==> WellFormed(items[i])
    requires Encodable(items) && Flatten(chunks) == EncodeAll(items)
    requires AllValid(media) && MediaPackets(items) == SerializeAll(media)
    ensures TcpOutcome(media, client, cancelled, result, handler.State())
    ensures result == ReadFailed ==> connection.buffer == last
    ensures report != Finished <==> handler.State().effects == []
    ensures report != Finished ==> report == if result == Cancelled then ContextDone else error
  {
    connection := new Connection(chunks, last);
    handler := new MediaHandler(client);
    ScanEncoded(items);
    hide TcpOutcome, HandleAll, MediaPackets, EncodeAll, Encodable, WellFormed, SerializeAll;
    hide Accounted, AllValid, Report;
    ghost var taken;
    result, taken := connection.PumpInterleaved(cancelled, handler);
    TcpDelivers(items, media, client, cancelled, taken, result, handler.State());
    ReportShows(handler.State(), contextDone, TcpEnd(result, error));
    report := Report(handler.started, contextDone, TcpEnd(result, error));
  }

  /** All payloads, or those up to the one refused, or the first of them if cancelled. */
  ghost predicate TcpOutcome(
      media: seq<RtpPacket>, client: Client, cancelled: nat -> bool, result: PumpResult, m: Media)
  {
    var body := Payloads(media);
    match result
    case ReadFailed => AcceptsUpTo(client, |body|) && HasWritten(m, body)
    case HandlerFailed => WrittenToRefusal(client, m, body)
    case Cancelled => WrittenPart(m, body) && exists t: nat :: FirstDone(cancelled, t)
    case _ => false
  }

  lemma TcpDelivers(
      items: seq<Item>, media: seq<RtpPacket>, client: Client, cancelled: nat -> bool, taken: nat,
      result: PumpResult, m: Media)
    requires AllValid(media) && MediaPackets(items) == SerializeAll(media) && taken <= |items|
    requires HandleAll(client, IDLE, MediaPackets(items[..taken])) == Handled(m, result != HandlerFailed)
    requires result != Cancelled ==>
               HandleAll(client, IDLE, MediaPackets(items)) == Handled(m, result != HandlerFailed)
    requires result == Cancelled || result == HandlerFailed || result == ReadFailed
    requires result == Cancelled ==> exists t: nat :: FirstDone(cancelled, t)
    ensures TcpOutcome(media, client, cancelled, result, m) && (m.started <==> m.effects != [])
  {
    StartedShows(client, MediaPackets(items[..taken]));
    if result == Cancelled {
      hide HandleAll, HasWritten, MediaPackets, Payloads, SerializeAll, FirstDone, AllValid, WrittenPart;
      CancelledWritten(items, media, client, taken, m);
    } else {
      hide HandleAll, HasWritten, MediaPackets, Payloads, SerializeAll, WrittenToRefusal, AcceptsUpTo, AllValid;
      SerializedOutcome(client, media);
    }
  }

  lemma CancelledWritten(items: seq<Item>, media: seq<RtpPacket>, client: Client, taken: nat, m: Media)
    requires AllValid(media) && MediaPackets(items) == SerializeAll(media) && taken <= |items|
    requires HandleAll(client, IDLE, MediaPackets(items[..taken])) == Handled(m, true)
    ensures WrittenPart(m, Payloads(media))
  {
    PrefixTaken(items, media, taken);
    var n := |MediaPackets(items[..taken])|;
    ValidPrefix(media, n);
    hide HandleAll, HasWritten, MediaPackets, Payloads, SerializeAll, WrittenToRefusal, AcceptsUpTo, AllValid;
    SerializedPrefix(media, n);
    SerializedOutcome(client, media[..n]);
    var written: nat := |Payloads(media[..n])|;
    assert HasWritten(m, Payloads(media)[..written]);
  }

  lemma ValidPrefix(media: seq<RtpPacket>, n: nat)
    requires AllValid(media) && n <= |media|
    ensures AllValid(media[..n])
  {
  }

  lemma PrefixTaken(items: seq<Item>, media: seq<RtpPacket>, taken: nat)
    requires taken <= |items| && AllValid(media) && MediaPackets(items) == SerializeAll(media)
    ensures |MediaPackets(items[..taken])| <= |media|
    ensures MediaPackets(items[..taken]) == SerializeAll(media)[..|MediaPackets(items[..taken])|]
  {
    assert items == items[..taken] + items[taken..];
    MediaPacketsAppend(items[..taken], items[taken..]);
  }

  /**
   * Over UDP, in every run of the reorder buffer: the body is made of the payloads in the order
   * of their true indices, and the loss reported is the number of indices absent from it.
   */
  lemma UdpRelay(events: seq<Machine.Event>, indices: seq<int>, client: Client) returns (out: seq<Indexed.Arrival>)
    requires Simulation.WithinWindow(events, indices)
    ensures Indexed.InOrder(out) && out == Simulation.IndexedRun(events, indices).emitted
    ensures
      var m := HandleEach(client, Machine.Run(Machine.INITIAL, events).emitted);
      HasWritten(m, Body(Indexed.Packets(out))) && Rtp.Accounts(m.rtp, out)
  {
    out := Simulation.EmittedInOrder(events, indices);
    EachIsWritten(client, Indexed.Packets(out));
    Rtp.LossIsExact(out);
  }

  /**
   * Once the buffer is closed, whatever happened before: nothing is held, every arrival has been
   * emitted or was stale or a duplicate by its true index, and the body is made of exactly the
   * emitted ones, in the order of their true indices.
   */
  lemma ClosedRelayAccountsForArrivals(
      before: seq<Machine.Event>, race: bool, indices: seq<int>, client: Client)
    requires Simulation.WithinWindow(before + [Machine.Flushed(race)], indices)
    ensures
      var closed := before + [Machine.Flushed(race)];
      var s, b := Machine.Run(Machine.INITIAL, closed), Simulation.IndexedRun(closed, indices);
      && s.pending == map[] && b.pending == map[]
      && Indexed.InOrder(b.emitted) && s.emitted == Indexed.Packets(b.emitted)
      && multiset(b.emitted) + multiset(b.stale) + multiset(b.duplicate) ==
         multiset(Simulation.Arrivals(closed, indices))
      && Ledger.Stale(closed) == Indexed.Packets(b.stale)
      && Ledger.Duplicates(closed) == Indexed.Packets(b.duplicate)
      && HasWritten(HandleEach(client, s.emitted), Body(Indexed.Packets(b.emitted)))
  {
    var closed := before + [Machine.Flushed(race)];
    assert |indices| == |closed| && closed[|closed| - 1] == Machine.Flushed(race);
    hide *;
    var out := UdpRelay(closed, indices, client);
    out := Simulation.EmittedInOrder(closed, indices);
    Simulation.Conservation(closed, indices);
    Ledger.DropsAlike(closed, indices);
    ClosedIsEmpty(closed, indices, race);
    Simulation.RunAlike(closed, indices);
    Simulation.EqualSizes(Machine.Run(Machine.INITIAL, closed), Simulation.IndexedRun(closed, indices));
    NothingHeld(Simulation.IndexedRun(closed, indices));
  }

  lemma NothingHeld(b: Indexed.Buffer)
    requires b.pending == map[]
    ensures Indexed.Ledger(b) == multiset(b.emitted) + multiset(b.stale) + multiset(b.duplicate)
  {
    assert Indexed.PendingArrivals(b.pending) == {};
  }

  lemma ClosedIsEmpty(closed: seq<Machine.Event>, indices: seq<int>, flushRace: bool)
    requires Simulation.WithinWindow(closed, indices)
    requires closed != [] && closed[|closed| - 1] == Machine.Flushed(flushRace)
    ensures Simulation.IndexedRun(closed, indices).pending == map[]
  {
    var n := |closed| - 1;
    assert |indices| == n + 1;
    var b := Simulation.IndexedRun(closed[..n], indices[..n]);
    hide Simulation.WithinWindow, Indexed.FlushRemaining;
    assert Simulation.IndexedRun(closed, indices) == Indexed.FlushRemaining(b);
    hide *;
    Simulation.WithinWindowPrefix(closed, indices, n);
    Simulation.RunAlike(closed[..n], indices[..n]);
    Indexed.FlushSettles(b);
  }

  /** `arr` are the packets `media` in some order; packet j bears the sequence number of index first + j. */
  ghost predicate Sent(media: seq<RtpPacket>, first: int, arr: seq<Indexed.Arrival>) {
    && AllValid(media) && |arr| == |media|
    && (forall j :: 0 <= j < |media| ==> media[j].sequence == (first + j) % 0x1_0000)
    && (forall p :: 0 <= p < |arr| ==>
          0 <= arr[p].index - first < |media| && arr[p].packet == media[arr[p].index - first].Serialize())
  }

  lemma SentIsNumbered(media: seq<RtpPacket>, first: int, arr: seq<Indexed.Arrival>)
    requires Sent(media, first, arr)
    ensures Simulation.Numbered(arr)
  {
    hide RtpPacket.Serialize, ParseRtpSequence;
    forall p | 0 <= p < |arr| ensures ParseRtpSequence(arr[p].packet) == Wire(arr[p].index) {
      var j := arr[p].index - first;
      assert media[j].Valid() && media[j].sequence == (first + j) % 0x1_0000;
      SequenceOfSerialized(media[j]);
    }
  }

  /**
   * Over UDP, when the network displaces packets by no more than the buffer holds: the client
   * gets exactly the payloads, in the order in which they were sent, and no loss is reported.
   */
  lemma UdpRelayRestoresOrder(
      media: seq<RtpPacket>, first: int, arr: seq<Indexed.Arrival>, pos: seq<nat>,
      events: seq<Machine.Event>, client: Client)
    requires Sent(media, first, arr)
    requires Sort.NearlySorted(first, arr, pos) && Sort.Delivers(events, arr)
    ensures
      var m := HandleEach(client, Machine.Run(Machine.INITIAL, events).emitted);
      HasWritten(m, Payloads(media)) && m.rtp.packets == |media| && m.rtp.missing == 0
  {
    var sent := Machine.Run(Machine.INITIAL, events).emitted;
    SentIsNumbered(media, first, arr);
    Sort.NearlySortedArrivalsComeOutSorted(events, first, arr, pos);
    EmittedAsSent(media, first, arr, pos, sent);
    EachIsWritten(client, sent);
    BodyOfSerialized(media);
    NoLoss(media, first, arr, pos);
  }

  /**
   * The UDP relay as it runs, whatever it runs into: what it has written are the payloads that
   * the buffer has emitted, in the order of their true indices, and the loss it reports is the
   * number of indices absent from them. An error is reported exactly if no write was attempted
   * and the relay has not ended by itself; a panic reports nothing.
   */
  method RelayUdp(
      wakes: seq<Pump.Wake>, cancelled: nat -> bool, timedOut: bool, race: nat -> bool, between: seq<Buffer.Late>,
      client: Client, contextDone: bool, error: PumpEnd)
    returns (pump: Pump.UdpPump, result: Pump.UdpResult, report: Option<PumpEnd>, ghost reached: nat)
    requires error != Finished
    ensures pump.Wired() && pump.handler.client == client && (result == Pump.Ended ==> reached == |wakes|)
    ensures reached <= |wakes| && pump.Concluded(wakes, race, reached, result)
    ensures Pump.Undisturbed(wakes, cancelled) && timedOut && Pump.Datagrams(wakes) != [] ==>
              result == if AllFine(client, Pump.SentBy(wakes, race)) then Pump.Ended else Pump.HandlerError
    ensures forall indices :: Simulation.WithinWindow(pump.events, indices) ==>
              InTrueOrder(pump.handler.State(), Simulation.IndexedRun(pump.events, indices).emitted)
    ensures report.None? <==> result == Pump.Panicked
    ensures report.Some? ==>
              && (report.value != Finished <==> result != Pump.Ended && pump.handler.State().effects == [])
              && (report.value != Finished ==>
                    report.value == if result == Pump.ContextCancelled then ContextDone
                                    else if result == Pump.NoFirstPacket then OtherError else error)
  {
    hide Machine.Run, HandleEach, Body, AllFine, Rtp.Accounts, Pump.SentBy, Pump.Datagrams;
    hide InTrueOrder, Simulation.Plausible, Simulation.IndexedRun, Report;
    pump := new Pump.UdpPump(client);
    result, reached := pump.PumpUdp(wakes, cancelled, timedOut, race, between);
    forall indices | Simulation.WithinWindow(pump.events, indices)
      ensures InTrueOrder(pump.handler.State(), Simulation.IndexedRun(pump.events, indices).emitted)
    {
      RelayedInTrueOrder(pump.events, indices, client);
    }
    pump.WiredMeans();
    EachIsWritten(client, pump.reorder.emitted);
    assert pump.handler.started <==> pump.handler.effects != [];
    hide HasWritten;
    report := None;
    if result != Pump.Panicked {
      ReportShows(pump.handler.State(), contextDone, Pump.UdpEnd(result, error));
      report := Some(Report(pump.handler.started, contextDone, Pump.UdpEnd(result, error)));
    }
  }

  /** The body is the payloads of `out`, which is in the order of indices, and the loss is exact. */
  ghost predicate InTrueOrder(m: Media, out: seq<Indexed.Arrival>) {
    Indexed.InOrder(out) && HasWritten(m, Body(Indexed.Packets(out))) && Rtp.Accounts(m.rtp, out)
  }

  lemma RelayedInTrueOrder(events: seq<Machine.Event>, indices: seq<int>, client: Client)
    requires Simulation.WithinWindow(events, indices)
    ensures InTrueOrder(
              HandleEach(client, Machine.Run(Machine.INITIAL, events).emitted),
              Simulation.IndexedRun(events, indices).emitted)
  {
    hide Simulation.WithinWindow, HasWritten, HandleEach, Machine.Run, Simulation.IndexedRun, Rtp.Accounts;
    var out := UdpRelay(events, indices, client);
  }

  /** The wake-ups of a relay that only datagrams wake. */
  function Sends(arr: seq<Indexed.Arrival>): (wakes: seq<Pump.Wake>)
    ensures |wakes| == |arr|
  {
    seq(|arr|, p requires 0 <= p < |arr| => Pump.Datagram(arr[p].packet))
  }

  lemma {:induction false} SendsDeliver(arr: seq<Indexed.Arrival>, race: nat -> bool)
    ensures Sort.Delivers(Pump.EventsOf(Sends(arr), race), arr)
  {
    if arr != [] {
      var n := |arr| - 1;
      SendsDeliver(arr[..n], race);
      LastSent(arr);
      var wakes := Sends(arr);
      hide Sort.Delivers, Pump.EventsOf, Sends;
      Pump.EventsOfNext(wakes, race, n);
      DeliversNext(Pump.EventsOf(wakes[..n], race), arr, race(n));
    }
  }

  lemma LastSent(arr: seq<Indexed.Arrival>)
    requires arr != []
    ensures
      var wakes, n := Sends(arr), |arr| - 1;
      wakes[..n] == Sends(arr[..n]) && wakes[n] == Pump.Datagram(arr[n].packet) && wakes[..n + 1] == wakes
  {
  }

  lemma DeliversNext(events: seq<Machine.Event>, arr: seq<Indexed.Arrival>, race: bool)
    requires arr != [] && Sort.Delivers(events, arr[..|arr| - 1])
    ensures Sort.Delivers(events + [Machine.Arrived(arr[|arr| - 1].packet, race)], arr)
  {
  }

  lemma SomethingSent(arr: seq<Indexed.Arrival>)
    requires arr != []
    ensures Pump.Datagrams(Sends(arr)) != []
  {
    LastSent(arr);
  }

  /**
   * Over UDP, when the network displaces packets by no more than the buffer holds: the client
   * gets exactly the payloads, in the order in which they were sent, and no loss is reported.
   * The relay fails exactly if the client refuses one of them, and then it has written a prefix.
   */
  method RelayUdpInOrder(
      media: seq<RtpPacket>, first: int, arr: seq<Indexed.Arrival>, pos: seq<nat>,
      race: nat -> bool, between: seq<Buffer.Late>, client: Client)
    returns (pump: Pump.UdpPump, result: Pump.UdpResult)
    requires Sent(media, first, arr) && media != []
    requires Sort.NearlySorted(first, arr, pos)
    ensures result == if AcceptsUpTo(client, |Payloads(media)|) then Pump.Ended else Pump.HandlerError
    ensures result == Pump.Ended ==>
              var m := pump.handler.State();
              HasWritten(m, Payloads(media)) && m.rtp.packets == |media| && m.rtp.missing == 0
    ensures result == Pump.HandlerError ==> WrittenPart(pump.handler.State(), Payloads(media))
  {
    var wakes := Sends(arr);
    InOrderDelivery(media, first, arr, pos, race, client);
    hide *;
    var report;
    ghost var reached;
    pump, result, report, reached := RelayUdp(wakes, n => false, true, race, between, client, false, OtherError);
    InOrderOutcome(pump, media, wakes, race, reached, result);
  }

  lemma InOrderOutcome(
      pump: Pump.UdpPump, media: seq<RtpPacket>, wakes: seq<Pump.Wake>, race: nat -> bool, reached: nat,
      result: Pump.UdpResult)
    requires AllValid(media) && Pump.SentBy(wakes, race) == SerializeAll(media)
    requires Machine.Run(Machine.INITIAL, Pump.EventsOf(wakes, race)).pending == map[]
    requires pump.Wired() && reached <= |wakes| && pump.Concluded(wakes, race, reached, result)
    requires result == Pump.Ended ==> reached == |wakes|
    ensures result == Pump.Ended ==>
              pump.handler.State() == HandleEach(pump.handler.client, SerializeAll(media))
    ensures result != Pump.Ended ==> WrittenPart(pump.handler.State(), Payloads(media))
  {
    hide Machine.Run, HandleEach, HasWritten, Payloads, SerializeAll, Pump.SentBy, Pump.EventsOf, Pump.Closing;
    hide WrittenPart;
    pump.WiredMeans();
    if result == Pump.Ended {
      assert wakes[..reached] == wakes;
      Pump.SentByEvents(wakes, race);
      SilentClose(Pump.EventsOf(wakes, race), pump.events);
    } else {
      Pump.SentByPrefix(wakes, race, reached);
      WrittenPrefix(media, pump.reorder.emitted, pump.handler.client);
    }
  }

  /** What nearly sorted datagrams amount to, before any is handled. */
  lemma InOrderDelivery(
      media: seq<RtpPacket>, first: int, arr: seq<Indexed.Arrival>, pos: seq<nat>, race: nat -> bool, client: Client)
    requires Sent(media, first, arr) && media != []
    requires Sort.NearlySorted(first, arr, pos)
    ensures Pump.Datagrams(Sends(arr)) != [] && Pump.Undisturbed(Sends(arr), n => false)
    ensures Pump.SentBy(Sends(arr), race) == SerializeAll(media)
    ensures Machine.Run(Machine.INITIAL, Pump.EventsOf(Sends(arr), race)).pending == map[]
    ensures AllFine(client, SerializeAll(media)) <==> AcceptsUpTo(client, |Payloads(media)|)
    ensures
      var m := HandleEach(client, SerializeAll(media));
      HasWritten(m, Payloads(media)) && m.rtp.packets == |media| && m.rtp.missing == 0
  {
    var wakes := Sends(arr);
    assert Pump.Undisturbed(wakes, n => false);
    hide *;
    var fed := Pump.EventsOf(wakes, race);
    SendsDeliver(arr, race);
    SomethingSent(arr);
    NearlySortedSent(media, first, arr, pos, fed);
    UdpRelayRestoresOrder(media, first, arr, pos, fed, client);
    FineExactly(client, media);
    Pump.SentByEvents(wakes, race);
  }

  lemma NearlySortedSent(
      media: seq<RtpPacket>, first: int, arr: seq<Indexed.Arrival>, pos: seq<nat>, events: seq<Machine.Event>)
    requires Sent(media, first, arr)
    requires Sort.NearlySorted(first, arr, pos) && Sort.Delivers(events, arr)
    ensures
      var s := Machine.Run(Machine.INITIAL, events);
      s.emitted == SerializeAll(media) && s.pending == map[]
  {
    SentIsNumbered(media, first, arr);
    Sort.NearlySortedArrivalsComeOutSorted(events, first, arr, pos);
    EmittedAsSent(media, first, arr, pos, Machine.Run(Machine.INITIAL, events).emitted);
  }

  /** Sound packets can all be relayed exactly if the client accepts all their payloads. */
  lemma FineExactly(client: Client, media: seq<RtpPacket>)
    requires AllValid(media)
    ensures AllFine(client, SerializeAll(media)) <==> AcceptsUpTo(client, |Payloads(media)|)
  {
    hide HandleAll, HasWritten, Breaks, Body, Payloads, SerializeAll;
    var packets := SerializeAll(media);
    SerializedOutcome(client, media);
    var n := HandleOutcome(client, packets);
    if n < |packets| {
      assert !Fine(client, packets, |packets|);
    }
  }

  /** When nothing is held, the close emits nothing. */
  lemma SilentClose(fed: seq<Machine.Event>, events: seq<Machine.Event>)
    requires fed <= events && Pump.Closing(events[|fed|..])
    requires Machine.Run(Machine.INITIAL, fed).pending == map[]
    ensures Machine.Run(Machine.INITIAL, events).emitted == Machine.Run(Machine.INITIAL, fed).emitted
  {
    var closing := events[|fed|..];
    assert fed + closing == events;
    ClosingIsQuiet(closing);
    hide Machine.Run, Timers.Valid, Pump.Closing;
    Machine.RunAppend(Machine.INITIAL, fed, closing);
    InitialIsValid();
    Timers.NoLostWakeup(Machine.INITIAL, fed);
    Timers.EmptyIsSilent(Machine.Run(Machine.INITIAL, fed), closing);
  }

  lemma ClosingIsQuiet(closing: seq<Machine.Event>)
    requires Pump.Closing(closing)
    ensures forall e :: e in closing ==> !e.Arrived?
  {
  }

  lemma InitialIsValid()
    ensures Timers.Valid(Machine.INITIAL)
  {
  }

  lemma WrittenPrefix(media: seq<RtpPacket>, sent: seq<Packet>, client: Client)
    requires AllValid(media) && sent <= SerializeAll(media)
    ensures WrittenPart(HandleEach(client, sent), Payloads(media))
  {
    hide HandleEach, HasWritten, Body, Payloads;
    var n := |sent|;
    SerializedPrefix(media, n);
    assert sent == SerializeAll(media)[..n];
    EachIsWritten(client, sent);
    BodyOfSerialized(media[..n]);
    var written: nat := |Payloads(media[..n])|;
    assert HasWritten(HandleEach(client, sent), Payloads(media)[..written]);
  }

  lemma EmittedAsSent(media: seq<RtpPacket>, first: int, arr: seq<Indexed.Arrival>, pos: seq<nat>, sent: seq<Packet>)
    requires AllValid(media) && |arr| == |media| == |sent|
    requires Sort.NearlySorted(first, arr, pos)
    requires forall p :: 0 <= p < |arr| ==>
               && 0 <= arr[p].index - first < |media|
               && arr[p].packet == media[arr[p].index - first].Serialize()
               && sent[arr[p].index - first] == arr[p].packet
    ensures sent == SerializeAll(media)
  {
    forall j | 0 <= j < |media| ensures sent[j] == media[j].Serialize() {
      assert Sort.Arrives(first, arr, pos, j);
      assert arr[pos[j]].index - first == j;
    }
  }

  lemma NoLoss(media: seq<RtpPacket>, first: int, arr: seq<Indexed.Arrival>, pos: seq<nat>)
    requires Sent(media, first, arr)
    requires Sort.NearlySorted(first, arr, pos)
    ensures
      var st := Rtp.RecordAll(SerializeAll(media));
      st.packets == |media| && st.missing == 0
  {
    SentIsNumbered(media, first, arr);
    forall j | 0 <= j < |media|
      ensures 4 <= |media[j].Serialize()| && ParseRtpSequence(media[j].Serialize()) == Wire(first + j)
    {
      assert Sort.Arrives(first, arr, pos, j);
      assert arr[pos[j]].packet == media[j].Serialize();
    }
    var sorted := seq(|media|, j requires 0 <= j < |media| => Indexed.Arrival(first + j, media[j].Serialize()));
    assert Indexed.Packets(sorted) == SerializeAll(media);
    Rtp.LossIsExact(sorted);
  }
}
