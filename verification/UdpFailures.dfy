/** Failures of the UDP relay, on inputs that show them. */
module UdpFailures {
  import opened Bytes
  import opened SequenceNumbers
  import opened MediaRelay
  import opened ReorderLedger
  import opened UdpPump
  import Machine = ReorderMachine
  import Buffer = ReorderBuffer

  /** For example: one datagram of less than 4 bytes makes the relay panic. */
  method ShortDatagramPanics(bytes: seq<Byte>, client: Client, race: nat -> bool)
    returns (pump: UdpPump, result: UdpResult)
    requires |bytes| < 4
    ensures fresh(pump) && result == Panicked && pump.reorder.emitted == []
  {
    hide Machine.Run, HandleEach, HasWritten, Body, AllFine, NotDone, Stopping, Closing;
    pump := new UdpPump(client);
    var wakes := [Datagram(bytes)];
    assert Datagrams(wakes[..1]) == [bytes] && wakes[..1] == wakes;
    ghost var reached;
    result, reached := pump.PumpUdp(wakes, n => false, true, race, []);
    PacketsAreLong(ArrivedPackets(pump.events));
    assert bytes !in ArrivedPackets(pump.events);
    assert reached == 0 && result != Ended;
    NothingFed(client, wakes, race);
    assert pump.events[0..] == pump.events;
    StoppedAtOnce(client, pump.events);
  }

  lemma PacketsAreLong(packets: seq<Packet>)
    ensures forall p: seq<Byte> :: p in packets ==> 4 <= |p|
  {
  }

  lemma StoppedAtOnce(client: Client, events: seq<Machine.Event>)
    requires Stopping(events)
    ensures Machine.Run(Machine.INITIAL, events).emitted == [] && AllFine(client, [])
  {
    assert events[..0] == [];
  }

  /**
   * For example: of two datagrams with a gap between them the first is emitted at once and the
   * second in the close; if only the second cannot be relayed, no error is reported.
   */
  method FlushFailureIsUnreported(
      a: Packet, b: Packet, client: Client, race: nat -> bool, between: seq<Buffer.Late>)
    returns (pump: UdpPump, result: UdpResult)
    requires Gap(a, b) && AllFine(client, [a]) && !AllFine(client, [a, b])
    ensures fresh(pump) && result == Ended
    ensures pump.reorder.emitted == [a, b] && !AllFine(client, pump.reorder.emitted)
  {
    hide Machine.Run, HandleEach, HasWritten, Body, AllFine, NotDone, Closing, NothingSeen;
    pump := new UdpPump(client);
    var wakes := [Datagram(a), Datagram(b)];
    assert Undisturbed(wakes, n => false);
    GapRun(a, b, race);
    ghost var reached;
    result, reached := pump.PumpUdp(wakes, n => false, true, race, between);
    assert result == Ended && reached == 2 && wakes[..2] == wakes by {
      hide Gap;
      assert Datagrams(wakes) != [];
    }
    EmittedInClose(a, b, EventsOf(wakes, race), pump.events);
  }

  /** `b` is ahead of what is expected after `a`. */
  predicate Gap(a: Packet, b: Packet) {
    1 <= SequenceDistance(Wire(ParseRtpSequence(a) + 1), ParseRtpSequence(b)) <= 0x7fff
  }

  lemma GapRun(a: Packet, b: Packet, race: nat -> bool)
    requires Gap(a, b)
    ensures
      var wakes := [Datagram(a), Datagram(b)];
      && Datagrams(wakes) == [a, b]
      && EventsOf(wakes, race) == [Machine.Arrived(a, race(0)), Machine.Arrived(b, race(1))]
      && SentBy(wakes, race) == [a]
      && Keyed(Machine.Run(Machine.INITIAL, EventsOf(wakes, race)))
      && Kept(Machine.Run(Machine.INITIAL, EventsOf(wakes, race))) == multiset{a, b}
  {
    var wakes, first, second := [Datagram(a), Datagram(b)], Machine.Arrived(a, race(0)), Machine.Arrived(b, race(1));
    GapEmits(a, b, race(0), race(1));
    hide *;
    var events := EventsOf(wakes, race);
    TwoDatagrams(a, b, race);
    Machine.RunNothing(Machine.INITIAL, []);
    Machine.RunNext(Machine.INITIAL, [], first);
    Machine.RunNext(Machine.INITIAL, [first], second);
    assert [] + [first] == [first] && [first] + [second] == [first, second];
    SentByEvents(wakes, race);
  }

  lemma TwoDatagrams(a: Packet, b: Packet, race: nat -> bool)
    ensures Datagrams([Datagram(a), Datagram(b)]) == [a, b]
    ensures EventsOf([Datagram(a), Datagram(b)], race) == [Machine.Arrived(a, race(0)), Machine.Arrived(b, race(1))]
  {
    hide Machine.Run;
    var wakes := [Datagram(a), Datagram(b)];
    assert wakes[..2] == wakes;
    NothingFed(_ => true, wakes, race);
    hide EventsOf, Datagrams;
    DatagramsNext(wakes, 0);
    DatagramsNext(wakes, 1);
    EventsOfNext(wakes, race, 0);
    EventsOfNext(wakes, race, 1);
  }

  /** The second packet waits. */
  lemma GapEmits(a: Packet, b: Packet, race: bool, race': bool)
    requires Gap(a, b)
    ensures
      var s := Machine.Push(Machine.Push(Machine.INITIAL, a, race), b, race');
      s.emitted == [a] && Keyed(s) && Kept(s) == multiset{a, b}
  {
    var s := Machine.Push(Machine.INITIAL, a, race);
    FirstIsEmitted(a, race);
    assert !Late(s, b) && ParseRtpSequence(b) != s.expected.value;
    hide Gap, Machine.Push, Machine.Step, Kept, Keyed;
    WaitingIsKept(s, b, race');
    PushKeeps(s, b, race');
  }

  lemma WaitingIsKept(s: Machine.State, b: Packet, race: bool)
    requires s.expected.Some? && s.pending == map[] && !Late(s, b) && ParseRtpSequence(b) != s.expected.value
    ensures Machine.Push(s, b, race).emitted == s.emitted
  {
    hide IsStaleSequence, ParseRtpSequence;
    var t := s.(pending := map[ParseRtpSequence(b) := b]);
    assert Machine.Insert(s, b) == t && Machine.Waiting(t) && |t.pending| == 1;
    assert Machine.FlushAvailable(t, race) == t;
  }

  lemma FirstIsEmitted(a: Packet, race: bool)
    ensures
      var s := Machine.Push(Machine.INITIAL, a, race);
      && s == Machine.INITIAL.(expected := Some(Wire(ParseRtpSequence(a) + 1)), emitted := [a])
      && Keyed(s) && Kept(s) == multiset{a}
  {
    var t := Machine.Insert(Machine.INITIAL, a);
    var u := Machine.EmitExpected(t);
    assert u.pending == map[];
    assert Machine.EmitRun(t) == Machine.EmitRun(u) == u;
  }

  lemma EmittedInClose(a: Packet, b: Packet, fed: seq<Machine.Event>, events: seq<Machine.Event>)
    requires fed <= events && Closing(events[|fed|..])
    requires
      var s, t := Machine.Run(Machine.INITIAL, fed), Machine.Run(Machine.INITIAL, events);
      Keyed(s) && Kept(s) == multiset{a, b} && s.emitted == [a] && t.pending == map[]
    ensures Machine.Run(Machine.INITIAL, events).emitted == [a, b]
  {
    var s, t, closing := Machine.Run(Machine.INITIAL, fed), Machine.Run(Machine.INITIAL, events), events[|fed|..];
    Machine.RunAppend(Machine.INITIAL, fed, closing);
    assert fed + closing == events;
    Buffer.Timers.NoLostWakeup(Machine.INITIAL, fed);
    QuietKeeps(s, closing);
    assert Kept(t) == multiset(t.emitted);
    hide Machine.Run, Kept, Keyed, Closing, Buffer.Timers.Valid;
    TheOtherFollows(t.emitted, a, b);
  }

  lemma TheOtherFollows(sent: seq<Packet>, a: Packet, b: Packet)
    requires [a] <= sent && multiset(sent) == multiset{a, b}
    ensures sent == [a, b]
  {
    assert sent == [a] + sent[1..];
    assert multiset(sent[1..]) == multiset{b};
    assert |sent| == |multiset(sent)|;
    assert sent[1] in multiset(sent[1..]);
  }

  /** Packets for the example above: an empty one, and one too short to be relayed, with a gap between them. */
  lemma FlushFailureInput(client: Client) returns (a: Packet, b: Packet)
    ensures Gap(a, b) && AllFine(client, [a]) && !AllFine(client, [a, b])
  {
    a, b := [0x80, 0, 0, 0, 0, 0, 0, 0, 0, 0, 0, 0], [0x80, 0, 0, 2];
    assert [a, b][1] == b;
  }
}
