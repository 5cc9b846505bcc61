/** RTP loss accounting: what the relay counts is the gaps between true packet indices. */
module RtpLoss {
  import opened Bytes
  import opened SequenceNumbers
  import opened IndexedReorder
  import Machine = ReorderMachine
  import Simulation = ReorderSimulation

  datatype RtpStats = RtpStats(
    last: Option<Word>,
    packets: nat,
    missing: nat,
    loggedGap: bool,
    gapWarnings: nat)

  const NO_RTP := RtpStats(None, 0, 0, false, 0)

  function RecordRtp(st: RtpStats, packet: seq<Byte>): RtpStats {
    if |packet| < 4 then st
    else
      var sequence := ParseRtpSequence(packet);
      if st.last.None? then st.(last := Some(sequence), packets := st.packets + 1)
      else
        var expected := Wire(st.last.value + 1);
        if IsStaleSequence(sequence, expected) then st
        else if sequence == expected then st.(last := Some(sequence), packets := st.packets + 1)
        else RtpStats(
          Some(sequence),
          st.packets + 1,
          st.missing + SequenceDistance(expected, sequence),
          true,
          if st.loggedGap then st.gapWarnings else st.gapWarnings + 1)
  }

  function RecordAll(packets: seq<seq<Byte>>): RtpStats {
    if packets == [] then NO_RTP
    else var n := |packets| - 1; RecordRtp(RecordAll(packets[..n]), packets[n])
  }

  /** The number of packets between the first and the last index, both included. */
  function Span(arr: seq<Arrival>): int
    requires arr != []
  {
    arr[|arr| - 1].index - arr[0].index + 1
  }

  /** The statistics are exact for packets with the true indices `arr`. */
  ghost predicate Accounts(st: RtpStats, arr: seq<Arrival>) {
    if arr == [] then st == NO_RTP
    else
      && st.last == Some(Wire(arr[|arr| - 1].index))
      && st.packets == |arr|
      && st.packets + st.missing == Span(arr)
      && (st.loggedGap <==> st.missing > 0)
      && st.gapWarnings == if st.missing > 0 then 1 else 0
  }

  lemma RecordNext(st: RtpStats, arr: seq<Arrival>, a: Arrival)
    requires Accounts(st, arr) && ParseRtpSequence(a.packet) == Wire(a.index)
    requires arr != [] ==> arr[|arr| - 1].index < a.index <= arr[|arr| - 1].index + HALF
    ensures Accounts(RecordRtp(st, a.packet), arr + [a])
  {
    hide Wire, SequenceDistance, IsStaleSequence, ParseRtpSequence;
    if arr != [] {
      var e := arr[|arr| - 1].index + 1;
      WireSuccessor(e - 1);
      DistanceIsIndexDifference(e, a.index);
      StaleIffOverdue(e, a.index);
      if Wire(a.index) == Wire(e) {
        WireInjective(a.index, e);
      }
    }
  }

  /** In true order, nothing is stale and the count of missing packets is the count of absent indices. */
  lemma {:induction false} LossIsExact(arr: seq<Arrival>)
    requires InOrder(arr) && Simulation.Numbered(arr)
    ensures Accounts(RecordAll(Packets(arr)), arr)
  {
    if arr != [] {
      var n := |arr| - 1;
      LossIsExact(arr[..n]);
      RecordNext(RecordAll(Packets(arr[..n])), arr[..n], arr[n]);
      assert Packets(arr)[..n] == Packets(arr[..n]);
      assert arr[..n] + [arr[n]] == arr;
    }
  }

  /** The loss counted behind the reorder buffer, at every moment of every run. */
  lemma LossBehindReorderBuffer(events: seq<Machine.Event>, indices: seq<int>)
    requires Simulation.WithinWindow(events, indices)
    ensures
      var sent := Machine.Run(Machine.INITIAL, events).emitted;
      var out := Simulation.IndexedRun(events, indices).emitted;
      Accounts(RecordAll(sent), out) && RecordAll(sent).packets == |sent|
  {
    var out := Simulation.EmittedInOrder(events, indices);
    LossIsExact(out);
  }

  /** `arr` after one more packet of a raw stream, whose index is unwrapped around the next one. */
  ghost function Count(arr: seq<Arrival>, packet: seq<Byte>): (r: seq<Arrival>)
    requires InOrder(arr) && Simulation.Numbered(arr)
    ensures InOrder(r) && Simulation.Numbered(r)
  {
    if |packet| < 4 then arr
    else if arr == [] then [Arrival(ParseRtpSequence(packet), packet)]
    else
      hide InOrder, Simulation.Numbered, Wire, ParseRtpSequence, SequenceDistance, Unwrap;
      var last := arr[|arr| - 1].index;
      var index := Unwrap(last + 1, ParseRtpSequence(packet));
      if index <= last then arr else Extends(arr, Arrival(index, packet)); arr + [Arrival(index, packet)]
  }

  lemma Extends(arr: seq<Arrival>, a: Arrival)
    requires InOrder(arr) && Simulation.Numbered(arr) && ParseRtpSequence(a.packet) == Wire(a.index)
    requires arr != [] ==> arr[|arr| - 1].index < a.index <= arr[|arr| - 1].index + HALF
    ensures InOrder(arr + [a]) && Simulation.Numbered(arr + [a])
  {
    hide Wire, ParseRtpSequence;
  }

  ghost function Counted(packets: seq<seq<Byte>>): (arr: seq<Arrival>)
    ensures InOrder(arr) && Simulation.Numbered(arr)
  {
    if packets == [] then []
    else var n := |packets| - 1; Count(Counted(packets[..n]), packets[n])
  }

  lemma RecordRaw(st: RtpStats, arr: seq<Arrival>, packet: seq<Byte>)
    requires Accounts(st, arr) && InOrder(arr) && Simulation.Numbered(arr)
    ensures Accounts(RecordRtp(st, packet), Count(arr, packet))
  {
    if 4 <= |packet| {
      var sequence := ParseRtpSequence(packet);
      if arr == [] {
        assert Wire(sequence) == sequence;
        hide *;
        RecordNext(st, arr, Arrival(sequence, packet));
      } else {
        hide Wire, IsStaleSequence, SequenceDistance, InOrder, Unwrap, Simulation.Numbered, ParseRtpSequence;
        var last := arr[|arr| - 1].index;
        var index := Unwrap(last + 1, sequence);
        WireSuccessor(last);
        StaleIffOverdue(last + 1, index);
        if index > last {
          RecordNext(st, arr, Arrival(index, packet));
        }
      }
    }
  }

  lemma WireSuccessor(i: int)
    ensures Wire(Wire(i) + 1) == Wire(i + 1)
  {
  }

  /** Without a reorder buffer in front, late packets are ignored and the rest is still exact. */
  lemma {:induction false} LossOfRawStream(packets: seq<seq<Byte>>)
    ensures Accounts(RecordAll(packets), Counted(packets))
  {
    if packets != [] {
      var n := |packets| - 1;
      hide Accounts, Count, RecordRtp;
      LossOfRawStream(packets[..n]);
      RecordRaw(RecordAll(packets[..n]), Counted(packets[..n]), packets[n]);
    } else {
      assert Counted(packets) == [];
    }
  }
}
