/** MPEG transport stream diagnostics: sync loss and per-PID continuity counters. */
module TsContinuity {
  import opened Bytes

  const PACKET_SIZE := 188
  const NULL_PID: Word := 0x1fff
  const PIDS := 0x2000

  type TsPacket = p: seq<Byte> | |p| == PACKET_SIZE witness seq(PACKET_SIZE, _ => 0)
  type Table = map<Word, Byte>

  predicate Synced(p: TsPacket) { p[0] == 0x47 }

  function Pid(p: TsPacket): (pid: Word)
    ensures pid < PIDS
  {
    var high: int, low: int := p[1], p[2];
    0x100 * (high % 0x20) + low
  }

  function AdaptationFieldControl(p: TsPacket): int { p[3] / 0x10 % 4 }

  function Counter(p: TsPacket): Byte { p[3] % 0x10 }

  predicate HasPayload(p: TsPacket) { AdaptationFieldControl(p) == 1 || AdaptationFieldControl(p) == 3 }

  predicate HasDiscontinuity(p: TsPacket) {
    AdaptationFieldControl(p) >= 2 && p[4] > 0 && p[5] >= 0x80
  }

  function Successor(counter: Byte): Byte {
    var c: int := counter;
    (c + 1) % 0x10
  }

  /** A packet in sync with payload on a PID whose next counter is known, and it is another one. */
  predicate Mismatch(t: Table, p: TsPacket) {
    && Synced(p) && HasPayload(p) && Pid(p) != NULL_PID
    && Pid(p) in t && Counter(p) != t[Pid(p)] && !HasDiscontinuity(p)
  }

  function Track(t: Table, p: TsPacket): Table {
    if !Synced(p) then t
    else
      var u := if HasDiscontinuity(p) && !HasPayload(p) then t - {Pid(p)} else t;
      if !HasPayload(p) || Pid(p) == NULL_PID then u else u[Pid(p) := Successor(Counter(p))]
  }

  datatype TsStats = TsStats(
    bytes: nat,
    packets: nat,
    syncLosses: nat,
    mismatches: nat,
    loggedSyncLoss: bool,
    loggedMismatch: bool,
    syncWarnings: nat,
    mismatchWarnings: nat,
    expected: Table)

  const NO_TS := TsStats(0, 0, 0, 0, false, false, 0, 0, map[])

  function RecordPacket(st: TsStats, p: TsPacket): TsStats {
    var lost, wrong := !Synced(p), Mismatch(st.expected, p);
    TsStats(
      st.bytes,
      st.packets + 1,
      if lost then st.syncLosses + 1 else st.syncLosses,
      if wrong then st.mismatches + 1 else st.mismatches,
      st.loggedSyncLoss || lost,
      st.loggedMismatch || wrong,
      if lost && !st.loggedSyncLoss then st.syncWarnings + 1 else st.syncWarnings,
      if wrong && !st.loggedMismatch then st.mismatchWarnings + 1 else st.mismatchWarnings,
      Track(st.expected, p))
  }

  function RecordPackets(st: TsStats, ps: seq<TsPacket>): TsStats {
    if ps == [] then st
    else var n := |ps| - 1; RecordPacket(RecordPackets(st, ps[..n]), ps[n])
  }

  /** The whole packets of a payload; an incomplete one at the end is not looked at. */
  function Packets(payload: seq<Byte>): (ps: seq<TsPacket>)
    ensures |ps| == |payload| / PACKET_SIZE
  {
    seq(|payload| / PACKET_SIZE, k requires 0 <= k < |payload| / PACKET_SIZE =>
      payload[PACKET_SIZE * k..PACKET_SIZE * (k + 1)])
  }

  function RecordPayload(st: TsStats, payload: seq<Byte>): TsStats {
    RecordPackets(st.(bytes := st.bytes + |payload|), Packets(payload))
  }

  // ---------------------------------------------------------------- payload boundaries

  lemma {:induction false} RecordAppend(st: TsStats, ps: seq<TsPacket>, qs: seq<TsPacket>)
    ensures RecordPackets(st, ps + qs) == RecordPackets(RecordPackets(st, ps), qs)
  {
    if qs == [] {
      assert ps + qs == ps;
    } else {
      var n := |qs| - 1;
      RecordAppend(st, ps, qs[..n]);
      assert (ps + qs)[..|ps| + n] == ps + qs[..n];
    }
  }

  lemma {:induction false} BytesAreApart(st: TsStats, ps: seq<TsPacket>, n: nat)
    ensures RecordPackets(st.(bytes := n), ps) == RecordPackets(st, ps).(bytes := n)
    ensures RecordPackets(st, ps).bytes == st.bytes
  {
    if ps != [] {
      BytesAreApart(st, ps[..|ps| - 1], n);
    }
  }

  lemma PacketsAppend(p: seq<Byte>, q: seq<Byte>)
    requires |p| % PACKET_SIZE == 0
    ensures Packets(p + q) == Packets(p) + Packets(q)
  {
    var m := |p| / PACKET_SIZE;
    forall k | 0 <= k < |Packets(p + q)| ensures Packets(p + q)[k] == (Packets(p) + Packets(q))[k] {
      if k < m {
        assert (p + q)[PACKET_SIZE * k..PACKET_SIZE * (k + 1)] == p[PACKET_SIZE * k..PACKET_SIZE * (k + 1)];
      } else {
        assert (p + q)[PACKET_SIZE * k..PACKET_SIZE * (k + 1)] ==
               q[PACKET_SIZE * (k - m)..PACKET_SIZE * (k - m + 1)];
      }
    }
  }

  /** Payloads of whole packets may be cut anywhere between packets. */
  lemma RecordPayloadAppend(st: TsStats, p: seq<Byte>, q: seq<Byte>)
    requires |p| % PACKET_SIZE == 0
    ensures RecordPayload(RecordPayload(st, p), q) == RecordPayload(st, p + q)
  {
    hide RecordPackets, Packets;
    PacketsAppend(p, q);
    var s1, n := st.(bytes := st.bytes + |p|), st.bytes + |p| + |q|;
    BytesAreApart(s1, Packets(p), n);
    RecordAppend(st.(bytes := n), Packets(p), Packets(q));
  }

  /** The payloads of a relay, recorded one after the other. */
  function RecordPayloads(payloads: seq<seq<Byte>>): TsStats {
    if payloads == [] then NO_TS
    else var n := |payloads| - 1; RecordPayload(RecordPayloads(payloads[..n]), payloads[n])
  }

  lemma {:induction false} FlattenSnoc(payloads: seq<seq<Byte>>, last: seq<Byte>)
    ensures Flatten(payloads + [last]) == Flatten(payloads) + last
  {
    if payloads == [] {
      assert payloads + [last] == [last] && [last][1..] == [];
      assert Flatten([last]) == last + [] == last;
    } else {
      assert (payloads + [last])[1..] == payloads[1..] + [last];
      FlattenSnoc(payloads[1..], last);
    }
  }

  lemma SumOfMultiples(a: nat, b: nat)
    requires a % PACKET_SIZE == 0 && b % PACKET_SIZE == 0
    ensures (a + b) % PACKET_SIZE == 0
  {
  }

  /** Packets that no payload splits are diagnosed as one unbroken transport stream. */
  lemma {:induction false} WholePacketsAreOneStream(payloads: seq<seq<Byte>>)
    requires forall i :: 0 <= i < |payloads| ==> |payloads[i]| % PACKET_SIZE == 0
    ensures RecordPayloads(payloads) == RecordPayload(NO_TS, Flatten(payloads))
    ensures |Flatten(payloads)| % PACKET_SIZE == 0
  {
    if payloads == [] {
      assert Packets([]) == [];
    } else {
      var n := |payloads| - 1;
      hide RecordPayload, Flatten;
      assert RecordPayloads(payloads) == RecordPayload(RecordPayloads(payloads[..n]), payloads[n]);
      hide RecordPayloads;
      WholePacketsAreOneStream(payloads[..n]);
      assert payloads[..n] + [payloads[n]] == payloads;
      FlattenSnoc(payloads[..n], payloads[n]);
      SumOfMultiples(|Flatten(payloads[..n])|, |payloads[n]|);
      RecordPayloadAppend(NO_TS, Flatten(payloads[..n]), payloads[n]);
    }
  }

  // ---------------------------------------------------------------- warnings

  /** A warning is issued with the first fault of its kind, and never again. */
  ghost predicate WarnedOnce(st: TsStats) {
    && (st.loggedSyncLoss <==> st.syncLosses > 0)
    && (st.loggedMismatch <==> st.mismatches > 0)
    && st.syncWarnings == (if st.syncLosses > 0 then 1 else 0)
    && st.mismatchWarnings == (if st.mismatches > 0 then 1 else 0)
  }

  lemma {:induction false} RecordPayloadWarnsOnce(st: TsStats, ps: seq<TsPacket>)
    requires WarnedOnce(st)
    ensures WarnedOnce(RecordPackets(st, ps))
  {
    if ps != [] {
      RecordPayloadWarnsOnce(st, ps[..|ps| - 1]);
    }
  }

  /** In a whole relay, each warning is issued once if there is a fault of its kind, and else never. */
  lemma {:induction false} RelayWarnsOnce(payloads: seq<seq<Byte>>)
    ensures
      var st := RecordPayloads(payloads);
      && WarnedOnce(st)
      && st.syncWarnings == (if st.syncLosses > 0 then 1 else 0)
      && st.mismatchWarnings == (if st.mismatches > 0 then 1 else 0)
  {
    if payloads != [] {
      var n := |payloads| - 1;
      RelayWarnsOnce(payloads[..n]);
      var before := RecordPayloads(payloads[..n]);
      RecordPayloadWarnsOnce(before.(bytes := before.bytes + |payloads[n]|), Packets(payloads[n]));
    }
  }

  // ---------------------------------------------------------------- demultiplexing

  predicate On(p: TsPacket, pid: Word) { Synced(p) && Pid(p) == pid }

  /** The packets of one PID. */
  function OnPid(ps: seq<TsPacket>, pid: Word): seq<TsPacket> {
    if ps == [] then []
    else
      var n := |ps| - 1;
      if On(ps[n], pid) then OnPid(ps[..n], pid) + [ps[n]] else OnPid(ps[..n], pid)
  }

  function Mismatches(ps: seq<TsPacket>): nat {
    RecordPackets(NO_TS, ps).mismatches
  }

  function Expected(ps: seq<TsPacket>): Table {
    RecordPackets(NO_TS, ps).expected
  }

  function SumOverPids(ps: seq<TsPacket>, pids: nat): nat
    requires pids <= PIDS
  {
    if pids == 0 then 0 else SumOverPids(ps, pids - 1) + Mismatches(OnPid(ps, pids - 1))
  }

  ghost predicate SameEntry(t: Table, u: Table, pid: Word) {
    (pid in t <==> pid in u) && (pid in t ==> t[pid] == u[pid])
  }

  lemma LastPacket(ps: seq<TsPacket>, p: TsPacket)
    ensures Expected(ps + [p]) == Track(Expected(ps), p)
    ensures Mismatches(ps + [p]) == Mismatches(ps) + if Mismatch(Expected(ps), p) then 1 else 0
  {
    assert (ps + [p])[..|ps|] == ps;
  }

  lemma TrackIsPerPid(t: Table, u: Table, p: TsPacket, pid: Word)
    requires SameEntry(t, u, pid)
    ensures if On(p, pid) then SameEntry(Track(t, p), Track(u, p), pid) else SameEntry(Track(t, p), u, pid)
  {
    hide Pid, HasPayload, HasDiscontinuity, Successor, Counter;
  }

  lemma MismatchIsPerPid(t: Table, u: Table, p: TsPacket)
    requires SameEntry(t, u, Pid(p))
    ensures Mismatch(t, p) <==> Mismatch(u, p)
    ensures Mismatch(t, p) ==> Synced(p)
  {
    hide Pid, HasPayload, HasDiscontinuity, Successor, Counter;
  }

  /** What is expected of a PID depends on that PID's packets alone. */
  lemma {:induction false} ExpectedIsPerPid(ps: seq<TsPacket>, pid: Word)
    ensures SameEntry(Expected(ps), Expected(OnPid(ps, pid)), pid)
  {
    if ps != [] {
      hide Expected, Mismatches, On, Track, Mismatch, SameEntry;
      var n := |ps| - 1;
      ExpectedIsPerPid(ps[..n], pid);
      assert ps == ps[..n] + [ps[n]];
      LastPacket(ps[..n], ps[n]);
      LastPacket(OnPid(ps[..n], pid), ps[n]);
      TrackIsPerPid(Expected(ps[..n]), Expected(OnPid(ps[..n], pid)), ps[n], pid);
    } else {
      assert OnPid(ps, pid) == ps;
    }
  }

  lemma {:induction false} OnlyItsSummand(ps: seq<TsPacket>, p: TsPacket, pids: nat)
    requires pids <= PIDS
    ensures SumOverPids(ps + [p], pids) == SumOverPids(ps, pids) +
            if Pid(p) < pids && Mismatch(Expected(ps), p) then 1 else 0
  {
    if pids > 0 {
      hide Expected, Mismatches, Pid, Mismatch, SameEntry;
      var pid: Word := pids - 1;
      OnlyItsSummand(ps, p, pids - 1);
      assert (ps + [p])[..|ps|] == ps;
      LastPacket(OnPid(ps, pid), p);
      if Pid(p) == pid {
        ExpectedIsPerPid(ps, pid);
        MismatchIsPerPid(Expected(ps), Expected(OnPid(ps, pid)), p);
      }
    }
  }

  lemma {:induction false} NothingExpected(pids: nat)
    requires pids <= PIDS
    ensures SumOverPids([], pids) == 0
  {
    if pids > 0 {
      NothingExpected(pids - 1);
    }
  }

  /** Checking the multiplex is checking each PID by itself. */
  lemma {:induction false} ContinuityIsPerPid(ps: seq<TsPacket>)
    ensures Mismatches(ps) == SumOverPids(ps, 0x2000)
  {
    if ps == [] {
      NothingExpected(PIDS);
    } else {
      var n := |ps| - 1;
      ContinuityIsPerPid(ps[..n]);
      assert ps == ps[..n] + [ps[n]];
      LastPacket(ps[..n], ps[n]);
      OnlyItsSummand(ps[..n], ps[n], PIDS);
    }
  }

  /** Packet `j` is the last with payload on `pid`, and no discontinuity has been announced since. */
  ghost predicate LastPayload(ps: seq<TsPacket>, pid: Word, j: int) {
    && 0 <= j < |ps| && On(ps[j], pid) && HasPayload(ps[j])
    && forall k :: j < k < |ps| && On(ps[k], pid) ==> !HasPayload(ps[k]) && !HasDiscontinuity(ps[k])
  }

  /** The table holds one more than the last payload counter, for exactly the PIDs that have one. */
  lemma {:induction false} TableMeaning(ps: seq<TsPacket>, pid: Word)
    ensures pid in Expected(ps) <==> pid != NULL_PID && exists j :: LastPayload(ps, pid, j)
    ensures forall j :: pid in Expected(ps) && LastPayload(ps, pid, j) ==>
              Expected(ps)[pid] == Successor(Counter(ps[j]))
  {
    if ps != [] {
      var n := |ps| - 1;
      TableMeaning(ps[..n], pid);
      assert ps == ps[..n] + [ps[n]];
      LastPacket(ps[..n], ps[n]);
      hide Expected, Pid;
      if On(ps[n], pid) && HasPayload(ps[n]) {
        assert LastPayload(ps, pid, n);
      } else if On(ps[n], pid) && HasDiscontinuity(ps[n]) {
        assert forall j :: !LastPayload(ps, pid, j);
      } else {
        forall j ensures LastPayload(ps, pid, j) <==> LastPayload(ps[..n], pid, j) {
          if LastPayload(ps[..n], pid, j) {
            assert forall k :: j < k < n ==> ps[k] == ps[..n][k];
          }
        }
        assert SameEntry(Expected(ps), Expected(ps[..n]), pid);
      }
    }
  }

  /** A mismatch: not the successor of the last payload counter, and no discontinuity announced. */
  lemma MismatchMeaning(ps: seq<TsPacket>, p: TsPacket)
    ensures Mismatch(Expected(ps), p) <==>
            && Synced(p) && HasPayload(p) && Pid(p) != NULL_PID && !HasDiscontinuity(p)
            && exists j :: LastPayload(ps, Pid(p), j) && Counter(p) != Successor(Counter(ps[j]))
  {
    TableMeaning(ps, Pid(p));
    hide Expected, Pid, HasPayload, HasDiscontinuity, Successor, Counter, LastPayload;
  }

  function Unsynced(ps: seq<TsPacket>): nat {
    if ps == [] then 0
    else var n := |ps| - 1; Unsynced(ps[..n]) + if Synced(ps[n]) then 0 else 1
  }

  /** The other counters are totals. */
  lemma {:induction false} CountersAreTotals(st: TsStats, ps: seq<TsPacket>)
    ensures
      var r := RecordPackets(st, ps);
      && r.packets == st.packets + |ps| && r.syncLosses == st.syncLosses + Unsynced(ps) && r.bytes == st.bytes
  {
    if ps != [] {
      CountersAreTotals(st, ps[..|ps| - 1]);
    }
  }
}
