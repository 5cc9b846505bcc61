/** Transport stream packets as they are on the wire, and what the diagnostics make of streams of them. */
module TransportStream {
  import opened Bytes
  import opened TsContinuity

  /** The fields of a packet (section 2.4.3.2 of ISO/IEC 13818-1); `body` follows the four header bytes. */
  datatype Fields = Fields(flags: nat, pid: nat, scrambling: nat, control: nat, counter: nat, body: seq<Byte>) {
    predicate Valid() {
      flags < 8 && pid < 0x2000 && scrambling < 4 && control < 4 && counter < 16 && |body| == 184
    }

    function Packet(): (p: TsPacket)
      requires Valid()
    {
      [0x47, flags * 0x20 + pid / 0x100, pid % 0x100, scrambling * 0x40 + control * 0x10 + counter] + body
    }

    predicate CarriesPayload() {
      control == 1 || control == 3
    }

    /** There is an adaptation field, it is not empty, and its first flag is set. */
    predicate AnnouncesDiscontinuity()
      requires Valid()
    {
      (control == 2 || control == 3) && body[0] != 0 && 0x80 <= body[1]
    }
  }

  /** Every field is read back from the bytes. */
  lemma FieldsAreRead(f: Fields)
    requires f.Valid()
    ensures
      var p := f.Packet();
      && Synced(p) && Pid(p) == f.pid && Counter(p) == f.counter
      && (HasPayload(p) <==> f.CarriesPayload())
      && (HasDiscontinuity(p) <==> f.AnnouncesDiscontinuity())
  {
    var p := f.Packet();
    assert p[1] == f.flags * 0x20 + f.pid / 0x100 && p[2] == f.pid % 0x100;
    assert p[3] == f.scrambling * 0x40 + f.control * 0x10 + f.counter && p[4] == f.body[0] && p[5] == f.body[1];
    assert f.pid / 0x100 < 0x20;
  }

  /** A packet is in sync exactly when its first byte is 47 in hexadecimal. */
  lemma SyncByte(p: TsPacket)
    ensures Synced(p) <==> p[0] == 0x47
  {
  }

  predicate AllValid(fs: seq<Fields>) {
    forall i :: 0 <= i < |fs| ==> fs[i].Valid()
  }

  function PacketsOf(fs: seq<Fields>): (ps: seq<TsPacket>)
    requires AllValid(fs)
    ensures |ps| == |fs|
  {
    seq(|fs|, i requires 0 <= i < |fs| => fs[i].Packet())
  }

  /** Payload packets of one program stream. */
  ghost predicate Programme(fs: seq<Fields>, pid: nat) {
    AllValid(fs) && forall i :: 0 <= i < |fs| ==> fs[i].pid == pid && fs[i].CarriesPayload()
  }

  /** How often a counter is not the successor of the one before, with no discontinuity announced. */
  function Jumps(fs: seq<Fields>): nat
    requires AllValid(fs)
  {
    if |fs| < 2 then 0
    else
      var n := |fs| - 1;
      Jumps(fs[..n]) +
      if fs[n].counter != (fs[n - 1].counter + 1) % 16 && !fs[n].AnnouncesDiscontinuity() then 1 else 0
  }

  lemma NextPacket(fs: seq<Fields>)
    requires AllValid(fs) && fs != []
    ensures
      var n := |fs| - 1;
      var before := RecordPackets(NO_TS, PacketsOf(fs[..n]));
      RecordPackets(NO_TS, PacketsOf(fs)) == RecordPacket(before, fs[n].Packet())
  {
    var n := |fs| - 1;
    assert PacketsOf(fs)[..n] == PacketsOf(fs[..n]);
  }

  /** The mismatches counted on one PID are the jumps of its counter. */
  lemma {:induction false} JumpsAreCounted(fs: seq<Fields>, pid: nat)
    requires Programme(fs, pid) && pid != 0x1fff
    ensures
      var st := RecordPackets(NO_TS, PacketsOf(fs));
      && st.mismatches == Jumps(fs) && st.syncLosses == 0 && st.packets == |fs|
      && st.expected == if fs == [] then map[] else map[pid := (fs[|fs| - 1].counter + 1) % 16]
  {
    if fs != [] {
      var n := |fs| - 1;
      JumpsAreCounted(fs[..n], pid);
      NextPacket(fs);
      FieldsAreRead(fs[n]);
      hide Pid, Counter, HasPayload, HasDiscontinuity, PacketsOf, RecordPackets, Fields.Packet;
      hide Fields.AnnouncesDiscontinuity, Synced;
    }
  }

  /** The null packets, on PID 1fff, are never checked. */
  lemma {:induction false} NullPacketsAreIgnored(fs: seq<Fields>)
    requires Programme(fs, 0x1fff)
    ensures
      var st := RecordPackets(NO_TS, PacketsOf(fs));
      st.mismatches == 0 && st.syncLosses == 0 && st.expected == map[]
  {
    if fs != [] {
      var n := |fs| - 1;
      NullPacketsAreIgnored(fs[..n]);
      NextPacket(fs);
      FieldsAreRead(fs[n]);
      hide Pid, Counter, HasPayload, HasDiscontinuity, PacketsOf, RecordPackets, Fields.Packet, Synced;
    }
  }

  /** Counters go up by one modulo 16 from `c`, except that number `k` is left out. */
  ghost predicate CountUp(fs: seq<Fields>, c: nat, k: nat) {
    && AllValid(fs)
    && forall i :: 0 <= i < |fs| ==>
         !fs[i].AnnouncesDiscontinuity() && fs[i].counter == (if i < k then c + i else c + i + 1) % 16
  }

  lemma {:induction false} JumpsOfCount(fs: seq<Fields>, c: nat, k: nat)
    requires CountUp(fs, c, k) && 0 < k
    ensures Jumps(fs) == if k < |fs| then 1 else 0
  {
    if |fs| >= 2 {
      var n := |fs| - 1;
      JumpsOfCount(fs[..n], c, k);
      assert fs[n].counter == (if n < k then c + n else c + n + 1) % 16;
      assert fs[n - 1].counter == (if n - 1 < k then c + n - 1 else c + n) % 16;
      NextCounter(if n - 1 < k then c + n - 1 else c + n);
    }
  }

  lemma NextCounter(i: nat)
    ensures (i % 16 + 1) % 16 == (i + 1) % 16 && (i + 2) % 16 != (i + 1) % 16
  {
  }

  /** A sound stream has no mismatch, and one in which a packet is missing inside has exactly one. */
  lemma MissingPacketIsCounted(fs: seq<Fields>, pid: nat, c: nat, k: nat)
    requires Programme(fs, pid) && pid != 0x1fff && CountUp(fs, c, k) && 0 < k
    ensures
      var st := RecordPayload(NO_TS, Flatten(PacketsOf(fs)));
      && st.mismatches == (if k < |fs| then 1 else 0)
      && st.syncLosses == 0 && st.packets == |fs| && st.bytes == 188 * |fs|
  {
    hide RecordPackets, PacketsOf, Jumps, Flatten, Packets;
    JumpsAreCounted(fs, pid);
    JumpsOfCount(fs, c, k);
    PacketsOfFlatten(PacketsOf(fs));
    BytesAreApart(NO_TS, PacketsOf(fs), 188 * |fs|);
  }

  /** A payload is cut into the packets that it is made of. */
  lemma {:induction false} PacketsOfFlatten(ps: seq<TsPacket>)
    ensures |Flatten(ps)| == 188 * |ps| && Packets(Flatten(ps)) == ps
  {
    if ps != [] {
      PacketsOfFlatten(ps[1..]);
      OnePacket(ps[0]);
      PacketsAppend(ps[0], Flatten(ps[1..]));
      assert ps == [ps[0]] + ps[1..];
      hide Packets;
    }
  }

  lemma OnePacket(p: TsPacket)
    ensures Packets(p) == [p]
  {
    assert p[PACKET_SIZE * 0..PACKET_SIZE * 1] == p;
  }
}
