/** The diagnostics object of a relay: counters and the continuity table, updated packet by packet. */
module RelayDiagnostics {
  import opened Bytes
  import opened SequenceNumbers
  import Rtp = RtpLoss
  import Ts = TsContinuity

  class RelayDiagnostics {
    var lastRtpSeq: Option<Word>
    var rtpPacketCount: nat
    var rtpMissingCount: nat
    var tsPacketCount: nat
    var tsSyncLossCount: nat
    var tsContinuityErr: nat
    var byteCount: nat
    var loggedRtpGap: bool
    var loggedSyncLoss: bool
    var loggedContErr: bool
    var expectedByPID: map<Word, Byte>
    /** How often each warning has been logged. */
    var gapWarnings: nat
    var syncWarnings: nat
    var mismatchWarnings: nat

    ghost function RtpState(): Rtp.RtpStats
      reads this
    {
      Rtp.RtpStats(lastRtpSeq, rtpPacketCount, rtpMissingCount, loggedRtpGap, gapWarnings)
    }

    ghost function TsState(): Ts.TsStats
      reads this
    {
      Ts.TsStats(byteCount, tsPacketCount, tsSyncLossCount, tsContinuityErr, loggedSyncLoss, loggedContErr,
                 syncWarnings, mismatchWarnings, expectedByPID)
    }

    constructor ()
      ensures RtpState() == Rtp.NO_RTP && TsState() == Ts.NO_TS
    {
      lastRtpSeq, rtpPacketCount, rtpMissingCount := None, 0, 0;
      tsPacketCount, tsSyncLossCount, tsContinuityErr, byteCount := 0, 0, 0, 0;
      loggedRtpGap, loggedSyncLoss, loggedContErr := false, false, false;
      expectedByPID := map[];
      gapWarnings, syncWarnings, mismatchWarnings := 0, 0, 0;
    }

    method RecordRtpPacket(packet: seq<Byte>)
      modifies this
      ensures RtpState() == Rtp.RecordRtp(old(RtpState()), packet)
      ensures TsState() == old(TsState())
    {
      if |packet| < 4 {
        return;
      }
      var sequence := ReadUint16BE(packet, 2);
      if lastRtpSeq.Some? {
        var last: int := lastRtpSeq.value;
        var expected := Wire(last + 1);
        if IsStaleSequence(sequence, expected) {
          return;
        }
        var missed := SequenceDistance(expected, sequence);
        if sequence != expected {
          rtpMissingCount := rtpMissingCount + missed;
          if !loggedRtpGap {
            loggedRtpGap := true;
            gapWarnings := gapWarnings + 1;
          }
        }
      }
      lastRtpSeq := Some(sequence);
      rtpPacketCount := rtpPacketCount + 1;
    }

    /** One iteration of the packet loop. */
    method RecordTsPacket(packet: Ts.TsPacket)
      modifies this
      ensures TsState() == Ts.RecordPacket(old(TsState()), packet)
      ensures RtpState() == old(RtpState())
    {
      tsPacketCount := tsPacketCount + 1;
      if packet[0] != 0x47 {
        tsSyncLossCount := tsSyncLossCount + 1;
        if !loggedSyncLoss {
          loggedSyncLoss := true;
          syncWarnings := syncWarnings + 1;
        }
        return;
      }
      var pid := Ts.Pid(packet);
      var adaptationFieldControl := Ts.AdaptationFieldControl(packet);
      var continuityCounter := Ts.Counter(packet);
      var hasPayload := adaptationFieldControl == 1 || adaptationFieldControl == 3;
      var hasDiscontinuity := false;
      if adaptationFieldControl == 2 || adaptationFieldControl == 3 {
        var adaptationFieldLength := packet[4];
        if adaptationFieldLength > 0 && 5 < |packet| {
          hasDiscontinuity := packet[5] >= 0x80;
        }
      }
      if hasDiscontinuity && !hasPayload {
        expectedByPID := expectedByPID - {pid};
      }
      if !hasPayload || pid == Ts.NULL_PID {
        return;
      }
      if pid in expectedByPID && continuityCounter != expectedByPID[pid] && !hasDiscontinuity {
        tsContinuityErr := tsContinuityErr + 1;
        if !loggedContErr {
          loggedContErr := true;
          mismatchWarnings := mismatchWarnings + 1;
        }
      }
      expectedByPID := expectedByPID[pid := Ts.Successor(continuityCounter)];
    }

    method RecordTsPayload(payload: seq<Byte>)
      modifies this
      ensures TsState() == Ts.RecordPayload(old(TsState()), payload)
      ensures RtpState() == old(RtpState())
    {
      ghost var packets := Ts.Packets(payload);
      byteCount := byteCount + |payload|;
      ghost var start := TsState();
      var offset := 0;
      ghost var k := 0;
      while offset + Ts.PACKET_SIZE <= |payload|
        invariant offset == Ts.PACKET_SIZE * k && 0 <= k <= |packets|
        invariant TsState() == Ts.RecordPackets(start, packets[..k])
        invariant RtpState() == old(RtpState())
        decreases |payload| - offset
      {
        assert packets[k] == payload[offset..offset + Ts.PACKET_SIZE];
        RecordTsPacket(payload[offset..offset + Ts.PACKET_SIZE]);
        assert packets[..k + 1][..k] == packets[..k];
        offset := offset + Ts.PACKET_SIZE;
        k := k + 1;
      }
      assert packets[..k] == packets;
    }
  }
}
