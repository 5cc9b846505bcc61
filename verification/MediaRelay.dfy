/** From RTP packets to the HTTP response: what the packet handler writes, and when it fails. */
module MediaRelay {
  import opened Bytes
  import opened RtpPayload
  import Rtp = RtpLoss
  import Ts = TsContinuity
  import Diagnostics = RelayDiagnostics

  /** What happens to the HTTP response. */
  datatype Effect = SetMediaHeaders | Write(bytes: seq<Byte>)

  /** Whether write number k to the client succeeds. */
  type Client = nat -> bool

  datatype Media = Media(started: bool, effects: seq<Effect>, writes: nat, rtp: Rtp.RtpStats, ts: Ts.TsStats)

  const IDLE := Media(false, [], 0, Rtp.NO_RTP, Ts.NO_TS)

  datatype Handled = Handled(media: Media, ok: bool)

  function HandlePacket(client: Client, m: Media, packet: seq<Byte>): Handled {
    var m1 := m.(rtp := Rtp.RecordRtp(m.rtp, packet));
    match DepacketizeRtpPayload(packet)
    case Failed(_) => Handled(m1, false)
    case Payload(bytes) =>
      if bytes == [] then Handled(m1, true)
      else
        Handled(
          m1.(started := true,
              ts := Ts.RecordPayload(m.ts, bytes),
              writes := m.writes + 1,
              effects := m.effects + (if m.started then [] else [SetMediaHeaders]) + [Write(bytes)]),
          client(m.writes))
  }

  /** The packets handled one after the other, up to and including the first that fails. */
  function HandleAll(client: Client, m: Media, packets: seq<seq<Byte>>): Handled
    decreases packets
  {
    if packets == [] then Handled(m, true)
    else
      var h := HandlePacket(client, m, packets[0]);
      if h.ok then HandleAll(client, h.media, packets[1..]) else h
  }

  lemma {:induction false} HandleAppend(client: Client, m: Media, ps: seq<seq<Byte>>, qs: seq<seq<Byte>>)
    ensures HandleAll(client, m, ps + qs) ==
            if HandleAll(client, m, ps).ok then HandleAll(client, HandleAll(client, m, ps).media, qs)
            else HandleAll(client, m, ps)
    decreases ps
  {
    if ps == [] {
      assert ps + qs == qs;
    } else {
      assert (ps + qs)[1..] == ps[1..] + qs;
      HandleAppend(client, HandlePacket(client, m, ps[0]).media, ps[1..], qs);
    }
  }

  // ---------------------------------------------------------------- the relayed body

  /** The payload a packet contributes to the body, if it does. */
  function Contribution(packet: seq<Byte>): seq<seq<Byte>> {
    match DepacketizeRtpPayload(packet)
    case Payload(bytes) => if bytes == [] then [] else [bytes]
    case Failed(_) => []
  }

  /** The non-empty payloads of the packets, in order. */
  function Body(packets: seq<seq<Byte>>): seq<seq<Byte>> {
    if packets == [] then [] else Contribution(packets[0]) + Body(packets[1..])
  }

  function Writes(body: seq<seq<Byte>>): (w: seq<Effect>)
    ensures |w| == |body|
  {
    if body == [] then [] else [Write(body[0])] + Writes(body[1..])
  }

  lemma {:induction false} WritesAppend(a: seq<seq<Byte>>, b: seq<seq<Byte>>)
    ensures Writes(a + b) == Writes(a) + Writes(b)
  {
    if a == [] {
      assert a + b == b;
    } else {
      assert (a + b)[1..] == a[1..] + b;
      WritesAppend(a[1..], b);
    }
  }

  lemma {:induction false} BodyAppend(a: seq<seq<Byte>>, b: seq<seq<Byte>>)
    ensures Body(a + b) == Body(a) + Body(b)
  {
    if a == [] {
      assert a + b == b;
    } else {
      assert (a + b)[1..] == a[1..] + b;
      BodyAppend(a[1..], b);
    }
  }

  /** The media headers precede the first byte, once; the writes are `body`, and so is what is diagnosed. */
  ghost predicate HasWritten(m: Media, body: seq<seq<Byte>>) {
    && m.writes == |body|
    && m.ts == Ts.RecordPayloads(body)
    && (m.started <==> body != [])
    && m.effects == if body == [] then [] else [SetMediaHeaders] + Writes(body)
  }

  /** A packet that stops the relay: it cannot be depacketized, or its payload cannot be written. */
  predicate Breaks(client: Client, before: nat, packet: seq<Byte>) {
    match DepacketizeRtpPayload(packet)
    case Failed(_) => true
    case Payload(bytes) => bytes != [] && !client(before)
  }

  /** The first `n` packets are relayed without a failure. */
  predicate Fine(client: Client, packets: seq<seq<Byte>>, n: nat) {
    n <= |packets| && forall k :: 0 <= k < n ==> !Breaks(client, |Body(packets[..k])|, packets[k])
  }

  lemma HandleOne(client: Client, m: Media, body: seq<seq<Byte>>, packet: seq<Byte>)
    requires HasWritten(m, body)
    ensures
      var h := HandlePacket(client, m, packet);
      && HasWritten(h.media, body + Contribution(packet))
      && (h.ok <==> !Breaks(client, |body|, packet))
      && h.media.rtp == Rtp.RecordRtp(m.rtp, packet)
  {
    hide Rtp.RecordRtp, Ts.RecordPayload, DepacketizeRtpPayload;
    var h := HandlePacket(client, m, packet);
    if Contribution(packet) == [] {
      assert body + [] == body;
    } else {
      var bytes := Contribution(packet)[0];
      WritesAppend(body, [bytes]);
      assert Writes([bytes]) == [Write(bytes)];
      assert (body + [bytes])[..|body|] == body;
    }
  }

  lemma HandleLast(client: Client, packets: seq<seq<Byte>>, n: nat)
    requires n < |packets|
    ensures packets[..n + 1] == packets[..n] + [packets[n]]
    ensures Rtp.RecordAll(packets[..n + 1]) == Rtp.RecordRtp(Rtp.RecordAll(packets[..n]), packets[n])
    ensures Body(packets[..n + 1]) == Body(packets[..n]) + Contribution(packets[n])
    ensures HandleAll(client, IDLE, packets[..n]).ok ==>
              HandleAll(client, IDLE, packets[..n + 1]) ==
              HandlePacket(client, HandleAll(client, IDLE, packets[..n]).media, packets[n])
  {
    hide Rtp.RecordRtp;
    assert packets[..n + 1] == packets[..n] + [packets[n]] && packets[..n + 1][..n] == packets[..n];
    BodyAppend(packets[..n], [packets[n]]);
    assert Body([packets[n]]) == Contribution(packets[n]);
    HandleAppend(client, IDLE, packets[..n], [packets[n]]);
  }

  /** As long as nothing fails, the body is every non-empty payload, in order. */
  lemma {:induction false} RelayedBody(client: Client, packets: seq<seq<Byte>>, n: nat)
    requires Fine(client, packets, n)
    ensures
      var h := HandleAll(client, IDLE, packets[..n]);
      h.ok && HasWritten(h.media, Body(packets[..n])) && h.media.rtp == Rtp.RecordAll(packets[..n])
  {
    hide HandlePacket, HandleAll, HasWritten, Breaks, Body, Rtp.RecordAll, Rtp.RecordRtp;
    if n > 0 {
      FinePrefix(client, packets, n);
      RelayedBody(client, packets, n - 1);
      HandleLast(client, packets, n - 1);
      HandleOne(client, HandleAll(client, IDLE, packets[..n - 1]).media, Body(packets[..n - 1]), packets[n - 1]);
    } else {
      NothingRelayed(client, packets[..0]);
    }
  }

  lemma FinePrefix(client: Client, packets: seq<seq<Byte>>, n: nat)
    requires 0 < n && Fine(client, packets, n)
    ensures Fine(client, packets, n - 1) && !Breaks(client, |Body(packets[..n - 1])|, packets[n - 1])
  {
  }

  lemma NothingRelayed(client: Client, none: seq<seq<Byte>>)
    requires none == []
    ensures
      var h := HandleAll(client, IDLE, none);
      h.ok && HasWritten(h.media, Body(none)) && h.media.rtp == Rtp.RecordAll(none)
  {
  }

  /** At the first failure the relay stops, after the write that failed if it was a write. */
  lemma RelayedUpToFailure(client: Client, packets: seq<seq<Byte>>, n: nat)
    requires n < |packets| && Fine(client, packets, n)
    requires Breaks(client, |Body(packets[..n])|, packets[n])
    ensures
      var h := HandleAll(client, IDLE, packets);
      !h.ok && HasWritten(h.media, Body(packets[..n + 1])) && h.media.rtp == Rtp.RecordAll(packets[..n + 1])
  {
    RelayedBody(client, packets, n);
    HandleLast(client, packets, n);
    HandleOne(client, HandleAll(client, IDLE, packets[..n]).media, Body(packets[..n]), packets[n]);
    assert packets == packets[..n + 1] + packets[n + 1..];
    HandleAppend(client, IDLE, packets[..n + 1], packets[n + 1..]);
  }

  /** One of the two happens: all packets are fine, or there is a first one that fails. */
  lemma {:induction false} FineOrFirstFailure(client: Client, packets: seq<seq<Byte>>, m: nat) returns (n: nat)
    requires m <= |packets|
    ensures n <= m && Fine(client, packets, n)
    ensures n == m || Breaks(client, |Body(packets[..n])|, packets[n])
  {
    n := 0;
    while n < m && !Breaks(client, |Body(packets[..n])|, packets[n])
      invariant n <= m && Fine(client, packets, n)
    {
      n := n + 1;
    }
  }

  /** Which of the two happened shows in the result. */
  lemma HandleOutcome(client: Client, packets: seq<seq<Byte>>) returns (n: nat)
    ensures n <= |packets| && Fine(client, packets, n)
    ensures
      var h := HandleAll(client, IDLE, packets);
      if n == |packets| then h.ok && HasWritten(h.media, Body(packets))
      else !h.ok && Breaks(client, |Body(packets[..n])|, packets[n]) && HasWritten(h.media, Body(packets[..n + 1]))
  {
    n := FineOrFirstFailure(client, packets, |packets|);
    RelayedBody(client, packets, n);
    if n == |packets| {
      assert packets[..n] == packets;
    } else {
      RelayedUpToFailure(client, packets, n);
    }
  }

  /** Whatever the packets and the client do: headers once and first, then only payloads. */
  lemma HeadersBeforeBody(client: Client, packets: seq<seq<Byte>>)
    ensures exists n :: 0 <= n <= |packets| && HasWritten(HandleAll(client, IDLE, packets).media, Body(packets[..n]))
  {
    var n := HandleOutcome(client, packets);
    assert packets[..|packets|] == packets;
  }

  /** The client accepts the first `n` writes. */
  ghost predicate AcceptsUpTo(client: Client, n: nat) {
    forall k: nat :: k < n ==> client(k)
  }

  lemma {:induction false} AcceptsWhileFine(client: Client, packets: seq<seq<Byte>>, n: nat)
    requires Fine(client, packets, n)
    ensures AcceptsUpTo(client, |Body(packets[..n])|)
  {
    hide HandlePacket, HandleAll, DepacketizeRtpPayload;
    if n > 0 {
      FinePrefix(client, packets, n);
      AcceptsWhileFine(client, packets, n - 1);
      HandleLast(client, packets, n - 1);
    }
  }

  // ---------------------------------------------------------------- handling whatever happens

  /** The UDP path hands over every packet the reorder buffer emits, whatever became of earlier ones. */
  function HandleEach(client: Client, packets: seq<seq<Byte>>): Media {
    if packets == [] then IDLE
    else var n := |packets| - 1; HandlePacket(client, HandleEach(client, packets[..n]), packets[n]).media
  }

  lemma {:induction false} EachIsWritten(client: Client, packets: seq<seq<Byte>>)
    ensures HasWritten(HandleEach(client, packets), Body(packets))
    ensures HandleEach(client, packets).rtp == Rtp.RecordAll(packets)
  {
    if packets != [] {
      var n := |packets| - 1;
      EachIsWritten(client, packets[..n]);
      HandleOne(client, HandleEach(client, packets[..n]), Body(packets[..n]), packets[n]);
      HandleLast(client, packets, n);
      assert packets[..n + 1] == packets;
      hide Body, HasWritten, Breaks;
    }
  }

  /** The packets handed over one by one: the next one fails exactly if it breaks the relay. */
  lemma HandleEachNext(client: Client, packets: seq<seq<Byte>>, n: nat)
    requires n < |packets|
    ensures
      var h := HandlePacket(client, HandleEach(client, packets[..n]), packets[n]);
      && h.media == HandleEach(client, packets[..n + 1])
      && (AllFine(client, packets[..n + 1]) <==> AllFine(client, packets[..n]) && h.ok)
  {
    assert packets[..n + 1][..n] == packets[..n];
    EachIsWritten(client, packets[..n]);
    HandleOne(client, HandleEach(client, packets[..n]), Body(packets[..n]), packets[n]);
    hide HandlePacket, HandleEach, HasWritten, Breaks, Body;
    FineNext(client, packets, n);
  }

  ghost predicate AllFine(client: Client, packets: seq<seq<Byte>>) {
    Fine(client, packets, |packets|)
  }

  lemma FinePrefixes(client: Client, sent: seq<seq<Byte>>, all: seq<seq<Byte>>)
    requires sent <= all
    ensures AllFine(client, all) ==> AllFine(client, sent)
  {
    if AllFine(client, all) {
      forall k | 0 <= k < |sent| ensures !Breaks(client, |Body(sent[..k])|, sent[k]) {
        assert sent[..k] == all[..k] && !Breaks(client, |Body(all[..k])|, all[k]);
      }
    }
  }

  lemma FineNext(client: Client, packets: seq<seq<Byte>>, n: nat)
    requires n < |packets|
    ensures AllFine(client, packets[..n + 1]) <==>
            AllFine(client, packets[..n]) && !Breaks(client, |Body(packets[..n])|, packets[n])
  {
    hide Breaks, Body;
    var p := packets[..n + 1];
    assert forall k :: 0 <= k <= n ==> p[..k] == packets[..k] && p[k] == packets[k];
    assert forall k :: 0 <= k < n ==> packets[..n][..k] == packets[..k] && packets[..n][k] == packets[k];
    if AllFine(client, packets[..n]) && !Breaks(client, |Body(packets[..n])|, packets[n]) {
      forall k | 0 <= k <= n ensures !Breaks(client, |Body(p[..k])|, p[k]) {
        if k < n {
          assert !Breaks(client, |Body(packets[..n][..k])|, packets[..n][k]);
        }
      }
    }
    if AllFine(client, p) {
      forall k | 0 <= k < n ensures !Breaks(client, |Body(packets[..n][..k])|, packets[..n][k]) {
        assert !Breaks(client, |Body(p[..k])|, p[k]);
      }
      assert !Breaks(client, |Body(p[..n])|, p[n]);
    }
  }

  // ---------------------------------------------------------------- how the relay ends

  /** The context is not found done before turn t. */
  ghost predicate NotDone(cancelled: nat -> bool, t: nat) {
    forall u: nat :: u < t ==> !cancelled(u)
  }

  ghost predicate FirstDone(cancelled: nat -> bool, t: nat) {
    cancelled(t) && NotDone(cancelled, t)
  }

  lemma NothingDone(cancelled: nat -> bool)
    ensures NotDone(cancelled, 0)
  {
  }

  lemma NotDoneYet(cancelled: nat -> bool, t: nat)
    requires NotDone(cancelled, t) && !cancelled(t)
    ensures NotDone(cancelled, t + 1)
  {
  }

  /** The errors that matter to the relay: nil, the context's, closed or ended connections, and all others. */
  datatype PumpEnd =
    | Finished
    | ContextDone
    | ConnectionClosed
    | EndOfStream
    | OtherError

  /** The result of streamMedia: whether media has started, and the error it reports. */
  function StreamResult(started: bool, contextDone: bool, end: PumpEnd): (bool, PumpEnd) {
    if end == Finished then (started, Finished)
    else if !started then (false, end)
    else if contextDone || end == ConnectionClosed || end == EndOfStream then (true, Finished)
    else (true, end)
  }

  /** The error that Relay returns; an error after the start of the media is only logged. */
  function RelayResult(stream: (bool, PumpEnd)): PumpEnd {
    if stream.1 != Finished && stream.0 then Finished else stream.1
  }

  /** What Relay returns to its caller. */
  function Report(started: bool, contextDone: bool, end: PumpEnd): PumpEnd {
    RelayResult(StreamResult(started, contextDone, end))
  }

  /** Once media have started, an error is logged unless the context or the connection has ended. */
  lemma LoggedErrors(contextDone: bool, end: PumpEnd)
    ensures StreamResult(true, contextDone, end) ==
            (true, if contextDone || end == ConnectionClosed || end == EndOfStream then Finished else end)
    ensures StreamResult(false, contextDone, end) == (false, end)
  {
  }

  lemma StartedShows(client: Client, packets: seq<seq<Byte>>)
    ensures
      var m := HandleAll(client, IDLE, packets).media;
      m.started <==> m.effects != []
  {
    HeadersBeforeBody(client, packets);
  }

  lemma ReportShows(m: Media, contextDone: bool, end: PumpEnd)
    requires m.started <==> m.effects != []
    ensures Report(m.started, contextDone, end) != Finished <==> end != Finished && m.effects == []
    ensures Report(m.started, contextDone, end) != Finished ==> Report(m.started, contextDone, end) == end
  {
  }

  /** Relay reports an error exactly when the pump failed before any write was attempted. */
  lemma ErrorOnlyBeforeMedia(m: Media, body: seq<seq<Byte>>, contextDone: bool, end: PumpEnd)
    requires HasWritten(m, body)
    ensures Report(m.started, contextDone, end) != Finished <==> end != Finished && body == []
  {
  }

  // ---------------------------------------------------------------- the handler object

  /** The closure state of streamMedia. */
  class MediaHandler {
    const client: Client
    const diagnostics: Diagnostics.RelayDiagnostics
    var started: bool
    var effects: seq<Effect>
    var writes: nat

    ghost function State(): Media
      reads this, diagnostics
    {
      Media(started, effects, writes, diagnostics.RtpState(), diagnostics.TsState())
    }

    constructor (client: Client)
      ensures State() == IDLE && this.client == client && fresh(diagnostics)
    {
      this.client := client;
      diagnostics := new Diagnostics.RelayDiagnostics();
      started, effects, writes := false, [], 0;
    }

    method EmitStart()
      modifies this`started, this`effects
      ensures started && effects == old(effects) + if old(started) then [] else [SetMediaHeaders]
    {
      if started {
        return;
      }
      started := true;
      effects := effects + [SetMediaHeaders];
    }

    method Handle(packet: seq<Byte>) returns (ok: bool)
      modifies this, diagnostics
      ensures Handled(State(), ok) == HandlePacket(client, old(State()), packet)
    {
      diagnostics.RecordRtpPacket(packet);
      match DepacketizeRtpPayload(packet)
      case Failed(_) => return false;
      case Payload(bytes) =>
        if |bytes| == 0 {
          return true;
        }
        diagnostics.RecordTsPayload(bytes);
        EmitStart();
        effects := effects + [Write(bytes)];
        ok := client(writes);
        writes := writes + 1;
    }
  }
}
