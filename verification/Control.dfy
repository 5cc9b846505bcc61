/** The HDHomeRun control protocol: tuner settings behind get/set requests, served over a byte stream. */
module Control {
  import opened Bytes
  import Tlv
  import opened Frames
  import opened GetSet

  // ---------------------------------------------------------------- tuners

  datatype Tuner = Tuner(channel: Text, channelmap: Text, filter: Text, lockkey: Text, program: Text, target: Text)

  datatype Field = Channel | Channelmap | Filter | Lockkey | Program | Target | Status | Streaminfo

  function FieldNamed(name: Text): Option<Field> {
    if name == Ascii("channel") then Some(Channel)
    else if name == Ascii("channelmap") then Some(Channelmap)
    else if name == Ascii("filter") then Some(Filter)
    else if name == Ascii("lockkey") then Some(Lockkey)
    else if name == Ascii("program") then Some(Program)
    else if name == Ascii("status") then Some(Status)
    else if name == Ascii("streaminfo") then Some(Streaminfo)
    else if name == Ascii("target") then Some(Target)
    else None
  }

  predicate Writable(f: Field) { !f.Status? && !f.Streaminfo? }

  function Default(f: Field): Text {
    match f
    case Channelmap => Ascii("us-bcast")
    case Filter => Ascii("0x0000-0x1FFF")
    case Program => Ascii("0")
    case _ => Ascii("none")
  }

  const INITIAL_TUNER := Tuner(Default(Channel), Default(Channelmap), Default(Filter), Default(Lockkey),
                               Default(Program), Default(Target))

  function StatusText(t: Tuner): Text {
    var idle := t.channel == Ascii("none");
    var level := if idle then Ascii("0") else Ascii("100");
    Ascii("ch=") + t.channel + Ascii(" lock=") + (if idle then Ascii("none") else Ascii("qam"))
    + Ascii(" ss=") + level + Ascii(" snq=") + level + Ascii(" seq=") + level + Ascii(" bps=0 pps=0")
  }

  function Get(t: Tuner, f: Field): Text {
    match f
    case Channel => t.channel
    case Channelmap => t.channelmap
    case Filter => t.filter
    case Lockkey => t.lockkey
    case Program => t.program
    case Target => t.target
    case Status => StatusText(t)
    case Streaminfo => Ascii("none")
  }

  function Put(t: Tuner, f: Field, value: Text): Tuner {
    match f
    case Channel => t.(channel := value)
    case Channelmap => t.(channelmap := value)
    case Filter => t.(filter := value)
    case Lockkey => t.(lockkey := value)
    case Program => t.(program := value)
    case Target => t.(target := value)
    case _ => t
  }

  /** An empty value resets the field. */
  function Apply(t: Tuner, f: Field, value: Option<Text>): Tuner {
    match value
    case None => t
    case Some(v) => Put(t, f, if v == [] then Default(f) else v)
  }

  /** A set is answered by, and later read as, the value set; no other setting changes. */
  lemma SetThenGet(t: Tuner, f: Field, value: Text, g: Field)
    ensures Writable(f) ==> Get(Apply(t, f, Some(value)), f) == if value == [] then Default(f) else value
    ensures Writable(g) && g != f ==> Get(Apply(t, f, Some(value)), g) == Get(t, g)
    ensures !Writable(f) ==> Apply(t, f, Some(value)) == t
    ensures Apply(t, f, None) == t
  {
  }

  /** What a tuner is set to at first, and again by an empty value. */
  lemma InitialSettings(t: Tuner)
    ensures INITIAL_TUNER ==
            Tuner(Ascii("none"), Ascii("us-bcast"), Ascii("0x0000-0x1FFF"), Ascii("none"), Ascii("0"), Ascii("none"))
    ensures forall f :: Writable(f) ==> Get(Apply(t, f, Some([])), f) == Get(INITIAL_TUNER, f)
  {
    hide Ascii;
  }

  /** The status of an idle tuner and of one that has been set to a channel. */
  lemma StatusTexts(t: Tuner)
    ensures Get(t, Status) ==
            if t.channel == Ascii("none") then
              Ascii("ch=none lock=none") + Ascii(" ss=0 snq=0 seq=0") + Ascii(" bps=0 pps=0")
            else
              Ascii("ch=") + t.channel + Ascii(" lock=qam") + Ascii(" ss=100 snq=100 seq=100") + Ascii(" bps=0 pps=0")
    ensures Get(t, Streaminfo) == Ascii("none")
  {
    IdleLock();
    BusyLock();
    IdleSignal();
    BusySignal();
    hide Ascii;
    var idle := t.channel == Ascii("none");
    var ch, level := Ascii("ch=") + t.channel, if idle then Ascii("0") else Ascii("100");
    Reassociate(ch, Ascii(" lock="), if idle then Ascii("none") else Ascii("qam"));
    SignalParts(ch + Ascii(" lock=") + (if idle then Ascii("none") else Ascii("qam")), level);
  }

  lemma SignalParts(front: Text, level: Text)
    ensures front + Ascii(" ss=") + level + Ascii(" snq=") + level + Ascii(" seq=") + level ==
            front + (Ascii(" ss=") + level + Ascii(" snq=") + level + Ascii(" seq=") + level)
  {
    hide Ascii;
    var ss, snq, sq := Ascii(" ss="), Ascii(" snq="), Ascii(" seq=");
    Reassociate(front, ss, level);
    Reassociate(front, ss + level, snq);
    Reassociate(front, ss + level + snq, level);
    Reassociate(front, ss + level + snq + level, sq);
    Reassociate(front, ss + level + snq + level + sq, level);
  }

  lemma IdleLock()
    ensures Ascii("ch=") + Ascii("none") + (Ascii(" lock=") + Ascii("none")) == Ascii("ch=none lock=none")
  {
  }

  lemma BusyLock()
    ensures Ascii(" lock=") + Ascii("qam") == Ascii(" lock=qam")
  {
  }

  lemma IdleSignal()
    ensures Ascii(" ss=") + Ascii("0") + Ascii(" snq=") + Ascii("0") + Ascii(" seq=") + Ascii("0") ==
            Ascii(" ss=0 snq=0 seq=0")
  {
  }

  lemma BusySignal()
    ensures Ascii(" ss=") + Ascii("100") + Ascii(" snq=") + Ascii("100") + Ascii(" seq=") + Ascii("100") ==
            Ascii(" ss=100 snq=100 seq=100")
  {
  }

  // ---------------------------------------------------------------- requests

  /** An index beyond the machine's integers is no tuner's either way. */
  datatype Key = TunerKey(index: nat, field: Field) | UnknownKey

  /** "/tuner<index>/<field>", for one of `count` tuners. */
  function TunerKeyOf(name: Text, count: nat): (key: Key)
    ensures key.TunerKey? ==> key.index < count
  {
    var rest := if |name| < 6 then [] else name[6..];
    match IndexByte(rest, 0x2f, 0)
    case None => UnknownKey
    case Some(slash) =>
      if slash == 0 || !IsDecimal(rest[..slash]) || DecimalValue(rest[..slash]) >= count then UnknownKey
      else
        match FieldNamed(rest[slash + 1..])
        case None => UnknownKey
        case Some(field) => TunerKey(DecimalValue(rest[..slash]), field)
  }

  function NameOf(f: Field): Text {
    match f
    case Channel => Ascii("channel")
    case Channelmap => Ascii("channelmap")
    case Filter => Ascii("filter")
    case Lockkey => Ascii("lockkey")
    case Program => Ascii("program")
    case Target => Ascii("target")
    case Status => Ascii("status")
    case Streaminfo => Ascii("streaminfo")
  }

  lemma FieldNamedByItsName(field: Field)
    ensures FieldNamed(NameOf(field)) == Some(field)
  {
    var c, l, p := Ascii("channel"), Ascii("lockkey"), Ascii("program");
    assert |c| == |l| == |p| == 7 && c[0] == 0x63 && l[0] == 0x6c && p[0] == 0x70;
    var f, t, s := Ascii("filter"), Ascii("target"), Ascii("status");
    assert |f| == |t| == |s| == 6 && f[0] == 0x66 && t[0] == 0x74 && s[0] == 0x73;
    var m, i := Ascii("channelmap"), Ascii("streaminfo");
    assert |m| == |i| == 10 && m[0] == 0x63 && i[0] == 0x73;
    hide Ascii;
  }

  /** The key of a tuner's setting. */
  function KeyFor(digits: Text, f: Field): Text {
    Ascii("/tuner") + digits + [0x2f] + NameOf(f)
  }

  /** The tuner may be written with any numeral for its number. */
  lemma NumeralIsUnderstood(digits: Text, f: Field, count: nat)
    requires IsDecimal(digits) && DecimalValue(digits) < count
    ensures Ascii("/tuner") <= KeyFor(digits, f)
    ensures TunerKeyOf(KeyFor(digits, f), count) == TunerKey(DecimalValue(digits), f)
  {
    hide FieldNamed, NameOf, DecimalValue;
    FieldNamedByItsName(f);
    var name, field := KeyFor(digits, f), NameOf(f);
    var rest := digits + [0x2f] + field;
    assert name[6..] == rest;
    IndexByteSkips(digits, 0x2f, field, 0);
    hide IndexByte;
    assert rest[..|digits|] == digits && rest[|digits| + 1..] == field;
  }

  /** Every setting of every tuner can be named: its key is understood as written. */
  lemma KeyRoundTrip(index: nat, f: Field, count: nat)
    requires index < count
    ensures
      var name := KeyFor(Decimal(index), f);
      Ascii("/tuner") <= name && TunerKeyOf(name, count) == TunerKey(index, f)
  {
    DecimalRoundTrip(index);
    NumeralIsUnderstood(Decimal(index), f, count);
  }

  /** What the service says about itself, as far as requests ask. */
  datatype Identity = Identity(origin: Text, model: Text, version: Text)

  function FeaturesValue(): Text {
    Ascii("channelmap: us-bcast us-cable") + [10] + Ascii("modulation: auto") + [10]
    + Ascii("auto-modulation: auto") + [10] + Ascii("program: 0")
  }

  function SystemValue(id: Identity, name: Text): Option<Text> {
    if name == Ascii("/help") then Some(Ascii("help"))
    else if name == Ascii("/lineup/location") then Some(id.origin + Ascii("/lineup.json"))
    else if name == Ascii("/sys/copyright") then Some(Ascii("Copyright Silicondust"))
    else if name == Ascii("/sys/debug") then Some(Ascii("0"))
    else if name == Ascii("/sys/features") then Some(FeaturesValue())
    else if name == Ascii("/sys/hwmodel") || name == Ascii("/sys/model") then Some(id.model)
    else if name == Ascii("/sys/version") then Some(id.version)
    else None
  }

  datatype Answered = Answered(tuners: seq<Tuner>, value: Option<Text>)

  /** The tuners after a request and the value it is answered with, if its key is known. */
  function Answer(id: Identity, tuners: seq<Tuner>, request: Request): (a: Answered)
    ensures |a.tuners| == |tuners|
  {
    if Ascii("/tuner") <= request.name then
      match TunerKeyOf(request.name, |tuners|)
      case UnknownKey => Answered(tuners, None)
      case TunerKey(index, field) =>
        var t := Apply(tuners[index], field, request.value);
        Answered(tuners[index := t], Some(Get(t, field)))
    else Answered(tuners, SystemValue(id, request.name))
  }

  function ReplyTo(crc: Checksum, name: Text, value: Option<Text>): seq<Byte> {
    match value
    case Some(v) => BuildGetSetReply(crc, name, v)
    case None => BuildErrorReply(crc, name, Ascii("ERROR: unknown key"))
  }

  /** What the service does not know is answered with a message. */
  lemma UnknownKeys(crc: Checksum, id: Identity, tuners: seq<Tuner>, request: Request)
    requires Ascii("/tuner") <= request.name && TunerKeyOf(request.name, |tuners|).UnknownKey?
    ensures
      var a := Answer(id, tuners, request);
      a.tuners == tuners && ReplyTo(crc, request.name, a.value) ==
      BuildErrorReply(crc, request.name, Ascii("ERROR: unknown key"))
  {
    hide Ascii, TunerKeyOf, BuildErrorReply;
  }

  /** A request changes at most the one writable setting it names, and without a value nothing. */
  lemma RequestsAreLocal(id: Identity, tuners: seq<Tuner>, request: Request, i: nat, f: Field)
    requires i < |tuners| && Writable(f)
    requires request.value.None? || !(Ascii("/tuner") <= request.name) ||
             TunerKeyOf(request.name, |tuners|) != TunerKey(i, f)
    ensures Get(Answer(id, tuners, request).tuners[i], f) == Get(tuners[i], f)
  {
    hide TunerKeyOf, SystemValue, Ascii, Default;
    if Ascii("/tuner") <= request.name && TunerKeyOf(request.name, |tuners|).TunerKey? {
      var key := TunerKeyOf(request.name, |tuners|);
      if key.index == i && request.value.Some? {
        SetThenGet(tuners[i], key.field, request.value.value, f);
      }
    }
  }

  /** A tuner setting that has been set is what a later request for it is answered with. */
  lemma SetIsRead(id: Identity, tuners: seq<Tuner>, name: Text, value: Text)
    requires Ascii("/tuner") <= name && TunerKeyOf(name, |tuners|).TunerKey?
    requires Writable(TunerKeyOf(name, |tuners|).field)
    ensures
      var after := Answer(id, tuners, Request(name, Some(value)));
      var stored := if value == [] then Default(TunerKeyOf(name, |tuners|).field) else value;
      && after.value == Some(stored)
      && Answer(id, after.tuners, Request(name, None)) == Answered(after.tuners, Some(stored))
  {
    hide TunerKeyOf, SystemValue, Ascii, Default;
    var key := TunerKeyOf(name, |tuners|);
    SetThenGet(tuners[key.index], key.field, value, key.field);
    var after := Answer(id, tuners, Request(name, Some(value)));
    assert after.tuners[key.index := after.tuners[key.index]] == after.tuners;
  }

  /** What the service answers about itself. */
  lemma SystemTexts(id: Identity, tuners: seq<Tuner>)
    ensures Answer(id, tuners, Request(Ascii("/help"), None)).value == Some(Ascii("help"))
    ensures Answer(id, tuners, Request(Ascii("/lineup/location"), None)).value ==
            Some(id.origin + Ascii("/lineup.json"))
    ensures Answer(id, tuners, Request(Ascii("/sys/copyright"), None)).value == Some(Ascii("Copyright Silicondust"))
    ensures Answer(id, tuners, Request(Ascii("/sys/debug"), None)).value == Some(Ascii("0"))
    ensures Answer(id, tuners, Request(Ascii("/sys/features"), None)).value ==
            Some(Ascii("channelmap: us-bcast us-cable") + [10] + Ascii("modulation: auto") + [10]
                 + Ascii("auto-modulation: auto") + [10] + Ascii("program: 0"))
    ensures Answer(id, tuners, Request(Ascii("/sys/hwmodel"), None)).value == Some(id.model)
    ensures Answer(id, tuners, Request(Ascii("/sys/model"), None)).value == Some(id.model)
    ensures Answer(id, tuners, Request(Ascii("/sys/version"), None)).value == Some(id.version)
  {
    SystemNames();
    hide Ascii, TunerKeyOf;
  }

  /** Names of one length differ, and none is a tuner's. */
  lemma SystemNames()
    ensures Ascii("/sys/debug") != Ascii("/sys/model") && Ascii("/sys/hwmodel") != Ascii("/sys/version")
    ensures !(Ascii("/tuner") <= Ascii("/lineup/location")) && !(Ascii("/tuner") <= Ascii("/sys/copyright"))
    ensures !(Ascii("/tuner") <= Ascii("/sys/debug")) && !(Ascii("/tuner") <= Ascii("/sys/features"))
    ensures !(Ascii("/tuner") <= Ascii("/sys/hwmodel")) && !(Ascii("/tuner") <= Ascii("/sys/model"))
    ensures !(Ascii("/tuner") <= Ascii("/sys/version"))
  {
    assert Ascii("/tuner")[1] == 0x74 && Ascii("/lineup/location")[1] == 0x6c;
    assert Ascii("/sys/copyright")[1] == Ascii("/sys/debug")[1] == Ascii("/sys/features")[1] == 0x73;
    assert Ascii("/sys/hwmodel")[1] == Ascii("/sys/model")[1] == Ascii("/sys/version")[1] == 0x73;
    assert Ascii("/sys/debug")[5] == 0x64 && Ascii("/sys/model")[5] == 0x6d;
    assert Ascii("/sys/hwmodel")[5] == 0x68 && Ascii("/sys/version")[5] == 0x76;
    hide Ascii;
  }

  predicate AreZeros(digits: Text) {
    digits != [] && forall i :: 0 <= i < |digits| ==> digits[i] == 0x30
  }

  lemma {:induction false} ZerosAreZero(digits: Text)
    requires AreZeros(digits)
    ensures IsDecimal(digits) && DecimalValue(digits) == 0
  {
    if |digits| > 1 {
      ZerosAreZero(digits[..|digits| - 1]);
    } else {
      assert digits[..0] == [];
    }
  }

  /**
   * A service can be asked for a reply that no frame holds: the first tuner, written with very
   * many zeros, and a channel as long as a value can be.
   */
  lemma OversizedAnswer(crc: Checksum, id: Identity, tuners: seq<Tuner>, zeros: Text, rest: seq<Byte>)
    requires AreZeros(zeros) && |zeros| == Tlv.MAX_BODY - 15
    requires tuners != [] && |tuners[0].channel| == Tlv.MAX_BODY - 1
    ensures
      var name, value := KeyFor(zeros, Channel), tuners[0].channel;
      var a, payload := Answer(id, tuners, Request(name, None)), ReplyPayload(name, VALUE, value);
      && a == Answered(tuners, Some(value)) && |payload| == 65540
      && TryReadFrame(crc, ReplyTo(crc, name, a.value) + rest) != Some(Good(GETSET_REPLY, payload, 8 + |payload|))
  {
    var name := KeyFor(zeros, Channel);
    ZerosAreZero(zeros);
    NumeralIsUnderstood(zeros, Channel, |tuners|);
    assert |name| == Tlv.MAX_BODY - 1;
    OversizedReply(crc, name, tuners[0].channel, rest);
    hide KeyFor, TunerKeyOf, TryReadFrame, ReplyPayload, BuildGetSetReply, SystemValue;
    assert tuners[0 := tuners[0]] == tuners;
  }

  // ---------------------------------------------------------------- the stream

  /** The frames of a stream, in order, and the bytes that are not a whole frame yet. */
  function FramesOf(crc: Checksum, stream: seq<Byte>): seq<Frame>
    decreases |stream|
  {
    match TryReadFrame(crc, stream)
    case None => []
    case Some(frame) => [frame] + FramesOf(crc, stream[frame.totalLength..])
  }

  /** The requests among them: sound frames of the request type whose payload is one. */
  function RequestsOf(frames: seq<Frame>): seq<Request> {
    if frames == [] then []
    else
      (if frames[0].Good? && frames[0].frameType == GETSET_REQUEST && ParseRequest(frames[0].payload).Some?
       then [ParseRequest(frames[0].payload).value] else [])
      + RequestsOf(frames[1..])
  }

  datatype Served = Served(tuners: seq<Tuner>, replies: seq<seq<Byte>>, ok: bool)

  /** The requests answered one after the other, until a reply cannot be written. */
  function Serve(crc: Checksum, id: Identity, writable: nat -> bool, s: Served, requests: seq<Request>): Served
    decreases requests
  {
    if requests == [] || !s.ok then s
    else Serve(crc, id, writable, ServeOne(crc, id, writable, s, requests[0]), requests[1..])
  }

  function ServeOne(crc: Checksum, id: Identity, writable: nat -> bool, s: Served, request: Request): Served {
    var a := Answer(id, s.tuners, request);
    Served(a.tuners, s.replies + [ReplyTo(crc, request.name, a.value)], writable(|s.replies|))
  }

  lemma ServeStops(crc: Checksum, id: Identity, writable: nat -> bool, s: Served, requests: seq<Request>)
    requires !s.ok
    ensures Serve(crc, id, writable, s, requests) == s
  {
  }

  /** A frame as a client sends it, or any block of bytes with a header, and a checksum that fails. */
  datatype Sent = Sound(frameType: Word, payload: seq<Byte>) | Damaged(bytes: seq<Byte>)

  predicate Sendable(crc: Checksum, s: Sent) {
    match s
    case Sound(_, payload) => |payload| <= 0xffff
    case Damaged(bytes) => TryReadFrame(crc, bytes) == Some(Corrupt(|bytes|))
  }

  function Transmit(crc: Checksum, sent: seq<Sent>): seq<Byte> {
    if sent == [] then []
    else
      (match sent[0] case Sound(t, payload) => BuildFrame(crc, t, payload) case Damaged(bytes) => bytes)
      + Transmit(crc, sent[1..])
  }

  /** The requests a client has sent; damaged frames and other types do not count. */
  function SentRequests(sent: seq<Sent>): seq<Request> {
    if sent == [] then []
    else
      (match sent[0]
       case Sound(t, payload) =>
         if t == GETSET_REQUEST && ParseRequest(payload).Some? then [ParseRequest(payload).value] else []
       case Damaged(_) => [])
      + SentRequests(sent[1..])
  }

  /** Bad frames are skipped whole, and nothing around them is lost. */
  lemma {:induction false} RequestsAreReceived(crc: Checksum, sent: seq<Sent>)
    requires forall i :: 0 <= i < |sent| ==> Sendable(crc, sent[i])
    ensures RequestsOf(FramesOf(crc, Transmit(crc, sent))) == SentRequests(sent)
  {
    if sent != [] {
      hide ParseRequest, BuildFrame;
      RequestsAreReceived(crc, sent[1..]);
      var rest, stream := Transmit(crc, sent[1..]), Transmit(crc, sent);
      assert Sendable(crc, sent[0]);
      var n: nat;
      match sent[0] {
        case Sound(t, payload) =>
          n := |BuildFrame(crc, t, payload)|;
          FrameRoundTrip(crc, t, payload, rest);
          FrameSize(crc, t, payload);
        case Damaged(bytes) =>
          n := |bytes|;
          TryReadFrameStable(crc, bytes, rest);
      }
      hide TryReadFrame;
      assert stream[n..] == rest;
      var frames := FramesOf(crc, stream);
      assert frames[1..] == FramesOf(crc, rest);
    }
  }

  /** The bytes of a request on the wire, with anything after it: a frame of type 4. */
  lemma RequestOnTheWire(crc: Checksum, payload: seq<Byte>, rest: seq<Byte>)
    requires |payload| <= 65535 && ParseRequest(payload).Some?
    ensures
      var body := [0x00, 0x04, |payload| / 0x100, |payload| % 0x100] + payload;
      var sum := crc(body);
      var trailer := [sum % 0x100, sum / 0x100 % 0x100, sum / 0x1_0000 % 0x100, sum / 0x100_0000];
      RequestsOf(FramesOf(crc, body + trailer + rest)) ==
      [ParseRequest(payload).value] + RequestsOf(FramesOf(crc, rest))
  {
    var body := [0x00, 0x04, |payload| / 0x100, |payload| % 0x100] + payload;
    var sum := crc(body);
    var trailer := [sum % 0x100, sum / 0x100 % 0x100, sum / 0x1_0000 % 0x100, sum / 0x100_0000];
    FrameBytes(crc, 4, payload, sum, rest);
    var stream := body + trailer + rest;
    assert stream[8 + |payload|..] == rest;
    RequestFirst(crc, stream, payload, rest);
  }

  lemma RequestFirst(crc: Checksum, stream: seq<Byte>, payload: seq<Byte>, rest: seq<Byte>)
    requires TryReadFrame(crc, stream) == Some(Good(4, payload, 8 + |payload|)) && stream[8 + |payload|..] == rest
    requires ParseRequest(payload).Some?
    ensures RequestsOf(FramesOf(crc, stream)) == [ParseRequest(payload).value] + RequestsOf(FramesOf(crc, rest))
  {
    hide TryReadFrame, ParseRequest;
    assert FramesOf(crc, stream)[1..] == FramesOf(crc, rest);
  }

  lemma FrameSize(crc: Checksum, t: Word, payload: seq<Byte>)
    ensures |BuildFrame(crc, t, payload)| == 8 + |payload|
  {
  }

  /** A whole frame at the front of a buffer is the first frame of the stream. */
  lemma FirstFrame(crc: Checksum, buffer: seq<Byte>, more: seq<Byte>)
    requires TryReadFrame(crc, buffer).Some?
    ensures
      var frame := TryReadFrame(crc, buffer).value;
      var rest := RequestsOf(FramesOf(crc, buffer[frame.totalLength..] + more));
      RequestsOf(FramesOf(crc, buffer + more)) ==
      if frame.Good? && frame.frameType == GETSET_REQUEST && ParseRequest(frame.payload).Some?
      then [ParseRequest(frame.payload).value] + rest else rest
  {
    TryReadFrameStable(crc, buffer, more);
    hide TryReadFrame, ParseRequest;
    var n := TryReadFrame(crc, buffer).value.totalLength;
    assert (buffer + more)[n..] == buffer[n..] + more;
    assert FramesOf(crc, buffer + more)[1..] == FramesOf(crc, buffer[n..] + more);
  }

  // ---------------------------------------------------------------- the server's objects

  class TunerRegistry {
    const tuners: array<Tuner>

    constructor (count: nat)
      ensures tuners.Length == count && fresh(tuners)
      ensures forall i :: 0 <= i < count ==> tuners[i] == INITIAL_TUNER
    {
      tuners := new Tuner[count](_ => INITIAL_TUNER);
    }

    method HandleTunerRequest(index: nat, field: Text, value: Option<Text>) returns (r: Option<Text>)
      requires index < tuners.Length
      modifies tuners
      ensures FieldNamed(field).None? ==> r.None? && tuners[..] == old(tuners[..])
      ensures FieldNamed(field).Some? ==>
                var t := Apply(old(tuners[index]), FieldNamed(field).value, value);
                r == Some(Get(t, FieldNamed(field).value)) && tuners[..] == old(tuners[..])[index := t]
    {
      hide Ascii, Default, FieldNamed;
      var f := FieldNamed(field);
      match f
      case None => r := None;
      case Some(known) =>
        if Writable(known) && value.Some? {
          var v := if |value.value| == 0 then Default(known) else value.value;
          tuners[index] := Put(tuners[index], known, v);
        }
        assert tuners[..] == old(tuners[..])[index := tuners[index]];
        r := Some(Get(tuners[index], known));
    }

    method HandleControlRequest(crc: Checksum, id: Identity, request: Request) returns (reply: seq<Byte>)
      modifies tuners
      ensures
        var a := Answer(id, old(tuners[..]), request);
        tuners[..] == a.tuners && reply == ReplyTo(crc, request.name, a.value)
    {
      hide FieldNamed, SystemValue, Default, BuildReply;
      var unknown := BuildErrorReply(crc, request.name, Ascii("ERROR: unknown key"));
      if Ascii("/tuner") <= request.name {
        var rest := request.name[6..];
        var slash := IndexByte(rest, 0x2f, 0);
        if slash.None? || slash.value == 0 {
          return unknown;
        }
        var indexText, field := rest[..slash.value], rest[slash.value + 1..];
        if !IsDecimal(indexText) {
          return unknown;
        }
        var index := DecimalValue(indexText);
        if index >= tuners.Length {
          return unknown;
        }
        var value := HandleTunerRequest(index, field, request.value);
        if value.None? {
          return unknown;
        }
        return BuildGetSetReply(crc, request.name, value.value);
      }
      var value := SystemValue(id, request.name);
      if value.None? {
        return unknown;
      }
      return BuildGetSetReply(crc, request.name, value.value);
    }
  }

  class ControlConnection {
    const crc: Checksum
    const id: Identity
    const registry: TunerRegistry
    /** Whether reply number k can be written. */
    const writable: nat -> bool
    var buffer: seq<Byte>
    var replies: seq<seq<Byte>>

    ghost function State(): Served
      reads this, registry.tuners
    {
      Served(registry.tuners[..], replies, true)
    }

    constructor (crc: Checksum, id: Identity, registry: TunerRegistry, writable: nat -> bool)
      ensures this.crc == crc && this.id == id && this.registry == registry && this.writable == writable
      ensures buffer == [] && replies == []
    {
      this.crc, this.id, this.registry, this.writable := crc, id, registry, writable;
      buffer, replies := [], [];
    }

    /** What remains to be answered of the bytes in the buffer and those still to be read. */
    ghost function Outstanding(more: seq<Byte>): seq<Request>
      reads this
    {
      RequestsOf(FramesOf(crc, buffer + more))
    }

    /** Takes and answers the frame at the front of the buffer, if there is a whole one. */
    method AnswerFrame(ghost more: seq<Byte>) returns (taken: bool, ok: bool)
      modifies this, registry.tuners
      ensures !taken ==> ok && State() == old(State()) && buffer == old(buffer) && TryReadFrame(crc, buffer).None?
      ensures taken ==>
                && |buffer| < |old(buffer)|
                && Serve(crc, id, writable, old(State()), old(Outstanding(more))) ==
                   Serve(crc, id, writable, State().(ok := ok), Outstanding(more))
    {
      var frame := TryReadFrame(crc, buffer);
      if frame.None? {
        return false, true;
      }
      FirstFrame(crc, buffer, more);
      buffer := buffer[frame.value.totalLength..];
      hide FramesOf, TryReadFrame, ParseRequest;
      if frame.value.Corrupt? || frame.value.frameType != GETSET_REQUEST {
        return true, true;
      }
      var request := ParseGetSetRequest(frame.value.payload);
      if request.None? {
        return true, true;
      }
      ghost var outstanding := Outstanding(more);
      assert ([request.value] + outstanding)[1..] == outstanding;
      var reply := registry.HandleControlRequest(crc, id, request.value);
      ok := writable(|replies|);
      replies := replies + [reply];
      return true, ok;
    }

    /** Answers every whole frame in the buffer. */
    method AnswerFrames(ghost more: seq<Byte>) returns (ok: bool)
      modifies this, registry.tuners
      ensures Serve(crc, id, writable, old(State()), old(Outstanding(more))) ==
              Serve(crc, id, writable, State().(ok := ok), Outstanding(more))
      ensures ok ==> TryReadFrame(crc, buffer).None?
    {
      hide FramesOf, ParseRequest;
      ok := true;
      while |buffer| > 0
        invariant ok
        invariant Serve(crc, id, writable, old(State()), old(Outstanding(more))) ==
                  Serve(crc, id, writable, State(), Outstanding(more))
        decreases |buffer|
      {
        hide TryReadFrame, Serve;
        var taken;
        taken, ok := AnswerFrame(more);
        if !taken || !ok {
          return;
        }
      }
    }

    /**
     * Reads until the peer is done or a reply cannot be written. Whatever the reads were, the
     * replies and the tuners are those of the requests in the stream as a whole.
     */
    method HandleControlConnection(chunks: seq<seq<Byte>>) returns (ok: bool)
      modifies this, registry.tuners
      ensures State().(ok := ok) ==
              Serve(crc, id, writable, old(State()), RequestsOf(FramesOf(crc, Flatten(chunks))))
    {
      buffer := [];
      ghost var goal := Serve(crc, id, writable, State(), Outstanding(Flatten(chunks)));
      assert buffer + Flatten(chunks) == Flatten(chunks);
      assert TryReadFrame(crc, []).None?;
      hide TryReadFrame, ParseRequest, Flatten, Serve, RequestsOf;
      ok := true;
      for n := 0 to |chunks|
        invariant ok && TryReadFrame(crc, buffer).None?
        invariant Serve(crc, id, writable, State(), Outstanding(Flatten(chunks[n..]))) == goal
      {
        hide FramesOf;
        Regroup(buffer, chunks, n);
        buffer := buffer + chunks[n];
        ok := AnswerFrames(Flatten(chunks[n + 1..]));
        if !ok {
          ServeStops(crc, id, writable, State().(ok := false), Outstanding(Flatten(chunks[n + 1..])));
          return;
        }
      }
      NothingLeft(crc, id, writable, State(), buffer, chunks[|chunks|..]);
    }
  }

  lemma Regroup(buffer: seq<Byte>, chunks: seq<seq<Byte>>, n: nat)
    requires n < |chunks|
    ensures buffer + Flatten(chunks[n..]) == buffer + chunks[n] + Flatten(chunks[n + 1..])
  {
    assert chunks[n..][1..] == chunks[n + 1..];
  }

  lemma NothingLeft(
      crc: Checksum, id: Identity, writable: nat -> bool, s: Served, buffer: seq<Byte>, chunks: seq<seq<Byte>>)
    requires chunks == [] && TryReadFrame(crc, buffer).None?
    ensures Serve(crc, id, writable, s, RequestsOf(FramesOf(crc, buffer + Flatten(chunks)))) == s
  {
    assert buffer + Flatten(chunks) == buffer;
  }
}
