/**
 * The RTSP connection after PLAY: media frames (section 10.12 of RFC 2326) mixed with RTSP
 * responses, decided from a growing buffer. `Scan` is the stream read as a whole.
 */
module Interleaved {
  import opened Bytes
  import opened Whitespace
  import opened RtspHeader

  const MARKER: Byte := 0x24
  const CRLF2: seq<Byte> := [13, 10, 13, 10]
  const RTSP: seq<Byte> := [0x52, 0x54, 0x53, 0x50, 0x2f, 0x31, 0x2e, 0x30]

  datatype Item =
    | Frame(channel: Byte, payload: seq<Byte>)
    | Response(header: seq<Byte>, body: seq<Byte>)

  /** A panic is what an unallocatable Content-Length leads to. */
  datatype Verdict = NeedMore | Complete(item: Item, size: nat) | BadResponse | Panic

  function HeaderEndFrom(b: seq<Byte>, i: nat): Option<nat>
    decreases |b| - i
  {
    if i + 4 > |b| then None
    else if b[i..i + 4] == CRLF2 then Some(i)
    else HeaderEndFrom(b, i + 1)
  }

  /** The first empty line. */
  function HeaderEnd(b: seq<Byte>): Option<nat> {
    HeaderEndFrom(b, 0)
  }

  lemma {:induction false} HeaderEndInRange(b: seq<Byte>, i: nat)
    ensures HeaderEndFrom(b, i).Some? ==> i <= HeaderEndFrom(b, i).value && HeaderEndFrom(b, i).value + 4 <= |b|
    ensures HeaderEndFrom(b, i).Some? ==> b[HeaderEndFrom(b, i).value..HeaderEndFrom(b, i).value + 4] == CRLF2
    decreases |b| - i
  {
    if i + 4 <= |b| && b[i..i + 4] != CRLF2 {
      HeaderEndInRange(b, i + 1);
    }
  }

  /** The text before the first empty line. */
  function HeaderOf(b: seq<Byte>): Option<Text> {
    match HeaderEnd(b)
    case None => None
    case Some(h) => HeaderEndInRange(b, 0); Some(b[..h])
  }

  function ParseResponse(b: seq<Byte>): Verdict {
    match HeaderEnd(b)
    case None => NeedMore
    case Some(h) =>
      HeaderEndInRange(b, 0);
      match ParseHeader(b[..h])
      case Unusable => BadResponse
      case ContentLength(n) =>
        if n < 0 || h + 4 + n > MAX_INT then Panic
        else if |b| < h + 4 + n then NeedMore
        else Complete(Response(b[..h], b[h + 4..h + 4 + n]), h + 4 + n)
  }

  function ParseFrame(b: seq<Byte>): Verdict {
    if |b| < 4 then NeedMore
    else
      var n := ReadUint16BE(b, 2);
      if |b| < 4 + n then NeedMore else Complete(Frame(b[1], b[4..4 + n]), 4 + n)
  }

  /** What the buffer begins with. */
  function Next(b: seq<Byte>): (v: Verdict)
    ensures v.Complete? ==> 0 < v.size <= |b|
  {
    if b == [] then NeedMore
    else if RTSP <= b then ParseResponse(b)
    else if b[0] != MARKER then NeedMore
    else ParseFrame(b)
  }

  // ---------------------------------------------------------------- read boundaries

  lemma {:induction false} HeaderEndStable(b: seq<Byte>, x: seq<Byte>, i: nat)
    requires HeaderEndFrom(b, i).Some?
    ensures HeaderEndFrom(b + x, i) == HeaderEndFrom(b, i)
    decreases |b| - i
  {
    SliceBefore(b, x, i, i + 4);
    if b[i..i + 4] != CRLF2 {
      HeaderEndStable(b, x, i + 1);
    }
  }

  lemma ParseResponseStable(b: seq<Byte>, x: seq<Byte>)
    requires ParseResponse(b) != NeedMore
    ensures ParseResponse(b + x) == ParseResponse(b)
  {
    HeaderEndStable(b, x, 0);
    HeaderEndInRange(b, 0);
    var h := HeaderEnd(b).value;
    SliceBefore(b, x, 0, h);
    if ParseHeader(b[..h]).ContentLength? {
      var n := ParseHeader(b[..h]).n;
      if 0 <= n && h + 4 + n <= |b| {
        SliceBefore(b, x, h + 4, h + 4 + n);
      }
    }
  }

  /** A decision once taken does not depend on what is read later. */
  lemma NextStable(b: seq<Byte>, x: seq<Byte>)
    requires Next(b) != NeedMore
    ensures Next(b + x) == Next(b)
  {
    if RTSP <= b {
      ParseResponseStable(b, x);
    } else {
      var n: nat := ReadUint16BE(b, 2);
      SliceBefore(b, x, 4, 4 + n);
      assert (b + x)[0] != RTSP[0];
    }
  }

  // ---------------------------------------------------------------- the stream as a whole

  datatype Ending = Starved | EndedBad | EndedPanic
  datatype Scanned = Scanned(items: seq<Item>, ending: Ending, rest: seq<Byte>)

  function Scan(b: seq<Byte>): Scanned
    decreases |b|
  {
    match Next(b)
    case NeedMore => Scanned([], Starved, b)
    case BadResponse => Scanned([], EndedBad, b)
    case Panic => Scanned([], EndedPanic, b)
    case Complete(item, size) =>
      var s := Scan(b[size..]);
      s.(items := [item] + s.items)
  }

  function Encode(item: Item): seq<Byte>
    requires item.Frame? ==> |item.payload| <= 0xffff
  {
    match item
    case Frame(channel, payload) => [MARKER, channel] + Uint16BE(|payload|) + payload
    case Response(header, body) => header + CRLF2 + body
  }

  predicate Encodable(items: seq<Item>) {
    forall i :: 0 <= i < |items| && items[i].Frame? ==> |items[i].payload| <= 0xffff
  }

  function EncodeAll(items: seq<Item>): seq<Byte>
    requires Encodable(items)
  {
    if items == [] then [] else Encode(items[0]) + EncodeAll(items[1..])
  }

  lemma NextConsumes(b: seq<Byte>)
    requires Next(b).Complete?
    ensures Next(b).item.Frame? ==> |Next(b).item.payload| <= 0xffff
    ensures Encode(Next(b).item) == b[..Next(b).size]
  {
    if RTSP <= b {
      ResponseConsumes(b);
    } else {
      FrameConsumes(b);
    }
  }

  lemma ResponseConsumes(b: seq<Byte>)
    requires ParseResponse(b).Complete?
    ensures
      var v := ParseResponse(b);
      v.item.Response? && v.size <= |b| && Encode(v.item) == b[..v.size]
  {
    hide ParseHeader, HeaderEndFrom;
    HeaderEndInRange(b, 0);
    var h, n := HeaderEnd(b).value, ParseResponse(b).size;
    assert b[..n] == b[..h] + b[h..h + 4] + b[h + 4..n];
  }

  lemma FrameConsumes(b: seq<Byte>)
    requires b != [] && b[0] == MARKER && ParseFrame(b).Complete?
    ensures
      var v := ParseFrame(b);
      v.item.Frame? && |v.item.payload| <= 0xffff && v.size <= |b| && Encode(v.item) == b[..v.size]
  {
    var n := ParseFrame(b).size;
    Uint16BEOfRead(b, 2);
    hide ReadUint16BE, Uint16BE;
    assert b[..n] == [b[0], b[1]] + b[2..4] + b[4..n];
  }

  /** The items taken and the bytes left are the bytes received. */
  lemma {:induction false} ScanConserves(b: seq<Byte>)
    ensures Encodable(Scan(b).items)
    ensures EncodeAll(Scan(b).items) + Scan(b).rest == b
    decreases |b|
  {
    if Next(b).Complete? {
      hide Next, Encode, EncodeAll, Encodable;
      var v := Next(b);
      var s := Scan(b[v.size..]);
      assert Scan(b) == s.(items := [v.item] + s.items);
      hide Scan;
      ScanConserves(b[v.size..]);
      NextConsumes(b);
      EncodeAllCons(v.item, s.items);
      Glue(Encode(v.item), EncodeAll(s.items), s.rest, b, v.size);
    }
  }

  lemma Glue(first: seq<Byte>, more: seq<Byte>, rest: seq<Byte>, b: seq<Byte>, n: nat)
    requires n <= |b| && first == b[..n] && more + rest == b[n..]
    ensures first + more + rest == b
  {
    Reassociate(first, more, rest);
  }

  lemma EncodeAllCons(item: Item, items: seq<Item>)
    requires Encodable(items) && (item.Frame? ==> |item.payload| <= 0xffff)
    ensures Encodable([item] + items) && EncodeAll([item] + items) == Encode(item) + EncodeAll(items)
  {
    assert ([item] + items)[1..] == items;
  }

  lemma {:induction false} EncodeAllAppend(a: seq<Item>, b: seq<Item>)
    requires Encodable(a) && Encodable(b)
    ensures Encodable(a + b) && EncodeAll(a + b) == EncodeAll(a) + EncodeAll(b)
  {
    if a == [] {
      assert a + b == b;
    } else {
      var first, more := a[0], a[1..];
      assert Encodable(more) && (first.Frame? ==> |first.payload| <= 0xffff);
      assert a == [first] + more && a + b == [first] + (more + b);
      hide Encodable, EncodeAll, Encode;
      EncodeAllAppend(more, b);
      EncodeAllCons(first, more);
      EncodeAllCons(first, more + b);
      Reassociate(Encode(first), EncodeAll(more), EncodeAll(b));
    }
  }

  /** A frame of at most 65535 bytes, or a response that says how long it is. */
  predicate WellFormed(item: Item) {
    match item
    case Frame(_, payload) => |payload| <= 0xffff
    case Response(header, body) =>
      && RTSP <= header
      && HeaderEnd(header + CRLF2) == Some(|header|)
      && ParseHeader(header) == ContentLength(|body|)
      && |header| + 4 + |body| <= MAX_INT
  }

  /** How a stream ends is decided by what is left of it. */
  lemma {:induction false} ScanEnds(b: seq<Byte>)
    ensures match Next(Scan(b).rest)
            case NeedMore => Scan(b).ending == Starved
            case BadResponse => Scan(b).ending == EndedBad
            case Panic => Scan(b).ending == EndedPanic
            case Complete(_, _) => false
    decreases |b|
  {
    hide Next;
    if Next(b).Complete? {
      ScanEnds(b[Next(b).size..]);
    }
  }

  predicate HasImpossibleLength(b: seq<Byte>) {
    && RTSP <= b
    && match HeaderOf(b)
       case None => false
       case Some(header) =>
         var lines := SplitLines(header);
         HasStatus(lines[0]) && !(0 <= LengthIn(lines[1..]) <= MAX_INT - |header| - 4)
  }

  predicate LacksStatus(b: seq<Byte>) {
    && RTSP <= b
    && match HeaderOf(b)
       case None => false
       case Some(header) => !HasStatus(SplitLines(header)[0])
  }

  /** The relay panics exactly at a response whose length is negative or beyond the machine's integers. */
  lemma PanicExactly(b: seq<Byte>)
    ensures Scan(b).ending == EndedPanic <==> HasImpossibleLength(Scan(b).rest)
  {
    ScanEnds(b);
    hide Scan, HasStatus, SplitLines, LengthIn, HeaderEndFrom;
    var rest := Scan(b).rest;
    if HeaderEnd(rest).Some? {
      HeaderEndInRange(rest, 0);
    }
  }

  /** It gives up exactly at a response without a status code. */
  lemma BadStatusExactly(b: seq<Byte>)
    ensures Scan(b).ending == EndedBad <==> LacksStatus(Scan(b).rest)
  {
    ScanEnds(b);
    hide Scan, HasStatus, SplitLines, LengthIn, HeaderEndFrom;
    var rest := Scan(b).rest;
    if HeaderEnd(rest).Some? {
      HeaderEndInRange(rest, 0);
    }
  }

  // ---------------------------------------------------------------- the bytes on the wire

  /** A frame is a dollar sign, its channel, its length with the more significant byte first, and its payload. */
  lemma FrameIsTaken(channel: Byte, payload: seq<Byte>, rest: seq<Byte>)
    requires |payload| <= 65535
    ensures Next([0x24, channel, |payload| / 0x100, |payload| % 0x100] + payload + rest) ==
            Complete(Frame(channel, payload), 4 + |payload|)
  {
    var b := [0x24, channel, |payload| / 0x100, |payload| % 0x100] + payload + rest;
    assert b[4..4 + |payload|] == payload;
    assert b[0] == 0x24 && ReadUint16BE(b, 2) == |payload|;
    hide ReadUint16BE;
    assert !(RTSP <= b);
  }

  /** A response begins with RTSP/1.0, and ends after as many bytes beyond the empty line as it says. */
  lemma ResponseIsTaken(header: Text, body: seq<Byte>, rest: seq<Byte>)
    requires Ascii("RTSP/1.0") <= header && HeaderEnd(header + [13, 10, 13, 10]) == Some(|header|)
    requires ParseHeader(header) == ContentLength(|body|) && |header| + 4 + |body| <= 0x7fff_ffff_ffff_ffff
    ensures Next(header + [13, 10, 13, 10] + body + rest) == Complete(Response(header, body), |header| + 4 + |body|)
  {
    VersionBytes();
    ResponseEncoded(header, body, rest);
  }

  lemma VersionBytes()
    ensures Ascii("RTSP/1.0") == RTSP
  {
  }

  /** Neither the one nor the other: the pump waits for more. */
  lemma OthersWait(b: seq<Byte>)
    requires !(Ascii("RTSP/1.0") <= b) && (b == [] || b[0] != 0x24)
    ensures Next(b) == NeedMore
  {
    VersionBytes();
  }

  /** Media are on the channels 0, 2, 4 and so on. */
  lemma EvenChannelsAreMedia(channel: Byte, payload: seq<Byte>, items: seq<Item>)
    ensures MediaPackets([Frame(channel, payload)] + items) ==
            if channel % 2 == 0 then [payload] + MediaPackets(items) else MediaPackets(items)
    ensures forall header, body :: MediaPackets([Response(header, body)] + items) == MediaPackets(items)
  {
    assert ([Frame(channel, payload)] + items)[1..] == items;
    forall header, body ensures MediaPackets([Response(header, body)] + items) == MediaPackets(items) {
      assert ([Response(header, body)] + items)[1..] == items;
    }
  }

  // ---------------------------------------------------------------- what is sent is received

  /** Lines that an empty line can follow: none but the first is empty itself. */
  ghost predicate IsHeader(lines: seq<Text>) {
    AreLines(lines) && forall i :: 1 <= i < |lines| ==> lines[i] != []
  }

  lemma {:induction false} NoEmptyLine(lines: seq<Text>, k: nat)
    requires IsHeader(lines) && k < |JoinLines(lines)|
    ensures !EmptyLineAt(JoinLines(lines) + CRLF2, k)
  {
    var w, b := lines[0], JoinLines(lines) + CRLF2;
    assert IsLine(w);
    if |lines| > 1 {
      var rest, n := JoinLines(lines[1..]), |w| + 2;
      assert b == w + CRLF + (rest + CRLF2);
      assert IsLine(lines[1]) && b[n] == lines[1][0] && b[n + 1] == (if |lines[1]| > 1 then lines[1][1] else 13);
      if k >= n {
        NoEmptyLine(lines[1..], k - n);
        assert b[k..k + 4] == (rest + CRLF2)[k - n..k - n + 4];
      } else {
        assert b[k..k + 4] == [b[k], b[k + 1], b[k + 2], b[k + 3]];
      }
    } else {
      assert b[k..k + 4] == [b[k], b[k + 1], b[k + 2], b[k + 3]];
    }
  }

  predicate EmptyLineAt(b: seq<Byte>, k: nat) {
    k + 4 <= |b| && b[k..k + 4] == CRLF2
  }

  lemma {:induction false} HeaderEndFirst(b: seq<Byte>, i: nat, h: nat)
    requires i <= h && EmptyLineAt(b, h)
    requires forall k :: i <= k < h ==> !EmptyLineAt(b, k)
    ensures HeaderEndFrom(b, i) == Some(h)
    decreases h - i
  {
    if i < h {
      assert !EmptyLineAt(b, i);
      HeaderEndFirst(b, i + 1, h);
    }
  }

  lemma HeaderEndOfLines(lines: seq<Text>, x: seq<Byte>)
    requires IsHeader(lines)
    ensures HeaderEnd(JoinLines(lines) + CRLF2 + x) == Some(|JoinLines(lines)|)
  {
    var header := JoinLines(lines);
    var b := header + CRLF2;
    forall k | 0 <= k < |header| ensures !EmptyLineAt(b, k) {
      NoEmptyLine(lines, k);
    }
    assert EmptyLineAt(b, |header|);
    HeaderEndFirst(b, 0, |header|);
    HeaderEndStable(b, x, 0);
  }

  /** A response with any header fields is well-formed if its Content-Length is that of its body. */
  lemma ResponseWellFormed(status: Text, before: seq<Text>, after: seq<Text>, body: seq<Byte>)
    requires
      var lines := HeaderLines(status, before, [0x20] + Decimal(|body|), after);
      IsHeader(lines) && |JoinLines(lines)| + 4 + |body| <= MAX_INT
    requires RTSP <= status && HasStatus(status) && NoLength(after)
    ensures WellFormed(Response(JoinLines(HeaderLines(status, before, [0x20] + Decimal(|body|), after)), body))
  {
    var lines := HeaderLines(status, before, [0x20] + Decimal(|body|), after);
    HeaderEndOfLines(lines, []);
    assert JoinLines(lines) + CRLF2 + [] == JoinLines(lines) + CRLF2;
    ContentLengthRoundTrip(status, before, |body|, after);
    JoinBegins(lines);
  }

  lemma JoinBegins(lines: seq<Text>)
    requires lines != []
    ensures lines[0] <= JoinLines(lines)
  {
  }

  /** Exactly which Content-Lengths make the relay panic, in an otherwise sound response. */
  lemma LengthPanics(status: Text, before: seq<Text>, raw: Text, after: seq<Text>, x: seq<Byte>)
    requires IsHeader(HeaderLines(status, before, raw, after))
    requires RTSP <= status && HasStatus(status) && NoLength(after)
    ensures
      var header := JoinLines(HeaderLines(status, before, raw, after));
      Next(header + CRLF2 + x) == Panic <==> !(0 <= LengthOf(raw) <= MAX_INT - |header| - 4)
  {
    var lines := HeaderLines(status, before, raw, after);
    var header := JoinLines(lines);
    var b := header + CRLF2 + x;
    HeaderEndOfLines(lines, x);
    JoinBegins(lines);
    assert lines[0] == status && b[..|RTSP|] == header[..|RTSP|];
    assert b[..|header|] == header;
    ContentLengthIsRead(status, before, raw, after);
    hide HeaderEndFrom, ParseHeader, LengthOf;
  }

  lemma OneField(status: Text, raw: Text)
    requires IsLine(status) && IsLine(LengthLine(raw)) && LengthLine(raw) != []
    ensures
      var lines := HeaderLines(status, [], raw, []);
      IsHeader(lines) && NoLength([]) && JoinLines(lines) == status + CRLF + LengthLine(raw)
  {
    var lines := HeaderLines(status, [], raw, []);
    assert lines == [status, LengthLine(raw)] && lines[1..] == [LengthLine(raw)];
  }

  /** For example: a status line and a Content-Length of -1. */
  lemma MinusOnePanics(x: seq<Byte>)
    ensures Next(Ascii("RTSP/1.0 200 OK") + [13, 10] + Ascii("Content-Length: -1") + [13, 10, 13, 10] + x) == Panic
  {
    var v, w, ok := Ascii("RTSP/1.0"), Ascii("200"), Ascii(" OK");
    var status, raw := Ascii("RTSP/1.0 200 OK"), Ascii(" -1");
    ExampleWords();
    ExampleStatus();
    ExampleLength();
    ThreeDigits(w);
    assert DecimalValue(w) <= MAX_INT;
    hide *;
    StatusIsRead(v, w, ok);
    MinusOne();
    OneField(status, raw);
    LengthPanics(status, [], raw, [], x);
  }

  lemma ExampleWords()
    ensures
      var v, w, ok := Ascii("RTSP/1.0"), Ascii("200"), Ascii(" OK");
      && Ascii("RTSP/1.0 200 OK") == v + [0x20] + w + ok
      && IsVisible(v) && v != [] && IsDecimal(w) && |w| == 3 && ok[0] == 0x20
  {
    var v, w, ok := Ascii("RTSP/1.0"), Ascii("200"), Ascii(" OK");
    assert IsVisible(v) && IsDecimal(w) && ok[0] == 0x20;
    hide IsVisible, IsDecimal, AllDigits;
  }

  lemma ExampleStatus()
    ensures RTSP <= Ascii("RTSP/1.0 200 OK") && IsLine(Ascii("RTSP/1.0 200 OK"))
  {
  }

  lemma ExampleLength()
    ensures
      var line := LengthLine(Ascii(" -1"));
      line == Ascii("Content-Length: -1") && IsLine(line) && line != []
  {
  }

  lemma ThreeDigits(w: Text)
    requires IsDecimal(w) && |w| == 3
    ensures DecimalValue(w) < 1000
  {
    assert DecimalValue(w[..2]) == 10 * DecimalValue(w[..2][..1]) + w[1] - 0x30;
    assert DecimalValue(w[..2][..1]) == 10 * DecimalValue(w[..2][..1][..0]) + w[0] - 0x30;
  }

  lemma FrameEncoded(channel: Byte, payload: seq<Byte>, x: seq<Byte>)
    requires |payload| <= 0xffff
    ensures Next(Encode(Frame(channel, payload)) + x) == Complete(Frame(channel, payload), 4 + |payload|)
  {
    var b := Encode(Frame(channel, payload)) + x;
    var length := Uint16BE(|payload|);
    assert b[0] == MARKER && b[1] == channel && b[2] == length[0] && b[3] == length[1];
    assert b[4..4 + |payload|] == payload;
    assert ReadUint16BE(b, 2) == ReadUint16BE(length, 0);
    hide ReadUint16BE, Uint16BE;
    assert !(RTSP <= b);
  }

  lemma ResponseEncoded(header: seq<Byte>, body: seq<Byte>, x: seq<Byte>)
    requires WellFormed(Response(header, body))
    ensures Next(Encode(Response(header, body)) + x) ==
            Complete(Response(header, body), |header| + 4 + |body|)
  {
    var b := header + CRLF2 + (body + x);
    assert Encode(Response(header, body)) + x == b;
    HeaderEndStable(header + CRLF2, body + x, 0);
    assert b[..|header|] == header && b[|header| + 4..|header| + 4 + |body|] == body;
    hide HeaderEndFrom;
    assert b[..|RTSP|] == header[..|RTSP|];
  }

  lemma NextEncoded(item: Item, x: seq<Byte>)
    requires WellFormed(item)
    ensures Next(Encode(item) + x) == Complete(item, |Encode(item)|)
  {
    hide Next;
    match item
    case Frame(channel, payload) => FrameEncoded(channel, payload, x);
    case Response(header, body) => ResponseEncoded(header, body, x);
  }

  /** Whatever is sent well-formed is received as sent. */
  lemma {:induction false} ScanEncoded(items: seq<Item>)
    requires forall i :: 0 <= i < |items| ==> WellFormed(items[i])
    ensures Encodable(items) && Scan(EncodeAll(items)) == Scanned(items, Starved, [])
  {
    if items != [] {
      ScanEncoded(items[1..]);
      NextEncoded(items[0], EncodeAll(items[1..]));
      var b := EncodeAll(items);
      assert b[|Encode(items[0])|..] == EncodeAll(items[1..]);
      assert items == [items[0]] + items[1..];
    }
  }

  /** The media packets among the items: the payloads of the even channels, in order. */
  function MediaPackets(items: seq<Item>): seq<seq<Byte>> {
    if items == [] then []
    else
      (if items[0].Frame? && items[0].channel % 2 == 0 then [items[0].payload] else [])
      + MediaPackets(items[1..])
  }
}
