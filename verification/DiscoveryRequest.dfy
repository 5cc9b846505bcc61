/** HDHomeRun discovery requests, parsed in place from the received packet. */
module DiscoveryRequest {
  import opened Bytes
  import opened Tlv
  import opened Frames

  const DISCOVER_REQUEST: Word := 0x0002
  const DEVICE_TYPE: Byte := 0x01
  const DEVICE_ID: Byte := 0x02
  const MULTI_TYPE: Byte := 0x2d
  const WILDCARD: Word32 := 0xffff_ffff
  const TUNER: Word32 := 0x0000_0001

  datatype Discovery = Discovery(deviceID: Option<Word32>, deviceTypes: seq<Word32>)

  function ReadUint32BE(b: seq<Byte>, offset: nat): Word32
    requires offset + 4 <= |b|
  {
    var b0: int, b1: int, b2: int, b3: int := b[offset], b[offset + 1], b[offset + 2], b[offset + 3];
    0x100_0000 * b0 + 0x1_0000 * b1 + 0x100 * b2 + b3
  }

  /** A value read as a list of 32-bit words. */
  function WordsOf(body: seq<Byte>): seq<Word32>
    requires |body| % 4 == 0
  {
    seq(|body| / 4, i requires 0 <= i < |body| / 4 => ReadUint32BE(body, 4 * i))
  }

  function TypesIn(tag: Tag): seq<Word32> {
    if tag.tag == DEVICE_TYPE && |tag.body| == 4 then WordsOf(tag.body)
    else if tag.tag == MULTI_TYPE && |tag.body| >= 4 && |tag.body| % 4 == 0 then WordsOf(tag.body)
    else []
  }

  function DeviceTypes(tags: seq<Tag>): seq<Word32> {
    if tags == [] then [] else var n := |tags| - 1; DeviceTypes(tags[..n]) + TypesIn(tags[n])
  }

  /** The last well-sized device ID counts. */
  function DeviceID(tags: seq<Tag>): Option<Word32> {
    if tags == [] then None
    else
      var n := |tags| - 1;
      if tags[n].tag == DEVICE_ID && |tags[n].body| == 4 then Some(ReadUint32BE(tags[n].body, 0))
      else DeviceID(tags[..n])
  }

  lemma NextTag(tags: seq<Tag>, next: Tag)
    ensures DeviceTypes(tags + [next]) == DeviceTypes(tags) + TypesIn(next)
    ensures DeviceID(tags + [next]) ==
            if next.tag == DEVICE_ID && |next.body| == 4 then Some(ReadUint32BE(next.body, 0)) else DeviceID(tags)
  {
    assert (tags + [next])[..|tags|] == tags;
  }

  function Accept(d: Discovery): Option<Discovery> {
    if d.deviceTypes == [] then None else Some(d)
  }

  /** The payload-only grammar: tags that tile the payload exactly and name at least one type. */
  function ParsePayload(payload: seq<Byte>): Option<Discovery> {
    match Tags(payload)
    case None => None
    case Some(tags) => Accept(Discovery(DeviceID(tags), DeviceTypes(tags)))
  }

  /** A packet is a frame of the right type whose payload is in the grammar. */
  function ParsePacket(crc: Checksum, packet: seq<Byte>): Option<Discovery> {
    match TryReadFrame(crc, packet)
    case None => None
    case Some(Corrupt(_)) => None
    case Some(Good(frameType, payload, _)) =>
      if frameType != DISCOVER_REQUEST then None else ParsePayload(payload)
  }

  function Uint32BE(w: Word32): (b: seq<Byte>)
    ensures |b| == 4
  {
    [w / 0x100_0000, w / 0x1_0000 % 0x100, w / 0x100 % 0x100, w % 0x100]
  }

  function EncodeWords(words: seq<Word32>): (b: seq<Byte>)
    ensures |b| == 4 * |words|
  {
    if words == [] then [] else Uint32BE(words[0]) + EncodeWords(words[1..])
  }

  lemma Uint32BERoundTrip(w: Word32)
    ensures ReadUint32BE(Uint32BE(w), 0) == w
  {
    assert w / 0x1_0000 == w / 0x100 / 0x100 && w / 0x100_0000 == w / 0x1_0000 / 0x100;
  }

  lemma {:induction false} EncodedWordAt(words: seq<Word32>, i: nat)
    requires i < |words|
    ensures ReadUint32BE(EncodeWords(words), 4 * i) == words[i]
  {
    var b, first, rest := EncodeWords(words), Uint32BE(words[0]), EncodeWords(words[1..]);
    if i == 0 {
      Uint32BERoundTrip(words[0]);
      assert b[0] == first[0] && b[1] == first[1] && b[2] == first[2] && b[3] == first[3];
    } else {
      EncodedWordAt(words[1..], i - 1);
      var at := 4 * (i - 1);
      assert b[4 + at] == rest[at] && b[5 + at] == rest[at + 1];
      assert b[6 + at] == rest[at + 2] && b[7 + at] == rest[at + 3];
    }
  }

  lemma WordsRoundTrip(words: seq<Word32>)
    ensures WordsOf(EncodeWords(words)) == words
  {
    forall i | 0 <= i < |words| ensures ReadUint32BE(EncodeWords(words), 4 * i) == words[i] {
      EncodedWordAt(words, i);
    }
  }

  // ---------------------------------------------------------------- what clients ask for

  /** What a client puts into a request; other tags mean nothing. */
  datatype Asked = ForType(kind: Word32) | ForTypes(kinds: seq<Word32>) | ForDevice(id: Word32) | Else(tag: Tag)

  predicate CanBeAsked(a: Asked) {
    match a
    case ForTypes(kinds) => kinds != [] && 4 * |kinds| <= MAX_BODY
    case Else(tag) =>
      tag.tag != DEVICE_TYPE && tag.tag != MULTI_TYPE && tag.tag != DEVICE_ID && |tag.body| <= MAX_BODY
    case _ => true
  }

  function TagFor(a: Asked): Tag {
    match a
    case ForType(kind) => Tag(DEVICE_TYPE, Uint32BE(kind))
    case ForTypes(kinds) => Tag(MULTI_TYPE, EncodeWords(kinds))
    case ForDevice(id) => Tag(DEVICE_ID, Uint32BE(id))
    case Else(tag) => tag
  }

  function TagsFor(asked: seq<Asked>): seq<Tag> {
    if asked == [] then [] else var n := |asked| - 1; TagsFor(asked[..n]) + [TagFor(asked[n])]
  }

  /** All types asked for, in order. */
  function TypesAsked(asked: seq<Asked>): seq<Word32> {
    if asked == [] then []
    else
      var n := |asked| - 1;
      TypesAsked(asked[..n]) +
      match asked[n]
      case ForType(kind) => [kind]
      case ForTypes(kinds) => kinds
      case _ => []
  }

  /** The last device asked for. */
  function DeviceAsked(asked: seq<Asked>): Option<Word32> {
    if asked == [] then None
    else
      var n := |asked| - 1;
      if asked[n].ForDevice? then Some(asked[n].id) else DeviceAsked(asked[..n])
  }

  lemma AskedNext(asked: seq<Asked>, a: Asked)
    ensures TagsFor(asked + [a]) == TagsFor(asked) + [TagFor(a)]
    ensures TypesAsked(asked + [a]) ==
            TypesAsked(asked) + if a.ForType? then [a.kind] else if a.ForTypes? then a.kinds else []
    ensures DeviceAsked(asked + [a]) == if a.ForDevice? then Some(a.id) else DeviceAsked(asked)
    ensures TagsFor([]) == [] && TypesAsked([]) == [] && DeviceAsked([]) == None
  {
    assert (asked + [a])[..|asked|] == asked;
  }

  lemma TagMeaning(a: Asked)
    requires CanBeAsked(a)
    ensures |TagFor(a).body| <= MAX_BODY
    ensures TypesIn(TagFor(a)) == if a.ForType? then [a.kind] else if a.ForTypes? then a.kinds else []
    ensures TagFor(a).tag == DEVICE_ID && |TagFor(a).body| == 4 <==> a.ForDevice?
    ensures a.ForDevice? ==> ReadUint32BE(TagFor(a).body, 0) == a.id
  {
    match a
    case ForType(kind) => Uint32BERoundTrip(kind);
    case ForTypes(kinds) => WordsRoundTrip(kinds);
    case ForDevice(id) => Uint32BERoundTrip(id);
    case Else(_) =>
  }

  lemma {:induction false} TagsMeaning(asked: seq<Asked>)
    requires forall i :: 0 <= i < |asked| ==> CanBeAsked(asked[i])
    ensures DeviceTypes(TagsFor(asked)) == TypesAsked(asked) && DeviceID(TagsFor(asked)) == DeviceAsked(asked)
    ensures forall i :: 0 <= i < |TagsFor(asked)| ==> |TagsFor(asked)[i].body| <= MAX_BODY
  {
    if asked != [] {
      var n := |asked| - 1;
      TagsMeaning(asked[..n]);
      TagMeaning(asked[n]);
      NextTag(TagsFor(asked[..n]), TagFor(asked[n]));
      hide CanBeAsked, TagFor, TypesIn, ReadUint32BE;
    }
  }

  /** A framed payload is parsed as the payload by itself. */
  lemma FramedPayload(crc: Checksum, payload: seq<Byte>, rest: seq<Byte>)
    requires |payload| <= 0xffff
    ensures ParsePacket(crc, BuildFrame(crc, DISCOVER_REQUEST, payload) + rest) == ParsePayload(payload)
  {
    hide TryReadFrame, BuildFrame, ParsePayload;
    FrameRoundTrip(crc, DISCOVER_REQUEST, payload, rest);
  }

  /** A client's request is understood, whatever it asks for and in whatever order. */
  lemma DiscoveryRoundTrip(crc: Checksum, asked: seq<Asked>, rest: seq<Byte>)
    requires forall i :: 0 <= i < |asked| ==> CanBeAsked(asked[i])
    requires |EncodeTags(TagsFor(asked))| <= 0xffff
    ensures ParsePacket(crc, BuildFrame(crc, DISCOVER_REQUEST, EncodeTags(TagsFor(asked))) + rest) ==
            if TypesAsked(asked) == [] then None else Some(Discovery(DeviceAsked(asked), TypesAsked(asked)))
  {
    hide Tags, EncodeTags, TagsFor, CanBeAsked, ParsePacket, BuildFrame;
    TagsMeaning(asked);
    TagsRoundTrip(TagsFor(asked));
    FramedPayload(crc, EncodeTags(TagsFor(asked)), rest);
  }

  /** The bytes of the usual request: for one type and one device, most significant bytes first. */
  lemma DiscoveryBytes(crc: Checksum, kind: Word32, id: Word32, rest: seq<Byte>)
    ensures
      var body :=
        [0x00, 0x02, 0x00, 0x0c,
         0x01, 0x04, kind / 0x100_0000, kind / 0x1_0000 % 0x100, kind / 0x100 % 0x100, kind % 0x100,
         0x02, 0x04, id / 0x100_0000, id / 0x1_0000 % 0x100, id / 0x100 % 0x100, id % 0x100];
      var sum := crc(body);
      var trailer := [sum % 0x100, sum / 0x100 % 0x100, sum / 0x1_0000 % 0x100, sum / 0x100_0000];
      ParsePacket(crc, body + trailer + rest) == Some(Discovery(Some(id), [kind]))
  {
    var payload := [0x01, 0x04] + Uint32BE(kind) + ([0x02, 0x04] + Uint32BE(id));
    var body :=
      [0x00, 0x02, 0x00, 0x0c,
       0x01, 0x04, kind / 0x100_0000, kind / 0x1_0000 % 0x100, kind / 0x100 % 0x100, kind % 0x100,
       0x02, 0x04, id / 0x100_0000, id / 0x1_0000 % 0x100, id / 0x100 % 0x100, id % 0x100];
    assert body == [0x00, 0x02, 0x00, 0x0c] + payload;
    FrameBytes(crc, 2, payload, crc(body), rest);
    TwoTagBytes(Uint32BE(kind), Uint32BE(id));
    Uint32BERoundTrip(kind);
    Uint32BERoundTrip(id);
    hide TryReadFrame, ParsePayload, Uint32BE, ReadUint32BE;
  }

  lemma TwoTagBytes(kind: seq<Byte>, id: seq<Byte>)
    requires |kind| == |id| == 4
    ensures ParsePayload([0x01, 0x04] + kind + ([0x02, 0x04] + id)) ==
            Some(Discovery(Some(ReadUint32BE(id, 0)), [ReadUint32BE(kind, 0)]))
  {
    var t, d := Tag(0x01, kind), Tag(0x02, id);
    hide *;
    BriefTags(kind, id);
    TwoTagsBytes(t, d);
    assert [t.tag, |t.body|] == [0x01, 0x04] && [d.tag, |d.body|] == [0x02, 0x04];
    ParsedTags([t.tag, |t.body|] + t.body + ([d.tag, |d.body|] + d.body), [t, d]);
  }

  lemma BriefTags(kind: seq<Byte>, id: seq<Byte>)
    requires |kind| == |id| == 4
    ensures DeviceTypes([Tag(0x01, kind), Tag(0x02, id)]) == [ReadUint32BE(kind, 0)]
    ensures DeviceID([Tag(0x01, kind), Tag(0x02, id)]) == Some(ReadUint32BE(id, 0))
  {
    var t, d := Tag(0x01, kind), Tag(0x02, id);
    assert WordsOf(kind) == [ReadUint32BE(kind, 0)];
    hide ReadUint32BE, WordsOf;
    NextTag([], t);
    NextTag([t], d);
    assert [] + [t] == [t] && [t] + [d] == [t, d];
    assert [] + TypesIn(t) == TypesIn(t) && TypesIn(t) + TypesIn(d) == TypesIn(t);
  }

  /** And of one for several types, four bytes each, all in one value. */
  lemma MultiTypeBytes(body: seq<Byte>)
    requires 4 <= |body| <= 127 && |body| % 4 == 0
    ensures ParsePayload([0x2d, |body|] + body) == Some(Discovery(None, WordsOf(body)))
  {
    var tag := Tag(0x2d, body);
    NextTag([], tag);
    assert [] + [tag] == [tag] && [] + WordsOf(body) == WordsOf(body);
    hide ReadUint32BE;
    OneTagBytes(tag);
    ParsedTags([tag.tag, |tag.body|] + tag.body, [tag]);
  }

  lemma ParsedTags(payload: seq<Byte>, tags: seq<Tag>)
    requires Tags(payload) == Some(tags) && DeviceTypes(tags) != []
    ensures ParsePayload(payload) == Some(Discovery(DeviceID(tags), DeviceTypes(tags)))
  {
  }

  /** What follows the checksum never changes the result. */
  lemma TrailingBytesIgnored(crc: Checksum, packet: seq<Byte>, more: seq<Byte>)
    requires TryReadFrame(crc, packet).Some?
    ensures ParsePacket(crc, packet + more) == ParsePacket(crc, packet)
  {
    TryReadFrameStable(crc, packet, more);
  }

  lemma WordsOfSlice(packet: seq<Byte>, from: nat, to: nat, at: nat)
    requires from <= at && at + 4 <= to <= |packet| && (to - from) % 4 == 0 && (at - from) % 4 == 0
    ensures (at - from) / 4 < |WordsOf(packet[from..to])|
    ensures WordsOf(packet[from..to])[(at - from) / 4] == ReadUint32BE(packet, at)
  {
    var i := (at - from) / 4;
    assert at == from + 4 * i;
    var slice := packet[from..to];
    assert slice[4 * i] == packet[at] && slice[4 * i + 1] == packet[at + 1];
    assert slice[4 * i + 2] == packet[at + 2] && slice[4 * i + 3] == packet[at + 3];
  }

  /** A value of four bytes is one word. */
  lemma Uint32BEOfSlice(packet: seq<Byte>, from: nat, to: nat)
    requires to == from + 4 && to <= |packet|
    ensures ReadUint32BE(packet[from..to], 0) == ReadUint32BE(packet, from)
    ensures WordsOf(packet[from..to]) == [ReadUint32BE(packet, from)]
  {
  }

  /** The words of a value, read one after the other from the whole packet. */
  method ReadTypes(packet: seq<Byte>, valueOffset: nat, valueLimit: nat, types: seq<Word32>)
    returns (r: seq<Word32>)
    requires valueOffset <= valueLimit <= |packet| && (valueLimit - valueOffset) % 4 == 0
    ensures r == types + WordsOf(packet[valueOffset..valueLimit])
  {
    r := types;
    var typeOffset := valueOffset;
    ghost var words, i := WordsOf(packet[valueOffset..valueLimit]), 0;
    while typeOffset < valueLimit
      invariant 0 <= i <= |words| && typeOffset == valueOffset + 4 * i
      invariant r == types + words[..i]
    {
      WordsOfSlice(packet, valueOffset, valueLimit, typeOffset);
      r := r + [ReadUint32BE(packet, typeOffset)];
      assert words[..i + 1] == words[..i] + [words[i]];
      typeOffset := typeOffset + 4;
      i := i + 1;
    }
    assert words[..i] == words;
  }

  /** What the value of one tag adds to a request. */
  method ReadValue(packet: seq<Byte>, tag: Byte, valueOffset: nat, valueLimit: nat,
                 deviceTypes: seq<Word32>, deviceID: Option<Word32>, ghost done: seq<Tag>)
    returns (types: seq<Word32>, id: Option<Word32>)
    requires valueOffset <= valueLimit <= |packet|
    requires deviceTypes == DeviceTypes(done) && deviceID == DeviceID(done)
    ensures
      var tags := done + [Tag(tag, packet[valueOffset..valueLimit])];
      types == DeviceTypes(tags) && id == DeviceID(tags)
  {
    hide ReadUint32BE, WordsOf, DeviceTypes, DeviceID;
    NextTag(done, Tag(tag, packet[valueOffset..valueLimit]));
    types, id := deviceTypes, deviceID;
    var length := valueLimit - valueOffset;
    if tag == DEVICE_TYPE {
      if length == 4 {
        types := types + [ReadUint32BE(packet, valueOffset)];
        Uint32BEOfSlice(packet, valueOffset, valueLimit);
      }
    } else if tag == MULTI_TYPE {
      if length >= 4 && length % 4 == 0 {
        types := ReadTypes(packet, valueOffset, valueLimit, types);
      }
    } else if tag == DEVICE_ID {
      if length == 4 {
        id := Some(ReadUint32BE(packet, valueOffset));
        Uint32BEOfSlice(packet, valueOffset, valueLimit);
      }
    }
  }

  /** One turn of the tag loop. The length is read from the whole packet, checksum included. */
  method ReadTag(packet: seq<Byte>, offset: nat, limit: nat,
                 deviceTypes: seq<Word32>, deviceID: Option<Word32>, ghost done: seq<Tag>)
    returns (ok: bool, next: nat, types: seq<Word32>, id: Option<Word32>, ghost tags: seq<Tag>)
    requires offset < limit <= |packet|
    requires deviceTypes == DeviceTypes(done) && deviceID == DeviceID(done)
    ensures !ok ==> Prepend(done, Tags(packet[offset..limit])) == None
    ensures ok ==>
              && offset < next <= limit && types == DeviceTypes(tags) && id == DeviceID(tags)
              && Prepend(done, Tags(packet[offset..limit])) == Prepend(tags, Tags(packet[next..limit]))
  {
    hide Tags, Prepend, ReadVarLength, DeviceTypes, DeviceID;
    ReadStep(done, packet, offset, limit);
    ok, next, types, id, tags := false, offset, deviceTypes, deviceID, done;
    var length := ReadVarLength(packet, offset + 1);
    if length.None? {
      return;
    }
    var valueOffset := offset + 1 + length.value.byteLength;
    var valueLimit := valueOffset + length.value.value;
    if valueLimit > limit {
      return;
    }
    types, id := ReadValue(packet, packet[offset], valueOffset, valueLimit, deviceTypes, deviceID, done);
    tags := done + [Tag(packet[offset], packet[valueOffset..valueLimit])];
    ok, next := true, valueLimit;
  }

  method ParseTags(packet: seq<Byte>, limit: nat)
    returns (ok: bool, deviceID: Option<Word32>, deviceTypes: seq<Word32>)
    requires 4 <= limit <= |packet|
    ensures
      match Tags(packet[4..limit])
      case None => !ok
      case Some(tags) => ok && deviceTypes == DeviceTypes(tags) && deviceID == DeviceID(tags)
  {
    ok, deviceID, deviceTypes := true, None, [];
    var offset := 4;
    ghost var done: seq<Tag> := [];
    NothingDone(packet[4..limit]);
    assert deviceTypes == DeviceTypes(done) && deviceID == DeviceID(done);
    hide Tags, Prepend, DeviceTypes, DeviceID;
    while offset < limit
      invariant 4 <= offset <= limit
      invariant Tags(packet[4..limit]) == Prepend(done, Tags(packet[offset..limit]))
      invariant deviceTypes == DeviceTypes(done) && deviceID == DeviceID(done)
    {
      ok, offset, deviceTypes, deviceID, done := ReadTag(packet, offset, limit, deviceTypes, deviceID, done);
      if !ok {
        return;
      }
    }
    AllDone(done);
    assert packet[offset..limit] == [];
    ok := true;
  }

  /** Although lengths are read beyond it, the result is that of the payload cut out of the packet. */
  method ParseHdhomerunDiscoveryRequest(crc: Checksum, packet: seq<Byte>) returns (r: Option<Discovery>)
    ensures r == ParsePacket(crc, packet)
  {
    if |packet| < 8 {
      return None;
    }
    var packetType := ReadUint16BE(packet, 0);
    var payloadLength: int := ReadUint16BE(packet, 2);
    var totalLength := 4 + payloadLength + 4;
    if packetType != DISCOVER_REQUEST || |packet| < totalLength {
      return None;
    }
    if crc(packet[..totalLength - 4]) != ReadUint32LE(packet, totalLength - 4) {
      return None;
    }
    assert TryReadFrame(crc, packet) == Some(Good(packetType, packet[4..4 + payloadLength], totalLength));
    hide TryReadFrame, Tags, DeviceTypes, DeviceID, ReadUint16BE, ReadUint32LE;
    var ok, deviceID, deviceTypes := ParseTags(packet, 4 + payloadLength);
    if !ok || |deviceTypes| == 0 {
      return None;
    }
    return Some(Discovery(deviceID, deviceTypes));
  }

  // ---------------------------------------------------------------- matching

  function HexDigit(c: Byte): Option<Byte> {
    if 0x30 <= c <= 0x39 then var d: int := c; Some(d - 0x30)
    else if 0x41 <= c <= 0x46 then var d: int := c; Some(d - 0x41 + 10)
    else if 0x61 <= c <= 0x66 then var d: int := c; Some(d - 0x61 + 10)
    else None
  }

  /** The number a string of hexadecimal digits denotes. */
  function HexValue(digits: seq<Byte>): Option<nat> {
    if digits == [] then Some(0)
    else
      var n := |digits| - 1;
      match (HexValue(digits[..n]), HexDigit(digits[n]))
      case (Some(high), Some(low)) => Some(0x10 * high + low)
      case _ => None
  }

  /** The digits of a number, most significant first, taken from `alphabet`. */
  function HexText(n: nat, width: nat, alphabet: Text): (text: Text)
    requires |alphabet| == 16
    ensures |text| == width
    decreases width
  {
    if width == 0 then [] else HexText(n / 0x10, width - 1, alphabet) + [alphabet[n % 0x10]]
  }

  lemma HexDigits(d: nat)
    requires d < 16
    ensures HexDigit(Ascii("0123456789abcdef")[d]) == HexDigit(Ascii("0123456789ABCDEF")[d]) == Some(d)
  {
    var low, up := Ascii("0123456789abcdef"), Ascii("0123456789ABCDEF");
    assert low[d] == if d < 10 then 0x30 + d else 0x61 + (d - 10);
    assert up[d] == if d < 10 then 0x30 + d else 0x41 + (d - 10);
  }

  ghost predicate IsHexAlphabet(alphabet: Text) {
    |alphabet| == 16 && forall d: nat :: d < 16 ==> HexDigit(alphabet[d]) == Some(d)
  }

  /** A device ID of eight hexadecimal digits, in either case, denotes its number. */
  lemma HexRoundTrip(n: Word32)
    ensures HexValue(HexText(n, 8, Ascii("0123456789abcdef"))) == Some(n)
    ensures HexValue(HexText(n, 8, Ascii("0123456789ABCDEF"))) == Some(n)
  {
    var low, up := Ascii("0123456789abcdef"), Ascii("0123456789ABCDEF");
    forall d: nat | d < 16 ensures HexDigit(low[d]) == HexDigit(up[d]) == Some(d) {
      HexDigits(d);
    }
    assert IsHexAlphabet(low) && IsHexAlphabet(up);
    assert Powers16(8) == 0x1_0000_0000;
    hide *;
    HexTextValue(n, 8, low);
    HexTextValue(n, 8, up);
  }

  function Powers16(width: nat): nat {
    if width == 0 then 1 else 0x10 * Powers16(width - 1)
  }

  lemma {:induction false} HexTextValue(n: nat, width: nat, alphabet: Text)
    requires n < Powers16(width) && IsHexAlphabet(alphabet)
    ensures |alphabet| == 16 && HexValue(HexText(n, width, alphabet)) == Some(n)
    decreases width
  {
    hide *;
    var high, low: nat := n / 0x10, n % 0x10;
    AlphabetDigit(alphabet, low);
    if width == 0 {
      NoHexText(n, alphabet);
    } else {
      HighPart(n, width);
      HexTextNext(n, width, alphabet);
      HexTextValue(high, width - 1, alphabet);
      HexValueNext(HexText(high, width - 1, alphabet), alphabet[low], high, low);
    }
  }

  lemma NoHexText(n: nat, alphabet: Text)
    requires n < Powers16(0) && |alphabet| == 16
    ensures HexValue(HexText(n, 0, alphabet)) == Some(n)
  {
  }

  lemma AlphabetDigit(alphabet: Text, d: nat)
    requires IsHexAlphabet(alphabet) && d < 16
    ensures |alphabet| == 16 && HexDigit(alphabet[d]) == Some(d)
  {
  }

  lemma HexTextNext(n: nat, width: nat, alphabet: Text)
    requires |alphabet| == 16 && 0 < width
    ensures HexText(n, width, alphabet) == HexText(n / 0x10, width - 1, alphabet) + [alphabet[n % 0x10]]
  {
  }

  lemma HighPart(n: nat, width: nat)
    requires 0 < width && n < Powers16(width)
    ensures n / 0x10 < Powers16(width - 1)
  {
  }

  lemma HexValueNext(digits: seq<Byte>, c: Byte, high: nat, low: nat)
    requires HexValue(digits) == Some(high) && HexDigit(c) == Some(low)
    ensures HexValue(digits + [c]) == Some(0x10 * high + low)
  {
    assert (digits + [c])[..|digits|] == digits;
    hide HexDigit;
  }

  /** Nothing else is a hexadecimal digit. */
  lemma OnlyHexDigits(c: Byte)
    ensures HexDigit(c).Some? <==> c in Ascii("0123456789abcdefABCDEF")
  {
    var all := Ascii("0123456789abcdefABCDEF");
    assert forall k :: 0 <= k < 22 ==>
      all[k] == if k < 10 then 0x30 + k else if k < 16 then 0x61 + (k - 10) else 0x41 + (k - 16);
    if HexDigit(c).Some? {
      var k := if c <= 0x39 then c - 0x30 else if 0x61 <= c then c - 0x61 + 10 else c - 0x41 + 16;
      assert all[k] == c;
    }
  }

  lemma {:induction false} HexValuePrefix(digits: seq<Byte>, n: nat)
    requires n <= |digits| && HexValue(digits[..n]).None?
    ensures HexValue(digits).None?
    decreases |digits| - n
  {
    if n < |digits| {
      assert digits[..n + 1][..n] == digits[..n];
      HexValuePrefix(digits, n + 1);
    } else {
      assert digits[..n] == digits;
    }
  }

  method ParseHexDeviceID(value: seq<Byte>) returns (r: Option<Word32>)
    ensures r.Some? <==> |value| == 8 && HexValue(value).Some?
    ensures r.Some? ==> HexValue(value) == Some(r.value)
  {
    if |value| != 8 {
      return None;
    }
    var parsed: int := 0;
    ghost var bound: int := 1;
    for i := 0 to |value|
      invariant HexValue(value[..i]) == Some(parsed)
      invariant 0 <= parsed < bound
      invariant bound == if i == 0 then 1 else if i == 1 then 0x10 else if i == 2 then 0x100 else if i == 3 then 0x1000
        else if i == 4 then 0x1_0000 else if i == 5 then 0x10_0000 else if i == 6 then 0x100_0000
        else if i == 7 then 0x1000_0000 else 0x1_0000_0000
    {
      assert value[..i + 1][..i] == value[..i];
      var digit := HexDigit(value[i]);
      if digit.None? {
        HexValuePrefix(value, i + 1);
        return None;
      }
      parsed := 0x10 * parsed + digit.value;
      bound := 0x10 * bound;
    }
    assert value[..|value|] == value;
    return Some(parsed);
  }

  /** A request reaches this device: right type, and its ID, the wildcard or none. */
  method RequestMatchesConfig(request: Discovery, configID: seq<Byte>) returns (matches: bool)
    ensures matches <==>
            && (0xffff_ffff in request.deviceTypes || 0x0000_0001 in request.deviceTypes)
            && (request.deviceID.Some? && request.deviceID.value != 0xffff_ffff ==>
                  |configID| == 8 && HexValue(configID) == Some(request.deviceID.value))
  {
    var matchesType := false;
    for i := 0 to |request.deviceTypes|
      invariant !matchesType
      invariant forall k :: 0 <= k < i ==> request.deviceTypes[k] != WILDCARD && request.deviceTypes[k] != TUNER
    {
      if request.deviceTypes[i] == WILDCARD || request.deviceTypes[i] == TUNER {
        matchesType := true;
        break;
      }
    }
    if !matchesType {
      return false;
    }
    if request.deviceID.None? || request.deviceID.value == WILDCARD {
      return true;
    }
    var parsed := ParseHexDeviceID(configID);
    return parsed.Some? && request.deviceID.value == parsed.value;
  }
}
