/** RTP depacketizing (sections 5.1 and 5.3.1 of RFC 3550) and the packets that it inverts. */
module RtpPayload {
  import opened Bytes
  import opened SequenceNumbers

  datatype RtpError =
    | TruncatedPacket
    | UnsupportedVersion
    | TruncatedHeader
    | TruncatedExtensionHeader
    | TruncatedPayload
    | InvalidPadding

  datatype Depacketized = Payload(bytes: seq<Byte>) | Failed(error: RtpError)

  function Version(first: Byte): int { first / 0x40 }

  predicate PaddingBit(first: Byte) { first / 0x20 % 2 != 0 }

  predicate ExtensionBit(first: Byte) { first / 0x10 % 2 != 0 }

  function CsrcCount(first: Byte): (n: nat)
    ensures n <= 15
  {
    first % 0x10
  }

  function FirstByte(padding: bool, extension: bool, csrcs: nat): Byte
    requires csrcs <= 15
  {
    0x80 + (if padding then 0x20 else 0) + (if extension then 0x10 else 0) + csrcs
  }

  lemma FirstByteFields(padding: bool, extension: bool, csrcs: nat)
    requires csrcs <= 15
    ensures
      var first := FirstByte(padding, extension, csrcs);
      && Version(first) == 2 && CsrcCount(first) == csrcs
      && (PaddingBit(first) <==> padding) && (ExtensionBit(first) <==> extension)
  {
  }

  lemma FirstByteOfFields(first: Byte)
    requires Version(first) == 2
    ensures first == FirstByte(PaddingBit(first), ExtensionBit(first), CsrcCount(first))
  {
  }

  /** Where the payload of a well-formed packet begins. */
  function HeaderLength(packet: seq<Byte>): int
    requires 12 <= |packet| && (ExtensionBit(packet[0]) ==> 16 + 4 * CsrcCount(packet[0]) <= |packet|)
  {
    var csrcEnd := 12 + 4 * CsrcCount(packet[0]);
    if ExtensionBit(packet[0]) then csrcEnd + 4 + 4 * ReadUint16BE(packet, csrcEnd + 2) else csrcEnd
  }

  function DepacketizeRtpPayload(packet: seq<Byte>): Depacketized {
    if |packet| < 12 then Failed(TruncatedPacket)
    else if Version(packet[0]) != 2 then Failed(UnsupportedVersion)
    else
      var hasPadding := PaddingBit(packet[0]);
      var hasExtension := ExtensionBit(packet[0]);
      var csrcEnd := 12 + 4 * CsrcCount(packet[0]);
      if |packet| < csrcEnd then Failed(TruncatedHeader)
      else if hasExtension && |packet| < csrcEnd + 4 then Failed(TruncatedExtensionHeader)
      else
        var headerLength := HeaderLength(packet);
        if |packet| < headerLength then Failed(TruncatedPayload)
        else
          var rest := |packet| - headerLength;
          var paddingLength := if hasPadding then packet[|packet| - 1] else 0;
          if paddingLength > rest then Failed(InvalidPadding)
          else Payload(packet[headerLength..headerLength + rest - paddingLength])
  }

  /** The payload of `packet` lies between `n` and `m`. */
  predicate IsCut(packet: seq<Byte>, n: int, m: int) {
    && 12 <= |packet|
    && Version(packet[0]) == 2
    && (ExtensionBit(packet[0]) ==> 16 + 4 * CsrcCount(packet[0]) <= |packet|)
    && n == HeaderLength(packet)
    && n <= m <= |packet|
    && |packet| - m == if PaddingBit(packet[0]) then packet[|packet| - 1] else 0
  }

  lemma HeaderLengthBounds(packet: seq<Byte>)
    requires 12 <= |packet| && (ExtensionBit(packet[0]) ==> 16 + 4 * CsrcCount(packet[0]) <= |packet|)
    ensures 12 + 4 * CsrcCount(packet[0]) <= HeaderLength(packet)
  {
  }

  /** Depacketizing succeeds exactly on packets that can be cut, and returns what lies between. */
  lemma DepacketizedIffCut(packet: seq<Byte>, n: int, m: int)
    ensures IsCut(packet, n, m) ==> DepacketizeRtpPayload(packet) == Payload(packet[n..m])
    ensures DepacketizeRtpPayload(packet).Payload? ==>
              (n == HeaderLength(packet) && m == n + |DepacketizeRtpPayload(packet).bytes| ==> IsCut(packet, n, m))
  {
    if 12 <= |packet| && (ExtensionBit(packet[0]) ==> 16 + 4 * CsrcCount(packet[0]) <= |packet|) {
      HeaderLengthBounds(packet);
    }
    hide HeaderLength, Version, PaddingBit, ExtensionBit, CsrcCount;
  }

  /** A header extension: two bytes of profile and any number of 32-bit words. */
  datatype Extension = Extension(profile: seq<Byte>, words: seq<Byte>) {
    predicate Valid() {
      |profile| == 2 && |words| % 4 == 0 && |words| <= 4 * 0xffff
    }

    function Bytes(): seq<Byte>
      requires Valid()
    {
      profile + Uint16BE(|words| / 4) + words
    }
  }

  /** The parts of a version 2 packet. `kind` is its second byte; `source` are timestamp and SSRC. */
  datatype RtpPacket = RtpPacket(
    kind: Byte,
    sequence: Word,
    source: seq<Byte>,
    csrcs: seq<Byte>,
    extension: Option<Extension>,
    payload: seq<Byte>,
    padding: Option<seq<Byte>>)
  {
    predicate ValidHeader() {
      && |source| == 8
      && |csrcs| % 4 == 0 && |csrcs| <= 4 * 15
      && (extension.Some? ==> extension.value.Valid())
    }

    function Header(): (h: seq<Byte>)
      requires ValidHeader()
      ensures 12 <= |h|
    {
      [FirstByte(padding.Some?, extension.Some?, |csrcs| / 4), kind, sequence / 0x100, sequence % 0x100]
      + source + csrcs
      + if extension.Some? then extension.value.Bytes() else []
    }

    function Padding(): seq<Byte> {
      if padding.Some? then padding.value else []
    }

    function Serialize(): (packet: seq<Byte>)
      requires ValidHeader()
      ensures 12 <= |packet|
    {
      Header() + payload + Padding()
    }

    /** The last byte of a padded packet counts the padding; a count of zero is let pass. */
    predicate Valid() {
      ValidHeader() && (padding.Some? ==> var s := Serialize(); s[|s| - 1] == |padding.value|)
    }
  }

  lemma HeaderLayout(p: RtpPacket, rest: seq<Byte>)
    requires p.ValidHeader()
    ensures
      var packet := p.Header() + rest;
      && packet[0] == FirstByte(p.padding.Some?, p.extension.Some?, |p.csrcs| / 4)
      && (p.extension.None? ==> |p.Header()| == 12 + |p.csrcs|)
      && (p.extension.Some? ==>
            && |p.Header()| == 16 + |p.csrcs| + |p.extension.value.words|
            && ReadUint16BE(packet, 14 + |p.csrcs|) == |p.extension.value.words| / 4)
  {
    if p.extension.Some? {
      var packet, at := p.Header() + rest, 14 + |p.csrcs|;
      var length := Uint16BE(|p.extension.value.words| / 4);
      assert packet[at] == length[0] && packet[at + 1] == length[1];
    }
  }

  lemma SerializedHeaderLength(p: RtpPacket, rest: seq<Byte>)
    requires p.ValidHeader()
    ensures
      var packet := p.Header() + rest;
      && Version(packet[0]) == 2 && (PaddingBit(packet[0]) <==> p.padding.Some?)
      && (ExtensionBit(packet[0]) ==> 16 + 4 * CsrcCount(packet[0]) <= |packet|)
      && HeaderLength(packet) == |p.Header()|
  {
    FirstByteFields(p.padding.Some?, p.extension.Some?, |p.csrcs| / 4);
    HeaderLayout(p, rest);
    hide FirstByte, Version, PaddingBit, ExtensionBit, CsrcCount, ReadUint16BE, RtpPacket.Header;
    assert 4 * (|p.csrcs| / 4) == |p.csrcs|;
    if p.extension.Some? {
      assert 4 * (|p.extension.value.words| / 4) == |p.extension.value.words|;
    }
  }

  /** Depacketizing inverts packetizing, for every header, extension, payload and padding. */
  lemma DepacketizeSerialize(p: RtpPacket)
    requires p.Valid()
    ensures DepacketizeRtpPayload(p.Serialize()) == Payload(p.payload)
  {
    var packet, n := p.Serialize(), |p.Header()|;
    SerializedHeaderLength(p, p.payload + p.Padding());
    assert packet == p.Header() + (p.payload + p.Padding());
    hide HeaderLength, Version, PaddingBit, ExtensionBit, CsrcCount, DepacketizeRtpPayload, RtpPacket.Header;
    DepacketizedIffCut(packet, n, n + |p.payload|);
    assert packet[n..n + |p.payload|] == p.payload;
  }

  /** The sequence number is the big-endian number in bytes 2 and 3. */
  lemma SequenceOfSerialized(p: RtpPacket)
    requires p.Valid()
    ensures ParseRtpSequence(p.Serialize()) == p.sequence
  {
    var packet := p.Serialize();
    hide FirstByte;
    assert packet[2] == p.sequence / 0x100 && packet[3] == p.sequence % 0x100;
  }

  /** The parts of a packet that is cut at `n` and `m`. */
  function Parts(packet: seq<Byte>, n: int, m: int): RtpPacket
    requires IsCut(packet, n, m) && 12 + 4 * CsrcCount(packet[0]) <= n
  {
    var at := 12 + 4 * CsrcCount(packet[0]);
    RtpPacket(
      packet[1],
      ReadUint16BE(packet, 2),
      packet[4..12],
      packet[12..at],
      if ExtensionBit(packet[0]) then Some(Extension(packet[at..at + 2], packet[at + 4..n])) else None,
      packet[n..m],
      if PaddingBit(packet[0]) then Some(packet[m..]) else None)
  }

  lemma FourTimes(n: nat)
    ensures (4 * n) % 4 == 0 && (4 * n) / 4 == n
  {
  }

  lemma ExtensionParts(packet: seq<Byte>, at: nat, n: nat)
    requires at + 4 <= |packet| && n == at + 4 + 4 * ReadUint16BE(packet, at + 2) <= |packet|
    ensures
      var e := Extension(packet[at..at + 2], packet[at + 4..n]);
      e.Valid() && e.Bytes() == packet[at..n]
  {
    Uint16BEOfRead(packet, at + 2);
    hide ReadUint16BE, Uint16BE;
    var length: nat := ReadUint16BE(packet, at + 2);
    assert |packet[at + 4..n]| == 4 * length;
    FourTimes(length);
    assert packet[at..n] == packet[at..at + 2] + packet[at + 2..at + 4] + packet[at + 4..n];
  }

  lemma FrontParts(packet: seq<Byte>, count: nat)
    requires 12 + 4 * count <= |packet| && Version(packet[0]) == 2 && count == CsrcCount(packet[0])
    ensures
      var csrcs := packet[12..12 + 4 * count];
      && |csrcs| % 4 == 0 && |csrcs| / 4 == count
      && [FirstByte(PaddingBit(packet[0]), ExtensionBit(packet[0]), count), packet[1],
          ReadUint16BE(packet, 2) / 0x100, ReadUint16BE(packet, 2) % 0x100] + packet[4..12] + csrcs ==
         packet[..12 + 4 * count]
  {
    FirstByteOfFields(packet[0]);
    hide FirstByte, Version, PaddingBit, ExtensionBit, CsrcCount;
    FourTimes(count);
    Uint16BEOfRead(packet, 2);
    assert packet[2..4] == [packet[2], packet[3]];
    hide ReadUint16BE;
    assert [packet[0], packet[1], packet[2], packet[3]] + packet[4..12] + packet[12..12 + 4 * count] ==
           packet[..12 + 4 * count];
  }

  lemma HeaderParts(packet: seq<Byte>, n: int, m: int)
    requires IsCut(packet, n, m) && 12 + 4 * CsrcCount(packet[0]) <= n
    ensures Parts(packet, n, m).ValidHeader() && Parts(packet, n, m).Header() == packet[..n]
  {
    var p, count := Parts(packet, n, m), CsrcCount(packet[0]);
    var at := 12 + 4 * count;
    FrontParts(packet, count);
    if ExtensionBit(packet[0]) {
      ExtensionParts(packet, at, n);
    }
    assert !ExtensionBit(packet[0]) ==> n == at;
    hide HeaderLength, FirstByte, Version, PaddingBit, ExtensionBit, CsrcCount, Extension.Bytes, Extension.Valid;
    if p.extension.Some? {
      assert packet[..at] + packet[at..n] == packet[..n];
    } else {
      assert packet[..at] + [] == packet[..n];
    }
  }

  /** Every success is a split of the packet into header, payload and padding. */
  lemma DepacketizedIsSerialized(packet: seq<Byte>) returns (p: RtpPacket)
    requires DepacketizeRtpPayload(packet).Payload?
    ensures p.Valid() && p.Serialize() == packet && p.payload == DepacketizeRtpPayload(packet).bytes
  {
    var n := HeaderLength(packet);
    var m := n + |DepacketizeRtpPayload(packet).bytes|;
    DepacketizedIffCut(packet, n, m);
    HeaderLengthBounds(packet);
    hide HeaderLength, Version, ExtensionBit, CsrcCount, PaddingBit, DepacketizeRtpPayload, RtpPacket.Header;
    p := Parts(packet, n, m);
    HeaderParts(packet, n, m);
    hide RtpPacket.ValidHeader;
    assert packet[..n] + packet[n..m] == packet[..m];
    assert packet[..m] + packet[m..] == packet;
    assert !PaddingBit(packet[0]) ==> packet[..m] + [] == packet;
    assert p.Serialize() == packet;
  }
}
