/** The CRC-trailed HDHomeRun frame, for any checksum. */
module Frames {
  import opened Bytes

  type Checksum = seq<Byte> -> Word32

  datatype Frame =
    | Good(frameType: Word, payload: seq<Byte>, totalLength: nat)
    | Corrupt(totalLength: nat)

  function Uint32LE(w: Word32): (b: seq<Byte>)
    ensures |b| == 4
  {
    [w % 0x100, w / 0x100 % 0x100, w / 0x1_0000 % 0x100, w / 0x100_0000]
  }

  function ReadUint32LE(b: seq<Byte>, offset: nat): Word32
    requires offset + 4 <= |b|
  {
    var b0: int, b1: int, b2: int, b3: int := b[offset], b[offset + 1], b[offset + 2], b[offset + 3];
    b0 + 0x100 * b1 + 0x1_0000 * b2 + 0x100_0000 * b3
  }

  lemma Uint32LERoundTrip(w: Word32)
    ensures ReadUint32LE(Uint32LE(w), 0) == w
  {
    assert w / 0x1_0000 == w / 0x100 / 0x100 && w / 0x100_0000 == w / 0x1_0000 / 0x100;
  }

  /** The length field holds sixteen bits. */
  function BuildFrame(crc: Checksum, frameType: Word, payload: seq<Byte>): seq<Byte> {
    var packet := Uint16BE(frameType) + Uint16BE(|payload| % 0x1_0000) + payload;
    packet + Uint32LE(crc(packet))
  }

  function TryReadFrame(crc: Checksum, buffer: seq<Byte>): (f: Option<Frame>)
    ensures f.Some? ==> 8 <= f.value.totalLength <= |buffer|
  {
    if |buffer| < 8 then None
    else
      var payloadLength: int := ReadUint16BE(buffer, 2);
      var totalLength := 4 + payloadLength + 4;
      if |buffer| < totalLength then None
      else if crc(buffer[..totalLength - 4]) != ReadUint32LE(buffer, totalLength - 4) then Some(Corrupt(totalLength))
      else Some(Good(ReadUint16BE(buffer, 0), buffer[4..4 + payloadLength], totalLength))
  }

  /** In front of anything, a frame is read back exactly when its length fits into the header. */
  lemma FrameRoundTrip(crc: Checksum, frameType: Word, payload: seq<Byte>, rest: seq<Byte>)
    ensures TryReadFrame(crc, BuildFrame(crc, frameType, payload) + rest) ==
            Some(Good(frameType, payload, 8 + |payload|))
            <==> |payload| <= 65535
  {
    if |payload| <= 0xffff {
      FrameReadBack(crc, frameType, payload, rest);
    }
  }

  lemma FrameReadBack(crc: Checksum, frameType: Word, payload: seq<Byte>, rest: seq<Byte>)
    requires |payload| <= 0xffff
    ensures TryReadFrame(crc, BuildFrame(crc, frameType, payload) + rest) ==
            Some(Good(frameType, payload, 8 + |payload|))
  {
    hide Uint16BE, Uint32LE, ReadUint16BE, ReadUint32LE;
    var packet := Uint16BE(frameType) + Uint16BE(|payload|) + payload;
    var trailer := Uint32LE(crc(packet));
    var buffer := BuildFrame(crc, frameType, payload) + rest;
    var n := 4 + |payload|;
    assert buffer == packet + trailer + rest;
    hide BuildFrame;
    assert buffer[0..2] == Uint16BE(frameType) && buffer[2..4] == Uint16BE(|payload|);
    assert buffer[..n] == packet && buffer[4..n] == payload && buffer[n..n + 4] == trailer;
    ReadFromSlice(buffer, 0);
    ReadFromSlice(buffer, 2);
    ReadLEFromSlice(buffer, n);
    Uint32LERoundTrip(crc(packet));
  }

  lemma ReadFromSlice(buffer: seq<Byte>, offset: nat)
    requires offset + 2 <= |buffer|
    ensures ReadUint16BE(buffer, offset) == ReadUint16BE(buffer[offset..offset + 2], 0)
  {
  }

  lemma ReadLEFromSlice(buffer: seq<Byte>, offset: nat)
    requires offset + 4 <= |buffer|
    ensures ReadUint32LE(buffer, offset) == ReadUint32LE(buffer[offset..offset + 4], 0)
  {
  }

  /**
   * The bytes of a frame: type and length with the more significant byte first, the payload, and
   * the checksum of all these with the least significant byte first.
   */
  lemma FrameBytes(crc: Checksum, frameType: Word, payload: seq<Byte>, sum: Word32, rest: seq<Byte>)
    requires |payload| <= 65535
    ensures
      var body := [frameType / 0x100, frameType % 0x100, |payload| / 0x100, |payload| % 0x100] + payload;
      var trailer := [sum % 0x100, sum / 0x100 % 0x100, sum / 0x1_0000 % 0x100, sum / 0x100_0000];
      TryReadFrame(crc, body + trailer + rest) ==
      Some(if crc(body) == sum then Good(frameType, payload, 8 + |payload|) else Corrupt(8 + |payload|))
  {
    var body := [frameType / 0x100, frameType % 0x100, |payload| / 0x100, |payload| % 0x100] + payload;
    var trailer := Uint32LE(sum);
    var b, n := body + trailer + rest, 4 + |payload|;
    assert b[0] == frameType / 0x100 && b[1] == frameType % 0x100;
    assert b[2] == |payload| / 0x100 && b[3] == |payload| % 0x100;
    assert ReadUint16BE(b, 0) == frameType && ReadUint16BE(b, 2) == |payload|;
    assert b[n..n + 4] == trailer;
    ReadLEFromSlice(b, n);
    Uint32LERoundTrip(sum);
    hide ReadUint16BE, ReadUint32LE;
    assert b[..n] == body && b[4..n] == payload;
  }

  /** And the bytes that are built. */
  lemma BuiltBytes(crc: Checksum, frameType: Word, payload: seq<Byte>)
    requires |payload| <= 65535
    ensures
      var body := [frameType / 0x100, frameType % 0x100, |payload| / 0x100, |payload| % 0x100] + payload;
      var sum := crc(body);
      BuildFrame(crc, frameType, payload) ==
      body + [sum % 0x100, sum / 0x100 % 0x100, sum / 0x1_0000 % 0x100, sum / 0x100_0000]
  {
    var body := [frameType / 0x100, frameType % 0x100, |payload| / 0x100, |payload| % 0x100] + payload;
    assert Uint16BE(frameType) + Uint16BE(|payload| % 0x1_0000) + payload == body;
  }

  /** The first frame is decided by its own bytes. */
  lemma TryReadFrameStable(crc: Checksum, buffer: seq<Byte>, more: seq<Byte>)
    requires TryReadFrame(crc, buffer).Some?
    ensures TryReadFrame(crc, buffer + more) == TryReadFrame(crc, buffer)
  {
    var n := 8 + ReadUint16BE(buffer, 2);
    SliceBefore(buffer, more, 0, n - 4);
    SliceBefore(buffer, more, 4, n - 4);
  }
}
