/**
 * RTP sequence numbers: 16-bit wrapping arithmetic, and its relation to the unbounded
 * packet indices that it abbreviates (the extended sequence number of RFC 3550, A.1).
 */
module SequenceNumbers {
  import opened Bytes

  /** A datagram long enough to hold a sequence number, which the reorder buffer takes for granted. */
  type Packet = p: seq<Byte> | 4 <= |p| witness [0, 0, 0, 0]

  const HALF := 0x8000

  function SequenceDistance(from: Word, to: Word): Word {
    (to - from + 0x1_0000) % 0x1_0000
  }

  predicate IsStaleSequence(sequence: Word, expected: Word) {
    SequenceDistance(expected, sequence) > 0x7fff
  }

  function ParseRtpSequence(packet: Packet): Word {
    ReadUint16BE(packet, 2)
  }

  /** The third and fourth byte, the more significant one first. */
  lemma SequenceIsRead(a: Byte, b: Byte, sequence: Word, rest: seq<Byte>)
    ensures ParseRtpSequence([a, b, sequence / 0x100, sequence % 0x100] + rest) == sequence
  {
  }

  /** The sequence number that carries packet index `i`. */
  function Wire(i: int): Word {
    i % 0x1_0000
  }

  /** `i` is near enough to `e` for 16 bits to tell them apart. */
  predicate InWindow(e: int, i: int) {
    e - HALF <= i < e + HALF
  }

  /** The index meant by sequence number `s` when index `e` is expected next. */
  function Unwrap(e: int, s: Word): (i: int)
    ensures InWindow(e, i) && Wire(i) == s
  {
    var d := SequenceDistance(Wire(e), s);
    if d > 0x7fff then e + d - 0x1_0000 else e + d
  }

  lemma UnwrapExact(e: int, i: int)
    ensures Unwrap(e, Wire(i)) == i <==> InWindow(e, i)
    ensures InWindow(e, i) <==> e - 32768 <= i <= e + 32767
  {
    var u := Unwrap(e, Wire(i));
    assert u % 0x1_0000 == i % 0x1_0000;
  }

  lemma DistanceIsIndexDifference(e: int, i: int)
    requires e <= i < e + 0x1_0000
    ensures SequenceDistance(Wire(e), Wire(i)) == i - e
  {
  }

  /** Staleness of the sequence number decides exactly whether the index is overdue. */
  lemma StaleIffOverdue(e: int, i: int)
    requires InWindow(e, i)
    ensures IsStaleSequence(Wire(i), Wire(e)) <==> i < e
  {
  }

  lemma WireInjective(i: int, j: int)
    requires Wire(i) == Wire(j) && -0x1_0000 < i - j < 0x1_0000
    ensures i == j
  {
  }
}
