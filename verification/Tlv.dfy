/** The HDHomeRun tag-length-value encoding. */
module Tlv {
  import opened Bytes

  datatype VarLength = VarLength(byteLength: nat, value: nat)
  datatype Tag = Tag(tag: Byte, body: seq<Byte>)

  const MAX_BODY := 0x7fff

  /** Lengths beyond two bytes lose their high bits. */
  function EncodeVarLength(length: nat): seq<Byte> {
    if length <= 0x7f then [length] else [length % 0x80 + 0x80, length / 0x80 % 0x100]
  }

  function ReadVarLength(packet: seq<Byte>, offset: nat): (r: Option<VarLength>)
    ensures r.Some? ==> 1 <= r.value.byteLength <= 2 && offset + r.value.byteLength <= |packet|
  {
    if offset >= |packet| then None
    else
      var first: int := packet[offset];
      if first < 0x80 then Some(VarLength(1, first))
      else if offset + 1 >= |packet| then None
      else
        var second: int := packet[offset + 1];
        Some(VarLength(2, first % 0x80 + 0x80 * second))
  }

  /** At any offset, a length is read back exactly when it fits into fifteen bits. */
  lemma VarLengthRoundTrip(before: seq<Byte>, length: nat, after: seq<Byte>)
    ensures
      var r := ReadVarLength(before + EncodeVarLength(length) + after, |before|);
      && r.Some? && r.value.byteLength == |EncodeVarLength(length)|
      && (r.value.value == length <==> length <= 32767)
  {
    var packet := before + EncodeVarLength(length) + after;
    assert packet[|before|] == EncodeVarLength(length)[0];
    if length > 0x7f {
      assert packet[|before| + 1] == EncodeVarLength(length)[1];
    }
  }

  function EncodeTag(tag: Byte, body: seq<Byte>): seq<Byte> {
    [tag] + EncodeVarLength(|body|) + body
  }

  function EncodeTags(tags: seq<Tag>): seq<Byte> {
    if tags == [] then [] else EncodeTag(tags[0].tag, tags[0].body) + EncodeTags(tags[1..])
  }

  /** The tag at the front of a payload, and where it ends. */
  function FirstTag(payload: seq<Byte>): (r: Option<(Tag, nat)>)
    requires payload != []
    ensures r.Some? ==> 0 < r.value.1 <= |payload|
  {
    match ReadVarLength(payload, 1)
    case None => None
    case Some(length) =>
      var begin := 1 + length.byteLength;
      if begin + length.value > |payload| then None
      else Some((Tag(payload[0], payload[begin..begin + length.value]), begin + length.value))
  }

  /** The tags that tile a payload exactly, if it can be tiled. */
  function Tags(payload: seq<Byte>): Option<seq<Tag>>
    decreases |payload|
  {
    if payload == [] then Some([])
    else
      match FirstTag(payload)
      case None => None
      case Some(first) => Prepend([first.0], Tags(payload[first.1..]))
  }

  function Prepend(done: seq<Tag>, rest: Option<seq<Tag>>): Option<seq<Tag>> {
    match rest
    case None => None
    case Some(tags) => Some(done + tags)
  }

  /** A tag is read back exactly when its body fits. */
  lemma FirstTagEncoded(tag: Tag, rest: seq<Byte>)
    ensures FirstTag(EncodeTag(tag.tag, tag.body) + rest) == Some((tag, |EncodeTag(tag.tag, tag.body)|))
            <==> |tag.body| <= 32767
  {
    var encoded := EncodeTag(tag.tag, tag.body);
    var payload := encoded + rest;
    VarLengthRoundTrip([tag.tag], |tag.body|, tag.body + rest);
    assert payload == [tag.tag] + EncodeVarLength(|tag.body|) + (tag.body + rest);
    assert payload[1 + |EncodeVarLength(|tag.body|)|..|encoded|] == tag.body;
    hide EncodeVarLength, ReadVarLength;
  }

  /** A length of at most 127 is one byte. */
  lemma TagBytes(tag: Tag, rest: seq<Byte>)
    requires |tag.body| <= 127
    ensures EncodeTag(tag.tag, tag.body) == [tag.tag, |tag.body|] + tag.body
    ensures Tags([tag.tag, |tag.body|] + tag.body + rest) == Prepend([tag], Tags(rest))
  {
    FirstTagEncoded(tag, rest);
    var encoded := EncodeTag(tag.tag, tag.body);
    assert encoded == [tag.tag, |tag.body|] + tag.body;
    assert (encoded + rest)[|encoded|..] == rest;
    hide FirstTag, EncodeTag;
  }

  lemma OneTagBytes(n: Tag)
    requires |n.body| <= 127
    ensures Tags([n.tag, |n.body|] + n.body) == Some([n])
  {
    var bytes := [n.tag, |n.body|] + n.body;
    TagBytes(n, []);
    assert Tags([]) == Some([]);
    hide Tags, EncodeTag;
    assert bytes + [] == bytes && [n] + [] == [n];
  }

  lemma TwoTagsBytes(n: Tag, v: Tag)
    requires |n.body| <= 127 && |v.body| <= 127
    ensures Tags([n.tag, |n.body|] + n.body) == Some([n])
    ensures Tags([n.tag, |n.body|] + n.body + ([v.tag, |v.body|] + v.body)) == Some([n, v])
  {
    var first, rest := [n.tag, |n.body|] + n.body, [v.tag, |v.body|] + v.body;
    TagBytes(n, []);
    TagBytes(n, rest);
    TagBytes(v, []);
    assert Tags([]) == Some([]);
    hide Tags, EncodeTag;
    assert first + [] == first && rest + [] == rest;
    assert [n] + [] == [n] && [v] + [] == [v] && [n] + [v] == [n, v];
  }

  /** A longer one is two: the low seven bits with the top bit set, and then the rest. */
  lemma LongTagBytes(tag: Tag, rest: seq<Byte>)
    requires 127 < |tag.body| <= 32767
    ensures
      var n := |tag.body|;
      && EncodeTag(tag.tag, tag.body) == [tag.tag, 0x80 + n % 0x80, n / 0x80] + tag.body
      && Tags([tag.tag, 0x80 + n % 0x80, n / 0x80] + tag.body + rest) == Prepend([tag], Tags(rest))
  {
    FirstTagEncoded(tag, rest);
    var encoded, n := EncodeTag(tag.tag, tag.body), |tag.body|;
    assert encoded == [tag.tag, 0x80 + n % 0x80, n / 0x80] + tag.body;
    assert (encoded + rest)[|encoded|..] == rest;
    hide FirstTag, EncodeTag;
  }

  /** Tags are read as they were written. */
  lemma {:induction false} TagsRoundTrip(tags: seq<Tag>)
    requires forall i :: 0 <= i < |tags| ==> |tags[i].body| <= MAX_BODY
    ensures Tags(EncodeTags(tags)) == Some(tags)
  {
    if tags != [] {
      TagsRoundTrip(tags[1..]);
      var encoded := EncodeTag(tags[0].tag, tags[0].body);
      FirstTagEncoded(tags[0], EncodeTags(tags[1..]));
      assert EncodeTags(tags)[|encoded|..] == EncodeTags(tags[1..]);
      assert tags == [tags[0]] + tags[1..];
    }
  }

  /** One turn of a parser's loop: a prefix is read, the rest starts with `first`. */
  lemma TagsStep(done: seq<Tag>, payload: seq<Byte>)
    requires payload != []
    ensures FirstTag(payload).None? ==> Prepend(done, Tags(payload)) == None
    ensures FirstTag(payload).Some? ==>
              var first := FirstTag(payload).value;
              Prepend(done, Tags(payload)) == Prepend(done + [first.0], Tags(payload[first.1..]))
  {
    if FirstTag(payload).Some? && Tags(payload).Some? {
      var first := FirstTag(payload).value;
      assert done + ([first.0] + Tags(payload[first.1..]).value) ==
             done + [first.0] + Tags(payload[first.1..]).value;
    }
  }

  lemma SliceOfSlice(b: seq<Byte>, from: nat, to: nat, i: nat, j: nat)
    requires from <= to <= |b| && i <= j <= to - from
    ensures b[from..to][i..j] == b[from + i..from + j]
  {
    forall k | 0 <= k < j - i ensures b[from..to][i..j][k] == b[from + i..from + j][k] {
      assert b[from..to][i + k] == b[from + i + k];
    }
  }

  /** Reading a length from the whole packet is reading it from the payload cut out of it. */
  lemma ReadWithin(packet: seq<Byte>, offset: nat, limit: nat)
    requires offset < limit <= |packet|
    ensures
      var slice, whole := FirstTag(packet[offset..limit]), ReadVarLength(packet, offset + 1);
      && (whole.None? ==> slice.None?)
      && (whole.Some? ==>
            var begin := offset + 1 + whole.value.byteLength;
            if begin + whole.value.value > limit then slice.None?
            else slice == Some((Tag(packet[offset], packet[begin..begin + whole.value.value]),
                                begin + whole.value.value - offset)))
  {
    var whole, inner := ReadVarLength(packet, offset + 1), ReadVarLength(packet[offset..limit], 1);
    if inner.Some? {
      assert packet[offset..limit][1] == packet[offset + 1];
      if packet[offset + 1] >= 0x80 {
        assert packet[offset..limit][2] == packet[offset + 2];
      }
      assert inner == whole;
      var begin := offset + 1 + whole.value.byteLength;
      if begin + whole.value.value <= limit {
        SliceOfSlice(packet, offset, limit, begin - offset, begin + whole.value.value - offset);
      }
    }
  }

  lemma NothingDone(payload: seq<Byte>)
    ensures Prepend([], Tags(payload)) == Tags(payload)
  {
    if Tags(payload).Some? {
      assert [] + Tags(payload).value == Tags(payload).value;
    }
  }

  lemma AllDone(done: seq<Tag>)
    ensures Prepend(done, Tags([])) == Some(done)
  {
    assert done + [] == done;
  }

  /** One turn of a parser's loop over `packet[..limit]`, in terms of the lengths it reads. */
  lemma ReadStep(done: seq<Tag>, packet: seq<Byte>, offset: nat, limit: nat)
    requires offset < limit <= |packet|
    ensures
      var length, all := ReadVarLength(packet, offset + 1), Prepend(done, Tags(packet[offset..limit]));
      if length.None? then all == None
      else
        var begin := offset + 1 + length.value.byteLength;
        var end := begin + length.value.value;
        if end > limit then all == None
        else all == Prepend(done + [Tag(packet[offset], packet[begin..end])], Tags(packet[end..limit]))
  {
    hide Tags, Prepend, ReadVarLength, FirstTag;
    ReadWithin(packet, offset, limit);
    TagsStep(done, packet[offset..limit]);
    var length := ReadVarLength(packet, offset + 1);
    if length.Some? {
      var end := offset + 1 + length.value.byteLength + length.value.value;
      if end <= limit {
        SliceOfSlice(packet, offset, limit, end - offset, limit - offset);
      }
    }
  }
}
