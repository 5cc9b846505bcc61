/** HDHomeRun get/set requests: names and values as NUL-terminated strings in tags. */
module GetSet {
  import opened Bytes
  import opened Tlv
  import opened Frames

  const NAME: Byte := 0x03
  const VALUE: Byte := 0x04
  const ERROR_MESSAGE: Byte := 0x05
  const GETSET_REQUEST: Word := 0x0004
  const GETSET_REPLY: Word := 0x0005

  datatype Request = Request(name: Text, value: Option<Text>)

  /** Without the NULs at its end. */
  function DecodeCString(body: seq<Byte>): Text {
    if body != [] && body[|body| - 1] == 0 then DecodeCString(body[..|body| - 1]) else body
  }

  function EncodeCString(text: Text): (body: seq<Byte>)
    ensures |body| == |text| + 1
  {
    text + [0]
  }

  /** Not in a NUL. */
  predicate EndsWell(text: Text) {
    text == [] || text[|text| - 1] != 0
  }

  /** A string survives its encoding exactly when it does not end in NUL. */
  lemma CStringRoundTrip(text: Text)
    ensures DecodeCString(EncodeCString(text)) == text <==> EndsWell(text)
  {
    assert EncodeCString(text)[..|text|] == text;
    DecodeShrinks(text);
  }

  lemma {:induction false} DecodeShrinks(body: seq<Byte>)
    ensures |DecodeCString(body)| <= |body|
    ensures body != [] && body[|body| - 1] == 0 ==> |DecodeCString(body)| < |body|
  {
    if body != [] && body[|body| - 1] == 0 {
      DecodeShrinks(body[..|body| - 1]);
    }
  }

  /** The last body under a tag. */
  function LastBody(tags: seq<Tag>, tag: Byte): Option<seq<Byte>> {
    if tags == [] then None
    else
      var n := |tags| - 1;
      if tags[n].tag == tag then Some(tags[n].body) else LastBody(tags[..n], tag)
  }

  function LastText(tags: seq<Tag>, tag: Byte): Option<Text> {
    match LastBody(tags, tag)
    case None => None
    case Some(body) => Some(DecodeCString(body))
  }

  lemma LastTextNext(tags: seq<Tag>, next: Tag, tag: Byte)
    ensures LastText(tags + [next], tag) ==
            if next.tag == tag then Some(DecodeCString(next.body)) else LastText(tags, tag)
  {
    assert (tags + [next])[..|tags|] == tags;
  }

  /** The request that a payload's tags make, if they name anything. */
  function RequestOf(tags: seq<Tag>): Option<Request> {
    match LastText(tags, NAME)
    case None => None
    case Some(name) => Some(Request(name, LastText(tags, VALUE)))
  }

  function ParseRequest(payload: seq<Byte>): Option<Request> {
    match Tags(payload)
    case None => None
    case Some(tags) => RequestOf(tags)
  }

  /** One turn of the tag loop. */
  method ReadField(payload: seq<Byte>, offset: nat, name: Option<Text>, value: Option<Text>, ghost done: seq<Tag>)
    returns (ok: bool, next: nat, name': Option<Text>, value': Option<Text>, ghost tags: seq<Tag>)
    requires offset < |payload|
    requires name == LastText(done, NAME) && value == LastText(done, VALUE)
    ensures !ok ==> Prepend(done, Tags(payload[offset..|payload|])) == None
    ensures ok ==>
              && offset < next <= |payload| && name' == LastText(tags, NAME) && value' == LastText(tags, VALUE)
              && Prepend(done, Tags(payload[offset..|payload|])) == Prepend(tags, Tags(payload[next..|payload|]))
  {
    hide Tags, Prepend, ReadVarLength, DecodeCString, LastText;
    ReadStep(done, payload, offset, |payload|);
    ok, next, name', value', tags := false, offset, name, value, done;
    var tag := payload[offset];
    var length := ReadVarLength(payload, offset + 1);
    if length.None? {
      return;
    }
    var begin := offset + 1 + length.value.byteLength;
    if begin + length.value.value > |payload| {
      return;
    }
    var body := payload[begin..begin + length.value.value];
    var text := DecodeCString(body);
    if tag == NAME {
      name' := Some(text);
    } else if tag == VALUE {
      value' := Some(text);
    }
    LastTextNext(done, Tag(tag, body), NAME);
    LastTextNext(done, Tag(tag, body), VALUE);
    tags := done + [Tag(tag, body)];
    ok, next := true, begin + length.value.value;
  }

  method ParseGetSetRequest(payload: seq<Byte>) returns (r: Option<Request>)
    ensures r == ParseRequest(payload)
  {
    var offset := 0;
    var name, value := None, None;
    ghost var done: seq<Tag> := [];
    NothingDone(payload);
    assert payload[0..|payload|] == payload;
    assert name == LastText(done, NAME) && value == LastText(done, VALUE);
    hide Tags, Prepend, LastText;
    while offset < |payload|
      invariant offset <= |payload|
      invariant Tags(payload) == Prepend(done, Tags(payload[offset..|payload|]))
      invariant name == LastText(done, NAME) && value == LastText(done, VALUE)
    {
      var ok;
      ok, offset, name, value, done := ReadField(payload, offset, name, value, done);
      if !ok {
        return None;
      }
    }
    AllDone(done);
    assert payload[offset..|payload|] == [];
    if name.None? {
      return None;
    }
    return Some(Request(name.value, value));
  }

  // ---------------------------------------------------------------- round trips

  predicate Foreign(tags: seq<Tag>) {
    forall i :: 0 <= i < |tags| ==> tags[i].tag != NAME && tags[i].tag != VALUE
  }

  lemma {:induction false} LastBodySkips(tags: seq<Tag>, foreign: seq<Tag>, tag: Byte)
    requires forall i :: 0 <= i < |foreign| ==> foreign[i].tag != tag
    ensures LastBody(tags + foreign, tag) == LastBody(tags, tag)
  {
    if foreign == [] {
      assert tags + foreign == tags;
    } else {
      var n := |foreign| - 1;
      assert (tags + foreign)[..|tags| + n] == tags + foreign[..n];
      LastBodySkips(tags, foreign[..n], tag);
    }
  }

  lemma LastBodyFound(tags: seq<Tag>, body: seq<Byte>, tag: Byte)
    ensures LastBody(tags + [Tag(tag, body)], tag) == Some(body)
  {
  }

  /** Unknown tags anywhere around them do not disturb a name and a value. */
  lemma RequestRoundTrip(a: seq<Tag>, name: Text, b: seq<Tag>, value: Text, c: seq<Tag>)
    requires Foreign(a) && Foreign(b) && Foreign(c)
    ensures
      var n, v := Tag(NAME, EncodeCString(name)), Tag(VALUE, EncodeCString(value));
      RequestOf(a + [n] + b + [v] + c) == Some(Request(name, Some(value)))
      <==> EndsWell(name) && EndsWell(value)
  {
    var n, v := Tag(NAME, EncodeCString(name)), Tag(VALUE, EncodeCString(value));
    LastBodySkips(a + [n], b + [v] + c, NAME);
    assert a + [n] + b + [v] + c == a + [n] + (b + [v] + c);
    LastBodyFound(a, n.body, NAME);
    LastBodySkips(a + [n] + b + [v], c, VALUE);
    LastBodyFound(a + [n] + b, v.body, VALUE);
    CStringRoundTrip(name);
    CStringRoundTrip(value);
  }

  /** The whole payload: encoded, then parsed. */
  lemma PayloadRoundTrip(a: seq<Tag>, name: Text, b: seq<Tag>, value: Text, c: seq<Tag>)
    requires Foreign(a) && Foreign(b) && Foreign(c)
    requires
      var tags := a + [Tag(NAME, EncodeCString(name))] + b + [Tag(VALUE, EncodeCString(value))] + c;
      forall i :: 0 <= i < |tags| ==> |tags[i].body| <= MAX_BODY
    ensures
      var tags := a + [Tag(NAME, EncodeCString(name))] + b + [Tag(VALUE, EncodeCString(value))] + c;
      ParseRequest(EncodeTags(tags)) == Some(Request(name, Some(value)))
      <==> EndsWell(name) && EndsWell(value)
  {
    TagsRoundTrip(a + [Tag(NAME, EncodeCString(name))] + b + [Tag(VALUE, EncodeCString(value))] + c);
    RequestRoundTrip(a, name, b, value, c);
  }

  function ReplyPayload(name: Text, tag: Byte, text: Text): seq<Byte> {
    EncodeTag(NAME, EncodeCString(name)) + EncodeTag(tag, EncodeCString(text))
  }

  function BuildReply(crc: Checksum, name: Text, tag: Byte, text: Text): seq<Byte> {
    BuildFrame(crc, GETSET_REPLY, ReplyPayload(name, tag, text))
  }

  function BuildGetSetReply(crc: Checksum, name: Text, value: Text): seq<Byte> {
    BuildReply(crc, name, VALUE, value)
  }

  function BuildErrorReply(crc: Checksum, name: Text, message: Text): seq<Byte> {
    BuildReply(crc, name, ERROR_MESSAGE, message)
  }

  /** A reply repeats the name with a NUL appended, so one byte less fits into it than into a request. */
  lemma EchoedName(name: Text, rest: seq<Byte>)
    ensures
      var request, reply := Tag(NAME, name), Tag(NAME, EncodeCString(name));
      && (FirstTag(EncodeTag(NAME, request.body) + rest) == Some((request, |EncodeTag(NAME, request.body)|))
          <==> |name| <= MAX_BODY)
      && (FirstTag(EncodeTag(NAME, reply.body) + rest) == Some((reply, |EncodeTag(NAME, reply.body)|))
          <==> |name| < MAX_BODY)
  {
    FirstTagEncoded(Tag(NAME, name), rest);
    FirstTagEncoded(Tag(NAME, EncodeCString(name)), rest);
  }

  /** The bytes of a request: name under 3, value under 4, each with a NUL at its end. */
  lemma RequestBytes(name: Text, value: Text)
    requires |name| < 127 && |value| < 127 && EndsWell(name) && EndsWell(value)
    ensures ParseRequest([0x03, |name| + 1] + (name + [0])) == Some(Request(name, None))
    ensures ParseRequest([0x03, |name| + 1] + (name + [0]) + ([0x04, |value| + 1] + (value + [0]))) ==
            Some(Request(name, Some(value)))
  {
    var n, v := Tag(0x03, name + [0]), Tag(0x04, value + [0]);
    TwoTagsBytes(n, v);
    CStringRoundTrip(name);
    CStringRoundTrip(value);
    hide Tags, DecodeCString, EndsWell;
    LastTextOfOne(n, NAME);
    LastTextOfOne(n, VALUE);
    LastTextNext([n], v, NAME);
    LastTextNext([n], v, VALUE);
    hide LastText;
    assert [n] + [v] == [n, v];
    assert [0x03, |name| + 1] + (name + [0]) == [n.tag, |n.body|] + n.body;
    assert [0x04, |value| + 1] + (value + [0]) == [v.tag, |v.body|] + v.body;
  }

  /** The bytes of a reply: a frame of type 5 with the name under 3 and the value under 4 or the message under 5. */
  lemma ReplyBytes(crc: Checksum, name: Text, text: Text)
    requires |name| < 127 && |text| < 127
    ensures
      var payload := [0x03, |name| + 1] + (name + [0]) + ([0x04, |text| + 1] + (text + [0]));
      BuildGetSetReply(crc, name, text) == BuildFrame(crc, 0x0005, payload)
    ensures
      var payload := [0x03, |name| + 1] + (name + [0]) + ([0x05, |text| + 1] + (text + [0]));
      BuildErrorReply(crc, name, text) == BuildFrame(crc, 0x0005, payload)
  {
    TagBytes(Tag(0x03, name + [0]), []);
    TagBytes(Tag(0x04, text + [0]), []);
    TagBytes(Tag(0x05, text + [0]), []);
    hide Tags, EncodeTag, BuildFrame;
  }

  // ---------------------------------------------------------------- names that are too long

  /** A body of one byte more than fits is announced as empty; its bytes are read as further tags. */
  lemma TooLongByOne(tag: Byte, text: Text, rest: seq<Byte>)
    requires |text| == MAX_BODY
    ensures Tags(EncodeTag(tag, EncodeCString(text)) + rest) ==
            Prepend([Tag(tag, [])], Tags(EncodeCString(text) + rest))
  {
    var encoded := EncodeTag(tag, EncodeCString(text)) + rest;
    assert EncodeVarLength(MAX_BODY + 1) == [0x80, 0];
    assert encoded[0] == tag && encoded[1] == 0x80 && encoded[2] == 0;
    assert ReadVarLength(encoded, 1) == Some(VarLength(2, 0)) && encoded[3..3] == [];
    assert FirstTag(encoded) == Some((Tag(tag, []), 3));
    assert encoded[3..] == EncodeCString(text) + rest;
  }

  /** The first tag of the reply to the longest name is an empty name; the name's bytes follow as tags. */
  lemma LongestNameIsLost(name: Text, tag: Byte, text: Text)
    requires |name| == MAX_BODY
    ensures Tags(ReplyPayload(name, tag, text)) ==
            Prepend([Tag(NAME, [])], Tags(EncodeCString(name) + EncodeTag(tag, EncodeCString(text))))
  {
    TooLongByOne(NAME, name, EncodeTag(tag, EncodeCString(text)));
  }

  /** For example, a reply to an unknown key that no reader accepts. */
  lemma LongestNameRejected(name: Text)
    requires |name| == MAX_BODY && name[..3] == [0x41, 0xff, 0xff]
    ensures ParseRequest(ReplyPayload(name, ERROR_MESSAGE, Ascii("ERROR: unknown key"))) == None
  {
    var text := Ascii("ERROR: unknown key");
    var message := EncodeTag(ERROR_MESSAGE, EncodeCString(text));
    var r := EncodeCString(name) + message;
    LongestNameIsLost(name, ERROR_MESSAGE, text);
    assert |message| == 21 && message[2..] == EncodeCString(text);
    hide Ascii, EncodeTag, Tags, FirstTag;
    assert r[..3] == name[..3] && r[MAX_BODY + 3..] == message[2..];
    LongTagFirst(r);
    MessageIsNoTags();
    TagsOfRest(r);
  }

  lemma LongTagFirst(payload: seq<Byte>)
    requires MAX_BODY + 3 <= |payload| && payload[..3] == [0x41, 0xff, 0xff]
    ensures FirstTag(payload) == Some((Tag(0x41, payload[3..MAX_BODY + 3]), MAX_BODY + 3))
  {
    assert payload[0] == payload[..3][0] && payload[1] == payload[..3][1] && payload[2] == payload[..3][2];
    assert ReadVarLength(payload, 1) == Some(VarLength(2, MAX_BODY));
  }

  /** The text begins as a tag that is longer than the text. */
  lemma MessageIsNoTags()
    ensures Tags(EncodeCString(Ascii("ERROR: unknown key"))) == None
  {
    var payload := EncodeCString(Ascii("ERROR: unknown key"));
    MessageBegins();
    hide Ascii;
    assert ReadVarLength(payload, 1) == Some(VarLength(1, 0x52)) && FirstTag(payload) == None;
    NoFirstTag(payload);
  }

  lemma NoFirstTag(payload: seq<Byte>)
    requires payload != [] && FirstTag(payload) == None
    ensures Tags(payload) == None
  {
  }

  lemma TagsOfRest(payload: seq<Byte>)
    requires payload != [] && FirstTag(payload).Some? && Tags(payload[FirstTag(payload).value.1..]) == None
    ensures Tags(payload) == None
  {
  }

  lemma MessageBegins()
    ensures Ascii("ERROR: unknown key")[0] == 0x45 && Ascii("ERROR: unknown key")[1] == 0x52
  {
    var s := "ERROR: unknown key";
    assert s[1] == 'R' && s[1] as int % 0x100 == 0x52;
    assert Ascii(s)[1] == 0x52;
  }

  /** The least number of bytes that a tag takes. */
  function TagSize(body: seq<Byte>): nat {
    |body| + if |body| <= 0x7f then 2 else 3
  }

  function Sizes(tags: seq<Tag>): nat {
    if tags == [] then 0 else TagSize(tags[0].body) + Sizes(tags[1..])
  }

  lemma {:induction false} TagsFit(payload: seq<Byte>)
    requires Tags(payload).Some?
    ensures
      var tags := Tags(payload).value;
      && Sizes(tags) <= |payload|
      && (forall i :: 0 <= i < |tags| ==> |tags[i].body| <= MAX_BODY)
      && (tags != [] && tags[|tags| - 1].body != [] ==>
            tags[|tags| - 1].body[|tags[|tags| - 1].body| - 1] == payload[|payload| - 1])
    decreases |payload|
  {
    if payload != [] {
      var first := FirstTag(payload).value;
      var rest := payload[first.1..];
      assert Tags(payload).value == [first.0] + Tags(rest).value;
      assert Tags(payload).value[1..] == Tags(rest).value;
      TagsFit(rest);
      FirstTagFits(payload);
      hide FirstTag, Tags;
      if rest == [] {
        assert Tags(rest) == Some([]) by { TagsOfNothing(rest); }
      } else {
        assert rest[|rest| - 1] == payload[|payload| - 1];
        SomeTags(rest);
      }
    }
  }

  lemma TagsOfNothing(none: seq<Byte>)
    requires none == []
    ensures Tags(none) == Some([])
  {
  }

  lemma SomeTags(payload: seq<Byte>)
    requires payload != [] && Tags(payload).Some?
    ensures Tags(payload).value != []
  {
  }

  lemma FirstTagFits(payload: seq<Byte>)
    requires payload != [] && FirstTag(payload).Some?
    ensures
      var first := FirstTag(payload).value;
      && TagSize(first.0.body) <= first.1 && |first.0.body| <= MAX_BODY
      && (first.0.body != [] ==> first.0.body[|first.0.body| - 1] == payload[first.1 - 1])
  {
  }

  lemma {:induction false} OneFits(tags: seq<Tag>, i: nat)
    requires i < |tags|
    ensures TagSize(tags[i].body) + 2 * (|tags| - 1) <= Sizes(tags)
  {
    SizesAtLeast(tags[1..]);
    if i > 0 {
      OneFits(tags[1..], i - 1);
    }
  }

  lemma {:induction false} SizesAtLeast(tags: seq<Tag>)
    ensures 2 * |tags| <= Sizes(tags)
  {
    if tags != [] {
      SizesAtLeast(tags[1..]);
    }
  }

  lemma {:induction false} TwoFit(tags: seq<Tag>, i: nat, j: nat)
    requires i < |tags| && j < |tags| && i != j
    ensures TagSize(tags[i].body) + TagSize(tags[j].body) + 2 * (|tags| - 2) <= Sizes(tags)
  {
    if i == 0 {
      OneFits(tags[1..], j - 1);
    } else if j == 0 {
      OneFits(tags[1..], i - 1);
    } else {
      TwoFit(tags[1..], i - 1, j - 1);
    }
  }

  lemma {:induction false} LastBodyAt(tags: seq<Tag>, tag: Byte) returns (i: nat)
    requires LastBody(tags, tag).Some?
    ensures i < |tags| && tags[i] == Tag(tag, LastBody(tags, tag).value)
  {
    var n := |tags| - 1;
    if tags[n].tag == tag {
      i := n;
    } else {
      i := LastBodyAt(tags[..n], tag);
    }
  }

  lemma {:induction false} DecodedEndsWell(body: seq<Byte>)
    ensures EndsWell(DecodeCString(body)) && |DecodeCString(body)| <= |body|
    ensures |DecodeCString(body)| == |body| ==> EndsWell(body)
  {
    if body != [] && body[|body| - 1] == 0 {
      DecodedEndsWell(body[..|body| - 1]);
    }
  }

  /** A text that is read as a name or value of some tags is the end of one of them. */
  lemma TextAt(tags: seq<Tag>, tag: Byte, text: Text) returns (i: nat)
    requires LastText(tags, tag) == Some(text)
    ensures i < |tags| && tags[i].tag == tag && |text| <= |tags[i].body| && EndsWell(text)
    ensures |text| == |tags[i].body| ==> EndsWell(tags[i].body)
  {
    i := LastBodyAt(tags, tag);
    DecodedEndsWell(tags[i].body);
  }

  lemma {:induction false} LastTextAfter(first: Tag, tags: seq<Tag>, tag: Byte)
    ensures LastText([first] + tags, tag) ==
            if LastText(tags, tag).Some? then LastText(tags, tag) else LastText([first], tag)
  {
    if tags != [] {
      var n := |tags| - 1;
      assert ([first] + tags)[..n + 1] == [first] + tags[..n];
      LastTextAfter(first, tags[..n], tag);
    } else {
      assert [first] + tags == [first];
    }
  }

  lemma LastTextOfOne(one: Tag, tag: Byte)
    ensures LastText([one], tag) == if one.tag == tag then Some(DecodeCString(one.body)) else None
  {
    assert [one][..0] == [] && LastBody([one][..0], tag) == None;
  }

  /** The longest name and any value do not fit behind the empty name. */
  lemma LongestNameDoesNotFit(name: Text, value: Text, tags: seq<Tag>)
    requires |name| == MAX_BODY
    requires Tags(EncodeCString(name) + EncodeTag(VALUE, EncodeCString(value))) == Some(tags)
    ensures RequestOf([Tag(NAME, [])] + tags) != Some(Request(name, Some(value)))
  {
    hide Tags, LastText, RequestOf, Sizes;
    var payload := EncodeCString(name) + EncodeTag(VALUE, EncodeCString(value));
    if RequestOf([Tag(NAME, [])] + tags) == Some(Request(name, Some(value))) {
      RequestAfterEmptyName(name, value, tags);
      var i := TextAt(tags, NAME, name);
      var j := TextAt(tags, VALUE, value);
      TagsFit(payload);
      TwoFit(tags, i, j);
    }
  }

  lemma RequestAfterEmptyName(name: Text, value: Text, tags: seq<Tag>)
    requires name != [] && RequestOf([Tag(NAME, [])] + tags) == Some(Request(name, Some(value)))
    ensures LastText(tags, NAME) == Some(name) && LastText(tags, VALUE) == Some(value)
  {
    LastTextAfter(Tag(NAME, []), tags, NAME);
    LastTextAfter(Tag(NAME, []), tags, VALUE);
    LastTextOfOne(Tag(NAME, []), NAME);
    LastTextOfOne(Tag(NAME, []), VALUE);
    hide LastText;
  }

  /** The longest value does not fit behind the empty value. */
  lemma LongestValueDoesNotFit(name: Text, value: Text, tags: seq<Tag>)
    requires |name| < MAX_BODY && |value| == MAX_BODY
    requires Tags(EncodeTag(NAME, EncodeCString(name)) + EncodeTag(VALUE, EncodeCString(value))) == Some(tags)
    ensures LastText(tags, VALUE) != Some(value)
  {
    hide Tags, LastText;
    var n, body, rest := Tag(NAME, EncodeCString(name)), EncodeCString(value), EncodeTag(VALUE, EncodeCString(value));
    TagsOfFirst(n, rest);
    TooLongByOne(VALUE, value, []);
    assert rest + [] == rest && body + [] == body;
    var inner := Tags(body).value;
    assert tags == [n] + ([Tag(VALUE, [])] + inner);
    LastTextAfter(n, [Tag(VALUE, [])] + inner, VALUE);
    LastTextAfter(Tag(VALUE, []), inner, VALUE);
    LastTextOfOne(n, VALUE);
    LastTextOfOne(Tag(VALUE, []), VALUE);
    if LastText(inner, VALUE) == Some(value) {
      var j := TextAt(inner, VALUE, value);
      TagsFit(body);
      OneFits(inner, j);
    }
  }

  /** A tag that fits is the first of the tags. */
  lemma TagsOfFirst(first: Tag, rest: seq<Byte>)
    requires |first.body| <= MAX_BODY
    ensures Tags(EncodeTag(first.tag, first.body) + rest) == Prepend([first], Tags(rest))
  {
    FirstTagEncoded(first, rest);
    var encoded := EncodeTag(first.tag, first.body);
    assert (encoded + rest)[|encoded|..] == rest;
    hide FirstTag, EncodeTag;
  }

  /** The payload of a reply is read back exactly when name and value fit and do not end in NUL. */
  lemma ReplyPayloadRoundTrip(name: Text, value: Text)
    ensures ParseRequest(ReplyPayload(name, VALUE, value)) == Some(Request(name, Some(value)))
            <==> |name| < 32767 && |value| < 32767 && EndsWell(name) && EndsWell(value)
  {
    var n, v := Tag(NAME, EncodeCString(name)), Tag(VALUE, EncodeCString(value));
    if |name| < MAX_BODY && |value| < MAX_BODY {
      TwoTagsPayload(n, v);
      assert [] + [n] + [] + [v] + [] == [n, v];
      PayloadRoundTrip([], name, [], value, []);
    } else if ParseRequest(ReplyPayload(name, VALUE, value)) == Some(Request(name, Some(value))) {
      var tags := Tags(ReplyPayload(name, VALUE, value)).value;
      hide Tags, EncodeTag, LastText, EndsWell;
      var i := TextAt(tags, NAME, name);
      var j := TextAt(tags, VALUE, value);
      TagsFit(ReplyPayload(name, VALUE, value));
      if |name| == MAX_BODY {
        LongestNameIsLost(name, VALUE, value);
        LongestNameDoesNotFit(name, value, Tags(EncodeCString(name) + EncodeTag(VALUE, EncodeCString(value))).value);
      } else {
        LongestValueDoesNotFit(name, value, tags);
      }
    }
  }

  lemma TwoTagsPayload(n: Tag, v: Tag)
    ensures EncodeTags([n, v]) == EncodeTag(n.tag, n.body) + EncodeTag(v.tag, v.body)
  {
    assert [n, v][1..] == [v] && EncodeTags([v][1..]) == [];
    assert EncodeTags([v]) == EncodeTag(v.tag, v.body);
  }

  /** A reply is received whole and understood exactly when its strings and its payload fit. */
  lemma ReplyRoundTrip(crc: Checksum, name: Text, value: Text, rest: seq<Byte>)
    ensures
      var payload := ReplyPayload(name, VALUE, value);
      && TryReadFrame(crc, BuildGetSetReply(crc, name, value) + rest) ==
         Some(Good(GETSET_REPLY, payload, 8 + |payload|))
      && ParseRequest(payload) == Some(Request(name, Some(value)))
      <==>
      |payload| <= 65535 && |name| < 32767 && |value| < 32767 && EndsWell(name) && EndsWell(value)
  {
    FrameRoundTrip(crc, GETSET_REPLY, ReplyPayload(name, VALUE, value), rest);
    ReplyPayloadRoundTrip(name, value);
    hide TryReadFrame, BuildFrame, ParseRequest, ReplyPayload, EndsWell;
  }

  /** A name and a value that fit by themselves, in a reply that does not. */
  lemma OversizedReply(crc: Checksum, name: Text, value: Text, rest: seq<Byte>)
    requires |name| == |value| == MAX_BODY - 1
    ensures
      var payload := ReplyPayload(name, VALUE, value);
      && |payload| == 65540
      && TryReadFrame(crc, BuildGetSetReply(crc, name, value) + rest) !=
         Some(Good(GETSET_REPLY, payload, 8 + |payload|))
  {
    FrameRoundTrip(crc, GETSET_REPLY, ReplyPayload(name, VALUE, value), rest);
  }
}
