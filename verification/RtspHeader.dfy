/**
 * The header of an RTSP response: its status code, and the Content-Length that says how long
 * the response is. `ParseHeader` is what the response reader makes of the text.
 */
module RtspHeader {
  import opened Bytes
  import opened Whitespace

  const CRLF: seq<Byte> := [13, 10]
  const MAX_UINT := 0xffff_ffff_ffff_ffff
  const MIN_INT := -MAX_INT - 1

  // ---------------------------------------------------------------- integers

  datatype Unsigned = Digits(n: nat) | TooLarge | NotDigits

  /** From left to right: what is wrong first decides. */
  function ReadDigits(text: Text): Unsigned {
    if text == [] then Digits(0)
    else
      var n := |text| - 1;
      match ReadDigits(text[..n])
      case Digits(v) =>
        var c: int := text[n];
        if c < 0x30 || 0x39 < c then NotDigits
        else if 10 * v + (c - 0x30) > MAX_UINT then TooLarge
        else Digits(10 * v + (c - 0x30))
      case failed => failed
  }

  /** `ok` is false when the library reports an error, which leaves a value all the same. */
  datatype Integer = Integer(value: int, ok: bool)

  const MINUS: Byte := 0x2d
  const PLUS: Byte := 0x2b

  /** Out of range, the value is the nearest integer of the machine; without digits it is 0. */
  function Atoi(text: Text): Integer {
    var negative := text != [] && text[0] == MINUS;
    var digits := if text != [] && (text[0] == MINUS || text[0] == PLUS) then text[1..] else text;
    match ReadDigits(digits)
    case NotDigits => Integer(0, false)
    case TooLarge => Integer(if negative then MIN_INT else MAX_INT, false)
    case Digits(n) =>
      if digits == [] then Integer(0, false)
      else if negative then if n > MAX_INT + 1 then Integer(MIN_INT, false) else Integer(-(n as int), true)
      else if n > MAX_INT then Integer(MAX_INT, false) else Integer(n, true)
  }

  /** Some digits at the front are worth more than `limit`. */
  ghost predicate PrefixExceeds(text: Text, limit: nat) {
    exists n: nat :: n <= |text| && AllDigits(text[..n]) && DecimalValue(text[..n]) > limit
  }

  lemma {:induction false} DecimalValueMonotone(text: Text, n: nat)
    requires n <= |text| && AllDigits(text)
    ensures DecimalValue(text[..n]) <= DecimalValue(text)
  {
    if n < |text| {
      DecimalValueMonotone(text[..|text| - 1], n);
      assert text[..|text| - 1][..n] == text[..n];
    } else {
      assert text[..n] == text;
    }
  }

  lemma {:induction false} ReadDigitsMeaning(text: Text)
    ensures ReadDigits(text).TooLarge? <==> PrefixExceeds(text, MAX_UINT)
    ensures match ReadDigits(text)
            case Digits(v) => AllDigits(text) && v == DecimalValue(text)
            case NotDigits => !AllDigits(text)
            case TooLarge => true
  {
    if text == [] {
      assert forall n: nat :: n <= |text| ==> text[..n] == [];
    } else {
      var m := |text| - 1;
      ReadDigitsMeaning(text[..m]);
      assert text == text[..m] + [text[m]];
      PrefixExceedsLonger(text, m, MAX_UINT);
      hide PrefixExceeds;
    }
  }

  lemma PrefixExceedsLonger(text: Text, m: nat, limit: nat)
    requires m + 1 == |text|
    ensures PrefixExceeds(text, limit) <==>
            PrefixExceeds(text[..m], limit) || (AllDigits(text) && DecimalValue(text) > limit)
  {
    hide DecimalValue, AllDigits;
    assert text[..|text|] == text;
    forall n: nat | n <= m ensures text[..m][..n] == text[..n] {}
    if PrefixExceeds(text[..m], limit) {
      var n: nat :| n <= m && AllDigits(text[..m][..n]) && DecimalValue(text[..m][..n]) > limit;
      assert AllDigits(text[..n]);
    }
    if PrefixExceeds(text, limit) {
      var n: nat :| n <= |text| && AllDigits(text[..n]) && DecimalValue(text[..n]) > limit;
      if n <= m {
        assert AllDigits(text[..m][..n]);
      }
    }
  }

  /** The value of a plain numeral, saturated. */
  lemma AtoiOfDecimal(digits: Text)
    requires IsDecimal(digits)
    ensures
      var n := DecimalValue(digits);
      && Atoi(digits) == (if n > MAX_INT then Integer(MAX_INT, false) else Integer(n, true))
      && Atoi([0x2b] + digits) == Atoi(digits)
      && Atoi([0x2d] + digits) == (if n > MAX_INT + 1 then Integer(MIN_INT, false) else Integer(-(n as int), true))
  {
    ReadDigitsMeaning(digits);
    assert ([MINUS] + digits)[1..] == digits && ([PLUS] + digits)[1..] == digits;
    if ReadDigits(digits).TooLarge? {
      var n: nat :| n <= |digits| && AllDigits(digits[..n]) && DecimalValue(digits[..n]) > MAX_UINT;
      DecimalValueMonotone(digits, n);
    }
  }

  /** A text that is no numeral counts as 0, unless it begins with digits beyond 64 bits. */
  lemma AtoiOfOthers(text: Text)
    requires
      var digits := if text != [] && (text[0] == 0x2d || text[0] == 0x2b) then text[1..] else text;
      !IsDecimal(digits) && !PrefixExceeds(digits, 0xffff_ffff_ffff_ffff)
    ensures Atoi(text) == Integer(0, false)
  {
    ReadDigitsMeaning(if text != [] && (text[0] == 0x2d || text[0] == 0x2b) then text[1..] else text);
  }

  /** Exactly which texts are read as negative numbers. */
  lemma AtoiNegative(text: Text)
    ensures Atoi(text).value < 0 <==>
            && text != [] && text[0] == 0x2d
            && (|| (AllDigits(text[1..]) && DecimalValue(text[1..]) > 0)
                || PrefixExceeds(text[1..], 0xffff_ffff_ffff_ffff))
  {
    if text != [] {
      ReadDigitsMeaning(text[1..]);
      ReadDigitsMeaning(text);
      if AllDigits(text[1..]) && ReadDigits(text[1..]).TooLarge? {
        var n: nat :| n <= |text| - 1 && AllDigits(text[1..][..n]) && DecimalValue(text[1..][..n]) > MAX_UINT;
      }
    }
  }

  // ---------------------------------------------------------------- lines

  function SplitLines(s: Text): (lines: seq<Text>)
    ensures lines != []
  {
    if |s| < 2 then [s]
    else if s[0] == 13 && s[1] == 10 then [[]] + SplitLines(s[2..])
    else
      var rest := SplitLines(s[1..]);
      [[s[0]] + rest[0]] + rest[1..]
  }

  function JoinLines(lines: seq<Text>): Text {
    if lines == [] then []
    else if |lines| == 1 then lines[0]
    else lines[0] + CRLF + JoinLines(lines[1..])
  }

  ghost predicate IsLine(line: Text) {
    forall i, j :: 0 <= i < j < |line| && j == i + 1 ==> line[i] != 13 || line[j] != 10
  }

  ghost predicate AreLines(lines: seq<Text>) {
    lines != [] && forall i :: 0 <= i < |lines| ==> IsLine(lines[i])
  }

  /** The lines make up the text, and none can be split further. */
  lemma {:induction false} JoinSplit(s: Text)
    ensures JoinLines(SplitLines(s)) == s && AreLines(SplitLines(s))
    decreases |s|
  {
    var lines := SplitLines(s);
    if |s| < 2 {
    } else if s[0] == 13 && s[1] == 10 {
      JoinSplit(s[2..]);
      assert lines[1..] == SplitLines(s[2..]);
      assert s == [13, 10] + s[2..];
    } else {
      JoinSplit(s[1..]);
      Lengthen(s[0], SplitLines(s[1..]));
      assert s == [s[0]] + s[1..];
    }
  }

  /** A byte more at the front of the first line, unless that ends it. */
  lemma Lengthen(c: Byte, lines: seq<Text>)
    requires AreLines(lines) && !(c == 13 && JoinLines(lines) != [] && JoinLines(lines)[0] == 10)
    ensures
      var longer := [[c] + lines[0]] + lines[1..];
      AreLines(longer) && JoinLines(longer) == [c] + JoinLines(lines)
  {
    assert IsLine(lines[0]) && lines == [lines[0]] + lines[1..];
    LengthenJoin(c, lines[0], lines[1..]);
    JoinFirst(lines[0], lines[1..]);
    LongerLine(c, lines[0]);
    hide IsLine, JoinLines;
  }

  lemma LengthenJoin(c: Byte, first: Text, rest: seq<Text>)
    ensures JoinLines([[c] + first] + rest) == [c] + JoinLines([first] + rest)
  {
    hide JoinLines, JoinRest;
    JoinFirst(first, rest);
    JoinFirst([c] + first, rest);
    Reassociate([c], first, JoinRest(rest));
  }

  function JoinRest(rest: seq<Text>): Text {
    if rest == [] then [] else CRLF + JoinLines(rest)
  }

  lemma JoinFirst(first: Text, rest: seq<Text>)
    ensures JoinLines([first] + rest) == first + JoinRest(rest)
  {
    assert ([first] + rest)[1..] == rest;
  }

  lemma LongerLine(c: Byte, line: Text)
    requires IsLine(line) && !(c == 13 && line != [] && line[0] == 10)
    ensures IsLine([c] + line)
  {
  }

  lemma {:induction false} SplitFirst(line: Text, rest: Text)
    requires IsLine(line)
    ensures SplitLines(line) == [line] && SplitLines(line + CRLF + rest) == [line] + SplitLines(rest)
  {
    var s := line + CRLF + rest;
    if line == [] {
      assert s[2..] == rest;
    } else {
      assert s[1..] == line[1..] + CRLF + rest;
      assert IsLine(line[1..]);
      SplitFirst(line[1..], rest);
      assert line == [line[0]] + line[1..];
      assert |line| > 1 ==> s[1] == line[1];
    }
  }

  /** Splitting recovers the lines of a text. */
  lemma {:induction false} SplitJoin(lines: seq<Text>)
    requires AreLines(lines)
    ensures SplitLines(JoinLines(lines)) == lines
  {
    assert IsLine(lines[0]);
    SplitFirst(lines[0], JoinLines(lines[1..]));
    if |lines| > 1 {
      SplitJoin(lines[1..]);
      assert lines == [lines[0]] + lines[1..];
    }
  }

  // ---------------------------------------------------------------- header fields

  datatype Field = Field(name: Text, value: Text)

  /** ASCII letters only: no other character becomes a letter of "content-length". */
  function Lowered(text: Text): (low: Text)
    ensures |low| == |text|
  {
    seq(|text|, i requires 0 <= i < |text| => if 0x41 <= text[i] <= 0x5a then text[i] + 0x20 else text[i])
  }

  function FieldOf(line: Text): Option<Field> {
    match IndexByte(line, COLON, 0)
    case None => None
    case Some(colon) =>
      if colon == 0 then None
      else Some(Field(Lowered(TrimSpace(line[..colon])), TrimSpace(line[colon + 1..])))
  }

  /** A field is what stands before and after the first colon, trimmed; without a name it is none. */
  lemma FieldIsRead(name: Text, raw: Text)
    requires 0x3a !in name
    ensures FieldOf(name + [0x3a] + raw) ==
            if name == [] then None else Some(Field(Lowered(TrimSpace(name)), TrimSpace(raw)))
    ensures FieldOf(name) == None
  {
    var line := name + [0x3a] + raw;
    IndexByteSkips(name, COLON, raw, 0);
    IndexByteAbsent(name, COLON, 0);
    assert line[..|name|] == name && line[|name| + 1..] == raw;
    hide TrimSpace, IndexByte;
  }

  /** The name of the field that counts, in any mixture of cases. */
  lemma NameInAnyCase(name: Text)
    ensures Lowered(name) == CONTENT_LENGTH <==>
            && |name| == 14
            && forall i :: 0 <= i < 14 ==>
                 name[i] == Ascii("content-length")[i] || name[i] == Ascii("CONTENT-LENGTH")[i]
  {
    if |name| == 14 {
      var low, up := Ascii("content-length"), Ascii("CONTENT-LENGTH");
      UpperAndLower();
      hide Ascii;
      forall i | 0 <= i < 14 ensures Lowered(name)[i] == low[i] <==> name[i] == low[i] || name[i] == up[i] {}
      if Lowered(name) == CONTENT_LENGTH {
        assert forall i :: 0 <= i < 14 ==> Lowered(name)[i] == low[i];
      }
    }
  }

  lemma UpperAndLower()
    ensures
      var low, up := Ascii("content-length"), Ascii("CONTENT-LENGTH");
      && |low| == |up| == 14
      && forall i :: 0 <= i < 14 ==>
           if i == 7 then low[i] == up[i] == 0x2d else 0x61 <= low[i] <= 0x7a && low[i] == up[i] + 0x20
  {
  }

  /** The last field with a name counts. */
  function LastValue(lines: seq<Text>, name: Text): Option<Text> {
    if lines == [] then None
    else
      var n := |lines| - 1;
      var f := FieldOf(lines[n]);
      if f.Some? && f.value.name == name then Some(f.value.value) else LastValue(lines[..n], name)
  }

  const CONTENT_LENGTH := Ascii("content-length")

  /** Without such a field, or with an unreadable one, the length is 0. */
  function LengthIn(lines: seq<Text>): int {
    match LastValue(lines, CONTENT_LENGTH)
    case None => 0
    case Some(raw) => if raw == [] then 0 else Atoi(raw).value
  }

  /** What the status line and the header fields amount to. */
  datatype HeaderVerdict = Unusable | ContentLength(n: int)

  predicate HasStatus(line: Text) {
    2 <= |Fields(line)| && Atoi(Fields(line)[1]).ok
  }

  function ParseHeader(header: Text): HeaderVerdict {
    var lines := SplitLines(header);
    if HasStatus(lines[0]) then ContentLength(LengthIn(lines[1..])) else Unusable
  }

  /** The reader puts the fields into a map, so that a later one replaces an earlier one. */
  method ReadHeader(header: Text) returns (v: HeaderVerdict)
    ensures v == ParseHeader(header)
  {
    hide Fields, Atoi, FieldOf;
    var lines := SplitLines(header);
    var statusFields := Fields(lines[0]);
    if |statusFields| < 2 {
      return Unusable;
    }
    var statusCode := Atoi(statusFields[1]);
    if !statusCode.ok {
      return Unusable;
    }
    var headers: map<Text, Text> := map[];
    for i := 1 to |lines|
      invariant forall name :: LastValue(lines[1..i], name) ==
                               if name in headers then Some(headers[name]) else None
    {
      assert lines[1..i + 1][..i - 1] == lines[1..i];
      var f := FieldOf(lines[i]);
      if f.Some? {
        headers := headers[f.value.name := f.value.value];
      }
    }
    assert lines[1..|lines|] == lines[1..];
    var contentLength := 0;
    if CONTENT_LENGTH in headers && |headers[CONTENT_LENGTH]| > 0 {
      contentLength := Atoi(headers[CONTENT_LENGTH]).value;
    }
    v := ContentLength(contentLength);
  }

  // ---------------------------------------------------------------- round trip

  /** What a Content-Length field with `raw` after its colon says. */
  function LengthOf(raw: Text): int {
    if TrimSpace(raw) == [] then 0 else Atoi(TrimSpace(raw)).value
  }

  function LengthLine(raw: Text): Text {
    Ascii("Content-Length:") + raw
  }

  lemma LengthLineIsRead(raw: Text)
    ensures FieldOf(LengthLine(raw)) == Some(Field(CONTENT_LENGTH, TrimSpace(raw)))
  {
    var name, line := Ascii("Content-Length"), LengthLine(raw);
    assert line == name + [COLON] + raw;
    assert IsVisible(name) && COLON !in name;
    hide Ascii, Lowered;
    IndexByteSkips(name, COLON, raw, 0);
    assert line[..|name|] == name && line[|name| + 1..] == raw;
    VisibleIsTrimmed(name);
    hide TrimSpace, IndexByte;
    LoweredName();
  }

  lemma LoweredName()
    ensures Lowered(Ascii("Content-Length")) == CONTENT_LENGTH
  {
  }

  predicate NoLength(lines: seq<Text>) {
    LastValue(lines, CONTENT_LENGTH).None?
  }

  lemma {:induction false} LastValueSkips(before: seq<Text>, after: seq<Text>, name: Text)
    requires LastValue(after, name).None?
    ensures LastValue(before + after, name) == LastValue(before, name)
  {
    if after == [] {
      assert before + after == before;
    } else {
      var n := |after| - 1;
      assert (before + after)[..|before| + n] == before + after[..n];
      LastValueSkips(before, after[..n], name);
    }
  }

  /** The lines of a header with one field that counts: `raw` as its Content-Length. */
  function HeaderLines(status: Text, before: seq<Text>, raw: Text, after: seq<Text>): seq<Text> {
    [status] + before + [LengthLine(raw)] + after
  }

  /** Whatever other fields there are, the last Content-Length is read. */
  lemma ContentLengthIsRead(status: Text, before: seq<Text>, raw: Text, after: seq<Text>)
    requires AreLines(HeaderLines(status, before, raw, after)) && HasStatus(status) && NoLength(after)
    ensures ParseHeader(JoinLines(HeaderLines(status, before, raw, after))) == ContentLength(LengthOf(raw))
  {
    var lines := HeaderLines(status, before, raw, after);
    SplitJoin(lines);
    hide FieldOf, Atoi, TrimSpace;
    assert lines[1..] == before + [LengthLine(raw)] + after;
    LengthLineIsRead(raw);
    hide LengthLine;
    LastValueSkips(before + [LengthLine(raw)], after, CONTENT_LENGTH);
  }

  /** Without the field, or with nothing in it, there is no body. */
  lemma NoContentLength(status: Text, fields: seq<Text>, before: seq<Text>, after: seq<Text>)
    requires AreLines([status] + fields) && HasStatus(status) && NoLength(fields)
    requires AreLines(HeaderLines(status, before, [], after)) && NoLength(after)
    ensures ParseHeader(JoinLines([status] + fields)) == ContentLength(0)
    ensures ParseHeader(JoinLines(HeaderLines(status, before, [], after))) == ContentLength(0)
  {
    SplitJoin([status] + fields);
    assert ([status] + fields)[1..] == fields;
    ContentLengthIsRead(status, before, [], after);
    VisibleIsTrimmed([]);
    hide HeaderLines, Atoi, FieldOf;
  }

  /** A length that is written is read back exactly when it is an integer of the machine. */
  lemma ContentLengthRoundTrip(status: Text, before: seq<Text>, n: nat, after: seq<Text>)
    requires AreLines(HeaderLines(status, before, [0x20] + Decimal(n), after)) && HasStatus(status) && NoLength(after)
    ensures ParseHeader(JoinLines(HeaderLines(status, before, [0x20] + Decimal(n), after))) == ContentLength(n)
            <==> n <= 0x7fff_ffff_ffff_ffff
  {
    hide HeaderLines, Atoi, TrimSpace, DecimalValue, Decimal;
    ContentLengthIsRead(status, before, [0x20] + Decimal(n), after);
    VisibleIsTrimmed(Decimal(n));
    AtoiOfDecimal(Decimal(n));
    DecimalRoundTrip(n);
  }

  /** A negative length is taken as it stands. */
  lemma NegativeLengthIsRead(status: Text, before: seq<Text>, n: nat, after: seq<Text>)
    requires AreLines(HeaderLines(status, before, [0x20, MINUS] + Decimal(n), after))
    requires HasStatus(status) && NoLength(after)
    ensures ParseHeader(JoinLines(HeaderLines(status, before, [0x20, MINUS] + Decimal(n), after))) ==
            ContentLength(if n > 0x7fff_ffff_ffff_ffff then -0x8000_0000_0000_0000 else -(n as int))
  {
    hide HeaderLines, Atoi, TrimSpace, DecimalValue, Decimal;
    ContentLengthIsRead(status, before, [0x20, MINUS] + Decimal(n), after);
    var raw := [MINUS] + Decimal(n);
    assert [0x20] + raw == [0x20, MINUS] + Decimal(n);
    VisibleIsTrimmed(raw);
    AtoiOfDecimal(Decimal(n));
    DecimalRoundTrip(n);
  }

  /** A status line whose second word is a number of the machine. */
  lemma StatusIsRead(version: Text, code: Text, rest: Text)
    requires IsVisible(version) && version != [] && IsDecimal(code) && (rest == [] || rest[0] == 0x20)
    ensures HasStatus(version + [0x20] + code + rest) <==> DecimalValue(code) <= 0x7fff_ffff_ffff_ffff
  {
    TwoFields(version, code, rest);
    AtoiOfDecimal(code);
  }

  lemma MinusOne()
    ensures LengthOf(Ascii(" -1")) == -1
  {
    var raw := [MINUS] + Decimal(1);
    assert [0x20] + raw == Ascii(" -1");
    VisibleIsTrimmed(raw);
    DecimalRoundTrip(1);
    AtoiOfDecimal(Decimal(1));
  }
}
