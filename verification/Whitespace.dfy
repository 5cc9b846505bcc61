/** White space as the library sees it: the Unicode characters with that property, in UTF-8. */
module Whitespace {
  import opened Bytes

  predicate IsAsciiSpace(c: Byte) { c == 0x20 || 9 <= c <= 13 }

  predicate IsTwoByteSpace(c: Byte, d: Byte) { c == 0xc2 && (d == 0x85 || d == 0xa0) }

  predicate IsThreeByteSpace(c: Byte, d: Byte, e: Byte) {
    || (c == 0xe1 && d == 0x9a && e == 0x80)
    || (c == 0xe2 && d == 0x80 && (0x80 <= e <= 0x8a || e == 0xa8 || e == 0xa9 || e == 0xaf))
    || (c == 0xe2 && d == 0x81 && e == 0x9f)
    || (c == 0xe3 && d == 0x80 && e == 0x80)
  }

  /** The length of the white space character that `s` begins with, or 0. */
  function LeadingSpace(s: Text): (n: nat)
    ensures n <= |s|
    ensures forall i :: 0 <= i < n ==> IsAsciiSpace(s[i]) || 0x80 <= s[i]
  {
    if s != [] && IsAsciiSpace(s[0]) then 1
    else if 2 <= |s| && IsTwoByteSpace(s[0], s[1]) then 2
    else if 3 <= |s| && IsThreeByteSpace(s[0], s[1], s[2]) then 3
    else 0
  }

  /** The length of the white space character that `s` ends with, or 0. */
  function TrailingSpace(s: Text): (n: nat)
    ensures n <= |s|
    ensures forall i :: |s| - n <= i < |s| ==> IsAsciiSpace(s[i]) || 0x80 <= s[i]
  {
    var n := |s|;
    if s != [] && IsAsciiSpace(s[n - 1]) then 1
    else if 2 <= n && IsTwoByteSpace(s[n - 2], s[n - 1]) then 2
    else if 3 <= n && IsThreeByteSpace(s[n - 3], s[n - 2], s[n - 1]) then 3
    else 0
  }

  function TrimSpaceLeft(s: Text): (t: Text)
    ensures LeadingSpace(t) == 0 && |t| <= |s|
    decreases |s|
  {
    if LeadingSpace(s) == 0 then s else TrimSpaceLeft(s[LeadingSpace(s)..])
  }

  function TrimSpaceRight(s: Text): (t: Text)
    ensures TrailingSpace(t) == 0 && |t| <= |s|
    decreases |s|
  {
    if TrailingSpace(s) == 0 then s else TrimSpaceRight(s[..|s| - TrailingSpace(s)])
  }

  function TrimSpace(s: Text): Text {
    TrimSpaceRight(TrimSpaceLeft(s))
  }

  /** What precedes the first white space. */
  function FirstWord(s: Text): (w: Text)
    ensures |w| <= |s| && (s != [] && LeadingSpace(s) == 0 ==> w != [])
  {
    if s == [] || LeadingSpace(s) > 0 then [] else [s[0]] + FirstWord(s[1..])
  }

  /** The words between white space. */
  function Fields(s: Text): seq<Text>
    decreases |s|
  {
    var t := TrimSpaceLeft(s);
    if t == [] then [] else [FirstWord(t)] + Fields(t[|FirstWord(t)|..])
  }

  // ---------------------------------------------------------------- characters

  /** The UTF-8 encoding of a character of the Basic Multilingual Plane. */
  function Utf8(c: Word): seq<Byte> {
    if c < 0x80 then [c]
    else if c < 0x800 then [0xc0 + c / 0x40, 0x80 + c % 0x40]
    else [0xe0 + c / 0x1000, 0x80 + c / 0x40 % 0x40, 0x80 + c % 0x40]
  }

  /** The characters that Unicode calls white space. */
  predicate IsWhiteSpace(c: Word) {
    || 0x0009 <= c <= 0x000d || c == 0x0020 || c == 0x0085 || c == 0x00a0 || c == 0x1680 || 0x2000 <= c <= 0x200a
    || c == 0x2028 || c == 0x2029 || c == 0x202f || c == 0x205f || c == 0x3000
  }

  /** At either end of a text exactly the white space characters are recognised, each as a whole. */
  lemma WhiteSpaceIsRecognised(c: Word, s: Text)
    ensures LeadingSpace(Utf8(c) + s) == if IsWhiteSpace(c) then |Utf8(c)| else 0
    ensures TrailingSpace(s + Utf8(c)) == if IsWhiteSpace(c) then |Utf8(c)| else 0
  {
    if c < 0x80 {
      Narrow(c, s);
    } else if c < 0x800 {
      TwoBytes(c, s);
    } else {
      ThreeBytes(c, s);
    }
  }

  lemma Narrow(c: Word, s: Text)
    requires c < 0x80
    ensures LeadingSpace(Utf8(c) + s) == if IsWhiteSpace(c) then 1 else 0
    ensures TrailingSpace(s + Utf8(c)) == if IsWhiteSpace(c) then 1 else 0
  {
    assert (Utf8(c) + s)[0] == c && (s + Utf8(c))[|s|] == c;
  }

  lemma TwoBytes(c: Word, s: Text)
    requires 0x80 <= c < 0x800
    ensures LeadingSpace(Utf8(c) + s) == if IsWhiteSpace(c) then 2 else 0
    ensures TrailingSpace(s + Utf8(c)) == if IsWhiteSpace(c) then 2 else 0
  {
    var front, back := Utf8(c) + s, s + Utf8(c);
    assert front[0] == 0xc0 + c / 0x40 && front[1] == 0x80 + c % 0x40;
    assert back[|s|] == 0xc0 + c / 0x40 && back[|s| + 1] == 0x80 + c % 0x40;
    hide Utf8;
  }

  lemma ThreeBytes(c: Word, s: Text)
    requires 0x800 <= c
    ensures LeadingSpace(Utf8(c) + s) == if IsWhiteSpace(c) then 3 else 0
    ensures TrailingSpace(s + Utf8(c)) == if IsWhiteSpace(c) then 3 else 0
  {
    var front, back := Utf8(c) + s, s + Utf8(c);
    var x, y, z := c / 0x1000, c / 0x40 % 0x40, c % 0x40;
    assert c == 0x1000 * x + 0x40 * y + z && x < 0x10;
    assert front[0] == 0xe0 + x && front[1] == 0x80 + y && front[2] == 0x80 + z;
    assert back[|s|] == 0xe0 + x && back[|s| + 1] == 0x80 + y && back[|s| + 2] == 0x80 + z;
    hide Utf8;
  }

  // ---------------------------------------------------------------- words of visible ASCII

  predicate IsVisible(s: Text) {
    forall i :: 0 <= i < |s| ==> 0x20 < s[i] < 0x7f
  }

  lemma VisibleEnds(s: Text)
    requires IsVisible(s)
    ensures LeadingSpace(s) == 0 && TrailingSpace(s) == 0 && LeadingSpace([0x20] + s) == 1
  {
  }

  lemma VisibleIsTrimmed(s: Text)
    requires IsVisible(s)
    ensures TrimSpace(s) == s && TrimSpace([0x20] + s) == s
  {
    VisibleEnds(s);
    hide LeadingSpace, TrailingSpace, IsVisible;
    var blank := [0x20] + s;
    assert blank[1..] == s;
    assert TrimSpaceLeft(blank) == TrimSpaceLeft(s) == s;
  }

  lemma {:induction false} FirstWordIsVisible(w: Text, rest: Text)
    requires IsVisible(w) && (rest == [] || rest[0] == 0x20)
    ensures FirstWord(w + rest) == w
  {
    if w == [] {
      assert w + rest == rest;
    } else {
      assert (w + rest)[1..] == w[1..] + rest;
      FirstWordIsVisible(w[1..], rest);
    }
  }

  lemma FieldsFirst(w: Text, rest: Text)
    requires IsVisible(w) && w != [] && (rest == [] || rest[0] == 0x20)
    ensures Fields(w + rest) == [w] + Fields(rest) && Fields([0x20] + w + rest) == Fields(w + rest)
  {
    FirstWordIsVisible(w, rest);
    BeginsVisibly(w + rest);
    hide *;
    Reassociate([0x20], w, rest);
    FieldsOfTrimmed(w + rest, w, rest);
    FieldsOfTrimmed([0x20] + (w + rest), w, rest);
  }

  lemma BeginsVisibly(s: Text)
    requires s != [] && 0x20 < s[0] < 0x7f
    ensures TrimSpaceLeft(s) == s && TrimSpaceLeft([0x20] + s) == s
  {
    var blank := [0x20] + s;
    assert LeadingSpace(s) == 0 && LeadingSpace(blank) == 1 && blank[1..] == s;
  }

  lemma FieldsOfTrimmed(s: Text, w: Text, rest: Text)
    requires TrimSpaceLeft(s) == w + rest && FirstWord(w + rest) == w && w != []
    ensures Fields(s) == [w] + Fields(rest)
  {
    hide TrimSpaceLeft, FirstWord;
    assert (w + rest)[|w|..] == rest;
  }

  /** Visible words with a blank between them are fields. */
  lemma TwoFields(v: Text, w: Text, rest: Text)
    requires IsVisible(v) && IsVisible(w) && v != [] && w != [] && (rest == [] || rest[0] == 0x20)
    ensures Fields(v + [0x20] + w + rest) == [v, w] + Fields(rest)
  {
    var tail := [0x20] + w + rest;
    assert v + [0x20] + w + rest == v + tail;
    hide Fields;
    FieldsFirst(v, tail);
    FieldsFirst(w, rest);
  }
}
