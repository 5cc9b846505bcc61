/** Channel identity: normalized names, and the keys built from them. */
module ChannelIdentity {
  import opened Bytes
  import opened Whitespace

  const HYPHEN: Byte := 0x2d

  predicate IsWordByte(c: Byte) { 0x61 <= c <= 0x7a || 0x30 <= c <= 0x39 }

  function TrimLeft(s: Text, p: Byte -> bool): Text {
    if s != [] && p(s[0]) then TrimLeft(s[1..], p) else s
  }

  function TrimRight(s: Text, p: Byte -> bool): Text {
    if s != [] && p(s[|s| - 1]) then TrimRight(s[..|s| - 1], p) else s
  }

  function Trim(s: Text, p: Byte -> bool): Text {
    TrimRight(TrimLeft(s, p), p)
  }

  /** Every run of other bytes becomes one hyphen; `inRun` says that the run has begun already. */
  function Collapse(s: Text, inRun: bool): Text {
    if s == [] then []
    else if IsWordByte(s[0]) then [s[0]] + Collapse(s[1..], false)
    else (if inRun then [] else [HYPHEN]) + Collapse(s[1..], true)
  }

  /** `lower` is the library's lower-casing. */
  function Normalize(lower: Text -> Text, value: Text): Text {
    Trim(Collapse(TrimSpace(lower(value)), false), c => c == HYPHEN)
  }

  // ---------------------------------------------------------------- words

  predicate IsWord(w: Text) {
    w != [] && forall i :: 0 <= i < |w| ==> IsWordByte(w[i])
  }

  predicate AreWords(ws: seq<Text>) {
    forall i :: 0 <= i < |ws| ==> IsWord(ws[i])
  }

  /** The maximal runs of letters and digits. */
  function Words(s: Text): (ws: seq<Text>)
    ensures AreWords(ws)
    ensures s != [] && IsWordByte(s[0]) ==> ws != []
  {
    if s == [] then []
    else
      var rest := Words(s[1..]);
      if !IsWordByte(s[0]) then rest
      else if |s| > 1 && IsWordByte(s[1]) then [[s[0]] + rest[0]] + rest[1..]
      else [[s[0]]] + rest
  }

  function Join(ws: seq<Text>): Text {
    if ws == [] then [] else if |ws| == 1 then ws[0] else ws[0] + [HYPHEN] + Join(ws[1..])
  }

  lemma {:induction false} JoinEnds(ws: seq<Text>)
    requires AreWords(ws) && ws != []
    ensures Join(ws) != [] && IsWordByte(Join(ws)[0]) && IsWordByte(Join(ws)[|Join(ws)| - 1])
  {
    assert IsWord(ws[0]);
    if |ws| > 1 {
      JoinEnds(ws[1..]);
    }
  }

  /** The words, joined, and a hyphen for what stands before and after them. */
  function Marked(s: Text, inRun: bool): Text {
    if s == [] then []
    else if Words(s) == [] then (if inRun then [] else [HYPHEN])
    else (if IsWordByte(s[0]) || inRun then [] else [HYPHEN]) + (Join(Words(s)) + Trail(s))
  }

  function Trail(s: Text): Text {
    if s == [] || IsWordByte(s[|s| - 1]) then [] else [HYPHEN]
  }

  lemma {:induction false} CollapseIsMarked(s: Text, inRun: bool)
    ensures Collapse(s, inRun) == Marked(s, inRun)
  {
    if s != [] {
      hide Marked, IsWordByte, Words;
      if !IsWordByte(s[0]) {
        CollapseIsMarked(s[1..], true);
        MarkedSeparator(s, inRun);
      } else {
        CollapseIsMarked(s[1..], false);
        MarkedWordByte(s, inRun);
      }
    }
  }

  lemma MarkedSeparator(s: Text, inRun: bool)
    requires s != [] && !IsWordByte(s[0])
    ensures Marked(s, inRun) == (if inRun then [] else [HYPHEN]) + Marked(s[1..], true)
  {
    hide IsWordByte, Join;
    var t := s[1..];
    assert Words(s) == Words(t);
    if t == [] {
      assert Words(t) == [];
    } else {
      assert t[|t| - 1] == s[|s| - 1];
      assert Trail(s) == Trail(t);
    }
  }

  lemma MarkedWordByte(s: Text, inRun: bool)
    requires s != [] && IsWordByte(s[0])
    ensures Marked(s, inRun) == [s[0]] + Marked(s[1..], false)
  {
    var t := s[1..];
    assert t != [] ==> t[|t| - 1] == s[|s| - 1];
    JoinWordByte(s);
    hide Join, IsWordByte;
    if t == [] {
      assert Words(t) == [] && Join([]) == [] by { EmptyJoin(); }
    } else if Words(t) == [] {
      NoWords(t);
      EmptyJoin();
    } else {
      assert Trail(s) == Trail(t);
      hide Words, Trail;
      ReassociateTwice([s[0]], if IsWordByte(t[0]) then [] else [HYPHEN], Join(Words(t)), Trail(s));
    }
  }

  lemma EmptyJoin()
    ensures Words([]) == [] && Join([]) == []
  {
  }

  lemma ReassociateTwice(a: Text, b: Text, c: Text, d: Text)
    ensures a + b + c + d == a + (b + (c + d))
  {
  }

  lemma JoinWordByte(s: Text)
    requires s != [] && IsWordByte(s[0])
    ensures
      var rest := Words(s[1..]);
      Join(Words(s)) ==
      [s[0]] + (if rest == [] || (|s| > 1 && IsWordByte(s[1])) then [] else [HYPHEN]) + Join(rest)
  {
    hide IsWordByte;
    var rest := Words(s[1..]);
    if |s| > 1 && IsWordByte(s[1]) {
      JoinLonger(s[0], rest);
    } else if rest != [] {
      assert ([[s[0]]] + rest)[1..] == rest;
    }
  }

  lemma {:induction false} NoWords(s: Text)
    requires Words(s) == [] && s != []
    ensures !IsWordByte(s[0]) && !IsWordByte(s[|s| - 1])
  {
    if |s| > 1 {
      NoWords(s[1..]);
    }
  }

  lemma JoinLonger(c: Byte, ws: seq<Text>)
    requires ws != []
    ensures Join([[c] + ws[0]] + ws[1..]) == [c] + Join(ws)
  {
    assert ([[c] + ws[0]] + ws[1..])[1..] == ws[1..];
  }

  lemma TrimHyphens(lead: bool, core: Text, trail: bool)
    requires core != [] && IsWordByte(core[0]) && IsWordByte(core[|core| - 1])
    ensures Trim((if lead then [HYPHEN] else []) + core + (if trail then [HYPHEN] else []), c => c == HYPHEN) == core
  {
    var p := c => c == HYPHEN;
    var tail := core + if trail then [HYPHEN] else [];
    var s := (if lead then [HYPHEN] else []) + core + (if trail then [HYPHEN] else []);
    assert s == (if lead then [HYPHEN] else []) + tail;
    assert TrimLeft(tail, p) == tail;
    if lead {
      assert s[1..] == tail;
    }
    assert TrimLeft(s, p) == tail;
    assert TrimRight(core, p) == core;
    if trail {
      assert tail[..|tail| - 1] == core;
    }
  }

  /** Bytes that are in no word. */
  ghost predicate Separates(s: Text) {
    forall i :: 0 <= i < |s| ==> !IsWordByte(s[i])
  }

  lemma {:induction false} WordsAfterSeparators(x: Text, s: Text)
    requires Separates(x)
    ensures Words(x + s) == Words(s)
  {
    if x == [] {
      assert x + s == s;
    } else {
      assert (x + s)[1..] == x[1..] + s;
      WordsAfterSeparators(x[1..], s);
    }
  }

  lemma {:induction false} WordsBeforeSeparators(s: Text, x: Text)
    requires Separates(x)
    ensures Words(s + x) == Words(s)
  {
    if s == [] {
      WordsAfterSeparators(x, []);
      assert s + x == x + [];
    } else {
      assert (s + x)[1..] == s[1..] + x;
      WordsBeforeSeparators(s[1..], x);
    }
  }

  lemma {:induction false} WordsSkipLeft(s: Text)
    ensures Words(TrimSpaceLeft(s)) == Words(s)
    decreases |s|
  {
    var n := LeadingSpace(s);
    if n > 0 {
      WordsSkipLeft(s[n..]);
      WordsAfterSeparators(s[..n], s[n..]);
      assert s[..n] + s[n..] == s;
    }
  }

  lemma {:induction false} WordsSkipRight(s: Text)
    ensures Words(TrimSpaceRight(s)) == Words(s)
    decreases |s|
  {
    var n := |s| - TrailingSpace(s);
    if n < |s| {
      WordsSkipRight(s[..n]);
      WordsBeforeSeparators(s[..n], s[n..]);
      assert s[..n] + s[n..] == s;
    }
  }

  /** Normalizing is joining the words by single hyphens. */
  lemma NormalizeIsJoin(lower: Text -> Text, value: Text)
    ensures Normalize(lower, value) == Join(Words(lower(value)))
  {
    var s := TrimSpace(lower(value));
    WordsSkipLeft(lower(value));
    WordsSkipRight(TrimSpaceLeft(lower(value)));
    CollapseIsMarked(s, false);
    hide Collapse, Words, TrimSpaceLeft, TrimSpaceRight, Marked;
    MarkedIsTrimmed(s);
  }

  lemma MarkedIsTrimmed(s: Text)
    ensures Trim(Marked(s, false), c => c == HYPHEN) == Join(Words(s))
  {
    var ws := Words(s);
    if ws == [] {
      assert TrimLeft([HYPHEN], c => c == HYPHEN) == [];
    } else {
      JoinEnds(ws);
      assert Marked(s, false) == (if !IsWordByte(s[0]) then [HYPHEN] else []) + Join(ws) +
                                 (if !IsWordByte(s[|s| - 1]) then [HYPHEN] else []);
      hide Marked, Words, Join;
      TrimHyphens(!IsWordByte(s[0]), Join(ws), !IsWordByte(s[|s| - 1]));
    }
  }

  // ---------------------------------------------------------------- slugs

  /** Letters, digits and hyphens, and no hyphen first, last or next to another. */
  ghost predicate IsSlug(s: Text) {
    && (forall i :: 0 <= i < |s| ==> IsWordByte(s[i]) || s[i] == HYPHEN)
    && (s != [] ==> s[0] != HYPHEN && s[|s| - 1] != HYPHEN)
    && (forall i, j :: 0 <= i < j < |s| && j == i + 1 ==> s[i] != HYPHEN || s[j] != HYPHEN)
  }

  lemma {:induction false} JoinIsSlug(ws: seq<Text>)
    requires AreWords(ws)
    ensures IsSlug(Join(ws))
  {
    if ws != [] {
      assert IsWord(ws[0]);
      if |ws| > 1 {
        JoinIsSlug(ws[1..]);
        JoinEnds(ws[1..]);
        JoinTwoIsSlug(ws[0], Join(ws[1..]));
      }
    }
  }

  lemma JoinTwoIsSlug(w: Text, s: Text)
    requires IsWord(w) && IsSlug(s) && s != []
    ensures IsSlug(w + [HYPHEN] + s)
  {
    var t := w + [HYPHEN] + s;
    forall i | 0 <= i < |t| ensures IsWordByte(t[i]) || t[i] == HYPHEN {
      if i > |w| {
        assert t[i] == s[i - |w| - 1];
      }
    }
    forall i, j | 0 <= i < j < |t| && j == i + 1 ensures t[i] != HYPHEN || t[j] != HYPHEN {
      if i < |w| {
        assert t[i] == w[i];
      } else {
        assert t[j] == s[j - |w| - 1];
        if i > |w| {
          assert t[i] == s[i - |w| - 1];
        }
      }
    }
  }

  lemma {:induction false} WordsOfWord(w: Text)
    requires IsWord(w)
    ensures Words(w) == [w]
  {
    if |w| > 1 {
      assert IsWord(w[1..]);
      WordsOfWord(w[1..]);
      assert [w[0]] + w[1..] == w;
    } else {
      assert [w[0]] == w;
    }
  }

  lemma {:induction false} WordsAfterWord(w: Text, s: Text)
    requires IsWord(w)
    ensures Words(w + [HYPHEN] + s) == [w] + Words(s)
  {
    var t := w + [HYPHEN] + s;
    if |w| == 1 {
      assert t[1..] == [HYPHEN] + s && ([HYPHEN] + s)[1..] == s;
      assert [w[0]] == w;
    } else {
      assert t[1..] == w[1..] + [HYPHEN] + s;
      assert IsWord(w[1..]);
      WordsAfterWord(w[1..], s);
      assert [w[0]] + w[1..] == w;
      assert ([w[1..]] + Words(s))[1..] == Words(s);
    }
  }

  lemma {:induction false} WordsOfJoin(ws: seq<Text>)
    requires AreWords(ws)
    ensures Words(Join(ws)) == ws
  {
    if ws != [] {
      assert IsWord(ws[0]);
      if |ws| == 1 {
        WordsOfWord(ws[0]);
      } else {
        WordsOfJoin(ws[1..]);
        WordsAfterWord(ws[0], Join(ws[1..]));
      }
    }
  }

  lemma NormalizeIsSlug(lower: Text -> Text, value: Text)
    ensures IsSlug(Normalize(lower, value))
  {
    NormalizeIsJoin(lower, value);
    JoinIsSlug(Words(lower(value)));
  }

  /** Lower-case letters and digits, in ASCII. */
  function Letters(s: Text): (letters: Text)
    ensures forall c :: c in letters ==> 0x61 <= c <= 0x7a || 0x30 <= c <= 0x39
  {
    if s == [] then []
    else (if 0x61 <= s[0] <= 0x7a || 0x30 <= s[0] <= 0x39 then [s[0]] else []) + Letters(s[1..])
  }

  lemma {:induction false} LettersAppend(a: Text, b: Text)
    ensures Letters(a + b) == Letters(a) + Letters(b)
  {
    if a == [] {
      assert a + b == b;
    } else {
      assert (a + b)[1..] == a[1..] + b;
      LettersAppend(a[1..], b);
    }
  }

  lemma {:induction false} LettersOfWord(w: Text)
    requires IsWord(w) || w == []
    ensures Letters(w) == w
  {
    if w != [] {
      assert IsWord(w[1..]) || w[1..] == [];
      LettersOfWord(w[1..]);
    }
  }

  /** The words hold all the letters and digits, in order. */
  lemma {:induction false} LettersOfWords(s: Text)
    ensures Letters(Join(Words(s))) == Letters(s)
  {
    if s != [] {
      LettersOfWords(s[1..]);
      if IsWordByte(s[0]) {
        JoinWordByte(s);
        var rest := Join(Words(s[1..]));
        var gap := if Words(s[1..]) == [] || (|s| > 1 && IsWordByte(s[1])) then [] else [HYPHEN];
        hide Words, Join;
        LettersAppend([s[0]] + gap, rest);
        LettersAppend([s[0]], gap);
        assert Letters([s[0]]) == [s[0]] && Letters(gap) == [];
      }
    }
  }

  /**
   * Normalizing keeps the lower-case letters and the digits, all of them and in order, and puts
   * hyphens between them; a text of letters and digits alone is left as it is.
   */
  lemma NormalizeKeepsLetters(lower: Text -> Text, value: Text)
    ensures forall c :: c in Normalize(lower, value) ==> 0x61 <= c <= 0x7a || 0x30 <= c <= 0x39 || c == 0x2d
    ensures Letters(Normalize(lower, value)) == Letters(lower(value))
    ensures Letters(value) == value == lower(value) ==> Normalize(lower, value) == value
  {
    NormalizeIsSlug(lower, value);
    NormalizeIsJoin(lower, value);
    LettersOfWords(lower(value));
    if Letters(value) == value == lower(value) && value != [] {
      assert forall i :: 0 <= i < |value| ==> value[i] in Letters(value);
      WordsOfWord(value);
    }
  }

  /** Two words with anything else between them: a hyphen stands for it. */
  lemma GapsBecomeHyphens(lower: Text -> Text, first: Text, gap: Text, second: Text)
    requires IsWord(first) && IsWord(second) && gap != [] && Separates(gap)
    requires lower(first + gap + second) == first + gap + second
    ensures Normalize(lower, first + gap + second) == first + [0x2d] + second
  {
    NormalizeIsJoin(lower, first + gap + second);
    WordsAround(first, gap, second);
    assert [first, second][1..] == [second];
  }

  lemma {:induction false} WordsAround(first: Text, gap: Text, second: Text)
    requires IsWord(first) && IsWord(second) && gap != [] && Separates(gap)
    ensures Words(first + gap + second) == [first, second]
  {
    var s := first + gap + second;
    WordsAfterSeparators(gap, second);
    WordsOfWord(second);
    if |first| == 1 {
      assert s[1..] == gap + second && [first[0]] == first;
      assert s[1] == gap[0];
    } else {
      assert s[1..] == first[1..] + gap + second && IsWord(first[1..]);
      WordsAround(first[1..], gap, second);
      assert [first[0]] + first[1..] == first && s[1] == first[1];
      assert [first[1..], second][1..] == [second];
    }
  }

  /** A second normalization changes nothing, provided that lower-casing leaves slugs alone. */
  lemma NormalizeIdempotent(lower: Text -> Text, value: Text)
    requires forall s: Text :: IsSlug(s) ==> lower(s) == s
    ensures Normalize(lower, Normalize(lower, value)) == Normalize(lower, value)
  {
    var once := Normalize(lower, value);
    NormalizeIsJoin(lower, value);
    NormalizeIsSlug(lower, value);
    NormalizeIsJoin(lower, once);
    WordsOfJoin(Words(lower(value)));
  }

  // ---------------------------------------------------------------- keys

  /** What a channel is identified by. */
  datatype Identity =
    | ByTvgID(id: Text)
    | ByNumberAndName(number: Text, name: Text)
    | ByNameAndPath(name: Text, path: Text)
    | ByNumberAndPath(number: Text, path: Text)
    | ByPath(path: Text)

  function IdentityOf(lower: Text -> Text, pathKey: Text -> Text, tvgID: Text, number: Text, name: Text, url: Text)
    : Identity
  {
    var id, no, na := Normalize(lower, tvgID), Normalize(lower, number), Normalize(lower, name);
    if id != [] then ByTvgID(id)
    else if no != [] && na != [] then ByNumberAndName(no, na)
    else if na != [] then ByNameAndPath(na, pathKey(url))
    else if no != [] then ByNumberAndPath(no, pathKey(url))
    else ByPath(pathKey(url))
  }

  /** The case, as it is written in front of the first colon. */
  function Label(i: Identity): Text {
    match i
    case ByTvgID(_) => Ascii("tvg-id")
    case ByNumberAndName(_, _) => Ascii("number-name")
    case ByNameAndPath(_, _) => Ascii("name-path")
    case ByNumberAndPath(_, _) => Ascii("number-path")
    case ByPath(_) => Ascii("path")
  }

  function Content(i: Identity): Text {
    match i
    case ByTvgID(id) => id
    case ByNumberAndName(number, name) => number + [COLON] + name
    case ByNameAndPath(name, path) => name + [COLON] + path
    case ByNumberAndPath(number, path) => number + [COLON] + path
    case ByPath(path) => path
  }

  function KeyOf(i: Identity): Text {
    Label(i) + [COLON] + Content(i)
  }

  function BuildChannelIdentity(
      lower: Text -> Text, pathKey: Text -> Text, tvgID: Text, number: Text, name: Text, url: Text): Text
  {
    KeyOf(IdentityOf(lower, pathKey, tvgID, number, name, url))
  }

  /** The keys as they are written. */
  lemma KeyTexts(
      lower: Text -> Text, pathKey: Text -> Text, tvgID: Text, number: Text, name: Text, url: Text)
    ensures
      var id, no, na := Normalize(lower, tvgID), Normalize(lower, number), Normalize(lower, name);
      BuildChannelIdentity(lower, pathKey, tvgID, number, name, url) ==
      if id != [] then Ascii("tvg-id:") + id
      else if no != [] && na != [] then Ascii("number-name:") + no + [0x3a] + na
      else if na != [] then Ascii("name-path:") + na + [0x3a] + pathKey(url)
      else if no != [] then Ascii("number-path:") + no + [0x3a] + pathKey(url)
      else Ascii("path:") + pathKey(url)
  {
    LabelTexts();
    hide Ascii, Normalize;
  }

  lemma LabelTexts()
    ensures Ascii("tvg-id:") == Ascii("tvg-id") + [0x3a]
    ensures Ascii("number-name:") == Ascii("number-name") + [0x3a]
    ensures Ascii("name-path:") == Ascii("name-path") + [0x3a]
    ensures Ascii("number-path:") == Ascii("number-path") + [0x3a]
    ensures Ascii("path:") == Ascii("path") + [0x3a]
  {
  }

  /** The components that stand before a colon are slugs. */
  ghost predicate Slugs(i: Identity) {
    match i
    case ByTvgID(id) => IsSlug(id)
    case ByNumberAndName(number, name) => IsSlug(number) && IsSlug(name)
    case ByNameAndPath(name, _) => IsSlug(name)
    case ByNumberAndPath(number, _) => IsSlug(number)
    case ByPath(_) => true
  }

  lemma SplitAtColon(a: Text, x: Text, b: Text, y: Text)
    requires COLON !in a && COLON !in b && a + [COLON] + x == b + [COLON] + y
    ensures a == b && x == y
  {
    var s, t := a + [COLON] + x, b + [COLON] + y;
    assert s[|a|] == COLON && t[|b|] == COLON;
    assert |a| == |b|;
    assert s[..|a|] == a && t[..|b|] == b;
    assert s[|a| + 1..] == x && t[|b| + 1..] == y;
  }

  lemma LabelHasNoColon(i: Identity)
    ensures COLON !in Label(i)
  {
    assert forall c :: c in Ascii("tvg-id") ==> c != COLON;
    assert forall c :: c in Ascii("number-name") ==> c != COLON;
    assert forall c :: c in Ascii("name-path") ==> c != COLON;
    assert forall c :: c in Ascii("number-path") ==> c != COLON;
    assert forall c :: c in Ascii("path") ==> c != COLON;
  }

  lemma LabelsDiffer(i: Identity, j: Identity)
    requires Label(i) == Label(j)
    ensures i.ByTvgID? == j.ByTvgID? && i.ByNumberAndName? == j.ByNumberAndName?
    ensures i.ByNameAndPath? == j.ByNameAndPath? && i.ByNumberAndPath? == j.ByNumberAndPath?
  {
    assert |Label(i)| == |Label(j)| && Label(i)[0] == Label(j)[0];
    assert Ascii("number-name")[7] == 0x6e && Ascii("number-path")[7] == 0x70;
  }

  /** Keys are unambiguous: equal keys come from the same case with the same components. */
  lemma KeysAreUnambiguous(i: Identity, j: Identity)
    requires Slugs(i) && Slugs(j)
    ensures KeyOf(i) == KeyOf(j) <==> i == j
  {
    if KeyOf(i) == KeyOf(j) {
      LabelHasNoColon(i);
      LabelHasNoColon(j);
      SplitAtColon(Label(i), Content(i), Label(j), Content(j));
      LabelsDiffer(i, j);
      hide Label, KeyOf;
      match i {
        case ByNumberAndName(number, name) => SplitAtColon(number, name, j.number, j.name);
        case ByNameAndPath(name, path) => SplitAtColon(name, path, j.name, j.path);
        case ByNumberAndPath(number, path) => SplitAtColon(number, path, j.number, j.path);
        case _ =>
      }
    }
  }

  /**
   * Two channels share a key exactly when they agree on the normalized id, or, without one, on
   * the normalized number and name, and also on the path unless they have both a number and a name.
   */
  lemma EqualKeysMeanEqualIdentity(
      lower: Text -> Text, pathKey: Text -> Text,
      tvgID: Text, number: Text, name: Text, url: Text, tvgID': Text, number': Text, name': Text, url': Text)
    ensures
      var id, no, na := Normalize(lower, tvgID), Normalize(lower, number), Normalize(lower, name);
      BuildChannelIdentity(lower, pathKey, tvgID, number, name, url) ==
      BuildChannelIdentity(lower, pathKey, tvgID', number', name', url')
      <==>
      && id == Normalize(lower, tvgID')
      && (id == [] ==>
            && no == Normalize(lower, number')
            && na == Normalize(lower, name')
            && (no == [] || na == [] ==> pathKey(url) == pathKey(url')))
  {
    NormalizeIsSlug(lower, tvgID);
    NormalizeIsSlug(lower, number);
    NormalizeIsSlug(lower, name);
    NormalizeIsSlug(lower, tvgID');
    NormalizeIsSlug(lower, number');
    NormalizeIsSlug(lower, name');
    hide Normalize, IsSlug, KeyOf;
    KeysAreUnambiguous(IdentityOf(lower, pathKey, tvgID, number, name, url),
                       IdentityOf(lower, pathKey, tvgID', number', name', url'));
  }
}
