/** The order of channels, and the lineup left after sorting and dropping duplicates. */
module Lineup {
  import opened Bytes

  datatype Channel = Channel(
    sourceIndex: nat,
    key: Text,
    tvgID: Text,
    number: Text,
    name: Text,
    logoURL: Text,
    groupTitle: Text,
    streamURL: Text)

  // ---------------------------------------------------------------- texts

  /** Byte-wise lexicographic order. */
  predicate Less(a: Text, b: Text) {
    if b == [] then false
    else if a == [] then true
    else if a[0] != b[0] then a[0] < b[0]
    else Less(a[1..], b[1..])
  }

  /** `a` is a proper beginning of `b`, or has the smaller byte where they first differ. */
  ghost predicate Before(a: Text, b: Text) {
    exists k: nat :: k <= |a| && k < |b| && a[..k] == b[..k] && (k == |a| || a[k] < b[k])
  }

  lemma {:induction false} LessMeaning(a: Text, b: Text)
    ensures Less(a, b) <==> Before(a, b)
  {
    if b != [] {
      if a == [] || a[0] < b[0] {
        assert a[..0] == b[..0] == [];
      } else if a[0] == b[0] {
        LessMeaning(a[1..], b[1..]);
        BeforeTails(a, b);
      }
    }
  }

  lemma BeforeTails(a: Text, b: Text)
    requires a != [] && b != [] && a[0] == b[0]
    ensures Before(a, b) <==> Before(a[1..], b[1..])
  {
    var s, t := a[1..], b[1..];
    if Before(a, b) {
      var k: nat :| k <= |a| && k < |b| && a[..k] == b[..k] && (k == |a| || a[k] < b[k]);
      assert s[..k - 1] == a[..k][1..] && t[..k - 1] == b[..k][1..];
    }
    if Before(s, t) {
      var k: nat :| k <= |s| && k < |t| && s[..k] == t[..k] && (k == |s| || s[k] < t[k]);
      assert a[..k + 1] == [a[0]] + s[..k] && b[..k + 1] == [b[0]] + t[..k];
    }
  }

  lemma {:induction false} LessTotal(a: Text, b: Text)
    ensures Less(a, b) || Less(b, a) || a == b
    ensures !(Less(a, b) && Less(b, a)) && (a == b ==> !Less(a, b))
  {
    if a != [] && b != [] {
      LessTotal(a[1..], b[1..]);
      if a[0] == b[0] && a[1..] == b[1..] {
        assert a == [a[0]] + a[1..] && b == [b[0]] + b[1..];
      }
    }
  }

  lemma {:induction false} LessTransitive(a: Text, b: Text, c: Text)
    requires Less(a, b) && Less(b, c)
    ensures Less(a, c)
  {
    if a != [] && a[0] == b[0] == c[0] {
      LessTransitive(a[1..], b[1..], c[1..]);
    }
  }

  function CompareTexts(a: Text, b: Text): int {
    if a == b then 0 else if Less(a, b) then -1 else 1
  }

  // ---------------------------------------------------------------- numbers

  /** A guide number; one too large for the machine reads as the largest integer. */
  function GuideNumber(text: Text): nat
    requires IsDecimal(text)
  {
    if DecimalValue(text) > MAX_INT then MAX_INT else DecimalValue(text)
  }

  // ---------------------------------------------------------------- channels

  /** By number, channels without one last; then by lower-cased name; then by key. */
  function CompareChannels(lower: Text -> Text, left: Channel, right: Channel): int {
    var l, r := IsDecimal(left.number), IsDecimal(right.number);
    if l && r && GuideNumber(left.number) != GuideNumber(right.number) then
      if GuideNumber(left.number) < GuideNumber(right.number) then -1 else 1
    else if l != r then
      if l then -1 else 1
    else if lower(left.name) != lower(right.name) then
      if Less(lower(left.name), lower(right.name)) then -1 else 1
    else if Less(left.key, right.key) then -1
    else if Less(right.key, left.key) then 1
    else 0
  }

  lemma CompareTextsOrders(a: Text, b: Text, c: Text)
    ensures CompareTexts(a, b) == -CompareTexts(b, a)
    ensures CompareTexts(a, b) == 0 <==> a == b
    ensures CompareTexts(a, b) <= 0 && CompareTexts(b, c) <= 0 ==> CompareTexts(a, c) <= 0
    ensures CompareTexts(a, b) <= 0 && CompareTexts(b, c) < 0 ==> CompareTexts(a, c) < 0
    ensures CompareTexts(a, b) < 0 && CompareTexts(b, c) <= 0 ==> CompareTexts(a, c) < 0
  {
    LessTotal(a, b);
    LessTotal(b, c);
    LessTotal(a, c);
    if Less(a, b) && Less(b, c) {
      LessTransitive(a, b, c);
    }
  }

  /** Where a channel stands by its number: numbered ones first, in the order of their numbers. */
  function Slot(c: Channel): int {
    if IsDecimal(c.number) then GuideNumber(c.number) else MAX_INT + 1
  }

  /** Channels with numbers come first, by their numbers; a number beyond 64 bits counts as the largest. */
  lemma SlotMeaning(a: Channel, b: Channel)
    ensures Slot(a) < Slot(b) <==>
            && IsDecimal(a.number)
            && (IsDecimal(b.number) ==>
                  && DecimalValue(a.number) < DecimalValue(b.number)
                  && DecimalValue(a.number) < 9223372036854775807)
  {
    hide DecimalValue;
  }

  /** By slot, then by lower-cased name, then by key, texts byte by byte. */
  lemma CompareMeaning(lower: Text -> Text, a: Channel, b: Channel)
    ensures CompareChannels(lower, a, b) ==
            if Slot(a) != Slot(b) then (if Slot(a) < Slot(b) then -1 else 1)
            else if lower(a.name) != lower(b.name) then (if Before(lower(a.name), lower(b.name)) then -1 else 1)
            else if a.key != b.key then (if Before(a.key, b.key) then -1 else 1)
            else 0
  {
    hide DecimalValue, Less, Before;
    CompareLexically(lower, a, b);
    LessMeaning(lower(a.name), lower(b.name));
    LessMeaning(a.key, b.key);
  }

  /** The comparison is lexicographic in slot, lower-cased name and key. */
  lemma CompareLexically(lower: Text -> Text, a: Channel, b: Channel)
    ensures CompareChannels(lower, a, b) ==
            if Slot(a) != Slot(b) then (if Slot(a) < Slot(b) then -1 else 1)
            else if lower(a.name) != lower(b.name) then CompareTexts(lower(a.name), lower(b.name))
            else CompareTexts(a.key, b.key)
  {
    hide DecimalValue, Less;
    LessTotal(a.key, b.key);
  }

  /** A total preorder, in which only channels with equal keys tie. */
  lemma CompareOrders(lower: Text -> Text, a: Channel, b: Channel, c: Channel)
    ensures CompareChannels(lower, a, a) == 0
    ensures CompareChannels(lower, a, b) == -CompareChannels(lower, b, a)
    ensures CompareChannels(lower, a, b) == 0 ==> a.key == b.key
    ensures CompareChannels(lower, a, b) <= 0 && CompareChannels(lower, b, c) <= 0 ==>
              CompareChannels(lower, a, c) <= 0
    ensures CompareChannels(lower, a, b) <= 0 && CompareChannels(lower, b, c) < 0 ==>
              CompareChannels(lower, a, c) < 0
    ensures CompareChannels(lower, a, b) < 0 && CompareChannels(lower, b, c) <= 0 ==>
              CompareChannels(lower, a, c) < 0
  {
    hide CompareChannels, Slot, CompareTexts;
    CompareLexically(lower, a, a);
    CompareLexically(lower, a, b);
    CompareLexically(lower, b, a);
    CompareLexically(lower, b, c);
    CompareLexically(lower, a, c);
    CompareTextsOrders(a.key, b.key, c.key);
    CompareTextsOrders(b.key, c.key, a.key);
    CompareTextsOrders(a.key, a.key, a.key);
    CompareTextsOrders(lower(a.name), lower(b.name), lower(c.name));
    CompareTextsOrders(lower(b.name), lower(c.name), lower(a.name));
  }

  // ---------------------------------------------------------------- the lineup

  /** What sorting by the comparison leaves, whatever it does with ties. */
  ghost predicate Sorted(lower: Text -> Text, s: seq<Channel>) {
    forall i, j :: 0 <= i < j < |s| ==> CompareChannels(lower, s[i], s[j]) <= 0
  }

  ghost predicate SortedVersion(lower: Text -> Text, s: seq<Channel>, channels: seq<Channel>) {
    Sorted(lower, s) && multiset(s) == multiset(channels)
  }

  /** There always is one. */
  lemma {:induction false} SortedVersionExists(lower: Text -> Text, channels: seq<Channel>) returns (s: seq<Channel>)
    ensures SortedVersion(lower, s, channels)
  {
    s := [];
    if channels != [] {
      var n := |channels| - 1;
      var t := SortedVersionExists(lower, channels[..n]);
      assert channels == channels[..n] + [channels[n]];
      s := InsertSorted(lower, t, channels[n]);
    }
  }

  lemma {:induction false} InsertSorted(lower: Text -> Text, s: seq<Channel>, c: Channel) returns (r: seq<Channel>)
    requires Sorted(lower, s)
    ensures Sorted(lower, r) && multiset(r) == multiset(s) + multiset{c}
  {
    hide CompareChannels;
    var n := |s| - 1;
    if s == [] {
      r := [c];
    } else if CompareChannels(lower, s[n], c) <= 0 {
      r := s + [c];
      forall i | 0 <= i < |s| ensures CompareChannels(lower, s[i], c) <= 0 {
        CompareOrders(lower, s[i], s[n], c);
      }
    } else {
      r := InsertSorted(lower, s[..n], c);
      assert s == s[..n] + [s[n]];
      AtMostLast(lower, s, c, r);
      r := r + [s[n]];
    }
  }

  lemma AtMostLast(lower: Text -> Text, s: seq<Channel>, c: Channel, r: seq<Channel>)
    requires s != [] && Sorted(lower, s) && CompareChannels(lower, s[|s| - 1], c) > 0
    requires multiset(r) == multiset(s[..|s| - 1]) + multiset{c}
    ensures forall i :: 0 <= i < |r| ==> CompareChannels(lower, r[i], s[|s| - 1]) <= 0
  {
    hide CompareChannels;
    var n := |s| - 1;
    forall i | 0 <= i < |r| ensures CompareChannels(lower, r[i], s[n]) <= 0 {
      assert r[i] in multiset(r);
      CompareOrders(lower, c, s[n], s[n]);
      if r[i] != c {
        assert r[i] in multiset(s[..n]);
        var k :| 0 <= k < n && s[..n][k] == r[i];
      }
    }
  }

  function Keys(s: seq<Channel>): set<Text> {
    set c <- s :: c.key
  }

  /** The first channel with each key. */
  function Dedupe(s: seq<Channel>): seq<Channel> {
    if s == [] then []
    else
      var n := |s| - 1;
      Dedupe(s[..n]) + if s[n].key in Keys(s[..n]) then [] else [s[n]]
  }

  method DropDuplicates(channels: seq<Channel>) returns (ordered: seq<Channel>)
    ensures ordered == Dedupe(channels)
  {
    ordered := [];
    var seen: set<Text> := {};
    for i := 0 to |channels|
      invariant ordered == Dedupe(channels[..i])
      invariant seen == Keys(channels[..i])
    {
      assert channels[..i + 1][..i] == channels[..i];
      assert channels[..i + 1] == channels[..i] + [channels[i]];
      if channels[i].key !in seen {
        seen := seen + {channels[i].key};
        ordered := ordered + [channels[i]];
      }
    }
    assert channels[..|channels|] == channels;
  }

  /** The lineup is strictly increasing. */
  ghost predicate Increasing(lower: Text -> Text, s: seq<Channel>) {
    forall i, j :: 0 <= i < j < |s| ==> CompareChannels(lower, s[i], s[j]) < 0
  }

  /** `c` is kept: it comes from `s`, and no channel of `s` with its key is before it. */
  ghost predicate Least(lower: Text -> Text, c: Channel, s: seq<Channel>) {
    c in s && forall x :: x in s && x.key == c.key ==> CompareChannels(lower, c, x) <= 0
  }

  lemma {:induction false} DedupeOfSorted(lower: Text -> Text, s: seq<Channel>)
    requires Sorted(lower, s)
    ensures Increasing(lower, Dedupe(s))
    ensures Keys(Dedupe(s)) == Keys(s)
    ensures forall c :: c in Dedupe(s) ==> Least(lower, c, s)
  {
    if s != [] {
      var n := |s| - 1;
      DedupeOfSorted(lower, s[..n]);
      hide CompareChannels;
      assert s == s[..n] + [s[n]];
      DedupeLast(lower, s[..n], s[n]);
    }
  }

  lemma DedupeLast(lower: Text -> Text, s: seq<Channel>, last: Channel)
    requires Sorted(lower, s + [last]) && Increasing(lower, Dedupe(s)) && Keys(Dedupe(s)) == Keys(s)
    requires forall c :: c in Dedupe(s) ==> Least(lower, c, s)
    ensures Increasing(lower, Dedupe(s + [last]))
    ensures Keys(Dedupe(s + [last])) == Keys(s + [last])
    ensures forall c :: c in Dedupe(s + [last]) ==> Least(lower, c, s + [last])
  {
    hide CompareChannels, Increasing, Least, Keys, Sorted;
    assert (s + [last])[..|s|] == s;
    LastIsGreatest(lower, s, last);
    KeysAppend(s, last);
    forall c | c in Dedupe(s) ensures Least(lower, c, s + [last]) {
      LeastStays(lower, c, s, last);
    }
    if last.key !in Keys(s) {
      KeysAppend(Dedupe(s), last);
      IncreasingAppend(lower, Dedupe(s), s, last);
      LastIsLeast(lower, s, last);
    } else {
      assert Dedupe(s) + [] == Dedupe(s);
    }
  }

  lemma LastIsGreatest(lower: Text -> Text, s: seq<Channel>, last: Channel)
    requires Sorted(lower, s + [last])
    ensures forall x :: x in s ==> CompareChannels(lower, x, last) <= 0
  {
    hide CompareChannels;
    forall x | x in s ensures CompareChannels(lower, x, last) <= 0 {
      var i :| 0 <= i < |s| && s[i] == x;
      assert (s + [last])[i] == x && (s + [last])[|s|] == last;
    }
  }

  lemma KeysAppend(s: seq<Channel>, last: Channel)
    ensures Keys(s + [last]) == Keys(s) + {last.key}
  {
  }

  lemma LeastStays(lower: Text -> Text, c: Channel, s: seq<Channel>, last: Channel)
    requires Least(lower, c, s) && forall x :: x in s ==> CompareChannels(lower, x, last) <= 0
    ensures Least(lower, c, s + [last])
  {
  }

  lemma LastIsLeast(lower: Text -> Text, s: seq<Channel>, last: Channel)
    requires last.key !in Keys(s)
    ensures Least(lower, last, s + [last])
  {
    hide CompareChannels;
    CompareOrders(lower, last, last, last);
  }

  lemma IncreasingAppend(lower: Text -> Text, kept: seq<Channel>, s: seq<Channel>, last: Channel)
    requires Increasing(lower, kept) && Keys(kept) == Keys(s) && last.key !in Keys(s)
    requires forall c :: c in kept ==> Least(lower, c, s)
    requires forall x :: x in s ==> CompareChannels(lower, x, last) <= 0
    ensures Increasing(lower, kept + [last])
  {
    hide CompareChannels;
    forall i, j | 0 <= i < j < |kept + [last]|
      ensures CompareChannels(lower, (kept + [last])[i], (kept + [last])[j]) < 0
    {
      if j == |kept| {
        var c := kept[i];
        assert Least(lower, c, s) && c.key in Keys(kept);
        CompareOrders(lower, c, last, last);
      }
    }
  }

  /** The lineup made from any sorted version: increasing, complete, and the least of each key. */
  lemma LineupIsCanonical(lower: Text -> Text, channels: seq<Channel>, s: seq<Channel>)
    requires SortedVersion(lower, s, channels)
    ensures Increasing(lower, Dedupe(s))
    ensures Keys(Dedupe(s)) == Keys(channels)
    ensures forall c :: c in Dedupe(s) ==> Least(lower, c, channels)
  {
    DedupeOfSorted(lower, s);
    SameMembers(s, channels);
    hide CompareChannels;
    assert Keys(s) == Keys(channels);
    forall c | c in Dedupe(s) ensures Least(lower, c, channels) {
      assert Least(lower, c, s);
    }
  }

  lemma SameMembers(s: seq<Channel>, t: seq<Channel>)
    requires multiset(s) == multiset(t)
    ensures forall c :: c in s <==> c in t
  {
    forall c ensures c in s <==> c in t {
      assert c in s <==> c in multiset(s);
      assert c in t <==> c in multiset(t);
    }
  }

  /** Lineups agree when they have the same length and tie at every place. */
  ghost predicate Agree(lower: Text -> Text, a: seq<Channel>, b: seq<Channel>) {
    |a| == |b| && forall i :: 0 <= i < |a| ==> CompareChannels(lower, a[i], b[i]) == 0
  }

  ghost predicate Matched(lower: Text -> Text, a: seq<Channel>, b: seq<Channel>) {
    forall x :: x in a ==> exists y :: y in b && CompareChannels(lower, x, y) == 0
  }

  lemma FirstAtMost(lower: Text -> Text, a: seq<Channel>, b: seq<Channel>)
    requires Increasing(lower, a) && a != [] && b != [] && Matched(lower, b, a)
    ensures CompareChannels(lower, a[0], b[0]) <= 0
  {
    hide CompareChannels;
    assert b[0] in b;
    var x :| x in a && CompareChannels(lower, b[0], x) == 0;
    var i :| 0 <= i < |a| && a[i] == x;
    CompareOrders(lower, a[0], x, b[0]);
    CompareOrders(lower, b[0], x, x);
  }

  lemma FirstsTie(lower: Text -> Text, a: seq<Channel>, b: seq<Channel>)
    requires Increasing(lower, a) && Increasing(lower, b) && a != [] && b != []
    requires Matched(lower, a, b) && Matched(lower, b, a)
    ensures CompareChannels(lower, a[0], b[0]) == 0
  {
    hide CompareChannels;
    FirstAtMost(lower, a, b);
    FirstAtMost(lower, b, a);
    CompareOrders(lower, a[0], b[0], b[0]);
  }

  lemma NotMatchedByNothing(lower: Text -> Text, a: seq<Channel>)
    requires a != []
    ensures !Matched(lower, a, [])
  {
    assert a[0] in a;
  }

  lemma MatchedRest(lower: Text -> Text, a: seq<Channel>, b: seq<Channel>)
    requires Increasing(lower, a) && a != [] && b != []
    requires Matched(lower, a, b) && CompareChannels(lower, a[0], b[0]) == 0
    ensures Matched(lower, a[1..], b[1..])
  {
    hide CompareChannels;
    forall x | x in a[1..] ensures exists y :: y in b[1..] && CompareChannels(lower, x, y) == 0 {
      var i :| 0 < i < |a| && a[i] == x;
      assert x in a;
      var y :| y in b && CompareChannels(lower, x, y) == 0;
      CompareOrders(lower, x, b[0], a[0]);
      CompareOrders(lower, a[0], b[0], x);
      CompareOrders(lower, a[0], x, x);
      assert y != b[0] && b == [b[0]] + b[1..];
      assert y in b[1..];
    }
  }

  lemma {:induction false} MatchedAgree(lower: Text -> Text, a: seq<Channel>, b: seq<Channel>)
    requires Increasing(lower, a) && Increasing(lower, b)
    requires Matched(lower, a, b) && Matched(lower, b, a)
    ensures Agree(lower, a, b)
  {
    hide CompareChannels;
    if a != [] && b != [] {
      FirstsTie(lower, a, b);
      CompareOrders(lower, a[0], b[0], b[0]);
      MatchedRest(lower, a, b);
      MatchedRest(lower, b, a);
      MatchedAgree(lower, a[1..], b[1..]);
    } else if a != [] {
      NotMatchedByNothing(lower, a);
    } else if b != [] {
      NotMatchedByNothing(lower, b);
    }
  }

  lemma KeptAreMatched(lower: Text -> Text, channels: seq<Channel>, a: seq<Channel>, b: seq<Channel>)
    requires Keys(a) == Keys(channels) == Keys(b)
    requires forall c :: c in a ==> Least(lower, c, channels)
    requires forall c :: c in b ==> Least(lower, c, channels)
    ensures Matched(lower, a, b)
  {
    hide CompareChannels;
    forall x | x in a ensures exists y :: y in b && CompareChannels(lower, x, y) == 0 {
      assert x.key in Keys(b);
      var y :| y in b && y.key == x.key;
      assert Least(lower, x, channels) && Least(lower, y, channels);
      CompareOrders(lower, x, y, x);
    }
  }

  /** Whatever the unstable sort does with ties, the lineup has the same keys in the same order. */
  lemma TiesDoNotMatter(lower: Text -> Text, channels: seq<Channel>, s: seq<Channel>, t: seq<Channel>)
    requires SortedVersion(lower, s, channels) && SortedVersion(lower, t, channels)
    ensures Agree(lower, Dedupe(s), Dedupe(t))
    ensures forall i :: 0 <= i < |Dedupe(s)| ==> Dedupe(s)[i].key == Dedupe(t)[i].key
  {
    LineupIsCanonical(lower, channels, s);
    LineupIsCanonical(lower, channels, t);
    KeptAreMatched(lower, channels, Dedupe(s), Dedupe(t));
    KeptAreMatched(lower, channels, Dedupe(t), Dedupe(s));
    MatchedAgree(lower, Dedupe(s), Dedupe(t));
    hide CompareChannels;
    forall i | 0 <= i < |Dedupe(s)| ensures Dedupe(s)[i].key == Dedupe(t)[i].key {
      CompareOrders(lower, Dedupe(s)[i], Dedupe(t)[i], Dedupe(t)[i]);
    }
  }
}
