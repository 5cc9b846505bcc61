/** The M3U parser: which stream URL belongs to which metadata line, and the lineup in the end. */
module Playlist {
  import opened Bytes
  import opened ChannelIdentity
  import L = Lineup

  /** The attributes of a metadata line. */
  datatype Info = Info(tvgID: Text, number: Text, name: Text, logoURL: Text, groupTitle: Text)

  /** What a line of a playlist is; `url` is the line as it stands, untrimmed. */
  datatype Line =
    | Blank
    | Metadata(info: Info)
    | MalformedMetadata
    | Comment
    | StreamURL(url: Text)
    | RejectedURL

  const EXTINF_LENGTH := 8

  // ---------------------------------------------------------------- the separator

  const QUOTE: Byte := 0x22
  const COMMA: Byte := 0x2c

  /** The number of quotes between the tag and position `i`. */
  function QuotesBefore(line: Text, i: nat): nat
    requires EXTINF_LENGTH <= i <= |line|
  {
    if i == EXTINF_LENGTH then 0
    else QuotesBefore(line, i - 1) + if line[i - 1] == QUOTE then 1 else 0
  }

  predicate IsSeparator(line: Text, i: nat)
    requires EXTINF_LENGTH <= i < |line|
  {
    line[i] == COMMA && QuotesBefore(line, i) % 2 == 0
  }

  /** The first comma outside quotes. */
  method FindExtInfSeparator(line: Text) returns (index: int)
    ensures index == -1 || EXTINF_LENGTH <= index < |line|
    ensures index >= 0 ==> IsSeparator(line, index)
    ensures forall i :: EXTINF_LENGTH <= i < (if index >= 0 then index else |line|) ==> !IsSeparator(line, i)
  {
    var inQuotes := false;
    index := EXTINF_LENGTH;
    while index < |line|
      invariant EXTINF_LENGTH <= index
      invariant index <= |line| ==> (inQuotes <==> QuotesBefore(line, index) % 2 == 1)
      invariant forall i :: EXTINF_LENGTH <= i < index && i < |line| ==> !IsSeparator(line, i)
    {
      if line[index] == QUOTE {
        inQuotes := !inQuotes;
      } else if line[index] == COMMA {
        if !inQuotes {
          return;
        }
      }
      index := index + 1;
    }
    index := -1;
  }

  /** A separator is a comma with an even number of quotes between `#EXTINF:` and itself. */
  lemma SeparatorMeaning(line: Text, i: nat)
    requires EXTINF_LENGTH <= i < |line|
    ensures EXTINF_LENGTH == |"#EXTINF:"|
    ensures IsSeparator(line, i) <==> line[i] == ',' as int && multiset(line[8..i])['"' as int] % 2 == 0
  {
    QuotesAreCounted(line, i);
  }

  lemma {:induction false} QuotesAreCounted(line: Text, i: nat)
    requires EXTINF_LENGTH <= i <= |line|
    ensures QuotesBefore(line, i) == multiset(line[8..i])['"' as int]
  {
    if i == EXTINF_LENGTH {
      assert line[8..i] == [];
    } else {
      QuotesAreCounted(line, i - 1);
      assert line[8..i] == line[8..i - 1] + [line[i - 1]];
    }
  }

  // ---------------------------------------------------------------- the line machine

  /** The metadata a stream URL after these lines belongs to: the last, unless a URL came since. */
  function MetadataFor(lines: seq<Line>): Option<Info> {
    if lines == [] then None
    else
      var n := |lines| - 1;
      match lines[n]
      case Metadata(info) => Some(info)
      case StreamURL(_) => None
      case RejectedURL => None
      case _ => MetadataFor(lines[..n])
  }

  /** Lines between metadata and its URL that do not separate the two. */
  predicate Transparent(line: Line) { line.Blank? || line.MalformedMetadata? || line.Comment? }

  /** The metadata line at `j` is the one that a URL after `lines` belongs to. */
  ghost predicate Announces(lines: seq<Line>, j: int) {
    0 <= j < |lines| && lines[j].Metadata? && forall k :: j < k < |lines| ==> Transparent(lines[k])
  }

  lemma {:induction false} MetadataMeaning(lines: seq<Line>)
    ensures MetadataFor(lines).Some? <==> exists j :: Announces(lines, j)
    ensures forall j :: Announces(lines, j) ==> MetadataFor(lines) == Some(lines[j].info)
  {
    if lines != [] {
      var n := |lines| - 1;
      MetadataMeaning(lines[..n]);
      if lines[n].Metadata? {
        assert Announces(lines, n);
      } else if Transparent(lines[n]) {
        forall j ensures Announces(lines, j) <==> Announces(lines[..n], j) {
          if Announces(lines[..n], j) {
            assert forall k :: j < k < n ==> lines[k] == lines[..n][k];
          }
        }
      } else {
        assert forall j :: Announces(lines, j) ==> j == n || Transparent(lines[n]);
      }
    }
  }

  /** The library functions that the parser relies on. */
  datatype Library = Library(lower: Text -> Text, pathKey: Text -> Text)

  function ChannelOf(lib: Library, sourceIndex: nat, info: Info, url: Text): (c: L.Channel)
    ensures c.sourceIndex == sourceIndex
  {
    L.Channel(
      sourceIndex,
      BuildChannelIdentity(lib.lower, lib.pathKey, info.tvgID, info.number, info.name, url),
      info.tvgID, info.number, info.name, info.logoURL, info.groupTitle, url)
  }

  /** One channel for every stream URL that has metadata, in the order of the lines. */
  function ChannelsOf(lib: Library, lines: seq<Line>): seq<L.Channel> {
    if lines == [] then []
    else
      var n := |lines| - 1;
      var before := ChannelsOf(lib, lines[..n]);
      if lines[n].StreamURL? && MetadataFor(lines[..n]).Some? then
        before + [ChannelOf(lib, |before|, MetadataFor(lines[..n]).value, lines[n].url)]
      else before
  }

  ghost predicate Numbered(channels: seq<L.Channel>) {
    forall i :: 0 <= i < |channels| ==> channels[i].sourceIndex == i
  }

  lemma {:induction false} SourceIndicesCount(lib: Library, lines: seq<Line>)
    ensures Numbered(ChannelsOf(lib, lines))
  {
    if lines != [] {
      hide MetadataFor, ChannelOf;
      SourceIndicesCount(lib, lines[..|lines| - 1]);
    }
  }

  method ParseLines(lib: Library, lines: seq<Line>) returns (channels: seq<L.Channel>)
    ensures channels == ChannelsOf(lib, lines)
  {
    channels := [];
    var pending: Option<Info> := None;
    var sourceIndex := 0;
    for index := 0 to |lines|
      invariant pending == MetadataFor(lines[..index])
      invariant channels == ChannelsOf(lib, lines[..index])
      invariant sourceIndex == |channels|
    {
      assert lines[..index + 1][..index] == lines[..index];
      match lines[index]
      case Blank =>
      case Metadata(info) => pending := Some(info);
      case MalformedMetadata =>
      case Comment =>
      case RejectedURL => pending := None;
      case StreamURL(url) =>
        if pending.Some? {
          channels := channels + [ChannelOf(lib, sourceIndex, pending.value, url)];
          sourceIndex := sourceIndex + 1;
          pending := None;
        }
    }
    assert lines[..|lines|] == lines;
  }

  /** `sorted` is what the library's unstable sort makes of the parsed channels. */
  method ParseM3U(lib: Library, lines: seq<Line>, sorted: seq<L.Channel>) returns (lineup: seq<L.Channel>)
    requires L.SortedVersion(lib.lower, sorted, ChannelsOf(lib, lines))
    ensures lineup == L.Dedupe(sorted)
    ensures L.Increasing(lib.lower, lineup)
    ensures L.Keys(lineup) == L.Keys(ChannelsOf(lib, lines))
    ensures forall c :: c in lineup ==> L.Least(lib.lower, c, ChannelsOf(lib, lines))
  {
    var channels := ParseLines(lib, lines);
    lineup := L.DropDuplicates(sorted);
    L.LineupIsCanonical(lib.lower, channels, sorted);
  }
}
