/**
 * The M3U playlist parser of the companion server: the fetched playlist text
 * is cut into trimmed, non-empty lines, and a one-slot state machine pairs each
 * `#EXTINF:` metadata line with the URL line that follows it.
 */
module M3U {
  import opened Wrappers
  import opened JsString

  /** The pending `currentInfo` object: metadata waiting for its URL line. */
  datatype Info = Info(name: string, group: string)

  /** A channel record `{name, group, url}` as it is pushed onto the result list. */
  datatype Channel = Channel(name: string, group: string, url: string)

  const ExtInfPrefix: string := "#EXTINF:"
  const UrlPrefix: string := "http"
  const DefaultName: string := "Sans nom"
  const DefaultGroup: string := "Divers"
  const GroupKey: string := "group-title=\""

  // ---------------------------------------------------------------------------
  // Line splitting: text.split("\n").map(l => l.trim()).filter(l => l.length)
  // ---------------------------------------------------------------------------

  /** The trimmed pieces, with the empty ones dropped, in their original order. */
  function TrimmedNonEmpty(pieces: seq<string>): seq<string>
  {
    if |pieces| == 0 then [] else Kept(pieces[0]) + TrimmedNonEmpty(pieces[1..])
  }

  /** A piece's contribution to the lines: its trim, unless that is empty. */
  function Kept(piece: string): seq<string>
  {
    var t := Trim(piece);
    if t == "" then [] else [t]
  }

  /** The lines the parser scans. */
  function Lines(text: string): seq<string>
  {
    TrimmedNonEmpty(Split(text, '\n'))
  }

  predicate WellFormedLine(line: string)
  {
    line != "" && Trim(line) == line && '\n' !in line
  }

  lemma {:induction false} TrimmedNonEmptyWellFormed(pieces: seq<string>)
    requires forall i :: 0 <= i < |pieces| ==> '\n' !in pieces[i]
    ensures forall i :: 0 <= i < |TrimmedNonEmpty(pieces)| ==> WellFormedLine(TrimmedNonEmpty(pieces)[i])
  {
    if |pieces| > 0 {
      TrimmedNonEmptyWellFormed(pieces[1..]);
      var p := pieces[0];
      var t := Trim(p);
      TrimIdempotent(p);
      var k := Lead(p);
      TrimSlice(p);
      assert '\n' !in t by {
        forall j | 0 <= j < |t| ensures t[j] != '\n' { assert t[j] == p[k + j]; }
      }
    }
  }

  /** Every scanned line is non-empty, already trimmed, and holds no line feed. */
  lemma LinesWellFormed(text: string)
    ensures forall i :: 0 <= i < |Lines(text)| ==> WellFormedLine(Lines(text)[i])
  {
    TrimmedNonEmptyWellFormed(Split(text, '\n'));
  }

  lemma {:induction false} TrimmedNonEmptyAppend(a: seq<string>, b: seq<string>)
    ensures TrimmedNonEmpty(a + b) == TrimmedNonEmpty(a) + TrimmedNonEmpty(b)
  {
    if |a| > 0 {
      assert (a + b)[0] == a[0] && (a + b)[1..] == a[1..] + b;
      TrimmedNonEmptyAppend(a[1..], b);
      var h := Kept(a[0]);
      assert h + (TrimmedNonEmpty(a[1..]) + TrimmedNonEmpty(b)) == (h + TrimmedNonEmpty(a[1..])) + TrimmedNonEmpty(b);
    } else {
      assert a + b == b;
    }
  }

  /** Lines keep their order: the lines of `a + "\n" + b` are those of `a`, then those of `b`. */
  lemma LinesAppend(a: string, b: string)
    ensures Lines(a + "\n" + b) == Lines(a) + Lines(b)
  {
    assert a + "\n" + b == a + ['\n'] + b;
    SplitAppend(a, b, '\n');
    TrimmedNonEmptyAppend(Split(a, '\n'), Split(b, '\n'));
  }

  /** A single piece of text yields its trim as one line, unless it is all whitespace. */
  lemma LinesOfOnePiece(piece: string)
    requires '\n' !in piece
    ensures Lines(piece) == if AllWhitespace(piece) then [] else [Trim(piece)]
  {
    SplitNoSep(piece, '\n');
    TrimEmptyIff(piece);
    var t := Trim(piece);
    assert [piece][1..] == [];
    assert TrimmedNonEmpty([piece]) == (if t == "" then [] else [t]) + TrimmedNonEmpty([]);
  }

  lemma {:induction false} TrimmedNonEmptyBlank(pieces: seq<string>)
    requires forall i :: 0 <= i < |pieces| ==> AllWhitespace(pieces[i])
    ensures TrimmedNonEmpty(pieces) == []
  {
    if |pieces| > 0 {
      TrimEmptyIff(pieces[0]);
      TrimmedNonEmptyBlank(pieces[1..]);
    }
  }

  /** Empty or all-whitespace text has no lines at all. */
  lemma LinesOfBlankText(text: string)
    requires AllWhitespace(text)
    ensures Lines(text) == []
  {
    SplitWhitespace(text, '\n');
    TrimmedNonEmptyBlank(Split(text, '\n'));
  }

  // ---------------------------------------------------------------------------
  // The name: line.match(/,(.+)$/), capture group 1, else "Sans nom"
  // ---------------------------------------------------------------------------

  /** The regular expression `,(.+)$` matches starting at `p`: a comma followed by
      one or more characters up to the end of the line, none a line terminator
      (`.` does not match those, and without the `m` flag `$` is the input's end). */
  predicate NameMatchAt(line: string, p: int)
  {
    0 <= p && p + 1 < |line| && line[p] == ','
    && forall k :: p < k < |line| ==> !IsLineTerminator(line[k])
  }

  /** The leftmost match position at or after `from`. */
  function FindName(line: string, from: nat): (r: Option<nat>)
    requires from <= |line|
    ensures r.Some? ==> from <= r.value && NameMatchAt(line, r.value)
    ensures forall p :: from <= p && (r.Some? ==> p < r.value) ==> !NameMatchAt(line, p)
    decreases |line| - from
  {
    if from == |line| then None
    else if NameMatchAt(line, from) then Some(from)
    else FindName(line, from + 1)
  }

  function Name(line: string): string
  {
    match FindName(line, 0)
    case Some(p) => line[p + 1..]
    case None => DefaultName
  }

  predicate NoLineTerminator(line: string)
  {
    forall k :: 0 <= k < |line| ==> !IsLineTerminator(line[k])
  }

  /** On a line without line terminators, the name is everything after the FIRST
      comma, untrimmed, provided at least one character follows that comma. */
  lemma NameAfterFirstComma(line: string, p: nat)
    requires NoLineTerminator(line)
    requires p < |line| && line[p] == ',' && ',' !in line[..p]
    ensures Name(line) == if p + 1 < |line| then line[p + 1..] else DefaultName
  {
    forall q | 0 <= q < p ensures !NameMatchAt(line, q) {
      assert line[q] == line[..p][q];
    }
    if p + 1 < |line| {
      assert NameMatchAt(line, p);
    }
  }

  /** A line without a comma gets the default name. */
  lemma NameWithoutComma(line: string)
    requires ',' !in line
    ensures Name(line) == DefaultName
  {
    forall p | 0 <= p < |line| ensures !NameMatchAt(line, p) {
      assert line[p] in line;
    }
  }

  // ---------------------------------------------------------------------------
  // The group: line.match(/group-title="([^"]+)"/), capture group 1, else "Divers"
  // ---------------------------------------------------------------------------

  /** `group-title="([^"]+)"` matches starting at `i`, with its closing quote at `j`:
      the value `line[i + |GroupKey|..j]` is non-empty and holds no quote. */
  predicate GroupMatchAt(line: string, i: int, j: int)
  {
    0 <= i && i + |GroupKey| < j < |line|
    && line[i..i + |GroupKey|] == GroupKey && line[j] == '"'
    && forall k :: i + |GroupKey| <= k < j ==> line[k] != '"'
  }

  /** The first quote at or after `from`. */
  function NextQuote(line: string, from: nat): (r: Option<nat>)
    requires from <= |line|
    ensures r.Some? ==> from <= r.value < |line| && line[r.value] == '"'
    ensures forall k :: from <= k < |line| && (r.Some? ==> k < r.value) ==> line[k] != '"'
    decreases |line| - from
  {
    if from == |line| then None
    else if line[from] == '"' then Some(from)
    else NextQuote(line, from + 1)
  }

  /** The leftmost match at or after `from`, as its start and the index of its closing quote. */
  function FindGroup(line: string, from: nat): (r: Option<(nat, nat)>)
    requires from <= |line|
    ensures r.Some? ==> from <= r.value.0 && GroupMatchAt(line, r.value.0, r.value.1)
    ensures forall i, j :: from <= i && (r.Some? ==> i < r.value.0) ==> !GroupMatchAt(line, i, j)
    decreases |line| - from
  {
    if from == |line| then None
    else if from + |GroupKey| <= |line| && line[from..from + |GroupKey|] == GroupKey then
      match NextQuote(line, from + |GroupKey|)
      case Some(j) =>
        if j > from + |GroupKey| then Some((from, j)) else FindGroup(line, from + 1)
      case None => FindGroup(line, from + 1)
    else FindGroup(line, from + 1)
  }

  function Group(line: string): string
  {
    match FindGroup(line, 0)
    case Some((i, j)) => line[i + |GroupKey|..j]
    case None => DefaultGroup
  }

  /** The group is the value of the leftmost non-empty `group-title="…"` attribute. */
  lemma GroupOfFirstAttribute(line: string, i: nat, j: nat)
    requires GroupMatchAt(line, i, j)
    requires forall i', j' :: 0 <= i' < i ==> !GroupMatchAt(line, i', j')
    ensures Group(line) == line[i + |GroupKey|..j]
  {
    var r := FindGroup(line, 0);
    assert r.Some? && r.value.0 == i;
    GroupCloseUnique(line, i, j, r.value.1);
  }

  /** A match's closing quote is the first quote after the attribute's opening quote. */
  lemma GroupCloseUnique(line: string, i: nat, j1: nat, j2: nat)
    requires GroupMatchAt(line, i, j1) && GroupMatchAt(line, i, j2)
    ensures j1 == j2
  {
  }

  /** Without any such attribute the group is "Divers". */
  lemma GroupWithoutAttribute(line: string)
    requires forall i, j :: !GroupMatchAt(line, i, j)
    ensures Group(line) == DefaultGroup
  {
  }

  /** The metadata an `#EXTINF:` line carries. */
  function Meta(line: string): Info
  {
    Info(Name(line), Group(line))
  }

  // ---------------------------------------------------------------------------
  // The assembler: the loop of parseM3U as a left fold of a step function
  // ---------------------------------------------------------------------------

  predicate IsExtInf(line: string)
  {
    StartsWith(line, ExtInfPrefix)
  }

  predicate IsUrl(line: string)
  {
    StartsWith(line, UrlPrefix)
  }

  /** No line is both a metadata line and a URL line ('#' is not 'h'). */
  lemma UrlIsNotExtInf(line: string)
    ensures !(IsUrl(line) && IsExtInf(line))
  {
    if IsUrl(line) && |line| >= |ExtInfPrefix| {
      assert line[0] == UrlPrefix[0];
      assert line[..|ExtInfPrefix|][0] == line[0];
    }
  }

  /** The loop's variables: the pending slot `currentInfo` and the list `channels`. */
  datatype Scan = Scan(pending: Option<Info>, channels: seq<Channel>)

  const Start: Scan := Scan(None, [])

  /** One iteration of the loop over the lines. */
  function Step(st: Scan, line: string): Scan
  {
    if IsExtInf(line) then Scan(Some(Meta(line)), st.channels)
    else if st.pending.Some? && IsUrl(line) then
      Scan(None, st.channels + [Channel(st.pending.value.name, st.pending.value.group, line)])
    else st
  }

  /** The state after the loop has run over `lines`, starting from `st`. */
  function Run(st: Scan, lines: seq<string>): Scan
    decreases |lines|
  {
    if |lines| == 0 then st else Step(Run(st, lines[..|lines| - 1]), lines[|lines| - 1])
  }

  /** The channels of a list of lines. */
  function ParseLines(lines: seq<string>): seq<Channel>
  {
    Run(Start, lines).channels
  }

  /** The channels of a fetched playlist text. */
  function ParsePlaylist(text: string): seq<Channel>
  {
    ParseLines(Lines(text))
  }

  /** The loop of parseM3U, over the text once it has been fetched. */
  method ParseM3U(text: string) returns (channels: seq<Channel>)
    ensures channels == ParsePlaylist(text)
  {
    var lines := Lines(text);
    channels := [];
    var currentInfo: Option<Info> := None;
    for i := 0 to |lines|
      invariant Run(Start, lines[..i]) == Scan(currentInfo, channels)
    {
      var line := lines[i];
      if StartsWith(line, ExtInfPrefix) {
        currentInfo := Some(Info(Name(line), Group(line)));
      } else if currentInfo.Some? && StartsWith(line, UrlPrefix) {
        channels := channels + [Channel(currentInfo.value.name, currentInfo.value.group, line)];
        currentInfo := None;
      }
      assert lines[..i + 1][..i] == lines[..i];
    }
    assert lines[..|lines|] == lines;
  }

  // ---------------------------------------------------------------------------
  // Composition of runs
  // ---------------------------------------------------------------------------

  lemma {:induction false} RunAppend(st: Scan, a: seq<string>, b: seq<string>)
    ensures Run(st, a + b) == Run(Run(st, a), b)
    decreases |b|
  {
    if |b| == 0 {
      assert a + b == a;
    } else {
      var n := |b| - 1;
      assert (a + b)[..|a + b| - 1] == a + b[..n];
      assert (a + b)[|a + b| - 1] == b[n];
      RunAppend(st, a, b[..n]);
    }
  }

  /** Channels are only ever appended: a run keeps the channels it starts with
      and what it adds does not depend on them. */
  lemma {:induction false} RunKeepsChannels(p: Option<Info>, c: seq<Channel>, lines: seq<string>)
    ensures Run(Scan(p, c), lines).pending == Run(Scan(p, []), lines).pending
    ensures Run(Scan(p, c), lines).channels == c + Run(Scan(p, []), lines).channels
    decreases |lines|
  {
    if |lines| > 0 {
      RunKeepsChannels(p, c, lines[..|lines| - 1]);
    }
  }

  /** Once nothing is pending, the rest of the playlist parses on its own:
      the channels of `a + b` are those of `a`, then those of `b`. */
  lemma ParseLinesAppend(a: seq<string>, b: seq<string>)
    requires Run(Start, a).pending == None
    ensures ParseLines(a + b) == ParseLines(a) + ParseLines(b)
  {
    RunAppend(Start, a, b);
    RunKeepsChannels(None, ParseLines(a), b);
  }

  // ---------------------------------------------------------------------------
  // Properties of the state machine
  // ---------------------------------------------------------------------------

  /** A metadata line and the URL line right after it give exactly one channel,
      with that line's metadata, and leave nothing pending. */
  lemma PairEmitsOneChannel(st: Scan, meta: string, url: string)
    requires IsExtInf(meta) && IsUrl(url)
    ensures Run(st, [meta, url]) == Scan(None, st.channels + [Channel(Name(meta), Group(meta), url)])
  {
    UrlIsNotExtInf(url);
    assert [meta, url][..1] == [meta];
    assert [meta][..0] == [];
    assert Run(st, [meta]) == Step(st, meta);
    assert Run(st, [meta, url]) == Step(Step(st, meta), url);
  }

  function PairLines(pairs: seq<(string, string)>): seq<string>
  {
    if |pairs| == 0 then [] else PairLines(pairs[..|pairs| - 1]) + [pairs[|pairs| - 1].0, pairs[|pairs| - 1].1]
  }

  function PairChannels(pairs: seq<(string, string)>): seq<Channel>
  {
    if |pairs| == 0 then []
    else PairChannels(pairs[..|pairs| - 1]) + [Channel(Name(pairs[|pairs| - 1].0), Group(pairs[|pairs| - 1].0), pairs[|pairs| - 1].1)]
  }

  /** A playlist made only of metadata/URL pairs gives one channel per pair, in order. */
  lemma {:induction false} WellFormedPlaylist(pairs: seq<(string, string)>)
    requires forall k :: 0 <= k < |pairs| ==> IsExtInf(pairs[k].0) && IsUrl(pairs[k].1)
    ensures Run(Start, PairLines(pairs)) == Scan(None, PairChannels(pairs))
  {
    if |pairs| > 0 {
      var n := |pairs| - 1;
      WellFormedPlaylist(pairs[..n]);
      RunAppend(Start, PairLines(pairs[..n]), [pairs[n].0, pairs[n].1]);
      PairEmitsOneChannel(Run(Start, PairLines(pairs[..n])), pairs[n].0, pairs[n].1);
    }
  }

  predicate IsMarker(line: string)
  {
    IsExtInf(line) || IsUrl(line)
  }

  /** Lines that are neither metadata nor URL lines change nothing, pending slot included. */
  lemma {:induction false} NoiseKeepsState(st: Scan, lines: seq<string>)
    requires forall k :: 0 <= k < |lines| ==> !IsMarker(lines[k])
    ensures Run(st, lines) == st
    decreases |lines|
  {
    if |lines| > 0 {
      NoiseKeepsState(st, lines[..|lines| - 1]);
    }
  }

  /** Without URL lines no channel is emitted: in particular metadata still
      pending at the end of the input produces nothing. */
  lemma {:induction false} NoUrlNoChannel(st: Scan, lines: seq<string>)
    requires forall k :: 0 <= k < |lines| ==> !IsUrl(lines[k])
    ensures Run(st, lines).channels == st.channels
    ensures |lines| > 0 && IsExtInf(lines[|lines| - 1]) ==> Run(st, lines).pending == Some(Meta(lines[|lines| - 1]))
    decreases |lines|
  {
    if |lines| > 0 {
      NoUrlNoChannel(st, lines[..|lines| - 1]);
    }
  }

  /** Trailing lines without a URL line add no channel. */
  lemma TrailingLinesWithoutUrl(lines: seq<string>, tail: seq<string>)
    requires forall k :: 0 <= k < |tail| ==> !IsUrl(tail[k])
    ensures ParseLines(lines + tail) == ParseLines(lines)
  {
    RunAppend(Start, lines, tail);
    NoUrlNoChannel(Run(Start, lines), tail);
  }

  /** Of two metadata lines with no URL line between them only the second counts:
      the first one's metadata is discarded and never produces a channel. */
  lemma LaterMetadataWins(st: Scan, first: string, between: seq<string>, second: string)
    requires IsExtInf(first) && IsExtInf(second)
    requires forall k :: 0 <= k < |between| ==> !IsUrl(between[k])
    ensures Run(st, [first] + between + [second]) == Scan(Some(Meta(second)), st.channels)
  {
    var head := [first] + between;
    var lines := head + [second];
    assert lines == [first] + between + [second];
    assert lines[..|lines| - 1] == head;
    UrlIsNotExtInf(first);
    forall k | 0 <= k < |head| ensures !IsUrl(head[k]) {
      if k > 0 { assert head[k] == between[k - 1]; }
    }
    NoUrlNoChannel(st, head);
  }

  /** A URL line while nothing is pending emits nothing. */
  lemma StrayUrlIgnored(lines: seq<string>, url: string)
    requires IsUrl(url) && Run(Start, lines).pending == None
    ensures ParseLines(lines + [url]) == ParseLines(lines)
  {
    assert (lines + [url])[..|lines|] == lines;
  }

  function CountExtInf(lines: seq<string>): nat
  {
    if |lines| == 0 then 0
    else CountExtInf(lines[..|lines| - 1]) + (if IsExtInf(lines[|lines| - 1]) then 1 else 0)
  }

  function CountUrl(lines: seq<string>): nat
  {
    if |lines| == 0 then 0
    else CountUrl(lines[..|lines| - 1]) + (if IsUrl(lines[|lines| - 1]) then 1 else 0)
  }

  /** Every channel consumes one metadata line and one URL line: there are at most
      as many channels as of either, and a pending slot uses up one more metadata line. */
  lemma {:induction false} ChannelCountBounds(lines: seq<string>)
    ensures |ParseLines(lines)| + (if Run(Start, lines).pending.Some? then 1 else 0) <= CountExtInf(lines)
    ensures |ParseLines(lines)| <= CountUrl(lines)
    decreases |lines|
  {
    if |lines| > 0 {
      ChannelCountBounds(lines[..|lines| - 1]);
    }
  }

  // ---------------------------------------------------------------------------
  // A reference definition without a state: which URL line pairs with which line
  // ---------------------------------------------------------------------------

  /** The index of the last metadata or URL line. */
  function LastMarker(lines: seq<string>): (r: Option<nat>)
    ensures r.Some? ==> r.value < |lines| && IsMarker(lines[r.value])
    ensures forall k :: 0 <= k < |lines| && (r.Some? ==> r.value < k) ==> !IsMarker(lines[k])
    decreases |lines|
  {
    if |lines| == 0 then None
    else if IsMarker(lines[|lines| - 1]) then Some(|lines| - 1)
    else LastMarker(lines[..|lines| - 1])
  }

  /** The metadata pending after `lines`: that of the last marker line, if it is a metadata line. */
  function PendingAfter(lines: seq<string>): Option<Info>
  {
    match LastMarker(lines)
    case Some(m) => if IsExtInf(lines[m]) then Some(Meta(lines[m])) else None
    case None => None
  }

  /** The (metadata line, URL line) index pairs: each URL line is paired with the
      nearest metadata-or-URL line before it, when that line is a metadata line. */
  function Pairings(lines: seq<string>): seq<(nat, nat)>
    decreases |lines|
  {
    if |lines| == 0 then []
    else
      var n := |lines| - 1;
      Pairings(lines[..n]) +
        (if IsUrl(lines[n]) then
           match LastMarker(lines[..n])
           case Some(m) => if IsExtInf(lines[m]) then [(m, n)] else []
           case None => []
         else [])
  }

  /** The channel a pair of line indices stands for. */
  predicate PairGives(lines: seq<string>, p: (nat, nat), c: Channel)
  {
    p.0 < p.1 < |lines| && c == Channel(Name(lines[p.0]), Group(lines[p.0]), lines[p.1])
  }

  lemma PrefixIndex(lines: seq<string>, n: nat)
    requires n < |lines|
    ensures forall k :: 0 <= k < n ==> lines[..n][k] == lines[k]
  {
  }

  /** The pending slot is what the last marker line leaves: its metadata when it
      is a metadata line, and nothing otherwise. */
  lemma {:induction false} PendingMatchesLastMarker(lines: seq<string>)
    ensures Run(Start, lines).pending == PendingAfter(lines)
    decreases |lines|
  {
    if |lines| > 0 {
      var n := |lines| - 1;
      var pre, line := lines[..n], lines[n];
      PendingMatchesLastMarker(pre);
      PrefixIndex(lines, n);
      assert Run(Start, lines) == Step(Run(Start, pre), line);
      if !IsMarker(line) {
        assert LastMarker(lines) == LastMarker(pre);
      }
    }
  }

  /** The state machine computes exactly the reference pairing: the k-th channel
      is built from the k-th pair. */
  lemma {:induction false} ParseMatchesPairings(lines: seq<string>)
    ensures |ParseLines(lines)| == |Pairings(lines)|
    ensures forall k :: 0 <= k < |Pairings(lines)| ==> PairGives(lines, Pairings(lines)[k], ParseLines(lines)[k])
    decreases |lines|
  {
    if |lines| > 0 {
      var n := |lines| - 1;
      var pre, line := lines[..n], lines[n];
      ParseMatchesPairings(pre);
      PendingMatchesLastMarker(pre);
      PrefixIndex(lines, n);
      assert Run(Start, lines) == Step(Run(Start, pre), line);
      var P, C := Pairings(pre), ParseLines(pre);
      forall k | 0 <= k < |P| ensures PairGives(lines, P[k], C[k]) {
        assert PairGives(pre, P[k], C[k]);
      }
      UrlIsNotExtInf(line);
      if IsUrl(line) && Run(Start, pre).pending.Some? {
        var m := LastMarker(pre).value;
        assert Pairings(lines) == P + [(m, n)];
        assert ParseLines(lines) == C + [Channel(Name(lines[m]), Group(lines[m]), line)];
      } else {
        assert Pairings(lines) == P;
        assert ParseLines(lines) == C;
      }
    }
  }

  /** Within a reference pair the metadata line comes first, the second line is
      a URL line, and nothing but noise lines lie between them. */
  lemma {:induction false} PairingsWellPlaced(lines: seq<string>)
    ensures forall k :: 0 <= k < |Pairings(lines)| ==>
      var p := Pairings(lines)[k];
      && p.0 < p.1 < |lines| && IsExtInf(lines[p.0]) && IsUrl(lines[p.1])
      && forall j :: p.0 < j < p.1 ==> !IsMarker(lines[j])
    decreases |lines|
  {
    if |lines| > 0 {
      var n := |lines| - 1;
      var pre := lines[..n];
      PairingsWellPlaced(pre);
      PrefixIndex(lines, n);
      if |Pairings(lines)| > |Pairings(pre)| {
        var m := LastMarker(pre).value;
        assert Pairings(lines) == Pairings(pre) + [(m, n)];
      } else {
        assert Pairings(lines) == Pairings(pre);
      }
    }
  }

  /** The reference pairs follow the order of the lines and do not overlap: each
      pair's URL line comes before the next pair's metadata line. */
  lemma {:induction false} PairingsOrdered(lines: seq<string>)
    ensures forall k :: 0 <= k < |Pairings(lines)| - 1 ==> Pairings(lines)[k].1 < Pairings(lines)[k + 1].0
    decreases |lines|
  {
    if |lines| > 0 {
      var n := |lines| - 1;
      var pre := lines[..n];
      PairingsOrdered(pre);
      var P := Pairings(pre);
      if |Pairings(lines)| > |P| {
        var m := LastMarker(pre).value;
        assert Pairings(lines) == P + [(m, n)];
        if |P| > 0 {
          PairingsWellPlaced(pre);
          var last := P[|P| - 1].1;
          assert IsUrl(pre[last]);
          assert IsMarker(pre[last]);
          UrlIsNotExtInf(pre[last]);
          assert last <= m;
        }
      } else {
        assert Pairings(lines) == P;
      }
    }
  }

  /** Every channel's URL is one of the lines and starts with "http"; its name and
      group come from a metadata line earlier in the list. */
  lemma ChannelOrigins(lines: seq<string>, k: nat)
    requires k < |ParseLines(lines)|
    ensures ParseLines(lines)[k].url in lines && StartsWith(ParseLines(lines)[k].url, UrlPrefix)
    ensures exists m :: (0 <= m < |lines| && IsExtInf(lines[m])
      && ParseLines(lines)[k].name == Name(lines[m]) && ParseLines(lines)[k].group == Group(lines[m]))
  {
    ParseMatchesPairings(lines);
    PairingsWellPlaced(lines);
    var p := Pairings(lines)[k];
    assert PairGives(lines, p, ParseLines(lines)[k]);
    assert lines[p.1] in lines;
  }
}
