/**
 * The `/tv/:id` endpoint of the companion server: the path id is read with
 * `parseInt(id, 10)`, an id that names no configured playlist is answered
 * with 404, and otherwise the playlist is fetched and parsed.
 */
module TvRoute {
  import opened Wrappers
  import opened JsString
  import M3U

  /** The configured playlist URLs (`m3uPlaylists`), by index. */
  const Playlists: seq<string> := [
    "https://iptv-org.github.io/iptv/countries/fr.m3u",
    "https://exemple.com/autre.m3u"
  ]

  // ---------------------------------------------------------------------------
  // parseInt(s, 10)
  // ---------------------------------------------------------------------------

  predicate IsDigit(c: char)
  {
    '0' <= c <= '9'
  }

  predicate AllDigits(s: string)
  {
    forall i :: 0 <= i < |s| ==> IsDigit(s[i])
  }

  /** The longest run of decimal digits at the start of `s`. */
  function DigitPrefix(s: string): (r: string)
    ensures |r| <= |s| && r == s[..|r|] && AllDigits(r)
    ensures |r| < |s| ==> !IsDigit(s[|r|])
  {
    if |s| > 0 && IsDigit(s[0]) then [s[0]] + DigitPrefix(s[1..]) else []
  }

  /** The number a string of decimal digits denotes, most significant digit first. */
  function DigitsValue(ds: string): nat
    requires AllDigits(ds)
  {
    if |ds| == 0 then 0
    else DigitsValue(ds[..|ds| - 1]) * 10 + ((ds[|ds| - 1] as int) - ('0' as int))
  }

  /** What `parseInt` returns: NaN or an integer. The value -0 (from "-0") is
      taken as 0: the handler's comparisons and its indexing treat both alike. */
  datatype Parsed = NaN | Int(value: int)

  /** `parseInt(s, 10)`: leading whitespace skipped, an optional sign, then the
      longest run of decimal digits; NaN when that run is empty. */
  function ParseInt(s: string): Parsed
  {
    ParseSigned(TrimStart(s))
  }

  /** The reading of the text once the leading whitespace is skipped. */
  function ParseSigned(t: string): Parsed
  {
    var ds := DigitPrefix(Unsigned(t));
    if ds == [] then NaN
    else if t[0] == '-' then Int(0 - DigitsValue(ds))
    else Int(DigitsValue(ds))
  }

  /** The canonical decimal form of a natural number (no leading zeros). */
  function Decimal(n: nat): (r: string)
    ensures |r| > 0 && AllDigits(r)
    decreases n
  {
    var d := [('0' as int + n % 10) as char];
    if n < 10 then d else Decimal(n / 10) + d
  }

  /** The decimal form of an integer, with a minus sign when negative. */
  function Show(n: int): string
  {
    if n < 0 then "-" + Decimal(-n) else Decimal(n)
  }

  lemma {:induction false} DecimalValue(n: nat)
    ensures DigitsValue(Decimal(n)) == n
    decreases n
  {
    if n >= 10 {
      DecimalValue(n / 10);
      var r := Decimal(n);
      assert r[..|r| - 1] == Decimal(n / 10);
    }
  }

  lemma {:induction false} DigitPrefixOf(ds: string, rest: string)
    requires AllDigits(ds)
    requires rest == [] || !IsDigit(rest[0])
    ensures DigitPrefix(ds + rest) == ds
  {
    if |ds| == 0 {
      assert ds + rest == rest;
    } else {
      assert (ds + rest)[1..] == ds[1..] + rest;
      DigitPrefixOf(ds[1..], rest);
      assert [ds[0]] + ds[1..] == ds;
    }
  }

  lemma {:induction false} LeadOf(ws: string, s: string)
    requires AllWhitespace(ws)
    requires s == [] || !IsWhitespace(s[0])
    ensures Lead(ws + s) == |ws|
  {
    if |ws| == 0 {
      assert ws + s == s;
    } else {
      assert (ws + s)[1..] == ws[1..] + s;
      assert AllWhitespace(ws[1..]) by {
        forall i | 0 <= i < |ws[1..]| ensures IsWhitespace(ws[1..][i]) { assert ws[1..][i] == ws[i + 1]; }
      }
      LeadOf(ws[1..], s);
    }
  }

  lemma TrimStartSkips(ws: string, s: string)
    requires AllWhitespace(ws)
    requires s == [] || !IsWhitespace(s[0])
    ensures TrimStart(ws + s) == s
  {
    LeadOf(ws, s);
    assert (ws + s)[|ws|..] == s;
  }

  /** The text after an optional sign. */
  function Unsigned(t: string): string
  {
    if |t| > 0 && (t[0] == '+' || t[0] == '-') then t[1..] else t
  }

  /** Once the whitespace is skipped, a run of digits followed by a non-digit
      is read as that number... */
  lemma ParseUnsignedDigits(ds: string, rest: string)
    requires AllDigits(ds) && |ds| > 0
    requires rest == [] || !IsDigit(rest[0])
    ensures ParseSigned(ds + rest) == Int(DigitsValue(ds))
  {
    var t := ds + rest;
    assert t[0] == ds[0];
    assert Unsigned(t) == t;
    DigitPrefixOf(ds, rest);
  }

  /** After a minus sign, the digits that follow are read and negated. */
  lemma ParseSignedMinus(u: string)
    ensures ParseSigned(['-'] + u) == (var ds := DigitPrefix(u); if ds == [] then NaN else Int(0 - DigitsValue(ds)))
  {
    assert (['-'] + u)[1..] == u;
  }

  /** After a plus sign, the digits that follow are read as they are. */
  lemma ParseSignedPlus(u: string)
    ensures ParseSigned(['+'] + u) == (var ds := DigitPrefix(u); if ds == [] then NaN else Int(DigitsValue(ds)))
  {
    assert (['+'] + u)[1..] == u;
  }

  /** The optional sign `parseInt` accepts before the digits. */
  datatype Sign = NoSign | Plus | Minus

  function SignText(sign: Sign): string
  {
    match sign
    case NoSign => ""
    case Plus => "+"
    case Minus => "-"
  }

  /** The value of a digit run read after `sign`. */
  function Signed(sign: Sign, v: nat): int
  {
    if sign == Minus then 0 - v else v
  }

  /** In general, after an optional sign a text that starts with a digit is read
      as the value of its leading digit run (leading zeros included), negated
      after `-`; whatever follows the run is ignored. */
  lemma ParseSignedDigits(sign: Sign, u: string)
    requires u != [] && IsDigit(u[0])
    ensures DigitPrefix(u) != []
    ensures ParseSigned(SignText(sign) + u) == Int(Signed(sign, DigitsValue(DigitPrefix(u))))
  {
    match sign
    case NoSign =>
      assert SignText(sign) + u == u;
    case Plus => ParseSignedPlus(u);
    case Minus => ParseSignedMinus(u);
  }

  /** `parseInt` reads back every integer written in decimal, whatever whitespace
      precedes it and whatever non-digit text follows it. */
  lemma ParseIntOfShow(ws: string, n: int, rest: string)
    requires AllWhitespace(ws)
    requires rest == [] || !IsDigit(rest[0])
    ensures ParseInt(ws + Show(n) + rest) == Int(n)
  {
    var m: nat := if n < 0 then -n else n;
    var d := Decimal(m);
    DecimalValue(m);
    var signed := if n < 0 then ['-'] + (d + rest) else d + rest;
    assert ws + Show(n) + rest == ws + signed;
    TrimStartSkips(ws, signed);
    if n < 0 { ParseSignedMinus(d + rest); DigitPrefixOf(d, rest); } else { ParseUnsignedDigits(d, rest); }
  }

  /** `parseInt` gives NaN exactly when, after the whitespace and an optional sign,
      no digit follows. */
  lemma ParseIntNaN(s: string)
    ensures ParseInt(s) == NaN <==>
      var u := Unsigned(TrimStart(s));
      u == [] || !IsDigit(u[0])
  {
  }

  // ---------------------------------------------------------------------------
  // The handler
  // ---------------------------------------------------------------------------

  /** The playlist index the handler uses, or None when it answers 404. */
  function SelectPlaylist(id: string, count: nat): (r: Option<nat>)
    ensures r.Some? ==> r.value < count
  {
    match ParseInt(id)
    case NaN => None
    case Int(v) => if v < 0 || v >= count then None else Some(v)
  }

  /** The three answers: 404 "Playlist inconnue", 500 "Erreur parsing M3U",
      and 200 with the JSON array of channels. */
  datatype Response = NotFound | UpstreamFailed | Channels(list: seq<M3U.Channel>)

  /** The handler for `GET /tv/{id}`. `fetch` stands for the download of a
      playlist and its decoding as text; None means one of them threw. */
  function HandleTv(id: string, playlists: seq<string>, fetch: string -> Option<string>): Response
  {
    match SelectPlaylist(id, |playlists|)
    case None => NotFound
    case Some(i) => Fetched(fetch(playlists[i]))
  }

  /** The answer once the selected playlist is fetched: 500 when the download
      threw, and its channels otherwise. */
  function Fetched(body: Option<string>): Response
  {
    match body
    case None => UpstreamFailed
    case Some(text) => Channels(M3U.ParsePlaylist(text))
  }

  /** For an id written as a decimal integer: the playlist at that index is
      fetched and parsed when the index is in range, and the answer is 404 otherwise. */
  lemma HandleDecimalId(n: int, playlists: seq<string>, fetch: string -> Option<string>)
    ensures HandleTv(Show(n), playlists, fetch) ==
      if 0 <= n < |playlists| then Fetched(fetch(playlists[n])) else NotFound
  {
    ParseIntOfShow("", n, "");
    assert "" + Show(n) + "" == Show(n);
  }

  /** An id in which no digit follows the white space and the optional sign is
      answered with 404, and nothing is fetched. */
  lemma HandleNonNumericId(id: string, playlists: seq<string>, fetch: string -> Option<string>)
    requires var u := Unsigned(TrimStart(id)); u == [] || !IsDigit(u[0])
    ensures HandleTv(id, playlists, fetch) == NotFound
  {
    ParseIntNaN(id);
  }

  /** White space before the number and non-digit text after it do not change
      the answer: `/tv/ 1abc` is answered as `/tv/1`. */
  lemma HandleIgnoresSurroundings(ws: string, n: int, rest: string, playlists: seq<string>,
                                  fetch: string -> Option<string>)
    requires AllWhitespace(ws)
    requires rest == [] || !IsDigit(rest[0])
    ensures HandleTv(ws + Show(n) + rest, playlists, fetch) == HandleTv(Show(n), playlists, fetch)
  {
    ParseIntOfShow(ws, n, rest);
    ParseIntOfShow("", n, "");
    assert "" + Show(n) + "" == Show(n);
    assert SelectPlaylist(ws + Show(n) + rest, |playlists|) == SelectPlaylist(Show(n), |playlists|);
  }

  /** Every other id: after its leading white space, an optional sign and then
      a text `u` that starts with a digit (`/tv/+01`, `/tv/ 007x`). The value of
      `u`'s leading digit run selects the playlist unless the id is negative or
      past the end; a minus sign before a run of zeros reads as 0 and selects
      the first one. */
  lemma HandleDigits(id: string, sign: Sign, u: string, playlists: seq<string>,
                     fetch: string -> Option<string>)
    requires TrimStart(id) == SignText(sign) + u
    requires u != [] && IsDigit(u[0])
    ensures HandleTv(id, playlists, fetch) ==
      (var v := DigitsValue(DigitPrefix(u));
       if (sign == Minus && v > 0) || v >= |playlists| then NotFound else Fetched(fetch(playlists[v])))
  {
    ParseSignedDigits(sign, u);
  }

  /** `GET /tv/+1` selects the second configured playlist. */
  lemma PlusSignedId(fetch: string -> Option<string>)
    ensures HandleTv("+1", Playlists, fetch) == Fetched(fetch(Playlists[1]))
  {
    assert Lead("+1") == 0;
    assert "+1" == SignText(Plus) + "1";
    HandleDigits("+1", Plus, "1", Playlists, fetch);
  }

  /** `GET /tv/01` selects it too: leading zeros are read. */
  lemma PaddedId(fetch: string -> Option<string>)
    ensures HandleTv("01", Playlists, fetch) == Fetched(fetch(Playlists[1]))
  {
    assert Lead("01") == 0;
    assert "01" == SignText(NoSign) + "01";
    assert DigitPrefix("01") == "01";
    assert DigitsValue("01") == 1;
    HandleDigits("01", NoSign, "01", Playlists, fetch);
  }

  /** `GET /tv/-0` selects the first one: minus zero is not negative. */
  lemma MinusZeroId(fetch: string -> Option<string>)
    ensures HandleTv("-0", Playlists, fetch) == Fetched(fetch(Playlists[0]))
  {
    assert Lead("-0") == 0;
    assert "-0" == SignText(Minus) + "0";
    HandleDigits("-0", Minus, "0", Playlists, fetch);
  }

  /** `GET /tv/abc` and `GET /tv/99` are answered with 404 on the configured list. */
  lemma UnknownPlaylists(fetch: string -> Option<string>)
    ensures HandleTv("abc", Playlists, fetch) == NotFound
    ensures HandleTv("99", Playlists, fetch) == NotFound
  {
    assert Lead("abc") == 0;
    assert Unsigned(TrimStart("abc")) == "abc";
    HandleNonNumericId("abc", Playlists, fetch);
    assert Show(99) == "99";
    HandleDecimalId(99, Playlists, fetch);
  }
}
