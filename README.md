# MyTV: the playlist parser, the playlist route and the client's stored tables

This project models the two pieces of sequential logic in MyTV, a small IPTV
player, and proves properties of them in Dafny.

- **The companion server.**
  - `parseM3U` turns the text of an M3U playlist into a list of channels.
    It splits the text on `\n`, trims each line and drops the empty ones, then
    runs a one-slot state machine.
    - An `#EXTINF:` line fills the slot with a name and a group.
    - An `http` line emits a channel while the slot is full, and empties it.
    - Every other line is ignored.
  - The route `GET /tv/:id` reads the id with `parseInt(id, 10)` and answers
    404 for an id that names no configured playlist. Otherwise it parses that
    playlist.
- **The browser client.**
  - The client keeps four tables in local storage: users with their password
    digests, the session, each user's viewing history, and each user's
    favourite streams.
  - Its handlers register, log in, log out, add to and clear the history, and
    save and delete favourites.
  - Favourites are listed newest first, and a delete button names its row in
    that listing.
  - The titles, notes and URLs of the history and the favourite list are
    written into the page through `escapeHtml`. The username goes in as text
    (`textContent`), and the history date through `toLocaleString`.

The modules:

- `Wrappers`: the `Option` datatype.
- `JsString`: the JavaScript string operations the code relies on.
  - `trim` uses the ECMAScript white-space and line-terminator set.
  - `split` is modelled together with its inverse `Join`.
  - `startsWith` is included.
- `M3U`: the parser.
  - The line list `Lines` is defined.
  - The two regular expressions are modelled exactly as leftmost matches, `Name` and `Group`.
  - The loop is a left fold, `Run` of `Step`, and `ParseM3U` is the imperative twin of that fold, proved equal to it.
  - `Pairings` is an independent description of the same result by line positions. Each URL line is paired with the nearest metadata-or-URL line before it, when that line is a metadata line.
- `TvRoute`: `parseInt`, the playlist selection, and the handler. The download is a function parameter.
- `Html`: `escapeHtml`, and `UnescapeHtml`, the decoding a browser applies when it reads an attribute back. The two are related by a round-trip lemma.
- `App`:
  - the class `AppState`, whose fields are the four tables, with one method per handler that changes a table;
  - the favourite's "Lire" button, which changes no table, as the function `PlayFavorite`;
  - the pure listing order (`Displayed`), `splice` (`SpliceOne`) and the rendered rows of the favourite list (`FavoriteRows`).

## Model

| member | source | states |
|---|---|---|
| JsString.IsLineTerminator | server.js:24 | definition: the four ECMAScript line terminators, which `.` does not match |
| JsString.IsWhitespace | server.js:18 | definition: the white-space and line-terminator characters `trim` removes |
| JsString.TrimStart | server.js:41 | definition: the text after its leading white space, where `parseInt` starts reading |
| JsString.Lead | server.js:18 | the count of leading white space stops at a character that is not white space, or at the end |
| JsString.Trail | server.js:18 | the count of trailing white space stops at a character that is not white space, or at the start |
| JsString.LeadIsWhitespace | server.js:18 | every character the leading count covers is white space |
| JsString.TrailIsWhitespace | server.js:18 | every character the trailing count covers is white space |
| JsString.TrimSlice | server.js:18 | `trim` returns the slice of the input after its leading white space, and that slice neither starts nor ends with white space |
| JsString.TrimRemovesWhitespace | server.js:18 | everything `trim` cuts on either side is white space |
| JsString.TrimEmptyIff | server.js:18 | a line trims to the empty string exactly when it is all white space |
| JsString.TrimIdempotent | server.js:18 | trimming twice is trimming once |
| JsString.Trim | server.js:18 | definition: `trim`, the text without its leading and trailing white space |
| JsString.StartsWith | server.js:23 | definition: `startsWith`, the prefix test |
| JsString.Split | server.js:18 | `split` yields at least one piece and no piece holds the separator |
| JsString.JoinSplit | server.js:18 | joining the pieces with the separator gives the text back |
| JsString.SplitJoin | server.js:18 | separator-free pieces are recovered from their join |
| JsString.SplitAppend | server.js:18 | splitting `a + sep + b` is splitting `a` followed by splitting `b` |
| JsString.SplitWhitespace | server.js:18 | every piece of an all-white-space text is all white space |
| M3U.TrimmedNonEmpty | server.js:18 | definition: `.map(l => l.trim()).filter(l => l.length)`, the pieces trimmed and the empty ones dropped, in order |
| M3U.Lines | server.js:18 | definition: the lines the loop scans, `text.split("\n")` trimmed and filtered |
| M3U.LinesOfBlankText | server.js:18 | an empty or all-white-space text has no lines, so it yields no channel |
| M3U.LinesOfOnePiece | server.js:18 | a text without `\n` is one trimmed line, or none when it is blank |
| M3U.LinesAppend | server.js:18 | the lines of `a + "\n" + b` are the lines of `a` followed by those of `b`, so lines keep their order |
| M3U.TrimmedNonEmptyAppend | server.js:18 | trimming and dropping empty pieces distributes over concatenation |
| M3U.LinesWellFormed | server.js:18 | every line is non-empty, trimmed and free of `\n` |
| M3U.NameMatchAt | server.js:24 | definition: `/,(.+)$/` matches at a comma followed by at least one character, none of them a line terminator |
| M3U.FindName | server.js:24 | the search returns the leftmost position where `/,(.+)$/` matches, and none when it matches nowhere |
| M3U.Name | server.js:24-27 | definition: the capture of the leftmost `/,(.+)$/` match, or `"Sans nom"` |
| M3U.NameAfterFirstComma | server.js:24-27 | for the first comma, the name is the untrimmed text after it when at least one character follows, and `"Sans nom"` otherwise |
| M3U.NameWithoutComma | server.js:24-27 | a line with no comma is named `"Sans nom"` |
| M3U.GroupMatchAt | server.js:25 | definition: `group-title="([^"]+)"` matches from a start to a closing quote, with a non-empty quote-free value between |
| M3U.NextQuote | server.js:25 | the search returns the first `"` at or after a position |
| M3U.FindGroup | server.js:25 | the search returns the leftmost start where `group-title="X"` matches with a non-empty X free of quotes |
| M3U.Group | server.js:25-28 | definition: the capture of the leftmost `group-title="([^"]+)"` match, or `"Divers"` |
| M3U.GroupOfFirstAttribute | server.js:25-28 | the group is the value of the leftmost matching `group-title` attribute |
| M3U.GroupCloseUnique | server.js:25 | a match that starts at a given position closes at exactly one quote |
| M3U.GroupWithoutAttribute | server.js:25-28 | with no matching attribute the group is `"Divers"` |
| M3U.Meta | server.js:26-29 | definition: the `{name, group}` record a metadata line puts in `currentInfo` |
| M3U.Step | server.js:23-34 | definition: one iteration of the loop over the pending slot and the channel list |
| M3U.Run | server.js:22-35 | definition: the loop as a left fold of `Step` over the lines |
| M3U.ParseLines | server.js:19-36 | definition: the channels the loop returns, from an empty slot and list |
| M3U.ParsePlaylist | server.js:18-36 | definition: `parseM3U` on a fetched text, the loop over `Lines` |
| M3U.IsExtInf | server.js:23 | definition: `line.startsWith("#EXTINF:")` |
| M3U.IsUrl | server.js:30 | definition: `line.startsWith("http")` |
| M3U.UrlIsNotExtInf | server.js:23-30 | no line is both a metadata line and a URL line |
| M3U.ParseM3U | server.js:18-36 | the loop returns exactly the fold of the step function over the lines |
| M3U.RunAppend | server.js:22-35 | running over `a + b` is running over `a` and then over `b` from the state reached |
| M3U.RunKeepsChannels | server.js:22-35 | channels already emitted stay in front, and later lines only append |
| M3U.ParseLinesAppend | server.js:22-35 | when nothing is pending after `a`, the channels of `a + b` are those of `a` followed by those of `b` |
| M3U.PairEmitsOneChannel | server.js:30-33 | a metadata line followed by a URL line emits exactly one channel with that URL and that line's name and group, and leaves the slot empty |
| M3U.WellFormedPlaylist | server.js:22-35 | a playlist of metadata/URL pairs yields one channel per pair, in order, with nothing pending at the end |
| M3U.NoiseKeepsState | server.js:22-35 | lines that are neither metadata nor URL lines change nothing, including the pending slot |
| M3U.NoUrlNoChannel | server.js:22-36 | without a URL line nothing is emitted; when the last line is a metadata line, its metadata is what stays pending |
| M3U.TrailingLinesWithoutUrl | server.js:22-36 | trailing lines without a URL line, including pending metadata, add no channel |
| M3U.LaterMetadataWins | server.js:23-29 | of two metadata lines with no URL line between them, only the second stays pending; the first is discarded |
| M3U.StrayUrlIgnored | server.js:30 | a URL line with nothing pending emits nothing |
| M3U.ChannelCountBounds | server.js:23-33 | the channel count, plus one if metadata is pending, is at most the number of metadata lines; the channel count is at most the number of URL lines |
| M3U.LastMarker | server.js:22-35 | the reference finds the last metadata or URL line of a list |
| M3U.PendingMatchesLastMarker | server.js:22-35 | the pending slot after the loop is the metadata of the last metadata-or-URL line when that line is a metadata line, and empty otherwise |
| M3U.ParseMatchesPairings | server.js:22-35 | the parser agrees with the positional reference: one channel per pairing, and each channel carries its pairing's URL line and its metadata line's name and group |
| M3U.PairingsWellPlaced | server.js:22-35 | each pairing is a metadata line before a URL line, with no metadata or URL line between them |
| M3U.PairingsOrdered | server.js:22-35 | the pairings follow the order of the lines and do not overlap: each pairing's URL line comes before the next pairing's metadata line |
| M3U.ChannelOrigins | server.js:30-32 | every channel's URL is one of the lines and starts with `http`, and some metadata line carries its name and group |
| TvRoute.ParseInt | server.js:41 | definition: `parseInt(s, 10)`, which skips the leading white space and reads an optional sign and the digits that follow, or gives NaN |
| TvRoute.ParseSigned | server.js:41 | definition: the reading after the white space, the sign negating the digit run |
| TvRoute.Unsigned | server.js:41 | definition: the text after an optional `+` or `-` |
| TvRoute.DigitsValue | server.js:41 | definition: the number a run of decimal digits denotes, most significant digit first |
| TvRoute.DigitPrefix | server.js:41 | the result is the longest run of decimal digits at the start of the text |
| TvRoute.Decimal | server.js:41 | the decimal form of a natural number is a non-empty run of digits |
| TvRoute.DecimalValue | server.js:41 | the digits of the decimal form denote the number |
| TvRoute.LeadOf | server.js:41 | white space followed by a character that is not white space is skipped entirely, and no further |
| TvRoute.TrimStartSkips | server.js:41 | after that white space `parseInt` reads from the first other character |
| TvRoute.ParseUnsignedDigits | server.js:41 | a digit run followed by a non-digit is read as its value |
| TvRoute.ParseSignedMinus | server.js:41 | after a minus sign the digit run that follows is read and negated, and NaN is returned when no digit follows |
| TvRoute.ParseIntOfShow | server.js:41 | `parseInt` reads back every integer written in decimal, after any leading white space and before any non-digit text |
| TvRoute.ParseIntNaN | server.js:41-42 | `parseInt` gives NaN exactly when no digit follows the white space and the optional sign |
| TvRoute.SelectPlaylist | server.js:41-43 | definition of the test of line 42: no index for NaN, a negative value or a value not below the count; the contract states that a chosen index is in range |
| TvRoute.HandleTv | server.js:40-50 | definition of the handler: 404, or the selected playlist fetched and parsed, or 500 when the download fails; its properties are the lemmas below |
| TvRoute.Fetched | server.js:45-50 | definition: the answer after the download, 500 when it threw and the parsed channels otherwise |
| TvRoute.SignText | server.js:41 | definition: the optional sign `parseInt` accepts, as text |
| TvRoute.Signed | server.js:41 | definition: a digit run's value after a sign, negated after `-` |
| TvRoute.ParseSignedPlus | server.js:41 | after a plus sign the digit run that follows is read as it is, and NaN is returned when no digit follows |
| TvRoute.ParseSignedDigits | server.js:41 | after an optional sign, a text starting with a digit reads as the value of its leading digit run, leading zeros included, negated after `-` |
| TvRoute.HandleDigits | server.js:41-46 | for an id whose text after the leading white space is an optional sign and then a digit, the digit run's value selects that playlist; the answer is 404 when the value is negative or not below the count; `-0` selects the first playlist |
| TvRoute.PlusSignedId | server.js:41-46 | with the playlist list of server.js:9-12, `+1` selects the second configured playlist |
| TvRoute.PaddedId | server.js:41-46 | with the playlist list of server.js:9-12, `01` selects the second configured playlist |
| TvRoute.MinusZeroId | server.js:41-46 | with the playlist list of server.js:9-12, `-0` selects the first configured playlist |
| TvRoute.HandleNonNumericId | server.js:41-44 | an id in which no digit follows the leading white space and the optional sign is answered with 404 |
| TvRoute.HandleIgnoresSurroundings | server.js:41-47 | white space before the number and non-digit text after it do not change the answer: the id is answered as the bare number |
| TvRoute.HandleDecimalId | server.js:41-46 | an id written as an integer `n` selects playlist `n` when `0 <= n < count`, and 404 otherwise |
| TvRoute.UnknownPlaylists | server.js:41-46 | with the two playlists configured at server.js:9-12, `abc` and `99` are answered with 404 |
| Html.IsSpecial | app.js:243 | definition: the class `[&<>"']` the escape rewrites |
| Html.EscapeChar | app.js:243 | each of the five specials becomes a reference starting with `&`, longer than one character; every other character is copied alone |
| Html.EscapeHtml | app.js:243 | the output is never shorter than the input |
| Html.EscapeCharFreeOfMarkup | app.js:243 | no replacement holds `< > " '` |
| Html.EscapeFreeOfMarkup | app.js:243 | the escaped text holds none of `< > " '` |
| Html.EscapeOrEmpty | app.js:243 | reading back the escape of a possibly missing value gives the value, or the empty text for a missing value, and it holds none of `< > " '` |
| Html.UnescapeHtml | app.js:196 | definition: the decoding a browser applies to `data-url` before `btn.dataset.url` returns it, for the five references the escape writes |
| Html.EntityAtEscape | app.js:243 | the reference written for a special is decoded as that special, with that length |
| Html.EntityAtPlain | app.js:243 | no reference starts at a character other than `&` |
| Html.UnescapeAfterChar | app.js:243 | decoding undoes the replacement of one character |
| Html.UnescapeEscape | app.js:243 | decoding the escaped text gives the original text back |
| Html.EscapeInjective | app.js:243 | different texts never escape alike |
| Html.EscapeAppend | app.js:243 | escaping a concatenation is concatenating the escapes |
| Html.EscapeIdentity | app.js:243 | a text with none of the five specials is returned unchanged |
| Html.EscapeLonger | app.js:243 | a text with a special grows strictly |
| Html.EscapeUnchangedIff | app.js:243 | the output equals the input exactly when the input has no special |
| App.Known | app.js:65 | definition: `users[username]` is truthy, the name stored with a non-empty digest |
| App.OrElse | app.js:154 | definition: `text \|\| fallback` for a trimmed text, as in `trim() \|\| "Flux"` and `trim() \|\| url` |
| App.ListOf | app.js:168 | definition: `all[u] \|\| []`, the stored list or the empty one |
| App.Displayed | app.js:182 | the listing has the same length, and listed row `k` is stored element `len - 1 - k` |
| App.DisplayedTwice | app.js:182 | reversing the listing gives the stored order back |
| App.DisplayedPush | app.js:169 | a favourite pushed at the end of storage is listed first, before the earlier listing |
| App.SpliceStart | app.js:207 | definition: where `splice` starts, a negative start counting from the end and clamped to the array |
| App.SpliceOne | app.js:207 | definition: the array `splice(start, 1)` leaves, with the start clamped as `Array.prototype.splice` does |
| App.SpliceOneInside | app.js:207 | `splice(start, 1)` inside the array removes exactly that element, and the others keep their order |
| App.SpliceOneOutside | app.js:207 | a start at or past the end removes nothing; a negative start counts from the end, or removes the first element when it reaches past the start |
| App.DeleteListedRow | app.js:182-207 | deleting listed row `idx` removes stored element `len - 1 - idx` and nothing else: the length drops by one, the rest keeps its order, and the listing loses exactly row `idx` |
| App.RowsFrom | app.js:182-190 | row `k` shows the escaped title and URL of item `k`, numbered from the first index |
| App.FavoriteRows | app.js:182-190 | definition: the rendered rows of the favourite list, newest first, escaped and numbered by listing index |
| App.ListedRow | app.js:182-207 | the play button of row `k` reads back the URL of stored favourite `len - 1 - k` unchanged, its markup holds no `< > " '`, and its delete button removes exactly that favourite |
| App.PlayFavorite | app.js:194-198 | the "Lire" button of listed row `k` plays the URL of stored favourite `len - 1 - k` exactly as saved, with the title `"Favori"` |
| App.AppState.constructor | app.js:21-24 | the four tables start empty, and no session is open |
| App.AppState.RequireLogin | app.js:50-54 | under the invariant that a session names a non-empty user, the user returned is the session itself |
| App.AppState.Register | app.js:73-85 | nothing changes for a blank trimmed name, a blank password or a taken name; otherwise exactly one entry, name to digest of password + name, is added, and the session opens for that name |
| App.AppState.Login | app.js:57-71 | the session opens only when the stored digest is truthy and equals the digest of password + name; otherwise nothing changes |
| App.AppState.Logout | app.js:87-90 | the session is cleared |
| App.AppState.AddToHistory | app.js:234-242 | without a session nothing changes; otherwise the entry goes in front of the current user's list, the old entries follow in order, and other users' lists are unchanged |
| App.AppState.AddHistory | app.js:107-120 | as above, and also nothing changes when the trimmed title is empty; the note is trimmed |
| App.AppState.Play | app.js:152-159 | a blank URL does nothing; otherwise the trimmed URL is played under the trimmed title or `"Flux"`, and, when a session is open, `"Flux: " + url` is put in front of that user's history; otherwise the history is unchanged |
| App.AppState.ClearHistory | app.js:122-131 | after confirmation, with a session, only the current user's list becomes empty; otherwise nothing changes |
| App.AppState.SaveFavorite | app.js:161-173 | a blank URL, or no session, changes nothing; otherwise `{title, url}` is appended, with the title defaulting to the URL, and it is listed first |
| App.AppState.SessionKey | app.js:203-208 | definition: the key `all[currentUser()]` uses, the username or `"null"` without a session |
| App.AppState.DeleteFavorite | app.js:199-211 | after confirmation, `splice(len - 1 - idx, 1)` is applied to the list under the session key, or under `"null"` without a session; for an index inside the listing exactly that row goes |

## Left out

- The download of a playlist and the decoding of its body (`fetch`, `res.text()`) are a function parameter, `fetch`, of `TvRoute.HandleTv`. `None` stands for any exception, which becomes the 500 answer.
- Express routing, CORS, `app.listen` and the JSON encoding of the answers are left out; the answer is the `Response` datatype.
- SHA-256 through SubtleCrypto is abstract: the `digest` function of `AppState`.
- Local storage and JSON serialisation are left out: each table is a field of `AppState`.
  - The load, change and store-back of a handler is one update of that field, and each handler runs as one atomic step.
  - `Register` and `Login` wait for `sha256Hex` between loading `users` and storing it or the session (app.js:63-65, 77-81). Another handler that runs during that wait and changes storage is not modelled.
- The DOM, `alert`, the login and main screens, and `refreshHistory`'s rendering of the history are left out.
- `confirm` is a boolean argument, and `new Date().toISOString()` is a date argument.
- The HLS playback choice in `playStream` is left out. `App.AppState.Play` returns the URL and title it hands to the player.
- The `findIndex` call of the delete handler is left out: its result is never used.
- `sw.js` and `service-worker.js` are not part of this model. They are Cache API and fetch interception.
- App.AppState.DeleteFavorite: the button's `data-idx` text and `Number()` of it are taken together as the integer index itself; non-numeric text (NaN) is not modelled.
- TvRoute.ParseInt: `"-0"` reads as the integer 0, not as JavaScript's -0. The two compare and index alike in the handler. Values beyond 2^53, where JavaScript numbers lose precision, are unbounded integers here.
- JsString: strings are sequences of Unicode scalar values rather than UTF-16 code units. Supplementary-plane characters therefore count as one character, which neither the trimming nor the two regular expressions tell apart.
- Html.UnescapeHtml decodes only the five references `escapeHtml` writes. It is the inverse of the escape, not a full HTML decoder.
- App.Known: a username that names a property inherited from `Object.prototype`, such as `constructor`, is truthy in `users[username]` in the source, so app.js:78 always reports it as taken and it can never be registered or logged in. The model treats such names as ordinary: it registers them and logs them in.
- Each `AppState` method requires `Valid()`: a session only ever names a registered, non-empty username. The handlers keep this, and the constructor establishes it. Storage edited outside the application is not modelled.
