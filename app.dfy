/**
 * The account, history and favourite handlers of the web client. The four
 * stored dictionaries (users, session, history, favourites) are the fields of
 * `AppState`; every handler loads one, changes it in place and stores it back,
 * which here is one update of the field. The password digest is a parameter
 * of the state, and `confirm` answers and the current date are arguments.
 */
module App {
  import opened Wrappers
  import opened JsString
  import Html

  datatype HistoryEntry = HistoryEntry(title: string, note: string, date: string)

  datatype Favorite = Favorite(title: string, url: string)

  /** What a click on "Créer" ends in: an alert for a blank field, an alert for
      a name already in use, or a new account with its session open. */
  datatype RegisterOutcome = MissingFields | NameTaken | Registered

  /** What a login submission ends in. */
  datatype LoginOutcome = LoginMissingFields | BadCredentials | LoggedIn

  /** `users[name]` is truthy: the name is stored with a non-empty value. */
  predicate Known(users: map<string, string>, name: string)
  {
    name in users && users[name] != ""
  }

  /** `s || fallback` for a text. */
  function OrElse(s: string, fallback: string): string
  {
    if s == "" then fallback else s
  }

  /** `all[key] || []` for a stored list. */
  function ListOf<T>(all: map<string, seq<T>>, key: string): seq<T>
  {
    if key in all then all[key] else []
  }

  // ---------------------------------------------------------------------------
  // Display order and deletion of favourites
  // ---------------------------------------------------------------------------

  /** `arr.slice().reverse()`: the order in which favourites are listed. */
  function Displayed<T>(arr: seq<T>): (r: seq<T>)
    ensures |r| == |arr|
    ensures forall k :: 0 <= k < |arr| ==> r[k] == arr[|arr| - 1 - k]
  {
    if arr == [] then [] else Displayed(arr[1..]) + [arr[0]]
  }

  /** Listing the listing gives the stored order back. */
  lemma DisplayedTwice<T>(arr: seq<T>)
    ensures Displayed(Displayed(arr)) == arr
  {
  }

  /** A favourite pushed at the end of storage is listed first. */
  lemma DisplayedPush<T>(arr: seq<T>, x: T)
    ensures Displayed(arr + [x]) == [x] + Displayed(arr)
  {
    var r, s := Displayed(arr + [x]), [x] + Displayed(arr);
    assert |r| == |s|;
    forall k | 0 <= k < |r| ensures r[k] == s[k] {
      if k > 0 { assert s[k] == Displayed(arr)[k - 1]; }
    }
  }

  /** Where `splice` starts for a `start` argument: a negative start counts from
      the end (and stops at 0), a start past the end is the end. */
  function SpliceStart(len: nat, start: int): nat
  {
    if start < 0 then (if len + start < 0 then 0 else len + start)
    else if start > len then len
    else start
  }

  /** The array `arr.splice(start, 1)` leaves behind. */
  function SpliceOne<T>(arr: seq<T>, start: int): seq<T>
  {
    var s := SpliceStart(|arr|, start);
    if s < |arr| then arr[..s] + arr[s + 1..] else arr
  }

  /** `splice(start, 1)` with a start inside the array removes exactly the element
      there; the others keep their order. */
  lemma SpliceOneInside<T>(arr: seq<T>, start: int)
    requires 0 <= start < |arr|
    ensures |SpliceOne(arr, start)| == |arr| - 1
    ensures forall k :: 0 <= k < start ==> SpliceOne(arr, start)[k] == arr[k]
    ensures forall k :: start <= k < |arr| - 1 ==> SpliceOne(arr, start)[k] == arr[k + 1]
  {
  }

  /** A start at or past the end removes nothing; a negative one removes the
      element that many places from the end, or the first one. */
  lemma SpliceOneOutside<T>(arr: seq<T>, start: int)
    ensures start >= |arr| ==> SpliceOne(arr, start) == arr
    ensures start < 0 && |arr| > 0 ==>
      SpliceOne(arr, start) == SpliceOne(arr, if -start <= |arr| then |arr| + start else 0)
  {
  }

  /** Deleting listed row `idx` removes that row and only it, from the list as shown
      and from storage, where it is element `len - 1 - idx`. */
  lemma {:induction false} DeleteListedRow<T>(arr: seq<T>, idx: int)
    requires 0 <= idx < |arr|
    ensures var r := SpliceOne(arr, |arr| - 1 - idx);
      && |r| == |arr| - 1
      && r == arr[..|arr| - 1 - idx] + arr[|arr| - idx..]
      && Displayed(r) == Displayed(arr)[..idx] + Displayed(arr)[idx + 1..]
  {
    var n, s := |arr|, |arr| - 1 - idx;
    var r := SpliceOne(arr, s);
    assert SpliceStart(n, s) == s;
    assert r == arr[..s] + arr[s + 1..];
    var d, e := Displayed(r), Displayed(arr)[..idx] + Displayed(arr)[idx + 1..];
    assert |d| == |e|;
    forall k | 0 <= k < |d| ensures d[k] == e[k] {
      assert d[k] == r[n - 2 - k];
      if k < idx {
        assert e[k] == Displayed(arr)[k];
        assert r[n - 2 - k] == arr[n - 1 - k];
      } else {
        assert e[k] == Displayed(arr)[k + 1];
        assert r[n - 2 - k] == arr[n - 2 - k];
      }
    }
  }

  /** One listed favourite: its escaped title and URL and its listing index
      (the `data-url` and `data-idx` of its two buttons). */
  datatype Row = Row(title: string, url: string, idx: nat)

  /** The rows for `items`, numbered from `idx`. */
  function RowsFrom(items: seq<Favorite>, idx: nat): (r: seq<Row>)
    ensures |r| == |items|
    ensures forall k :: 0 <= k < |items| ==>
      r[k] == Row(Html.EscapeHtml(items[k].title), Html.EscapeHtml(items[k].url), idx + k)
  {
    if items == [] then []
    else [Row(Html.EscapeHtml(items[0].title), Html.EscapeHtml(items[0].url), idx)] + RowsFrom(items[1..], idx + 1)
  }

  /** The favourite list as rendered: newest first. */
  function FavoriteRows(arr: seq<Favorite>): seq<Row>
  {
    RowsFrom(Displayed(arr), 0)
  }

  /** Row `k` shows stored favourite `len - 1 - k`; its play button, read back
      from the attribute, plays that favourite's URL, its markup holds none of
      `< > " '`, and its delete button removes that favourite. */
  lemma ListedRow(arr: seq<Favorite>, k: nat)
    requires k < |arr|
    ensures var row := FavoriteRows(arr)[k];
      && |FavoriteRows(arr)| == |arr|
      && row.idx == k
      && Html.UnescapeHtml(row.url) == arr[|arr| - 1 - k].url
      && Html.UnescapeHtml(row.title) == arr[|arr| - 1 - k].title
      && Html.FreeOfMarkup(row.url) && Html.FreeOfMarkup(row.title)
      && SpliceOne(arr, |arr| - 1 - row.idx) == arr[..|arr| - 1 - k] + arr[|arr| - k..]
  {
    var f := arr[|arr| - 1 - k];
    Html.UnescapeEscape(f.url);
    Html.UnescapeEscape(f.title);
    Html.EscapeFreeOfMarkup(f.url);
    Html.EscapeFreeOfMarkup(f.title);
    DeleteListedRow(arr, k);
  }

  /** The button "Lire" of listed row `k`: `playStream(btn.dataset.url, "Favori")`,
      with the URL decoded from the attribute as the browser reads it. It plays
      stored favourite `len - 1 - k` exactly as it was saved. */
  function PlayFavorite(arr: seq<Favorite>, k: nat): (r: (string, string))
    requires k < |arr|
    ensures r == (arr[|arr| - 1 - k].url, "Favori")
  {
    ListedRow(arr, k);
    (Html.UnescapeHtml(FavoriteRows(arr)[k].url), "Favori")
  }

  // ---------------------------------------------------------------------------
  // The stored state and the handlers
  // ---------------------------------------------------------------------------

  class AppState {
    /** `demo_users_v1`: username to password digest. */
    var users: map<string, string>
    /** `demo_session_v1`: the logged-in username, if any. */
    var session: Option<string>
    /** `demo_history_v1`: username to history entries, newest first. */
    var history: map<string, seq<HistoryEntry>>
    /** `demo_iptv_v1`: username to favourites, oldest first. */
    var favorites: map<string, seq<Favorite>>
    /** `sha256Hex`, applied to password followed by username. */
    const digest: string -> string

    /** A session only ever names a registered, non-empty username. */
    ghost predicate Valid()
      reads this
    {
      session.Some? ==> session.value != "" && session.value in users
    }

    /** Empty storage. */
    constructor (digest: string -> string)
      ensures Valid() && this.digest == digest
      ensures users == map[] && session == None && history == map[] && favorites == map[]
    {
      this.digest := digest;
      users, session, history, favorites := map[], None, map[], map[];
    }

    /** `requireLogin()`: the session's username when it is truthy. Under the
        invariant a session is always truthy, so this is the session itself. */
    function RequireLogin(): (u: Option<string>)
      reads this
      requires Valid()
      ensures u == session
    {
      if session.Some? && session.value != "" then session else None
    }

    /** The button "Créer": a new account for the trimmed name, unless a field is
        blank or the name is taken; a new account is logged in at once. */
    method Register(nameInput: string, password: string) returns (outcome: RegisterOutcome)
      requires Valid()
      modifies this`users, this`session
      ensures Valid()
      ensures var name := Trim(nameInput);
        outcome == (if name == "" || password == "" then MissingFields
                    else if Known(old(users), name) then NameTaken
                    else Registered)
      ensures outcome != Registered ==> users == old(users) && session == old(session)
      ensures outcome == Registered ==>
        var name := Trim(nameInput);
        users == old(users)[name := digest(password + name)] && session == Some(name)
    {
      var name := Trim(nameInput);
      if name == "" || password == "" {
        return MissingFields;
      }
      if Known(users, name) {
        return NameTaken;
      }
      users := users[name := digest(password + name)];
      session := Some(name);
      outcome := Registered;
    }

    /** The login form: the session opens only when the stored digest is
        truthy and equals the digest of the submitted password. */
    method Login(nameInput: string, password: string) returns (outcome: LoginOutcome)
      requires Valid()
      modifies this`session
      ensures Valid()
      ensures var name := Trim(nameInput);
        outcome == (if name == "" || password == "" then LoginMissingFields
                    else if Known(users, name) && users[name] == digest(password + name) then LoggedIn
                    else BadCredentials)
      ensures session == if outcome == LoggedIn then Some(Trim(nameInput)) else old(session)
    {
      var name := Trim(nameInput);
      if name == "" || password == "" {
        return LoginMissingFields;
      }
      var hash := digest(password + name);
      if Known(users, name) && users[name] == hash {
        session := Some(name);
        outcome := LoggedIn;
      } else {
        outcome := BadCredentials;
      }
    }

    /** The button "Déconnexion". */
    method Logout()
      requires Valid()
      modifies this`session
      ensures Valid() && session == None
    {
      session := None;
    }

    /** `addToHistory(title, note)`: the entry goes in front of the current
        user's history; without a session nothing changes. */
    method AddToHistory(title: string, note: string, date: string) returns (added: bool)
      requires Valid()
      modifies this`history
      ensures Valid()
      ensures added <==> old(session).Some?
      ensures added ==>
        var u := old(session).value;
        history == old(history)[u := [HistoryEntry(title, note, date)] + ListOf(old(history), u)]
      ensures !added ==> history == old(history)
    {
      var u := RequireLogin();
      if u.None? {
        return false;
      }
      history := history[u.value := [HistoryEntry(title, note, date)] + ListOf(history, u.value)];
      added := true;
    }

    /** The history form: the trimmed title must not be empty; the note is
        trimmed too. */
    method AddHistory(titleInput: string, noteInput: string, date: string) returns (added: bool)
      requires Valid()
      modifies this`history
      ensures Valid()
      ensures added <==> old(session).Some? && Trim(titleInput) != ""
      ensures added ==>
        var u := old(session).value;
        history == old(history)[u := [HistoryEntry(Trim(titleInput), Trim(noteInput), date)] + ListOf(old(history), u)]
      ensures !added ==> history == old(history)
    {
      var u := RequireLogin();
      if u.None? {
        return false;
      }
      var t := Trim(titleInput);
      if t == "" {
        return false;
      }
      var note := Trim(noteInput);
      history := history[u.value := [HistoryEntry(t, note, date)] + ListOf(history, u.value)];
      added := true;
    }

    /** The button "Lire": plays the trimmed URL under the trimmed title (or
        "Flux") and records the viewing; a blank URL does nothing. The
        result is the URL and title handed to the player. */
    method Play(titleInput: string, urlInput: string, date: string) returns (played: Option<(string, string)>)
      requires Valid()
      modifies this`history
      ensures Valid()
      ensures var url, title := Trim(urlInput), OrElse(Trim(titleInput), "Flux");
        && (played.Some? <==> url != "")
        && (played.Some? ==> played.value == (url, title))
        && (played.Some? && old(session).Some? ==>
              var u := old(session).value;
              history == old(history)[u := [HistoryEntry(title, "Flux: " + url, date)] + ListOf(old(history), u)])
        && (played.None? || old(session).None? ==> history == old(history))
    {
      var url := Trim(urlInput);
      var title := OrElse(Trim(titleInput), "Flux");
      if url == "" {
        return None;
      }
      played := Some((url, title));
      var _ := AddToHistory(title, "Flux: " + url, date);
    }

    /** The button that clears the history: after confirmation the current
        user's list becomes empty. */
    method ClearHistory(confirmed: bool)
      requires Valid()
      modifies this`history
      ensures Valid()
      ensures history == if old(session).Some? && confirmed then old(history)[old(session).value := []] else old(history)
    {
      var u := RequireLogin();
      if u.None? {
        return;
      }
      if confirmed {
        history := history[u.value := []];
      }
    }

    /** The button "Sauver": appends `{title, url}` to the current user's
        favourites, the title defaulting to the URL; a blank URL or no session
        changes nothing. */
    method SaveFavorite(titleInput: string, urlInput: string) returns (saved: bool)
      requires Valid()
      modifies this`favorites
      ensures Valid()
      ensures saved <==> Trim(urlInput) != "" && old(session).Some?
      ensures saved ==>
        var u, url := old(session).value, Trim(urlInput);
        var f := Favorite(OrElse(Trim(titleInput), url), url);
        && favorites == old(favorites)[u := ListOf(old(favorites), u) + [f]]
        && Displayed(favorites[u]) == [f] + Displayed(ListOf(old(favorites), u))
      ensures !saved ==> favorites == old(favorites)
    {
      var url := Trim(urlInput);
      var title := OrElse(Trim(titleInput), url);
      if url == "" {
        return false;
      }
      var u := RequireLogin();
      if u.None? {
        return false;
      }
      var f := Favorite(title, url);
      var arr := ListOf(favorites, u.value);
      favorites := favorites[u.value := arr + [f]];
      DisplayedPush(arr, f);
      saved := true;
    }

    /** The list key `all[currentUser()]` uses: the username, or "null" without a session. */
    function SessionKey(): string
      reads this
    {
      match session
      case Some(u) => u
      case None => "null"
    }

    /** The button "Suppr" of listed row `idx`: after confirmation,
        `splice(len - 1 - idx, 1)` on the list under the session key, which is
        then stored back (even when it was missing). */
    method DeleteFavorite(idx: int, confirmed: bool)
      requires Valid()
      modifies this`favorites
      ensures Valid()
      ensures var key, arr := old(SessionKey()), ListOf(old(favorites), old(SessionKey()));
        && (confirmed ==> favorites == old(favorites)[key := SpliceOne(arr, |arr| - 1 - idx)])
        && (confirmed && 0 <= idx < |arr| ==>
              Displayed(favorites[key]) == Displayed(arr)[..idx] + Displayed(arr)[idx + 1..])
      ensures !confirmed ==> favorites == old(favorites)
    {
      if !confirmed {
        return;
      }
      var key := SessionKey();
      var arr := ListOf(favorites, key);
      favorites := favorites[key := SpliceOne(arr, |arr| - 1 - idx)];
      if 0 <= idx < |arr| {
        DeleteListedRow(arr, idx);
      }
    }
  }
}
