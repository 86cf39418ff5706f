/**
 * `escapeHtml` of the web client: every `&`, `<`, `>`, `"` and `'` is replaced
 * by its character reference and every other character is copied; a missing
 * value is escaped as the empty text. `UnescapeHtml` is the decoder a browser
 * applies when it reads such text back from an attribute: the inverse of the
 * escape, as the round trip below states.
 */
module Html {
  import opened Wrappers
  import opened JsString

  /** The five characters `escapeHtml` rewrites. */
  predicate IsSpecial(c: char)
  {
    c == '&' || c == '<' || c == '>' || c == '"' || c == '\''
  }

  /** The characters that must not appear in escaped text: all specials but `&`,
      which begins every character reference. */
  predicate IsMarkup(c: char)
  {
    c == '<' || c == '>' || c == '"' || c == '\''
  }

  predicate HasSpecial(s: string)
  {
    exists i :: 0 <= i < |s| && IsSpecial(s[i])
  }

  predicate FreeOfMarkup(s: string)
  {
    forall i :: 0 <= i < |s| ==> !IsMarkup(s[i])
  }

  /** The replacement of one character: its reference for a special, itself otherwise. */
  function EscapeChar(c: char): (r: string)
    ensures |r| >= 1 && r[0] == (if IsSpecial(c) then '&' else c)
    ensures IsSpecial(c) <==> |r| > 1
  {
    match c
    case '&' => "&amp;"
    case '<' => "&lt;"
    case '>' => "&gt;"
    case '"' => "&quot;"
    case '\'' => "&#39;"
    case _ => [c]
  }

  /** `escapeHtml(s)` for a present string: the replacements of its characters, in order. */
  function EscapeHtml(s: string): (r: string)
    ensures |r| >= |s|
  {
    if s == [] then [] else EscapeChar(s[0]) + EscapeHtml(s[1..])
  }

  /** No replacement holds `<`, `>`, `"` or `'`... */
  lemma EscapeCharFreeOfMarkup(c: char)
    ensures FreeOfMarkup(EscapeChar(c))
  {
  }

  /** ... so escaped text holds none of them: it cannot open a tag or close an attribute. */
  lemma {:induction false} EscapeFreeOfMarkup(s: string)
    ensures FreeOfMarkup(EscapeHtml(s))
  {
    if s != [] {
      var e, rest := EscapeChar(s[0]), EscapeHtml(s[1..]);
      EscapeCharFreeOfMarkup(s[0]);
      EscapeFreeOfMarkup(s[1..]);
      forall i | 0 <= i < |e + rest| ensures !IsMarkup((e + rest)[i]) {
        if i < |e| { assert (e + rest)[i] == e[i]; } else { assert (e + rest)[i] == rest[i - |e|]; }
      }
    }
  }


  // ---------------------------------------------------------------------------
  // Decoding, the inverse of the escape
  // ---------------------------------------------------------------------------

  /** The character reference at the start of `s`, as the character it stands
      for and its length, when it is one of the five `EscapeChar` writes. */
  function EntityAt(s: string): Option<(char, nat)>
  {
    if StartsWith(s, "&amp;") then Some(('&', 5))
    else if StartsWith(s, "&lt;") then Some(('<', 4))
    else if StartsWith(s, "&gt;") then Some(('>', 4))
    else if StartsWith(s, "&quot;") then Some(('"', 6))
    else if StartsWith(s, "&#39;") then Some(('\'', 5))
    else None
  }

  lemma EntityAtLength(s: string)
    ensures EntityAt(s).Some? ==> 0 < EntityAt(s).value.1 <= |s|
  {
  }

  /** The text a browser reads back: the five references decoded, all else copied. */
  function UnescapeHtml(s: string): string
    decreases |s|
  {
    if s == [] then []
    else
      EntityAtLength(s);
      match EntityAt(s)
      case Some(e) => [e.0] + UnescapeHtml(s[e.1..])
      case None => [s[0]] + UnescapeHtml(s[1..])
  }

  /** No character reference starts at a character other than `&`. */
  lemma EntityAtPlain(c: char, t: string)
    requires c != '&'
    ensures EntityAt([c] + t).None?
  {
    assert ([c] + t)[0] == c;
  }

  lemma EntityAtEscape(c: char, t: string)
    requires IsSpecial(c)
    ensures EntityAt(EscapeChar(c) + t) == Some((c, |EscapeChar(c)|))
  {
    var e := EscapeChar(c);
    assert (e + t)[..|e|] == e;
    if c == '&' {
      assert StartsWith(e + t, "&amp;");
    } else if c == '<' {
      assert (e + t)[1] == 'l';
      assert StartsWith(e + t, "&lt;");
    } else if c == '>' {
      assert (e + t)[1] == 'g';
      assert StartsWith(e + t, "&gt;");
    } else if c == '"' {
      assert (e + t)[1] == 'q';
      assert StartsWith(e + t, "&quot;");
    } else {
      assert (e + t)[1] == '#';
      assert StartsWith(e + t, "&#39;");
    }
  }

  /** Decoding undoes one replacement. */
  lemma UnescapeAfterChar(c: char, t: string)
    ensures UnescapeHtml(EscapeChar(c) + t) == [c] + UnescapeHtml(t)
  {
    var e := EscapeChar(c);
    if IsSpecial(c) {
      EntityAtEscape(c, t);
      assert (e + t)[|e|..] == t;
    } else {
      assert e + t == [c] + t;
      EntityAtPlain(c, t);
      assert ([c] + t)[1..] == t;
    }
  }

  /** Reading escaped text back gives the original text. */
  lemma {:induction false} UnescapeEscape(s: string)
    ensures UnescapeHtml(EscapeHtml(s)) == s
  {
    if s != [] {
      UnescapeEscape(s[1..]);
      UnescapeAfterChar(s[0], EscapeHtml(s[1..]));
      assert [s[0]] + s[1..] == s;
    }
  }

  /** `escapeHtml(s)` for a value that may be missing, `(s || "")` first: reading
      it back gives the value, or the empty text for a missing one, and it
      holds none of `< > " '`. */
  function EscapeOrEmpty(s: Option<string>): (r: string)
    ensures UnescapeHtml(r) == (if s.Some? then s.value else "")
    ensures FreeOfMarkup(r)
  {
    var t := s.GetOr("");
    UnescapeEscape(t);
    EscapeFreeOfMarkup(t);
    EscapeHtml(t)
  }

  /** Escaping is injective: different texts never render alike. */
  lemma EscapeInjective(a: string, b: string)
    ensures EscapeHtml(a) == EscapeHtml(b) ==> a == b
  {
    UnescapeEscape(a);
    UnescapeEscape(b);
  }

  /** Escaping a concatenation is concatenating the escapes. */
  lemma {:induction false} EscapeAppend(a: string, b: string)
    ensures EscapeHtml(a + b) == EscapeHtml(a) + EscapeHtml(b)
  {
    if a == [] {
      assert a + b == b;
    } else {
      assert (a + b)[0] == a[0] && (a + b)[1..] == a[1..] + b;
      EscapeAppend(a[1..], b);
    }
  }

  /** A text with none of the five characters is left as it is. */
  lemma {:induction false} EscapeIdentity(s: string)
    requires !HasSpecial(s)
    ensures EscapeHtml(s) == s
  {
    if s != [] {
      assert !IsSpecial(s[0]);
      assert !HasSpecial(s[1..]) by {
        forall i | 0 <= i < |s[1..]| ensures !IsSpecial(s[1..][i]) { assert s[1..][i] == s[i + 1]; }
      }
      EscapeIdentity(s[1..]);
      assert [s[0]] + s[1..] == s;
    }
  }

  /** A text with one of the five characters grows strictly. */
  lemma {:induction false} EscapeLonger(s: string, i: nat)
    requires i < |s| && IsSpecial(s[i])
    ensures |EscapeHtml(s)| > |s|
  {
    if i > 0 {
      assert s[1..][i - 1] == s[i];
      EscapeLonger(s[1..], i - 1);
    }
  }

  /** So `escapeHtml` returns its input exactly when the input has none of them. */
  lemma EscapeUnchangedIff(s: string)
    ensures EscapeHtml(s) == s <==> !HasSpecial(s)
  {
    if HasSpecial(s) {
      var i :| 0 <= i < |s| && IsSpecial(s[i]);
      EscapeLonger(s, i);
    } else {
      EscapeIdentity(s);
    }
  }
}
