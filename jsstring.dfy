/**
 * The JavaScript string operations the playlist parser and the application
 * rely on: `String.prototype.trim`, `startsWith` and `split` on a one-character
 * separator, over strings as sequences of characters.
 */
module JsString {

  /** LineTerminator of ECMAScript (section 12.3 of ECMA-262): LF, CR, LS, PS. */
  predicate IsLineTerminator(c: char)
  {
    c == '\n' || c == '\r' || c == '\U{2028}' || c == '\U{2029}'
  }

  /**
   * WhiteSpace or LineTerminator of ECMAScript (sections 12.2 and 12.3 of
   * ECMA-262): the characters `trim` removes and `parseInt` skips. The
   * space separators are those of Unicode category Zs.
   */
  predicate IsWhitespace(c: char)
  {
    || IsLineTerminator(c)
    || c == '\t' || c == '\U{000B}' || c == '\U{000C}' || c == ' '
    || c == '\U{00A0}' || c == '\U{1680}'
    || ('\U{2000}' <= c <= '\U{200A}')
    || c == '\U{202F}' || c == '\U{205F}' || c == '\U{3000}' || c == '\U{FEFF}'
  }

  predicate AllWhitespace(s: string)
  {
    forall i :: 0 <= i < |s| ==> IsWhitespace(s[i])
  }

  /** `s.startsWith(prefix)`. */
  predicate StartsWith(s: string, prefix: string)
  {
    |prefix| <= |s| && s[..|prefix|] == prefix
  }

  /** The number of whitespace characters `s` starts with. */
  function Lead(s: string): (n: nat)
    ensures n <= |s|
    ensures n < |s| ==> !IsWhitespace(s[n])
  {
    if |s| > 0 && IsWhitespace(s[0]) then 1 + Lead(s[1..]) else 0
  }

  /** The number of whitespace characters `s` ends with. */
  function Trail(s: string): (n: nat)
    ensures n <= |s|
    ensures n < |s| ==> !IsWhitespace(s[|s| - 1 - n])
  {
    if |s| > 0 && IsWhitespace(s[|s| - 1]) then 1 + Trail(s[..|s| - 1]) else 0
  }

  /** Everything `Lead` counts is whitespace, so it counts the longest such prefix. */
  lemma {:induction false} LeadIsWhitespace(s: string)
    ensures forall i :: 0 <= i < Lead(s) ==> IsWhitespace(s[i])
  {
    if |s| > 0 && IsWhitespace(s[0]) {
      LeadIsWhitespace(s[1..]);
      forall i | 0 < i < Lead(s) ensures IsWhitespace(s[i]) { assert s[i] == s[1..][i - 1]; }
    }
  }

  /** Everything `Trail` counts is whitespace. */
  lemma {:induction false} TrailIsWhitespace(s: string)
    ensures forall i :: |s| - Trail(s) <= i < |s| ==> IsWhitespace(s[i])
  {
    if |s| > 0 && IsWhitespace(s[|s| - 1]) {
      var u := s[..|s| - 1];
      TrailIsWhitespace(u);
      forall i | |s| - Trail(s) <= i < |s| - 1 ensures IsWhitespace(s[i]) { assert s[i] == u[i]; }
    }
  }

  /** `s.trimStart()`: leading whitespace removed. */
  function TrimStart(s: string): string
  {
    s[Lead(s)..]
  }

  /** `s.trimEnd()`: trailing whitespace removed. */
  function TrimEnd(s: string): string
  {
    s[..|s| - Trail(s)]
  }

  /** `s.trim()`: leading whitespace removed, then trailing whitespace. */
  function Trim(s: string): string
  {
    TrimEnd(TrimStart(s))
  }

  /** The trim is the slice of `s` from its first to its last non-whitespace
      character, so it neither starts nor ends with whitespace... */
  lemma TrimSlice(s: string)
    ensures var k, r := Lead(s), Trim(s);
      && k + |r| <= |s| && r == s[k..k + |r|]
      && (r == [] || (!IsWhitespace(r[0]) && !IsWhitespace(r[|r| - 1])))
  {
    var t := TrimStart(s);
    var r := Trim(s);
    if r != [] {
      assert r[0] == t[0] && r[|r| - 1] == t[|t| - 1 - Trail(t)];
    }
  }

  /** ... and everything cut on either side is whitespace. */
  lemma TrimRemovesWhitespace(s: string)
    ensures var k := Lead(s);
      AllWhitespace(s[..k]) && AllWhitespace(s[k + |Trim(s)|..])
  {
    var k, t := Lead(s), TrimStart(s);
    var head, tail := s[..k], s[k + |Trim(s)|..];
    LeadIsWhitespace(s);
    TrailIsWhitespace(t);
    assert AllWhitespace(head) by {
      forall i | 0 <= i < |head| ensures IsWhitespace(head[i]) { assert head[i] == s[i]; }
    }
    assert AllWhitespace(tail) by {
      forall i | 0 <= i < |tail| ensures IsWhitespace(tail[i]) { assert tail[i] == t[|Trim(s)| + i]; }
    }
  }

  /** Trimming gives the empty string exactly for all-whitespace strings. */
  lemma TrimEmptyIff(s: string)
    ensures Trim(s) == [] <==> AllWhitespace(s)
  {
    var k := Lead(s);
    TrimSlice(s);
    TrimRemovesWhitespace(s);
    if Trim(s) == [] {
      assert k == |s|;
      assert s[..k] == s;
    } else {
      assert Trim(s)[0] == s[k];
    }
  }

  /** Trimming is idempotent: a trimmed line is its own trim. */
  lemma TrimIdempotent(s: string)
    ensures Trim(Trim(s)) == Trim(s)
  {
    var r := Trim(s);
    TrimSlice(s);
    if r != [] {
      assert Lead(r) == 0;
      assert Trail(r) == 0;
    }
  }

  /** The pieces of `s.split([sep])`, in order; the empty string gives one empty piece. */
  function Split(s: string, sep: char): (r: seq<string>)
    ensures |r| >= 1
    ensures forall i :: 0 <= i < |r| ==> sep !in r[i]
  {
    if |s| == 0 then [""]
    else if s[0] == sep then [""] + Split(s[1..], sep)
    else Prepend(s[0], Split(s[1..], sep))
  }

  /** The pieces `r` with `c` put in front of the first one. */
  function Prepend(c: char, r: seq<string>): seq<string>
    requires |r| >= 1
  {
    [[c] + r[0]] + r[1..]
  }

  /** The pieces glued back with `sep` between them (`pieces.join(sep)`). */
  function Join(pieces: seq<string>, sep: char): string
    requires |pieces| >= 1
  {
    if |pieces| == 1 then pieces[0] else pieces[0] + [sep] + Join(pieces[1..], sep)
  }

  /** Joining the pieces of a split gives back the string: no character is lost or added. */
  lemma {:induction false} JoinSplit(s: string, sep: char)
    ensures Join(Split(s, sep), sep) == s
  {
    if |s| > 0 {
      JoinSplit(s[1..], sep);
      var rest := Split(s[1..], sep);
      if s[0] == sep {
        assert ([""] + rest)[1..] == rest;
      } else {
        var r := Prepend(s[0], rest);
        if |rest| > 1 {
          assert Join(rest, sep) == rest[0] + [sep] + Join(rest[1..], sep);
          assert Join(r, sep) == [s[0]] + rest[0] + [sep] + Join(rest[1..], sep);
        }
        assert [s[0]] + s[1..] == s;
      }
    }
  }

  /** Splitting a string free of `sep` gives that string alone. */
  lemma {:induction false} SplitNoSep(a: string, sep: char)
    requires sep !in a
    ensures Split(a, sep) == [a]
  {
    if |a| > 0 {
      assert sep !in a[1..] by { forall c | c in a[1..] ensures c in a { } }
      SplitNoSep(a[1..], sep);
      assert [a[0]] + a[1..] == a;
    }
  }

  /** Splitting one more leading character: a separator opens a new first piece,
      any other character joins the first piece. */
  lemma SplitCons(c: char, t: string, sep: char)
    ensures Split([c] + t, sep) == if c == sep then [""] + Split(t, sep) else Prepend(c, Split(t, sep))
  {
    assert ([c] + t)[1..] == t;
  }

  lemma PrependAppend(c: char, ra: seq<string>, rb: seq<string>)
    requires |ra| >= 1
    ensures Prepend(c, ra + rb) == Prepend(c, ra) + rb
  {
    assert (ra + rb)[1..] == ra[1..] + rb;
  }

  /** Splitting distributes over a separator: `(a + sep + b).split(sep)` is the pieces of `a`, then of `b`. */
  lemma {:induction false} SplitAppend(a: string, b: string, sep: char)
    ensures Split(a + [sep] + b, sep) == Split(a, sep) + Split(b, sep)
  {
    if |a| == 0 {
      assert a + [sep] + b == [sep] + b;
      SplitCons(sep, b, sep);
    } else {
      var c, t := a[0], a[1..] + [sep] + b;
      assert a + [sep] + b == [c] + t;
      assert a == [c] + a[1..];
      SplitAppend(a[1..], b, sep);
      SplitCons(c, t, sep);
      SplitCons(c, a[1..], sep);
      var ra, rb := Split(a[1..], sep), Split(b, sep);
      if c == sep {
        assert [""] + (ra + rb) == [""] + ra + rb;
      } else {
        PrependAppend(c, ra, rb);
      }
    }
  }

  /** The converse of `Split`'s round trip: pieces free of `sep` are recovered from their join. */
  lemma {:induction false} SplitJoin(pieces: seq<string>, sep: char)
    requires |pieces| >= 1
    requires forall i :: 0 <= i < |pieces| ==> sep !in pieces[i]
    ensures Split(Join(pieces, sep), sep) == pieces
  {
    if |pieces| == 1 {
      SplitNoSep(pieces[0], sep);
    } else {
      SplitJoin(pieces[1..], sep);
      SplitAppend(pieces[0], Join(pieces[1..], sep), sep);
      SplitNoSep(pieces[0], sep);
      assert [pieces[0]] + pieces[1..] == pieces;
    }
  }

  /** Every piece of an all-whitespace string is all whitespace. */
  lemma {:induction false} SplitWhitespace(s: string, sep: char)
    requires AllWhitespace(s)
    ensures forall i :: 0 <= i < |Split(s, sep)| ==> AllWhitespace(Split(s, sep)[i])
  {
    if |s| > 0 {
      assert AllWhitespace(s[1..]) by {
        forall i | 0 <= i < |s[1..]| ensures IsWhitespace(s[1..][i]) { assert s[1..][i] == s[i + 1]; }
      }
      SplitWhitespace(s[1..], sep);
      var rest := Split(s[1..], sep);
      if s[0] != sep {
        var p := [s[0]] + rest[0];
        assert AllWhitespace(p) by {
          forall i | 0 <= i < |p| ensures IsWhitespace(p[i]) {
            if i > 0 { assert p[i] == rest[0][i - 1]; }
          }
        }
        assert Split(s, sep)[0] == p && Split(s, sep)[1..] == rest[1..];
      }
    }
  }
}
