/**
 * The HTML sanitiser of the user-interface layer: `html.escape` followed by a
 * case-insensitive removal of script-injection markers, the `<tag>` detector
 * used to reject raw HTML, and template formatting with sanitised arguments.
 */
module HtmlSecurity {
  import Text
  import opened Wrappers

  /** A Python value handed to the sanitiser: a `str`, or anything else with its `str()` spelling. */
  datatype Value = Str(s: string) | Other(repr: string)

  /** The replacement `html.escape(s, quote=True)` uses for one character. */
  function EscapeChar(c: char): (r: string)
    ensures |r| >= 1
    ensures c != '&' && c != '<' && c != '>' && c != '"' && c != '\'' ==> r == [c]
  {
    if c == '&' then "&amp;"
    else if c == '<' then "&lt;"
    else if c == '>' then "&gt;"
    else if c == '"' then "&quot;"
    else if c == '\'' then "&#x27;"
    else [c]
  }

  /** `html.escape(s)`. */
  function Escape(s: string): (r: string)
    ensures forall i :: 0 <= i < |r| ==> r[i] != '<' && r[i] != '>' && r[i] != '"' && r[i] != '\''
    ensures |r| >= |s|
  {
    if s == [] then [] else EscapeChar(s[0]) + Escape(s[1..])
  }

  /** `html.unescape` restricted to the five entities `Escape` produces. */
  function Unescape(s: string): (r: string)
    decreases |s|
  {
    if s == [] then []
    else if |s| >= 5 && s[..5] == "&amp;" then "&" + Unescape(s[5..])
    else if |s| >= 4 && s[..4] == "&lt;" then "<" + Unescape(s[4..])
    else if |s| >= 4 && s[..4] == "&gt;" then ">" + Unescape(s[4..])
    else if |s| >= 6 && s[..6] == "&quot;" then "\"" + Unescape(s[6..])
    else if |s| >= 6 && s[..6] == "&#x27;" then "'" + Unescape(s[6..])
    else [s[0]] + Unescape(s[1..])
  }

  /** Escaping loses nothing: unescaping gives the original text back. */
  lemma {:induction false} EscapeRoundTrip(s: string)
    ensures Unescape(Escape(s)) == s
  {
    if s != [] {
      EscapeRoundTrip(s[1..]);
      UnescapeEscapedChar(s[0], Escape(s[1..]));
    }
  }

  /** An entity `e` that `Unescape` recognises reads back as `c`, and the rest is read on its own. */
  lemma UnescapeEntity(e: string, c: char, rest: string)
    requires (e, c) in {("&amp;", '&'), ("&lt;", '<'), ("&gt;", '>'), ("&quot;", '"'), ("&#x27;", '\'')}
    ensures Unescape(e + rest) == [c] + Unescape(rest)
  {
    var t := e + rest;
    assert t[..|e|] == e && t[|e|..] == rest;
    assert t[1] == e[1];
  }

  lemma UnescapePlain(c: char, rest: string)
    requires c != '&'
    ensures Unescape([c] + rest) == [c] + Unescape(rest)
  {
    var t := [c] + rest;
    assert t[0] == c && t[1..] == rest;
    assert |t| >= 4 ==> t[..4][0] == c;
    assert |t| >= 5 ==> t[..5][0] == c;
    assert |t| >= 6 ==> t[..6][0] == c;
  }

  lemma UnescapeEscapedChar(c: char, rest: string)
    ensures Unescape(EscapeChar(c) + rest) == [c] + Unescape(rest)
  {
    if c == '&' || c == '<' || c == '>' || c == '"' || c == '\'' {
      UnescapeEntity(EscapeChar(c), c, rest);
    } else {
      UnescapePlain(c, rest);
    }
  }

  /** Text without markup-significant characters is left as it is by escaping. */
  lemma {:induction false} EscapePlain(s: string)
    requires forall i :: 0 <= i < |s| ==> s[i] != '&' && s[i] != '<' && s[i] != '>' && s[i] != '"' && s[i] != '\''
    ensures Escape(s) == s
  {
    if s != [] {
      EscapePlain(s[1..]);
    }
  }

  /**
   * `c` matches the pattern character `p` under `re.IGNORECASE`: the pattern
   * characters here are lower-case ASCII letters, `:` and `=`, and besides
   * ASCII case Python's matcher also folds U+0130 and U+0131 to `i`, U+017F to
   * `s` and the Kelvin sign U+212A to `k`.
   */
  predicate FoldMatch(c: char, p: char)
  {
    Text.AsciiLowerChar(c) == p
    || (p == 'i' && (c == '\U{130}' || c == '\U{131}'))
    || (p == 's' && c == '\U{17f}')
    || (p == 'k' && c == '\U{212a}')
  }

  predicate MatchesAt(s: string, pat: string, i: nat)
  {
    i + |pat| <= |s| && forall k :: 0 <= k < |pat| ==> FoldMatch(s[i + k], pat[k])
  }

  /**
   * `re.sub(pat, '', s, flags=re.IGNORECASE)` for a literal pattern: scanning
   * left to right, every match is deleted and scanning resumes after it.
   */
  function RemoveAll(s: string, pat: string): (r: string)
    requires pat != []
    ensures |r| <= |s|
    ensures forall i :: 0 <= i < |r| ==> r[i] in s
    decreases |s|
  {
    if s == [] then []
    else if MatchesAt(s, pat, 0) then RemoveAll(s[|pat|..], pat)
    else
      [s[0]] + RemoveAll(s[1..], pat)
  }

  /** The marker patterns, in the order they are removed. */
  const Markers: seq<string> := ["javascript:", "vbscript:", "onload=", "onerror=", "onclick=", "onmouseover="]

  function RemoveMarkers(s: string, pats: seq<string>): (r: string)
    requires forall k :: 0 <= k < |pats| ==> pats[k] != []
    ensures forall i :: 0 <= i < |r| ==> r[i] in s
    decreases |pats|
  {
    if pats == [] then s else RemoveMarkers(RemoveAll(s, pats[0]), pats[1..])
  }

  /**
   * `sanitize_html`: non-strings become their `str()`, strings are escaped and
   * then stripped of the marker patterns. The four `<tag>…</tag>` patterns the
   * source also lists need a `<`, which escaped text never contains, so they
   * delete nothing and are not spelled out.
   */
  function SanitizeHtml(v: Value): (r: string)
    ensures v.Other? ==> r == v.repr
    ensures forall i :: 0 <= i < |r| ==> v.Other? || (r[i] != '<' && r[i] != '>')
  {
    match v
    case Other(repr) => repr
    case Str(s) =>
      var e := Escape(s);
      RemoveMarkers(e, Markers)
  }

  /** Plain text with no markup characters and no marker passes through `SanitizeHtml` unchanged. */
  lemma SanitizePlain(s: string)
    requires forall i :: 0 <= i < |s| ==> s[i] != '&' && s[i] != '<' && s[i] != '>' && s[i] != '"' && s[i] != '\''
    requires forall k, i :: 0 <= k < |Markers| && 0 <= i < |s| ==> !MatchesAt(s, Markers[k], i)
    ensures SanitizeHtml(Str(s)) == s
  {
    EscapePlain(s);
    RemoveMarkersNoMatch(s, Markers);
  }

  /** Patterns that match nowhere in `s` remove nothing from it. */
  lemma {:induction false} RemoveMarkersNoMatch(s: string, pats: seq<string>)
    requires forall k :: 0 <= k < |pats| ==> pats[k] != []
    requires forall k, i :: 0 <= k < |pats| && 0 <= i < |s| ==> !MatchesAt(s, pats[k], i)
    ensures RemoveMarkers(s, pats) == s
  {
    if pats != [] {
      RemoveAllNoMatch(s, pats[0]);
      assert forall k, i :: 0 <= k < |pats[1..]| && 0 <= i < |s| ==> !MatchesAt(s, pats[1..][k], i) by {
        forall k, i | 0 <= k < |pats[1..]| && 0 <= i < |s|
          ensures !MatchesAt(s, pats[1..][k], i)
        {
          assert pats[1..][k] == pats[k + 1];
        }
      }
      RemoveMarkersNoMatch(s, pats[1..]);
    }
  }

  lemma {:induction false} RemoveAllNoMatch(s: string, pat: string)
    requires pat != []
    requires forall i :: 0 <= i < |s| ==> !MatchesAt(s, pat, i)
    ensures RemoveAll(s, pat) == s
  {
    if s != [] {
      assert !MatchesAt(s, pat, 0);
      forall i | 0 <= i < |s[1..]|
        ensures !MatchesAt(s[1..], pat, i)
      {
        assert !MatchesAt(s, pat, i + 1);
      }
      RemoveAllNoMatch(s[1..], pat);
    }
  }

  /**
   * One pass of the removal: text before a match that holds no earlier match
   * is kept, the match is deleted, and the text after it is not rescanned
   * together with what came before.
   */
  lemma {:induction false} RemoveAllSinglePass(x: string, pat: string, y: string)
    requires pat != [] && |y| < |pat|
    requires forall k :: 0 <= k < |pat| ==> !('A' <= pat[k] <= 'Z')
    requires forall i :: 0 <= i < |x| ==> !MatchesAt(x + pat + y, pat, i)
    ensures RemoveAll(x + pat + y, pat) == x + y
  {
    if x == [] {
      assert MatchesAt(pat + y, pat, 0);
      assert (pat + y)[|pat|..] == y;
      RemoveAllShort(y, pat);
    } else {
      assert !MatchesAt(x + pat + y, pat, 0);
      assert (x + pat + y)[1..] == x[1..] + pat + y;
      forall i | 0 <= i < |x[1..]|
        ensures !MatchesAt(x[1..] + pat + y, pat, i)
      {
        assert !MatchesAt(x + pat + y, pat, i + 1);
      }
      RemoveAllSinglePass(x[1..], pat, y);
    }
  }

  lemma NestedNoEarlyMatch(x: string, y: string)
    requires x == "java" && y == "script:"
    ensures forall i :: 0 <= i < |x| ==> !MatchesAt(x + (x + y) + y, x + y, i)
  {
    var p := x + y;
    var s := x + p + y;
    assert s[1] == 'a' && s[2] == 'v' && s[3] == 'a' && s[4] == 'j';
    assert p[0] == 'j' && p[4] == 's';
    assert !FoldMatch(s[4], p[4]);
    assert !FoldMatch(s[1], p[0]);
    assert !FoldMatch(s[2], p[0]);
    assert !FoldMatch(s[3], p[0]);
  }

  /**
   * "javascript:" split as "java" + "script:" around another copy of itself
   * ("javajavascript:script:") comes out of the removal as "javascript:".
   */
  lemma NestedMarkerSurvives(x: string, y: string)
    requires x == "java" && y == "script:"
    ensures RemoveAll(x + (x + y) + y, x + y) == x + y
    ensures x + y == Markers[0]
  {
    NestedNoEarlyMatch(x, y);
    RemoveAllSinglePass(x, x + y, y);
    JavascriptMarker();
  }

  lemma JavascriptMarker()
    ensures "java" + "script:" == Markers[0]
  {
    var m := Markers[0];
    assert m == "javascript:";
    forall i | 0 <= i < |m|
      ensures ("java" + "script:")[i] == m[i]
    {
    }
  }

  lemma {:induction false} RemoveAllShort(s: string, pat: string)
    requires pat != [] && |s| < |pat|
    ensures RemoveAll(s, pat) == s
  {
    if s != [] {
      RemoveAllShort(s[1..], pat);
    }
  }

  /** `re.search(r'<[^>]+>', s)`: a `<`, then at least one character other than `>`, then `>`. */
  predicate TagAt(s: string, i: int, j: int)
  {
    0 <= i && i + 1 < j < |s| && s[i] == '<' && s[j] == '>' && forall k :: i < k < j ==> s[k] != '>'
  }

  predicate HasTag(s: string)
  {
    exists i, j | 0 <= i < j < |s| :: TagAt(s, i, j)
  }

  /** `validate_input(text, max_length, allow_html)`. */
  function ValidateInput(v: Value, maxLength: int, allowHtml: bool): (r: bool)
    ensures r <==> v.Str? && |v.s| <= maxLength && (allowHtml || !HasTag(v.s))
  {
    match v
    case Other(_) => false
    case Str(s) => |s| <= maxLength && (allowHtml || !HasTag(s))
  }

  /** What the sanitiser produces never looks like a tag to the validator. */
  lemma SanitizedHasNoTag(s: string)
    ensures !HasTag(SanitizeHtml(Str(s)))
  {
  }

  /** One piece of a `str.format` template: literal text, or a `{name}` field. */
  datatype Piece = Lit(text: string) | Field(name: string)

  function Render(template: seq<Piece>, args: map<string, string>): (r: Result<string, string>)
    ensures r.Failure? <==> exists k :: 0 <= k < |template| && template[k].Field? && template[k].name !in args
    ensures r.Failure? ==> r.error in (set k | 0 <= k < |template| && template[k].Field? :: template[k].name)
  {
    if template == [] then Success([])
    else
      var head := match template[0]
        case Lit(t) => Success(t)
        case Field(n) => if n in args then Success(args[n]) else Failure(n);
      if head.Failure? then Failure(head.error)
      else
        var rest := Render(template[1..], args);
        if rest.Failure? then
          assert forall k :: 1 <= k < |template| ==> template[k] == template[1..][k - 1];
          Failure(rest.error)
        else
          assert forall k :: 1 <= k < |template| ==> template[k] == template[1..][k - 1];
          Success(head.value + rest.value)
  }

  /**
   * `safe_format_html(template, **kwargs)`: string arguments are sanitised,
   * other values enter as their `str()`, and a field without an argument is the
   * `KeyError` of `str.format`.
   */
  function SafeFormatHtml(template: seq<Piece>, kwargs: map<string, Value>): (r: Result<string, string>)
    ensures r == Render(template, map k | k in kwargs :: SanitizeHtml(kwargs[k]))
  {
    Render(template, map k | k in kwargs :: SanitizeHtml(kwargs[k]))
  }

  /**
   * With literal text free of angle brackets and only string arguments, the
   * formatted page has no angle bracket at all.
   */
  lemma {:induction false} SafeFormatNoAngles(template: seq<Piece>, kwargs: map<string, Value>)
    requires forall k :: 0 <= k < |template| && template[k].Lit? ==> '<' !in template[k].text && '>' !in template[k].text
    requires forall n :: n in kwargs ==> kwargs[n].Str?
    ensures SafeFormatHtml(template, kwargs).Success? ==> '<' !in SafeFormatHtml(template, kwargs).value && '>' !in SafeFormatHtml(template, kwargs).value
  {
    var args := map k | k in kwargs :: SanitizeHtml(kwargs[k]);
    assert forall n :: n in args ==> '<' !in args[n] && '>' !in args[n];
    RenderNoAngles(template, args);
  }

  lemma {:induction false} RenderNoAngles(template: seq<Piece>, args: map<string, string>)
    requires forall k :: 0 <= k < |template| && template[k].Lit? ==> '<' !in template[k].text && '>' !in template[k].text
    requires forall n :: n in args ==> '<' !in args[n] && '>' !in args[n]
    ensures Render(template, args).Success? ==> '<' !in Render(template, args).value && '>' !in Render(template, args).value
  {
    if template != [] {
      RenderNoAngles(template[1..], args);
    }
  }
}
