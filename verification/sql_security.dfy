/**
 * The SQL-injection guard of the database layer: the keyword and pattern
 * test of an input, the string sanitiser (quote doubling, control
 * characters removed, length cut), the test of a parameter collection,
 * and the parameterised statement builders that refuse a malformed table
 * name or an unsafe value.
 */
module SqlSecurity {
  import opened Wrappers
  import Text
  import HtmlSecurity

  type Value = HtmlSecurity.Value

  // ---------------------------------------------------------------------------
  // validate_input
  // ---------------------------------------------------------------------------

  const DangerousKeywords: seq<string> := [
    "DROP", "DELETE", "TRUNCATE", "ALTER", "CREATE", "INSERT", "UPDATE",
    "EXEC", "EXECUTE", "UNION", "SCRIPT", "JAVASCRIPT", "VBSCRIPT",
    "--", "/*", "*/", "xp_", "sp_", "INFORMATION_SCHEMA", "SYSOBJECTS"]

  /**
   * `str.upper()` on one character: the ASCII letters, and the two
   * non-ASCII letters whose upper case is an ASCII letter (dotless i and
   * long s); every other character is kept.
   */
  function UpperChar(c: char): (r: char)
    ensures !('a' <= r <= 'z')
  {
    if 'a' <= c <= 'z' then (c as int - 32) as char
    else if c == '\U{131}' then 'I'
    else if c == '\U{17f}' then 'S'
    else c
  }

  function UpperText(s: string): (r: string)
    ensures |r| == |s|
    ensures forall i :: 0 <= i < |s| ==> r[i] == UpperChar(s[i])
  {
    seq(|s|, i requires 0 <= i < |s| => UpperChar(s[i]))
  }

  /** The first position at or after `j` that is not whitespace (`\s*`). */
  function SkipSpaces(s: string, j: nat): (k: nat)
    requires j <= |s|
    ensures j <= k <= |s|
    ensures forall m :: j <= m < k ==> Text.IsSpace(s[m])
    ensures k < |s| ==> !Text.IsSpace(s[k])
    decreases |s| - j
  {
    if j < |s| && Text.IsSpace(s[j]) then SkipSpaces(s, j + 1) else j
  }

  /**
   * The patterns `OR\s+1\s*=\s*1` and `AND\s+1\s*=\s*1`, case-insensitive,
   * matched at `i` (`word` is "or" or "and"). Whitespace never equals the
   * next character the pattern needs, so taking all of it is the only match.
   */
  predicate TautologyAt(s: string, word: string, i: nat)
  {
    HtmlSecurity.MatchesAt(s, word, i)
    && i + |word| < |s| && Text.IsSpace(s[i + |word|])
    && var k := SkipSpaces(s, i + |word|);
       k < |s| && s[k] == '1'
       && var k2 := SkipSpaces(s, k + 1);
          k2 < |s| && s[k2] == '='
          && var k3 := SkipSpaces(s, k2 + 1);
             k3 < |s| && s[k3] == '1'
  }

  predicate HasTautology(s: string)
  {
    exists i: nat | i <= |s| :: TautologyAt(s, "or", i) || TautologyAt(s, "and", i)
  }

  /**
   * The pattern `UNION\s+SELECT`, case-insensitive, matched at `i`. "select"
   * starts with a letter, so the whitespace run is taken whole.
   */
  predicate UnionSelectAt(s: string, i: nat)
  {
    HtmlSecurity.MatchesAt(s, "union", i)
    && i + 5 < |s| && Text.IsSpace(s[i + 5])
    && HtmlSecurity.MatchesAt(s, "select", SkipSpaces(s, i + 5))
  }

  predicate HasUnionSelect(s: string)
  {
    exists i: nat | i <= |s| :: UnionSelectAt(s, i)
  }

  /** Some keyword of `ks` occurs in `u`. */
  predicate HitsAny(u: string, ks: seq<string>)
  {
    exists k | k in ks :: Text.Contains(u, k)
  }

  /** Some keyword of `ks`, upper-cased, occurs in `u`. */
  predicate HitsAnyUpper(u: string, ks: seq<string>)
  {
    exists k | k in ks :: Text.Contains(u, UpperText(k))
  }

  /**
   * `SQLSecurity.validate_input(value)` as written: every keyword is looked
   * for in the upper-cased input as it is spelled in the list, then the
   * patterns are searched case-insensitively. Four patterns are not spelled
   * out, because a string they match has already failed the keyword test.
   * Three hold a comment opener. The fourth, `;\s*(DROP|…|CREATE)`, has no i, k
   * or s, the only letters the matcher folds from non-ASCII characters, so
   * its matches upper-case to the keyword.
   */
  function ValidateInputAsWritten(v: Value): (r: bool)
    ensures v.Other? ==> r
    ensures v.Str? && HasTautology(v.s) ==> !r
    ensures v.Str? && HasUnionSelect(v.s) ==> !r
  {
    match v
    case Other(_) => true
    case Str(s) => !HitsAny(UpperText(s), DangerousKeywords) && !HasTautology(s) && !HasUnionSelect(s)
  }

  lemma UpperCharIdempotent(c: char)
    ensures UpperChar(UpperChar(c)) == UpperChar(c)
  {
  }

  /** Whatever occurs in an upper-cased text is its own upper case. */
  lemma OccursInUpperIsUpper(s: string, k: string, i: int)
    requires Text.OccursAt(UpperText(s), k, i)
    ensures UpperText(k) == k
  {
    var u := UpperText(s);
    forall m | 0 <= m < |k|
      ensures UpperChar(k[m]) == k[m]
    {
      assert k[m] == u[i..i + |k|][m] == u[i + m];
      UpperCharIdempotent(s[i + m]);
    }
  }

  /** An upper-cased text never contains a lower-case ASCII letter, so the keywords "xp_" and "sp_" never match. */
  lemma LowerCaseKeywordsNeverMatch(s: string)
    ensures !Text.Contains(UpperText(s), "xp_") && !Text.Contains(UpperText(s), "sp_")
  {
    var u := UpperText(s);
    forall i | 0 <= i <= |u| - 3
      ensures !Text.OccursAt(u, "xp_", i) && !Text.OccursAt(u, "sp_", i)
    {
      assert u[i..i + 3][0] == u[i];
    }
  }

  /** A keyword holding a character the text lacks does not occur in it. */
  lemma AbsentCharacter(u: string, k: string, j: int)
    requires 0 <= j < |k| && k[j] !in u
    ensures !Text.Contains(u, k)
  {
    forall i | 0 <= i <= |u| - |k|
      ensures !Text.OccursAt(u, k, i)
    {
      assert u[i..i + |k|][j] == u[i + j];
    }
  }

  /** `xp_cmdshell` passes the test as written. */
  lemma ExtendedProcedureAccepted()
    ensures ValidateInputAsWritten(HtmlSecurity.Str("xp_cmdshell"))
  {
    assert UpperText("xp_cmdshell") == "XP_CMDSHELL";
    NoKeywordInProcedureName();
    NoTautologyInProcedureName();
    NoSpaceNoUnionSelect("xp_cmdshell");
  }

  lemma HitsAnySplit(u: string, xs: seq<string>, ys: seq<string>)
    ensures HitsAny(u, xs + ys) <==> HitsAny(u, xs) || HitsAny(u, ys)
  {
    assert forall k :: k in xs + ys <==> k in xs || k in ys;
  }

  lemma NoKeywordInProcedureName()
    ensures !HitsAny("XP_CMDSHELL", DangerousKeywords)
  {
    var u := "XP_CMDSHELL";
    var k1 := ["DROP", "DELETE", "TRUNCATE", "ALTER", "CREATE"];
    var k2 := ["INSERT", "UPDATE", "EXEC", "EXECUTE", "UNION"];
    var k3 := ["SCRIPT", "JAVASCRIPT", "VBSCRIPT", "--", "/*"];
    var k4 := ["*/", "xp_", "sp_", "INFORMATION_SCHEMA", "SYSOBJECTS"];
    assert DangerousKeywords == k1 + k2 + k3 + k4;
    HitsAnySplit(u, k1 + k2 + k3, k4);
    HitsAnySplit(u, k1 + k2, k3);
    HitsAnySplit(u, k1, k2);
    NoKeywordGroup1();
    NoKeywordGroup2();
    NoKeywordGroup3();
    NoKeywordGroup4();
  }

  lemma NoKeywordGroup1()
    ensures !HitsAny("XP_CMDSHELL", ["DROP", "DELETE", "TRUNCATE", "ALTER", "CREATE"])
  {
    var u := "XP_CMDSHELL";
    AbsentCharacter(u, "DROP", 1);
    AbsentCharacter(u, "DELETE", 4);
    AbsentCharacter(u, "TRUNCATE", 0);
    AbsentCharacter(u, "ALTER", 0);
    AbsentCharacter(u, "CREATE", 1);
  }

  lemma NoKeywordGroup2()
    ensures !HitsAny("XP_CMDSHELL", ["INSERT", "UPDATE", "EXEC", "EXECUTE", "UNION"])
  {
    var u := "XP_CMDSHELL";
    AbsentCharacter(u, "INSERT", 0);
    AbsentCharacter(u, "UPDATE", 0);
    ExecAbsent();
    AbsentCharacter(u, "EXECUTE", 4);
    AbsentCharacter(u, "UNION", 0);
  }

  lemma NoKeywordGroup3()
    ensures !HitsAny("XP_CMDSHELL", ["SCRIPT", "JAVASCRIPT", "VBSCRIPT", "--", "/*"])
  {
    var u := "XP_CMDSHELL";
    AbsentCharacter(u, "SCRIPT", 2);
    AbsentCharacter(u, "JAVASCRIPT", 0);
    AbsentCharacter(u, "VBSCRIPT", 0);
    AbsentCharacter(u, "--", 0);
    AbsentCharacter(u, "/*", 0);
  }

  lemma NoKeywordGroup4()
    ensures !HitsAny("XP_CMDSHELL", ["*/", "xp_", "sp_", "INFORMATION_SCHEMA", "SYSOBJECTS"])
  {
    var u := "XP_CMDSHELL";
    AbsentCharacter(u, "*/", 0);
    AbsentCharacter(u, "xp_", 0);
    AbsentCharacter(u, "sp_", 0);
    AbsentCharacter(u, "INFORMATION_SCHEMA", 0);
    AbsentCharacter(u, "SYSOBJECTS", 1);
  }

  /** "EXEC" needs an X after its first letter; the only X is the first character. */
  lemma ExecAbsent()
    ensures !Text.Contains("XP_CMDSHELL", "EXEC")
  {
    var u := "XP_CMDSHELL";
    forall i | 0 <= i <= |u| - 4
      ensures !Text.OccursAt(u, "EXEC", i)
    {
      assert u[i..i + 4][1] == u[i + 1];
    }
  }

  /** The tautology patterns need whitespace after OR or AND; a text without whitespace has none. */
  lemma NoSpaceNoTautology(s: string)
    requires forall i :: 0 <= i < |s| ==> !Text.IsSpace(s[i])
    ensures !HasTautology(s)
  {
  }

  /** `UNION\s+SELECT` needs whitespace; a text without whitespace has no match. */
  lemma NoSpaceNoUnionSelect(s: string)
    requires forall i :: 0 <= i < |s| ==> !Text.IsSpace(s[i])
    ensures !HasUnionSelect(s)
  {
  }

  /**
   * "UNİON SELECT" (capital I with dot above) keeps its İ when upper-cased,
   * so no keyword occurs; only the `UNION\s+SELECT` pattern, which folds İ
   * to i, refuses it.
   */
  lemma DottedCapitalIPassesKeywords()
    ensures !HitsAny(UpperText(DottedUnionSelect), DangerousKeywords)
    ensures !ValidateInputAsWritten(HtmlSecurity.Str(DottedUnionSelect))
  {
    var u := UpperText(DottedUnionSelect);
    assert u == DottedUnionSelect;
    var k1 := ["DROP", "DELETE", "TRUNCATE", "ALTER", "CREATE"];
    var k2 := ["INSERT", "UPDATE", "EXEC", "EXECUTE", "UNION"];
    var k3 := ["SCRIPT", "JAVASCRIPT", "VBSCRIPT", "--", "/*"];
    var k4 := ["*/", "xp_", "sp_", "INFORMATION_SCHEMA", "SYSOBJECTS"];
    assert DangerousKeywords == k1 + k2 + k3 + k4;
    HitsAnySplit(u, k1 + k2 + k3, k4);
    HitsAnySplit(u, k1 + k2, k3);
    HitsAnySplit(u, k1, k2);
    DottedGroup1();
    DottedGroup2();
    DottedGroup3();
    DottedGroup4();
    DottedUnionSelectMatches();
  }

  /** "UNİON SELECT": the İ (U+0130) has no ASCII upper or lower case. */
  const DottedUnionSelect := "UN\U{130}ON SELECT"

  lemma DottedUnionSelectMatches()
    ensures HasUnionSelect(DottedUnionSelect)
  {
    assert SkipSpaces(DottedUnionSelect, 5) == 6;
    assert UnionSelectAt(DottedUnionSelect, 0);
  }

  lemma DottedGroup1()
    ensures !HitsAny(DottedUnionSelect, ["DROP", "DELETE", "TRUNCATE", "ALTER", "CREATE"])
  {
    var u := DottedUnionSelect;
    AbsentCharacter(u, "DROP", 0);
    AbsentCharacter(u, "DELETE", 0);
    AbsentCharacter(u, "TRUNCATE", 1);
    AbsentCharacter(u, "ALTER", 0);
    AbsentCharacter(u, "CREATE", 1);
  }

  lemma DottedGroup2()
    ensures !HitsAny(DottedUnionSelect, ["INSERT", "UPDATE", "EXEC", "EXECUTE", "UNION"])
  {
    var u := DottedUnionSelect;
    AbsentCharacter(u, "INSERT", 0);
    AbsentCharacter(u, "UPDATE", 1);
    AbsentCharacter(u, "EXEC", 1);
    AbsentCharacter(u, "EXECUTE", 1);
    AbsentCharacter(u, "UNION", 2);
  }

  lemma DottedGroup3()
    ensures !HitsAny(DottedUnionSelect, ["SCRIPT", "JAVASCRIPT", "VBSCRIPT", "--", "/*"])
  {
    var u := DottedUnionSelect;
    AbsentCharacter(u, "SCRIPT", 2);
    AbsentCharacter(u, "JAVASCRIPT", 0);
    AbsentCharacter(u, "VBSCRIPT", 0);
    AbsentCharacter(u, "--", 0);
    AbsentCharacter(u, "/*", 0);
  }

  lemma DottedGroup4()
    ensures !HitsAny(DottedUnionSelect, ["*/", "xp_", "sp_", "INFORMATION_SCHEMA", "SYSOBJECTS"])
  {
    var u := DottedUnionSelect;
    AbsentCharacter(u, "*/", 0);
    AbsentCharacter(u, "xp_", 0);
    AbsentCharacter(u, "sp_", 0);
    AbsentCharacter(u, "INFORMATION_SCHEMA", 0);
    AbsentCharacter(u, "SYSOBJECTS", 1);
  }

  lemma NoTautologyInProcedureName()
    ensures !HasTautology("xp_cmdshell")
  {
    NoSpaceNoTautology("xp_cmdshell");
  }

  /**
   * `SQLSecurity.validate_input(value)` with each keyword upper-cased too,
   * so that the lower-case entries of the list take effect: non-strings
   * are safe; a string is unsafe when it contains a keyword in any case, a
   * tautology or `UNION\s+SELECT`. It refuses everything the code as
   * written refuses.
   */
  function ValidateInput(v: Value): (r: bool)
    ensures v.Other? ==> r
    ensures v.Str? && HasTautology(v.s) ==> !r
    ensures v.Str? && HasUnionSelect(v.s) ==> !r
    ensures r ==> ValidateInputAsWritten(v)
  {
    match v
    case Other(_) => true
    case Str(s) =>
      UpperHitsCover(s);
      !HitsAnyUpper(UpperText(s), DangerousKeywords) && !HasTautology(s) && !HasUnionSelect(s)
  }

  lemma UpperHitsCover(s: string)
    ensures HitsAny(UpperText(s), DangerousKeywords) ==> HitsAnyUpper(UpperText(s), DangerousKeywords)
  {
    if HitsAny(UpperText(s), DangerousKeywords) {
      var k :| k in DangerousKeywords && Text.Contains(UpperText(s), k);
      var i :| 0 <= i <= |UpperText(s)| - |k| && Text.OccursAt(UpperText(s), k, i);
      OccursInUpperIsUpper(s, k, i);
    }
  }

  /** An occurrence of `k` in `s` is an occurrence of its upper case in the upper case of `s`. */
  lemma UpperKeepsOccurrence(s: string, k: string, i: int)
    requires Text.OccursAt(s, k, i)
    ensures Text.OccursAt(UpperText(s), UpperText(k), i)
  {
    forall m | 0 <= m < |k|
      ensures UpperText(s)[i + m] == UpperChar(k[m])
    {
      assert s[i..i + |k|][m] == s[i + m];
    }
    assert UpperText(s)[i..i + |k|] == UpperText(k);
  }

  lemma UpperOfLower(k: string)
    ensures UpperText(Text.Lower(k)) == UpperText(k)
  {
    assert forall m :: 0 <= m < |k| ==> UpperChar(Text.Lower(k)[m]) == UpperChar(k[m]);
  }

  /** A string containing a listed keyword, as listed or in ASCII lower case, is refused. */
  lemma KeywordRefused(s: string, k: string)
    requires k in DangerousKeywords
    requires Text.Contains(s, k) || Text.Contains(s, Text.Lower(k))
    ensures !ValidateInput(HtmlSecurity.Str(s))
  {
    var t := if Text.Contains(s, k) then k else Text.Lower(k);
    UpperOfLower(k);
    assert UpperText(t) == UpperText(k);
    var i :| 0 <= i <= |s| - |t| && Text.OccursAt(s, t, i);
    UpperKeepsOccurrence(s, t, i);
    assert Text.OccursAt(UpperText(s), UpperText(k), i);
  }

  /** The code as written does refuse, in any ASCII case, every listed keyword that is spelled in upper case. */
  lemma UpperKeywordRefusedAsWritten(s: string, k: string)
    requires k in DangerousKeywords && UpperText(k) == k
    requires Text.Contains(s, k) || Text.Contains(s, Text.Lower(k))
    ensures !ValidateInputAsWritten(HtmlSecurity.Str(s))
  {
    var t := if Text.Contains(s, k) then k else Text.Lower(k);
    UpperOfLower(k);
    assert UpperText(t) == k;
    var i :| 0 <= i <= |s| - |t| && Text.OccursAt(s, t, i);
    UpperKeepsOccurrence(s, t, i);
    assert Text.OccursAt(UpperText(s), k, i);
  }

  /** The corrected test refuses `xp_cmdshell`. */
  lemma ExtendedProcedureRefused()
    ensures !ValidateInput(HtmlSecurity.Str("xp_cmdshell"))
  {
    assert Text.OccursAt("xp_cmdshell", "xp_", 0);
    KeywordRefused("xp_cmdshell", "xp_");
  }

  // ---------------------------------------------------------------------------
  // sanitize_string
  // ---------------------------------------------------------------------------

  const MaxSanitized := 1000

  /** One character as `replace` writes it: a quote doubled, anything else kept. */
  function Escape(c: char): string
  {
    if c == '\'' then "''" else [c]
  }

  /** `s.replace("'", "''")`. */
  function DoubleQuotes(s: string): (r: string)
    ensures |r| >= |s|
  {
    if s == [] then [] else Escape(s[0]) + DoubleQuotes(s[1..])
  }

  /** The characters `[\x00-\x1f\x7f-\x9f]` that the sanitiser removes. */
  predicate IsControl(c: char)
  {
    ('\U{0}' <= c <= '\U{1f}') || ('\U{7f}' <= c <= '\U{9f}')
  }

  function RemoveControl(s: string): (r: string)
    ensures |r| <= |s|
    ensures forall i :: 0 <= i < |r| ==> !IsControl(r[i])
    ensures (forall i :: 0 <= i < |s| ==> !IsControl(s[i])) ==> r == s
  {
    if s == [] then [] else (if IsControl(s[0]) then [] else [s[0]]) + RemoveControl(s[1..])
  }

  /** Every quote of `t` is the first of a doubled pair, as a quoted SQL literal needs. */
  predicate Paired(t: string)
  {
    if t == [] then true
    else if t[0] != '\'' then Paired(t[1..])
    else |t| >= 2 && t[1] == '\'' && Paired(t[2..])
  }

  /** The inverse of the doubling: each pair of quotes read back as one. */
  function Undouble(t: string): string
    requires Paired(t)
  {
    if t == [] then []
    else if t[0] != '\'' then [t[0]] + Undouble(t[1..])
    else "'" + Undouble(t[2..])
  }

  lemma {:induction false} DoubleQuotesRoundTrip(s: string)
    ensures Paired(DoubleQuotes(s)) && Undouble(DoubleQuotes(s)) == s
  {
    if s != [] {
      DoubleQuotesRoundTrip(s[1..]);
      var rest := DoubleQuotes(s[1..]);
      if s[0] == '\'' {
        assert DoubleQuotes(s) == "''" + rest;
        assert DoubleQuotes(s)[2..] == rest;
      } else {
        assert DoubleQuotes(s)[1..] == rest;
      }
    }
  }

  lemma {:induction false} DoubleQuotesKeepsControl(s: string)
    ensures RemoveControl(DoubleQuotes(s)) == DoubleQuotes(RemoveControl(s))
  {
    if s != [] {
      DoubleQuotesKeepsControl(s[1..]);
      var head := if s[0] == '\'' then "''" else [s[0]];
      RemoveControlConcat(head, DoubleQuotes(s[1..]));
      DoubleQuotesConcat(if IsControl(s[0]) then [] else [s[0]], RemoveControl(s[1..]));
    }
  }

  lemma {:induction false} RemoveControlConcat(a: string, b: string)
    ensures RemoveControl(a + b) == RemoveControl(a) + RemoveControl(b)
  {
    if a == [] {
      assert a + b == b;
    } else {
      var head := if IsControl(a[0]) then [] else [a[0]];
      assert (a + b)[0] == a[0] && (a + b)[1..] == a[1..] + b;
      calc {
        RemoveControl(a + b);
        head + RemoveControl(a[1..] + b);
        { RemoveControlConcat(a[1..], b); }
        head + (RemoveControl(a[1..]) + RemoveControl(b));
        (head + RemoveControl(a[1..])) + RemoveControl(b);
        RemoveControl(a) + RemoveControl(b);
      }
    }
  }

  lemma {:induction false} DoubleQuotesConcat(a: string, b: string)
    ensures DoubleQuotes(a + b) == DoubleQuotes(a) + DoubleQuotes(b)
  {
    if a == [] {
      assert a + b == b;
    } else {
      assert (a + b)[0] == a[0] && (a + b)[1..] == a[1..] + b;
      calc {
        DoubleQuotes(a + b);
        Escape(a[0]) + DoubleQuotes(a[1..] + b);
        { DoubleQuotesConcat(a[1..], b); }
        Escape(a[0]) + (DoubleQuotes(a[1..]) + DoubleQuotes(b));
        (Escape(a[0]) + DoubleQuotes(a[1..])) + DoubleQuotes(b);
        DoubleQuotes(a) + DoubleQuotes(b);
      }
    }
  }

  /**
   * `SQLSecurity.sanitize_string(value)` as written: non-strings become
   * their `str()`; a string has its quotes doubled and its control
   * characters removed, and is then cut to 1000 characters.
   */
  function SanitizeStringAsWritten(v: Value): (r: string)
    ensures v.Other? ==> r == v.repr
    ensures v.Str? ==> |r| <= MaxSanitized && forall i :: 0 <= i < |r| ==> !IsControl(r[i])
    ensures v.Str? && |DoubleQuotes(RemoveControl(v.s))| <= MaxSanitized ==>
      Paired(r) && Undouble(r) == RemoveControl(v.s)
  {
    match v
    case Other(repr) => repr
    case Str(s) =>
      var cleaned := RemoveControl(DoubleQuotes(s));
      DoubleQuotesKeepsControl(s);
      DoubleQuotesRoundTrip(RemoveControl(s));
      if |cleaned| > MaxSanitized then cleaned[..MaxSanitized] else cleaned
  }

  /** Quote-free text doubles to itself. */
  lemma {:induction false} DoubleQuotesPlain(s: string)
    requires forall i :: 0 <= i < |s| ==> s[i] != '\''
    ensures DoubleQuotes(s) == s
  {
    if s != [] {
      DoubleQuotesPlain(s[1..]);
    }
  }

  /** Quote-free text in front does not change whether the quotes are paired. */
  lemma {:induction false} PairedAfterPlain(x: string, y: string)
    requires forall i :: 0 <= i < |x| ==> x[i] != '\''
    ensures Paired(x + y) == Paired(y)
  {
    if x == [] {
      assert x + y == y;
    } else {
      PairedAfterPlain(x[1..], y);
      assert (x + y)[0] == x[0] && (x + y)[1..] == x[1..] + y;
    }
  }

  /**
   * The cut can fall between the two quotes of a pair: 999 letters and a
   * quote double to 1001 characters, and the sanitised text ends in a
   * single quote.
   */
  lemma CutSplitsQuotePair()
    ensures var s := seq(999, _ => 'a') + "'";
      !Paired(SanitizeStringAsWritten(HtmlSecurity.Str(s)))
  {
    var a := seq(999, _ => 'a');
    var s := a + "'";
    DoubleQuotesConcat(a, "'");
    DoubleQuotesPlain(a);
    assert DoubleQuotes("'") == "''";
    var d := a + "''";
    assert forall i :: 0 <= i < |d| ==> !IsControl(d[i]);
    var r := SanitizeStringAsWritten(HtmlSecurity.Str(s));
    assert r == d[..1000];
    assert r == a + "'";
    PairedAfterPlain(a, "'");
  }

  predicate IsPrefix(a: string, b: string)
  {
    |a| <= |b| && a == b[..|a|]
  }

  /** The longest prefix of `c` whose doubled form fits in `budget` characters. */
  function Fit(c: string, budget: int): (r: string)
    ensures |r| <= |c| && r == c[..|r|]
    ensures |DoubleQuotes(r)| <= budget || r == []
    ensures |DoubleQuotes(c)| <= budget ==> r == c
    decreases |c|
  {
    if c == [] then []
    else
      var w := if c[0] == '\'' then 2 else 1;
      if w > budget then []
      else
        var rest := Fit(c[1..], budget - w);
        assert DoubleQuotes([c[0]] + rest) == (if c[0] == '\'' then "''" else [c[0]]) + DoubleQuotes(rest) by {
          assert ([c[0]] + rest)[1..] == rest;
        }
        assert c == [c[0]] + c[1..];
        [c[0]] + rest
  }

  /**
   * `SQLSecurity.sanitize_string(value)` as evidently intended: the cut
   * is made on the cleaned text before doubling, at the longest prefix
   * whose doubled form fits, so no pair is ever split. It agrees with the
   * code as written whenever no cut is needed.
   */
  function SanitizeString(v: Value): (r: string)
    ensures v.Other? ==> r == v.repr
    ensures v.Str? ==> |r| <= MaxSanitized && forall i :: 0 <= i < |r| ==> !IsControl(r[i])
    ensures v.Str? ==> Paired(r) && IsPrefix(Undouble(r), RemoveControl(v.s))
    ensures v.Str? && |DoubleQuotes(RemoveControl(v.s))| <= MaxSanitized ==> r == SanitizeStringAsWritten(v)
  {
    match v
    case Other(repr) => repr
    case Str(s) =>
      var c := RemoveControl(s);
      var p := Fit(c, MaxSanitized);
      DoubleQuotesRoundTrip(p);
      DoubleQuotesKeepsControl(s);
      DoubleQuotesKeepsControl(p);
      assert RemoveControl(p) == p by {
        assert forall i :: 0 <= i < |p| ==> p[i] == c[i];
      }
      assert forall i :: 0 <= i < |DoubleQuotes(p)| ==> !IsControl(DoubleQuotes(p)[i]);
      DoubleQuotes(p)
  }

  // ---------------------------------------------------------------------------
  // validate_params
  // ---------------------------------------------------------------------------

  /** The parameter collections: a list or tuple, a dict (its entries in order), or a single value. */
  datatype Params = PSeq(items: seq<Value>) | PMap(entries: seq<(string, Value)>) | PScalar(value: Value)

  /**
   * Which input check the parameter validation applies: the program calls
   * `validate_input` as written; `Corrected` is the check of the finding,
   * with the lower-case keywords in effect.
   */
  datatype KeywordCheck = AsWritten | Corrected

  function Safe(c: KeywordCheck, v: Value): bool
  {
    match c
    case AsWritten => ValidateInputAsWritten(v)
    case Corrected => ValidateInput(v)
  }

  /** `all(validate_input(x) for x in xs)`. */
  function AllSafe(c: KeywordCheck, xs: seq<Value>): (r: bool)
    ensures r <==> forall i :: 0 <= i < |xs| ==> Safe(c, xs[i])
  {
    if xs == [] then true else Safe(c, xs[0]) && AllSafe(c, xs[1..])
  }

  function Values(entries: seq<(string, Value)>): (r: seq<Value>)
    ensures |r| == |entries| && forall i :: 0 <= i < |entries| ==> r[i] == entries[i].1
  {
    seq(|entries|, i requires 0 <= i < |entries| => entries[i].1)
  }

  function Keys(entries: seq<(string, Value)>): (r: seq<string>)
    ensures |r| == |entries| && forall i :: 0 <= i < |entries| ==> r[i] == entries[i].0
  {
    seq(|entries|, i requires 0 <= i < |entries| => entries[i].0)
  }

  /** `SQLSecurity.validate_params(params)`: safe iff every element, every dict value, or the single value is. */
  function ValidateParams(c: KeywordCheck, p: Params): (r: bool)
    ensures p.PSeq? ==> (r <==> forall i :: 0 <= i < |p.items| ==> Safe(c, p.items[i]))
    ensures p.PMap? ==> (r <==> forall i :: 0 <= i < |p.entries| ==> Safe(c, p.entries[i].1))
    ensures p.PScalar? ==> r == Safe(c, p.value)
  {
    match p
    case PSeq(items) => AllSafe(c, items)
    case PMap(entries) => AllSafe(c, Values(entries))
    case PScalar(value) => Safe(c, value)
  }

  /** Parameters the corrected check accepts pass the program's check too. */
  lemma CorrectedParamsPassAsWritten(p: Params)
    ensures ValidateParams(Corrected, p) ==> ValidateParams(AsWritten, p)
  {
  }

  // ---------------------------------------------------------------------------
  // SecureQuery
  // ---------------------------------------------------------------------------

  datatype SecureQuery = SecureQuery(query: string, params: seq<Value>)

  const NewQuery := SecureQuery("", [])

  predicate IdentifierStart(c: char) { Text.IsAsciiLetter(c) || c == '_' }

  predicate IdentifierChar(c: char) { Text.IsAsciiLetter(c) || Text.IsDigit(c) || c == '_' }

  predicate Identifier(u: string)
  {
    u != [] && IdentifierStart(u[0]) && forall i :: 1 <= i < |u| ==> IdentifierChar(u[i])
  }

  /**
   * `re.match(r'^[a-zA-Z_][a-zA-Z0-9_]*$', table)`: an identifier, which
   * `$` also accepts before a single final newline.
   */
  predicate TableNameValid(t: string)
  {
    Identifier(t) || (|t| >= 2 && t[|t| - 1] == '\n' && Identifier(t[..|t| - 1]))
  }

  function TableError(table: string): string
  {
    "ValueError: Nome de tabela inválido: " + table
  }

  /** The column list of `select`: a text as given, a list joined by ", ". */
  datatype Columns = ColumnText(text: string) | ColumnList(names: seq<string>)

  function ColumnsText(c: Columns): string
  {
    match c
    case ColumnText(text) => text
    case ColumnList(names) => Text.Join(names, ", ")
  }

  /** `select(columns, table)`: replaces the statement, keeps the parameters. */
  function Select(q: SecureQuery, columns: Columns, table: string): (r: Result<SecureQuery, string>)
    ensures r.Success? <==> TableNameValid(table)
    ensures r.Success? ==> r.value.params == q.params
    ensures r.Success? ==> r.value.query == "SELECT " + ColumnsText(columns) + " FROM " + table
  {
    if !TableNameValid(table) then Failure(TableError(table))
    else Success(SecureQuery("SELECT " + ColumnsText(columns) + " FROM " + table, q.params))
  }

  /**
   * `where(condition, *params)`: the parameters are checked, the condition
   * text is appended unchecked. The program runs it with `AsWritten`.
   */
  function Where(c: KeywordCheck, q: SecureQuery, condition: string, params: seq<Value>): (r: Result<SecureQuery, string>)
    ensures r.Success? <==> forall i :: 0 <= i < |params| ==> Safe(c, params[i])
    ensures r.Success? ==> r.value == SecureQuery(q.query + " WHERE " + condition, q.params + params)
  {
    if !ValidateParams(c, PSeq(params)) then Failure("ValueError: Parâmetros contêm conteúdo perigoso")
    else Success(SecureQuery(q.query + " WHERE " + condition, q.params + params))
  }

  /** The program's `where` lets an extended-procedure name through; the corrected check stops it. */
  lemma WhereAcceptsExtendedProcedure(q: SecureQuery, condition: string)
    ensures Where(AsWritten, q, condition, [HtmlSecurity.Str("xp_cmdshell")]).Success?
    ensures Where(Corrected, q, condition, [HtmlSecurity.Str("xp_cmdshell")]).Failure?
  {
    ExtendedProcedureAccepted();
    ExtendedProcedureRefused();
  }

  /** Occurrences of `c` in `s`. */
  function CountChar(s: string, c: char): nat
  {
    if s == [] then 0 else CountChar(s[..|s| - 1], c) + (if s[|s| - 1] == c then 1 else 0)
  }

  lemma {:induction false} CountCharConcat(a: string, b: string, c: char)
    ensures CountChar(a + b, c) == CountChar(a, c) + CountChar(b, c)
  {
    if b == [] {
      assert a + b == a;
    } else {
      CountCharConcat(a, b[..|b| - 1], c);
      assert (a + b)[..|a + b| - 1] == a + b[..|b| - 1];
    }
  }

  lemma OneMarkAtEnd(s: string)
    requires s != [] && s[|s| - 1] == '?'
    requires forall i :: 0 <= i < |s| - 1 ==> s[i] != '?'
    ensures CountChar(s, '?') == 1
  {
    NoQuestionMark(s[..|s| - 1]);
  }

  /** `", ".join(["?" for _ in data])`. */
  function Placeholders(n: nat): (r: string)
    ensures CountChar(r, '?') == n
  {
    if n == 0 then ""
    else if n == 1 then "?"
    else
      var p := Placeholders(n - 1);
      CountCharConcat(p, ", ?", '?');
      OneMarkAtEnd(", ?");
      p + ", ?"
  }

  /** `", ".join([f"{col} = ?" for col in keys])`. */
  function SetClause(keys: seq<string>): (r: string)
    ensures (forall i :: 0 <= i < |keys| ==> CountChar(keys[i], '?') == 0) ==> CountChar(r, '?') == |keys|
  {
    if keys == [] then ""
    else
      var last := keys[|keys| - 1] + " = ?";
      CountCharConcat(keys[|keys| - 1], " = ?", '?');
      OneMarkAtEnd(" = ?");
      if |keys| == 1 then last
      else
        var init := SetClause(keys[..|keys| - 1]);
        CountCharConcat(init + ", ", last, '?');
        CountCharConcat(init, ", ", '?');
        NoQuestionMark(", ");
        init + ", " + last
  }

  /**
   * `insert(table, data)`: the statement names the columns in key order
   * and has one placeholder per column; the parameters are the values in
   * the same order. The program runs it with `AsWritten`.
   */
  function Insert(c: KeywordCheck, q: SecureQuery, table: string, data: seq<(string, Value)>): (r: Result<SecureQuery, string>)
    ensures r.Success? <==> TableNameValid(table) && forall i :: 0 <= i < |data| ==> Safe(c, data[i].1)
    ensures r.Success? ==> r.value.params == Values(data)
    ensures r.Success? ==> exists head :: r.value.query == head + "(" + Placeholders(|data|) + ")"
  {
    if !TableNameValid(table) then Failure(TableError(table))
    else if !ValidateParams(c, PMap(data)) then Failure("ValueError: Dados contêm conteúdo perigoso")
    else
      var head := "INSERT INTO " + table + " (" + Text.Join(Keys(data), ", ") + ") VALUES ";
      Success(SecureQuery(head + "(" + Placeholders(|data|) + ")", Values(data)))
  }

  /**
   * `update(table, data)`: one `col = ?` per column in key order, the
   * values as parameters. The program runs it with `AsWritten`.
   */
  function Update(c: KeywordCheck, q: SecureQuery, table: string, data: seq<(string, Value)>): (r: Result<SecureQuery, string>)
    ensures r.Success? <==> TableNameValid(table) && forall i :: 0 <= i < |data| ==> Safe(c, data[i].1)
    ensures r.Success? ==> r.value.params == Values(data)
    ensures r.Success? && (forall i :: 0 <= i < |data| ==> CountChar(data[i].0, '?') == 0) ==>
      CountChar(r.value.query, '?') == CountChar(table, '?') + |data|
  {
    if !TableNameValid(table) then Failure(TableError(table))
    else if !ValidateParams(c, PMap(data)) then Failure("ValueError: Dados contêm conteúdo perigoso")
    else
      var set_ := SetClause(Keys(data));
      CountCharConcat("UPDATE " + table + " SET ", set_, '?');
      CountCharConcat("UPDATE " + table, " SET ", '?');
      CountCharConcat("UPDATE ", table, '?');
      NoQuestionMark("UPDATE ");
      NoQuestionMark(" SET ");
      Success(SecureQuery("UPDATE " + table + " SET " + set_, Values(data)))
  }

  lemma {:induction false} NoQuestionMark(s: string)
    requires forall i :: 0 <= i < |s| ==> s[i] != '?'
    ensures CountChar(s, '?') == 0
  {
    if s != [] {
      NoQuestionMark(s[..|s| - 1]);
    }
  }

  /** `delete(table)`: replaces the statement, keeps the parameters. */
  function Delete(q: SecureQuery, table: string): (r: Result<SecureQuery, string>)
    ensures r.Success? <==> TableNameValid(table)
    ensures r.Success? ==> r.value == SecureQuery("DELETE FROM " + table, q.params)
  {
    if !TableNameValid(table) then Failure(TableError(table))
    else Success(SecureQuery("DELETE FROM " + table, q.params))
  }

  /** A valid table name never contains a quote, a semicolon or a space, so it cannot end the statement early. */
  lemma TableNameHasNoSeparators(t: string)
    requires TableNameValid(t)
    ensures forall i :: 0 <= i < |t| ==> t[i] != '\'' && t[i] != ';' && t[i] != ' '
  {
  }
}
