/**
 * The field validators: the e-mail pattern, the password and name rules
 * in their two versions (the strict `validators` module the services use
 * and the `validacoes` module), date parsing in the ISO 8601 extended
 * calendar-date form (YYYY-MM-DD) and in the Brazilian DD/MM/YYYY form,
 * integer bounds, required text and membership in a list of options.
 */
module Validacao {
  import opened Wrappers
  import opened Calendar
  import Text

  /**
   * A Python value as the validators see it. `PyFloat` is a finite float,
   * taken as the exact value it denotes; `PyOther` is anything else.
   */
  datatype PyValue =
    | PyNone | PyStr(s: string) | PyDate(d: Date) | PyInt(i: int) | PyBool(b: bool) | PyFloat(x: real)
    | PyOther

  /** `[a-zA-Z0-9._%+-]`, the characters of the local part. */
  predicate LocalChar(c: char)
  {
    Text.IsAsciiLetter(c) || Text.IsDigit(c) || c == '.' || c == '_' || c == '%' || c == '+' || c == '-'
  }

  /** `[a-zA-Z0-9.-]`, the characters of the domain before the final dot. */
  predicate DomainChar(c: char)
  {
    Text.IsAsciiLetter(c) || Text.IsDigit(c) || c == '.' || c == '-'
  }

  /**
   * One way the pattern `^[a-zA-Z0-9._%+-]+@[a-zA-Z0-9.-]+\.[a-zA-Z]{2,}`
   * can cover all of `s`: the '@' at `at`, the dot before the top-level
   * domain at `dot`.
   */
  predicate EmailSplit(s: string, at: int, dot: int)
  {
    0 < at && at + 1 < dot && dot + 2 < |s| && s[at] == '@' && s[dot] == '.'
    && (forall k :: 0 <= k < at ==> LocalChar(s[k]))
    && (forall k :: at < k < dot ==> DomainChar(s[k]))
    && (forall k :: dot < k < |s| ==> Text.IsAsciiLetter(s[k]))
  }

  /** The pattern covers the whole of `s`, whichever way it is split. */
  ghost predicate PatternCovers(s: string)
  {
    exists at, dot :: EmailSplit(s, at, dot)
  }

  /** First index of `c` in `s`, or -1. */
  function IndexOf(s: string, c: char): (r: int)
    ensures -1 <= r < |s|
    ensures r >= 0 ==> s[r] == c && forall k :: 0 <= k < r ==> s[k] != c
    ensures r == -1 ==> forall k :: 0 <= k < |s| ==> s[k] != c
  {
    if s == [] then -1
    else if s[0] == c then 0
    else var r := IndexOf(s[1..], c); if r < 0 then -1 else r + 1
  }

  /** Last index of `c` in `s`, or -1. */
  function LastIndexOf(s: string, c: char): (r: int)
    ensures -1 <= r < |s|
    ensures r >= 0 ==> s[r] == c && forall k :: r < k < |s| ==> s[k] != c
    ensures r == -1 ==> forall k :: 0 <= k < |s| ==> s[k] != c
  {
    if s == [] then -1
    else if s[|s| - 1] == c then |s| - 1
    else LastIndexOf(s[..|s| - 1], c)
  }

  /**
   * No character class of the pattern holds '@', and the top-level domain
   * holds no dot, so a covering split can only be at the first '@' and at
   * the last dot.
   */
  lemma SplitIsUnique(s: string)
    ensures forall at, dot :: EmailSplit(s, at, dot) ==> at == IndexOf(s, '@') && dot == LastIndexOf(s, '.')
  {
    assert !LocalChar('@') && !DomainChar('@') && !Text.IsAsciiLetter('@') && !Text.IsAsciiLetter('.');
  }

  /** The pattern decided in one pass, by trying the only split that can work. */
  function CoversEmail(s: string): (r: bool)
    ensures r <==> PatternCovers(s)
  {
    SplitIsUnique(s);
    EmailSplit(s, IndexOf(s, '@'), LastIndexOf(s, '.'))
  }

  /** `re.match` with a final `$`, which also matches just before a final newline. */
  function RegexMatches(s: string): (r: bool)
    ensures r <==> PatternCovers(s) || (|s| > 0 && s[|s| - 1] == '\n' && PatternCovers(s[..|s| - 1]))
  {
    CoversEmail(s) || (|s| > 0 && s[|s| - 1] == '\n' && CoversEmail(s[..|s| - 1]))
  }

  /** `validators.validar_email(email)`: the pattern on the raw text. */
  function EmailValid(email: string): (r: bool)
    ensures r ==> exists k :: 0 < k < |email| && email[k] == '@'
  {
    RegexMatches(email)
  }

  /** `validacoes.validar_email(email)`: False for non-text and empty text, the pattern on the stripped text otherwise. */
  function EmailValidStripped(v: PyValue): (r: bool)
    ensures r ==> v.PyStr? && v.s != []
    ensures v.PyStr? ==> (r <==> v.s != [] && PatternCovers(Text.Strip(v.s)))
  {
    match v
    case PyStr(s) =>
      Text.StripShape(s);
      s != [] && RegexMatches(Text.Strip(s))
    case _ => false
  }

  /**
   * An accepted address has a non-empty local part free of '@', then an
   * '@', then a dot further on: so addresses without an '@', with an empty
   * local part, or without a dot after the '@' are refused.
   */
  lemma AcceptedEmailShape(s: string)
    ensures EmailValid(s) ==>
      (exists at, dot :: 0 < at < dot < |s| && s[at] == '@' && s[dot] == '.' && forall k :: 0 <= k < at ==> s[k] != '@')
  {
    if EmailValid(s) {
      var t := if PatternCovers(s) then s else s[..|s| - 1];
      var at, dot :| EmailSplit(t, at, dot);
      assert |t| <= |s| && t == s[..|t|];
      assert !LocalChar('@');
      forall k | 0 <= k < at
        ensures s[k] != '@'
      {
        assert s[k] == t[k] && LocalChar(t[k]);
      }
      assert s[at] == t[at] && s[dot] == t[dot];
      assert 0 < at < dot < |s| && s[at] == '@' && s[dot] == '.';
    }
  }

  /** A top-level domain of one letter is refused; two letters suffice. */
  lemma TopLevelDomainNeedsTwoLetters(local: string, domain: string, tld: string)
    requires local != [] && forall k :: 0 <= k < |local| ==> LocalChar(local[k])
    requires domain != [] && forall k :: 0 <= k < |domain| ==> DomainChar(domain[k])
    requires forall k :: 0 <= k < |tld| ==> Text.IsAsciiLetter(tld[k])
    ensures PatternCovers(local + "@" + domain + "." + tld) <==> |tld| >= 2
  {
    var s := local + "@" + domain + "." + tld;
    var at := |local|;
    var dot := |local| + 1 + |domain|;
    assert s[at] == '@' && s[dot] == '.';
    assert forall k :: dot < k < |s| ==> s[k] == tld[k - dot - 1];
    assert forall k :: at < k < dot ==> s[k] == domain[k - at - 1];
    assert LastIndexOf(s, '.') == dot;
    SplitIsUnique(s);
    if |tld| >= 2 {
      assert EmailSplit(s, at, dot);
    }
  }

  /** The raw pattern lets a trailing newline through; the stripping version drops it before matching. */
  lemma TrailingNewlineAccepted(s: string)
    requires PatternCovers(s)
    ensures EmailValid(s + "\n")
  {
    assert (s + "\n")[..|s + "\n"| - 1] == s;
  }

  /** `validators.validar_senha(senha)`. */
  function PasswordValid(senha: string): (r: (bool, string))
    ensures r.0 <==> |senha| >= 6
    ensures !r.0 ==> Text.Contains(r.1, "6 caracteres")
  {
    if |senha| < 6 then
      var prefix, tail := "Senha deve ter pelo menos ", "6 caracteres";
      assert Text.OccursAt(prefix + tail, tail, |prefix|);
      (false, prefix + tail)
    else (true, "Senha válida")
  }

  /** `validacoes.validar_senha(senha)`: the same length rule, with its own message for the empty password. */
  function PasswordValidChecked(senha: string): (r: (bool, string))
    ensures r.0 <==> |senha| >= 6
    ensures senha == [] ==> r.1 == "Senha é obrigatória"
    ensures r.0 ==> r.1 == []
  {
    if senha == [] then (false, "Senha é obrigatória")
    else if |senha| < 6 then (false, "Senha deve ter pelo menos 6 caracteres")
    else (true, "")
  }

  /** The two password rules accept the same passwords. */
  lemma PasswordRulesAgree(senha: string)
    ensures PasswordValid(senha).0 == PasswordValidChecked(senha).0
  {
  }

  /** `validators.validar_nome(nome)`. */
  function NameValid(nome: string): (r: (bool, string))
    ensures r.0 <==> |Text.Strip(nome)| >= 2
  {
    if |Text.Strip(nome)| < 2 then (false, "Nome deve ter pelo menos 2 caracteres") else (true, "Nome válido")
  }

  /** `validacoes.validar_nome(nome)`: blank names have their own message, and at most 100 characters are allowed. */
  function NameValidChecked(nome: string): (r: (bool, string))
    ensures r.0 <==> 2 <= |Text.Strip(nome)| <= 100
    ensures Text.IsBlank(nome) ==> r == (false, "Nome é obrigatório")
  {
    Text.StripEmptyIffBlank(nome);
    if Text.IsBlank(nome) then (false, "Nome é obrigatório")
    else if |Text.Strip(nome)| < 2 then (false, "Nome deve ter pelo menos 2 caracteres")
    else if |Text.Strip(nome)| > 100 then (false, "Nome não pode exceder 100 caracteres")
    else (true, "")
  }

  /** Every name the `validacoes` rule accepts, the `validators` rule accepts too; blank names fail both. */
  lemma NameRulesNested(nome: string)
    ensures NameValidChecked(nome).0 ==> NameValid(nome).0
    ensures Text.IsBlank(nome) ==> !NameValid(nome).0
  {
    Text.StripEmptyIffBlank(nome);
  }

  predicate AllDigits(s: string)
  {
    forall i :: 0 <= i < |s| ==> Text.IsDigit(s[i])
  }

  /** A date built from three digit fields, if the calendar has it. */
  function CheckedDate(y: string, m: string, d: string): (r: Option<Date>)
    requires AllDigits(y) && AllDigits(m) && AllDigits(d)
    ensures r.Some? ==> Valid(r.value)
    ensures r.Some? <==> Valid(Date(Text.DigitsValue(y), Text.DigitsValue(m), Text.DigitsValue(d)))
    ensures r.Some? ==> r.value == Date(Text.DigitsValue(y), Text.DigitsValue(m), Text.DigitsValue(d))
  {
    var date := Date(Text.DigitsValue(y), Text.DigitsValue(m), Text.DigitsValue(d));
    if Valid(date) then Some(date) else None
  }

  /** `datetime.strptime(s, "%Y-%m-%d").date()` on the ten-character form. */
  function ParseIso(s: string): (r: Option<Date>)
    ensures r.Some? ==> Valid(r.value) && |s| == 10 && s[4] == '-' && s[7] == '-'
  {
    if |s| == 10 && s[4] == '-' && s[7] == '-' && AllDigits(s[..4]) && AllDigits(s[5..7]) && AllDigits(s[8..])
    then CheckedDate(s[..4], s[5..7], s[8..])
    else None
  }

  /** `datetime.strptime(s, "%d/%m/%Y").date()` on the ten-character form. */
  function ParseBr(s: string): (r: Option<Date>)
    ensures r.Some? ==> Valid(r.value) && |s| == 10 && s[2] == '/' && s[5] == '/'
  {
    if |s| == 10 && s[2] == '/' && s[5] == '/' && AllDigits(s[..2]) && AllDigits(s[3..5]) && AllDigits(s[6..])
    then CheckedDate(s[6..], s[3..5], s[..2])
    else None
  }

  lemma TwoDigitsValue(n: nat)
    requires n < 100
    ensures Text.DigitsValue(TwoDigits(n)) == n
  {
    Text.NatToStringRoundTrip(n);
    Text.ZeroPadValue(Text.NatToString(n), 2);
  }

  lemma FourDigitsValue(n: nat)
    requires n < 10000
    ensures Text.DigitsValue(FourDigits(n)) == n
  {
    Text.NatToStringRoundTrip(n);
    Text.ZeroPadValue(Text.NatToString(n), 4);
  }

  /** The three fields of an ISO-shaped text are read as year, month and day. */
  lemma ParseIsoFields(y: string, m: string, d: string)
    requires |y| == 4 && |m| == 2 && |d| == 2 && AllDigits(y) && AllDigits(m) && AllDigits(d)
    ensures ParseIso(y + "-" + m + "-" + d) == CheckedDate(y, m, d)
  {
    var s := y + "-" + m + "-" + d;
    assert s[..4] == y && s[5..7] == m && s[8..] == d;
  }

  /** The three fields of a Brazilian-shaped text are read as day, month and year. */
  lemma ParseBrFields(d: string, m: string, y: string)
    requires |d| == 2 && |m| == 2 && |y| == 4 && AllDigits(y) && AllDigits(m) && AllDigits(d)
    ensures ParseBr(d + "/" + m + "/" + y) == CheckedDate(y, m, d)
  {
    var s := d + "/" + m + "/" + y;
    assert s[..2] == d && s[3..5] == m && s[6..] == y;
  }

  /** Parsing an ISO-printed date gives the date back. */
  lemma ParseIsoRoundTrip(d: Date)
    requires Valid(d)
    ensures ParseIso(FormatIso(d)) == Some(d)
  {
    FourDigitsValue(d.year);
    TwoDigitsValue(d.month);
    TwoDigitsValue(d.day);
    assert FormatIso(d) == FourDigits(d.year) + "-" + TwoDigits(d.month) + "-" + TwoDigits(d.day);
    ParseIsoFields(FourDigits(d.year), TwoDigits(d.month), TwoDigits(d.day));
  }

  /** Parsing a Brazilian-printed date gives the date back. */
  lemma ParseBrRoundTrip(d: Date)
    requires Valid(d)
    ensures ParseBr(FormatBr(d)) == Some(d)
  {
    FourDigitsValue(d.year);
    TwoDigitsValue(d.month);
    TwoDigitsValue(d.day);
    assert FormatBr(d) == TwoDigits(d.day) + "/" + TwoDigits(d.month) + "/" + FourDigits(d.year);
    ParseBrFields(TwoDigits(d.day), TwoDigits(d.month), FourDigits(d.year));
  }

  /** No text parses in both forms, so the order the two are tried in never matters. */
  lemma FormsExclusive(s: string)
    ensures ParseIso(s).Some? ==> ParseBr(s).None?
  {
    if ParseIso(s).Some? {
      assert Text.IsDigit(s[..4][2]);
    }
  }

  datatype DateCheck = DateCheck(valida: bool, mensagem: string, data: Option<Date>)

  /** `validacoes.validar_data(data_input)`. */
  function DateValid(v: PyValue): (r: DateCheck)
    ensures r.valida <==> r.data.Some?
    ensures r.valida ==> r.mensagem == [] && (v.PyDate? || Valid(r.data.value))
    ensures v.PyNone? ==> r == DateCheck(false, "Data é obrigatória", None)
    ensures v.PyDate? ==> r == DateCheck(true, "", Some(v.d))
    ensures v.PyStr? ==> r.data == (if ParseIso(v.s).Some? then ParseIso(v.s) else ParseBr(v.s))
    ensures v.PyInt? || v.PyBool? || v.PyFloat? || v.PyOther? ==> !r.valida
  {
    match v
    case PyNone => DateCheck(false, "Data é obrigatória", None)
    case PyDate(d) => DateCheck(true, "", Some(d))
    case PyStr(s) =>
      if ParseIso(s).Some? then DateCheck(true, "", ParseIso(s))
      else if ParseBr(s).Some? then DateCheck(true, "", ParseBr(s))
      else DateCheck(false, "Formato de data inválido", None)
    case _ => DateCheck(false, "Tipo de data não suportado", None)
  }

  /** Without a dash at its fifth character a text is not ISO-shaped. */
  lemma IsoNeedsDash(s: string)
    requires |s| == 10 ==> s[4] != '-'
    ensures ParseIso(s).None?
  {
  }

  lemma BrTextIsNotIso(d: Date)
    requires Valid(d)
    ensures ParseIso(FormatBr(d)).None?
  {
    var s := FormatBr(d);
    FormatBrDigits(d);
    assert Text.IsDigit(s[4]);
    IsoNeedsDash(s);
  }

  /** Any valid date, printed in either form, validates to itself. */
  lemma PrintedDatesValidate(d: Date)
    requires Valid(d)
    ensures DateValid(PyStr(FormatIso(d))) == DateCheck(true, "", Some(d))
    ensures DateValid(PyStr(FormatBr(d))) == DateCheck(true, "", Some(d))
  {
    ParseIsoRoundTrip(d);
    ParseBrRoundTrip(d);
    BrTextIsNotIso(d);
  }

  /** `int(text)` for text: optional surrounding whitespace, an optional sign, then decimal digits. */
  function ParseInt(s: string): (r: Option<int>)
  {
    ParseSigned(Text.Strip(s))
  }

  /** The stripped text: an optional sign, then one or more decimal digits. */
  function ParseSigned(t: string): (r: Option<int>)
  {
    if |t| > 0 && (t[0] == '-' || t[0] == '+') && |t| > 1 && AllDigits(t[1..]) then
      var magnitude: int := Text.DigitsValue(t[1..]);
      Some(if t[0] == '-' then -magnitude else magnitude)
    else if |t| > 0 && AllDigits(t) then Some(Text.DigitsValue(t))
    else None
  }

  lemma NoSpaceStrip(s: string)
    requires forall i :: 0 <= i < |s| ==> !Text.IsSpace(s[i])
    ensures Text.Strip(s) == s
  {
  }

  /** Digits hold no space, so stripping keeps them whole. */
  lemma DigitsStrip(t: string)
    requires AllDigits(t)
    ensures Text.Strip(t) == t
  {
    forall i | 0 <= i < |t|
      ensures !Text.IsSpace(t[i])
    {
      assert Text.IsDigit(t[i]);
    }
    NoSpaceStrip(t);
  }

  /** Nor does a minus sign before digits. */
  lemma NegativeStrip(t: string)
    requires AllDigits(t)
    ensures Text.Strip("-" + t) == "-" + t
  {
    var s := "-" + t;
    forall i | 0 <= i < |s|
      ensures !Text.IsSpace(s[i])
    {
      if i > 0 {
        assert s[i] == t[i - 1] && Text.IsDigit(t[i - 1]);
      }
    }
    NoSpaceStrip(s);
  }

  /** Unsigned digits read as their value. */
  lemma ParseDigits(t: string)
    requires |t| > 0 && AllDigits(t)
    ensures ParseSigned(t) == Some(Text.DigitsValue(t))
  {
    assert Text.IsDigit(t[0]);
  }

  /** A minus sign before digits negates their value. */
  lemma ParseNegative(t: string)
    requires |t| > 0 && AllDigits(t)
    ensures ParseSigned("-" + t) == Some(-(Text.DigitsValue(t) as int))
  {
    assert ("-" + t)[1..] == t;
  }

  /** `str(n)` for a non-negative `n` reads back as `n`. */
  lemma NatRoundTrip(n: int)
    requires n >= 0
    ensures ParseInt(Text.IntToString(n)) == Some(n)
  {
    var digits := Text.NatToString(n);
    calc {
      ParseInt(Text.IntToString(n));
      ParseSigned(Text.Strip(digits));
      { DigitsStrip(digits); }
      ParseSigned(digits);
      { Text.NatToStringRoundTrip(n); ParseDigits(digits); }
      Some(n);
    }
  }

  /** `str(n)` for a negative `n` reads back as `n`. */
  lemma NegativeRoundTrip(n: int)
    requires n < 0
    ensures ParseInt(Text.IntToString(n)) == Some(n)
  {
    var digits := Text.NatToString(-n);
    calc {
      ParseInt(Text.IntToString(n));
      ParseSigned(Text.Strip("-" + digits));
      { NegativeStrip(digits); }
      ParseSigned("-" + digits);
      { Text.NatToStringRoundTrip(-n); ParseNegative(digits); }
      Some(n);
    }
  }

  /** `str(n)` reads back as `n`. */
  lemma ParseIntRoundTrip(n: int)
    ensures ParseInt(Text.IntToString(n)) == Some(n)
  {
    if n < 0 {
      NegativeRoundTrip(n);
    } else {
      NatRoundTrip(n);
    }
  }

  datatype IntCheck = IntCheck(valido: bool, mensagem: string, valor: Option<int>)

  /** `int(x)` of a finite float: the integer part, cut toward zero. */
  function Truncate(x: real): (n: int)
    ensures x >= 0.0 ==> 0 <= n && n as real <= x < n as real + 1.0
    ensures x < 0.0 ==> n <= 0 && n as real - 1.0 < x <= n as real
  {
    if x >= 0.0 then x.Floor else -((-x).Floor)
  }

  /**
   * `int(valor)`, or None where it raises ValueError or TypeError: a bool
   * is 0 or 1, a float loses its fraction, text is read as a decimal.
   */
  function IntOf(v: PyValue): (r: Option<int>)
    ensures v.PyInt? ==> r == Some(v.i)
    ensures v.PyBool? ==> r == Some(if v.b then 1 else 0)
    ensures v.PyFloat? ==> r.Some? && r.value == Truncate(v.x)
    ensures v.PyStr? ==> r == ParseInt(v.s)
    ensures v.PyNone? || v.PyDate? || v.PyOther? ==> r.None?
  {
    match v
    case PyInt(i) => Some(i)
    case PyBool(b) => Some(if b then 1 else 0)
    case PyFloat(x) => Some(Truncate(x))
    case PyStr(s) => ParseInt(s)
    case _ => None
  }

  /** `n` respects the bounds that are given. */
  predicate InBounds(n: int, minimo: Option<int>, maximo: Option<int>)
  {
    (minimo.None? || n >= minimo.value) && (maximo.None? || n <= maximo.value)
  }

  /** `validacoes.validar_numero_inteiro(valor, minimo, maximo)`; an absent bound is not checked. */
  function IntegerValid(v: PyValue, minimo: Option<int>, maximo: Option<int>): (r: IntCheck)
    ensures r.valido <==> r.valor.Some?
    ensures r.valido <==> IntOf(v).Some? && InBounds(IntOf(v).value, minimo, maximo)
    ensures r.valido ==> r.valor == IntOf(v) && r.mensagem == ""
    ensures v.PyInt? ==> (r.valido <==> InBounds(v.i, minimo, maximo))
    ensures v.PyFloat? ==> (r.valido <==> InBounds(Truncate(v.x), minimo, maximo))
    ensures IntOf(v).None? ==> r == IntCheck(false, "Valor deve ser um número inteiro", None)
    ensures IntOf(v).Some? && minimo.Some? && IntOf(v).value < minimo.value ==>
      r == IntCheck(false, "Valor deve ser maior ou igual a " + Text.IntToString(minimo.value), None)
  {
    var parsed := IntOf(v);
    if parsed.None? then IntCheck(false, "Valor deve ser um número inteiro", None)
    else if minimo.Some? && parsed.value < minimo.value then
      IntCheck(false, "Valor deve ser maior ou igual a " + Text.IntToString(minimo.value), None)
    else if maximo.Some? && parsed.value > maximo.value then
      IntCheck(false, "Valor deve ser menor ou igual a " + Text.IntToString(maximo.value), None)
    else IntCheck(true, "", parsed)
  }

  /** A float is judged by its integer part, and a bool as 0 or 1. */
  lemma IntegerValidConversions()
    ensures IntegerValid(PyFloat(3.7), Some(1), Some(3)) == IntCheck(true, "", Some(3))
    ensures IntegerValid(PyFloat(-0.5), Some(0), None) == IntCheck(true, "", Some(0))
    ensures IntegerValid(PyFloat(-1.5), Some(0), None).valido == false
    ensures IntegerValid(PyBool(true), Some(1), Some(1)) == IntCheck(true, "", Some(1))
  {
    assert Truncate(3.7) == 3;
    assert Truncate(-0.5) == 0;
    assert Truncate(-1.5) == -1;
  }

  /** A number given as text validates exactly as the number itself does. */
  lemma IntegerTextAgrees(n: int, minimo: Option<int>, maximo: Option<int>)
    ensures IntegerValid(PyStr(Text.IntToString(n)), minimo, maximo) == IntegerValid(PyInt(n), minimo, maximo)
  {
    ParseIntRoundTrip(n);
  }

  /** `validacoes.validar_texto_obrigatorio(texto, nome_campo)`. */
  function RequiredText(texto: string, campo: string): (r: (bool, string))
    ensures r.0 <==> Text.Strip(texto) != []
    ensures !r.0 ==> r.1 == campo + " é obrigatório"
  {
    Text.StripEmptyIffBlank(texto);
    if texto == [] || Text.IsBlank(texto) then (false, campo + " é obrigatório") else (true, "")
  }

  /** `validacoes.validar_opcao_lista(valor, opcoes, nome_campo)`: the message lists the options. */
  function OptionValid(valor: string, opcoes: seq<string>, campo: string): (r: (bool, string))
    ensures r.0 <==> valor in opcoes
    ensures !r.0 ==> r.1 == campo + " deve ser uma das opções: " + Text.Join(opcoes, ", ")
  {
    if valor !in opcoes then (false, campo + " deve ser uma das opções: " + Text.Join(opcoes, ", ")) else (true, "")
  }
}
