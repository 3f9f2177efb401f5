/**
 * The "code standards" helpers: their own balance validator (with the
 * maximum of 12 this file hard-codes), the fluent SQL query builder, the
 * default-object factories and the period formatter.
 */
module CodeStandards {
  import opened Wrappers
  import Constantes
  import RegrasSaldo
  import Text
  import Validacao
  import Formatters

  // ---------------------------------------------------------------------------
  // Constantes and Validadores
  // ---------------------------------------------------------------------------

  const SaldoMinimo := 0
  const SaldoMaximo := 12
  const DiasFeriasPadrao := 12

  datatype ValidationResult = ValidationResult(valido: bool, mensagem: string)

  /** `Validadores.validar_saldo(saldo)`: below 0 and above 12 are refused, the lower bound tested first. */
  function ValidateBalance(saldo: int): (r: ValidationResult)
    ensures r.valido <==> SaldoMinimo <= saldo <= SaldoMaximo
    ensures saldo < SaldoMinimo ==> Text.Contains(r.mensagem, "menor que")
    ensures saldo > SaldoMaximo ==> Text.Contains(r.mensagem, "maior que")
  {
    var menor := "Saldo não pode ser ";
    if saldo < SaldoMinimo then
      var tail := "menor que " + Text.IntToString(SaldoMinimo);
      assert Text.OccursAt(menor + tail, "menor que", |menor|);
      ValidationResult(false, menor + tail)
    else if saldo > SaldoMaximo then
      var tail := "maior que " + Text.IntToString(SaldoMaximo);
      assert Text.OccursAt(menor + tail, "maior que", |menor|);
      ValidationResult(false, menor + tail)
    else ValidationResult(true, "Saldo válido")
  }

  /**
   * This validator accepts a subset of what the balance rules accept: the
   * two agree up to 12 days, and 13 to 30 days pass the rules but not
   * this validator.
   */
  lemma ValidatorsDisagreeAboveTwelve(saldo: int)
    ensures ValidateBalance(saldo).valido ==> RegrasSaldo.CheckLimits(saldo, Constantes.SourceLimits).valido
    ensures 12 < saldo <= 30 ==> RegrasSaldo.CheckLimits(saldo, Constantes.SourceLimits).valido && !ValidateBalance(saldo).valido
    ensures ValidateBalance(saldo).valido == RegrasSaldo.CheckLimits(saldo, Constantes.TestedLimits).valido
  {
  }

  /** `Validadores.validar_senha(senha)`: the same length rule as the validators module, with its own wording. */
  function ValidatePassword(senha: string): (r: ValidationResult)
    ensures r.valido == Validacao.PasswordValid(senha).0
  {
    if |senha| < 6 then ValidationResult(false, "Senha deve ter pelo menos 6 caracteres")
    else ValidationResult(true, "Senha válida")
  }

  // ---------------------------------------------------------------------------
  // QueryBuilder
  // ---------------------------------------------------------------------------

  /** The state of a `QueryBuilder`; `limitValue` is `None` until `limit` is called. */
  datatype QueryBuilder = QueryBuilder(selectFields: seq<string>, fromTable: string, joins: seq<string>,
                                       whereConditions: seq<string>, orderBy: seq<string>, limitValue: Option<int>)

  const NewBuilder := QueryBuilder([], "", [], [], [], None)

  function SelectFields(b: QueryBuilder, fields: seq<string>): (r: QueryBuilder)
    ensures r.selectFields == b.selectFields + fields && r.(selectFields := b.selectFields) == b
  {
    b.(selectFields := b.selectFields + fields)
  }

  function JoinTable(b: QueryBuilder, table: string, condition: string): (r: QueryBuilder)
    ensures r.joins == b.joins + ["JOIN " + table + " ON " + condition] && r.(joins := b.joins) == b
  {
    b.(joins := b.joins + ["JOIN " + table + " ON " + condition])
  }

  function Where(b: QueryBuilder, condition: string): (r: QueryBuilder)
    ensures r.whereConditions == b.whereConditions + [condition] && r.(whereConditions := b.whereConditions) == b
  {
    b.(whereConditions := b.whereConditions + [condition])
  }

  function OrderByField(b: QueryBuilder, field: string, direction: string): (r: QueryBuilder)
    ensures r.orderBy == b.orderBy + [field + " " + direction] && r.(orderBy := b.orderBy) == b
  {
    b.(orderBy := b.orderBy + [field + " " + direction])
  }

  function Limit(b: QueryBuilder, count: int): (r: QueryBuilder)
    ensures r.limitValue == Some(count) && r.(limitValue := b.limitValue) == b
  {
    b.(limitValue := Some(count))
  }

  /**
   * `builder.from_table(table)`: the constructor assigns the attribute
   * `from_table`, which hides the method of that name on every instance,
   * so the call is a call of a string and raises `TypeError`.
   */
  function FromTable(b: QueryBuilder, table: string): (r: Result<QueryBuilder, string>)
    ensures r.Failure?
  {
    Failure("TypeError: 'str' object is not callable")
  }

  /** The WHERE clause, if any conditions were added: the conditions joined by " AND ". */
  function WherePart(b: QueryBuilder): (r: seq<string>)
    ensures |r| <= 1
    ensures r == [] <==> b.whereConditions == []
  {
    if b.whereConditions == [] then [] else ["WHERE " + Text.Join(b.whereConditions, " AND ")]
  }

  /** The LIMIT clause: present only for a truthy limit (neither `None` nor 0). */
  function LimitPart(b: QueryBuilder): (r: seq<string>)
    ensures |r| <= 1
    ensures r == [] <==> b.limitValue.None? || b.limitValue.value == 0
  {
    if b.limitValue.Some? && b.limitValue.value != 0 then ["LIMIT " + Text.IntToString(b.limitValue.value)] else []
  }

  /** The SELECT clause: every column when no field was chosen. */
  function SelectClause(b: QueryBuilder): string
  {
    if b.selectFields == [] then "SELECT *" else "SELECT " + Text.Join(b.selectFields, ", ")
  }

  /** The FROM clause, if a table was named. */
  function FromPart(b: QueryBuilder): seq<string>
  {
    if b.fromTable != "" then ["FROM " + b.fromTable] else []
  }

  /** The ORDER BY clause, if any ordering was added: the orderings joined by ", ". */
  function OrderPart(b: QueryBuilder): (r: seq<string>)
    ensures |r| <= 1
    ensures r == [] <==> b.orderBy == []
  {
    if b.orderBy == [] then [] else ["ORDER BY " + Text.Join(b.orderBy, ", ")]
  }

  /** The clauses `build` emits before the LIMIT clause, in order. */
  function Clauses(b: QueryBuilder): (r: seq<string>)
    ensures |r| >= 1 && r[0] == SelectClause(b)
  {
    [SelectClause(b)] + FromPart(b) + b.joins + WherePart(b) + OrderPart(b)
  }

  /** Every clause `build` emits, in order. */
  function Parts(b: QueryBuilder): seq<string>
  {
    Clauses(b) + LimitPart(b)
  }

  /** `build()`: the clauses joined by single spaces. */
  function Build(b: QueryBuilder): string
  {
    Text.Join(Parts(b), " ")
  }

  /**
   * A built query starts with its SELECT clause and, when a limit is set,
   * ends with a space and its LIMIT clause.
   */
  lemma BuildShape(b: QueryBuilder)
    ensures var r := Build(b);
      |SelectClause(b)| <= |r| && r[..|SelectClause(b)|] == SelectClause(b)
    ensures var r := Build(b);
      LimitPart(b) != [] ==> |LimitPart(b)[0]| + 1 <= |r| && r[|r| - |LimitPart(b)[0]| - 1..] == " " + LimitPart(b)[0]
  {
    Text.JoinPrefix(Parts(b), " ");
    if LimitPart(b) != [] {
      var t := LimitPart(b)[0];
      JoinSnoc(Clauses(b), t, " ");
      assert Parts(b) == Clauses(b) + [t];
      EndsWith(Text.Join(Clauses(b), " "), " ", t);
    }
  }

  lemma EndsWith(a: string, s: string, t: string)
    ensures |s + t| <= |a + s + t| && (a + s + t)[|a + s + t| - |t| - |s|..] == s + t
  {
    assert a + s + t == a + (s + t);
  }

  /** The position of the WHERE clause: after SELECT, FROM and the joins. */
  function WhereIndex(b: QueryBuilder): nat
  {
    1 + |FromPart(b)| + |b.joins|
  }

  /** The parts of a query, split at the WHERE clause. */
  lemma PartsSplit(b: QueryBuilder)
    ensures WhereIndex(b) == |[SelectClause(b)] + FromPart(b) + b.joins|
    ensures Parts(b) == ([SelectClause(b)] + FromPart(b) + b.joins) + (WherePart(b) + OrderPart(b) + LimitPart(b))
  {
  }

  /** Adding to the end of a joined list adds the separator and the new part. */
  lemma JoinSnoc(parts: seq<string>, p: string, sep: string)
    requires parts != []
    ensures Text.Join(parts + [p], sep) == Text.Join(parts, sep) + sep + p
  {
    assert (parts + [p])[..|parts|] == parts;
  }

  /** A builder with no fields selected reads every column. */
  lemma EmptySelectIsStar(b: QueryBuilder)
    requires b.selectFields == []
    ensures |Build(b)| >= 8 && Build(b)[..8] == "SELECT *"
  {
    var ps := Parts(b);
    Text.JoinPrefix(ps, " ");
  }

  lemma Regroup(a: string, b: string, c: string, d: string)
    ensures a + b + (c + d) == a + (b + c) + d
  {
  }

  /** The clauses before LIMIT do not depend on the limit. */
  lemma ClausesIgnoreLimit(b: QueryBuilder, l: Option<int>)
    ensures Clauses(b.(limitValue := l)) == Clauses(b)
  {
    var c := b.(limitValue := l);
    assert c.selectFields == b.selectFields && c.fromTable == b.fromTable && c.joins == b.joins;
    assert c.whereConditions == b.whereConditions && c.orderBy == b.orderBy;
  }

  /** With a limit of 0 the query is built as with no limit. */
  lemma LimitZeroIgnored(b: QueryBuilder)
    ensures Build(Limit(b, 0)) == Build(b.(limitValue := None))
  {
    var b0 := b.(limitValue := None);
    ClausesIgnoreLimit(b, None);
    ClausesIgnoreLimit(b, Some(0));
    assert Parts(b0) == Clauses(b0) + [];
    assert Parts(Limit(b, 0)) == Clauses(Limit(b, 0)) + [];
    assert Parts(Limit(b, 0)) == Parts(b0);
  }

  /** With a non-zero limit the LIMIT clause is the last part of the query. */
  lemma LimitIsLastPart(b: QueryBuilder, n: int)
    requires n != 0
    ensures Build(Limit(b, n)) == Build(b.(limitValue := None)) + " " + ("LIMIT " + Text.IntToString(n))
  {
    var b0 := b.(limitValue := None);
    var tail := "LIMIT " + Text.IntToString(n);
    ClausesIgnoreLimit(b, None);
    ClausesIgnoreLimit(b, Some(n));
    var c := Clauses(b0);
    assert Parts(b0) == c by {
      assert LimitPart(b0) == [];
      assert c + [] == c;
    }
    assert Parts(Limit(b, n)) == c + [tail];
    calc {
      Build(Limit(b, n));
      Text.Join(c + [tail], " ");
      { JoinSnoc(c, tail, " "); }
      Text.Join(c, " ") + " " + tail;
      Build(b0) + " " + tail;
    }
  }

  /** A limit of 0 is no limit, and any other limit appends " LIMIT n" to the query without one. */
  lemma LimitAppends(b: QueryBuilder, n: int)
    ensures Build(Limit(b, 0)) == Build(b.(limitValue := None))
    ensures n != 0 ==> Build(Limit(b, n)) == Build(b.(limitValue := None)) + " LIMIT " + Text.IntToString(n)
  {
    LimitZeroIgnored(b);
    if n != 0 {
      LimitIsLastPart(b, n);
      Regroup(Build(b.(limitValue := None)), " ", "LIMIT ", Text.IntToString(n));
      assert " " + "LIMIT " == " LIMIT ";
    }
  }

  /**
   * A further condition is conjoined to the existing WHERE clause with
   * " AND ", or opens it; every other clause stays where it was.
   */
  lemma WhereConjoins(b: QueryBuilder, c: string)
    ensures b.whereConditions == [] ==> WherePart(Where(b, c)) == ["WHERE " + c]
    ensures b.whereConditions != [] ==> WherePart(Where(b, c)) == [WherePart(b)[0] + " AND " + c]
    ensures var k := WhereIndex(b);
      k + |WherePart(b)| <= |Parts(b)| &&
      Parts(Where(b, c)) == Parts(b)[..k] + WherePart(Where(b, c)) + Parts(b)[k + |WherePart(b)|..]
  {
    WherePartGrows(b, c);
    WhereInPlace(b, c);
  }

  lemma WherePartGrows(b: QueryBuilder, c: string)
    ensures b.whereConditions == [] ==> WherePart(Where(b, c)) == ["WHERE " + c]
    ensures b.whereConditions != [] ==> WherePart(Where(b, c)) == [WherePart(b)[0] + " AND " + c]
  {
    if b.whereConditions != [] {
      var j := Text.Join(b.whereConditions, " AND ");
      JoinSnoc(b.whereConditions, c, " AND ");
      assert "WHERE " + (j + " AND " + c) == ("WHERE " + j) + " AND " + c;
    }
  }

  lemma WhereInPlace(b: QueryBuilder, c: string)
    ensures var k := WhereIndex(b);
      k + |WherePart(b)| <= |Parts(b)| &&
      Parts(Where(b, c)) == Parts(b)[..k] + WherePart(Where(b, c)) + Parts(b)[k + |WherePart(b)|..]
  {
    var b' := Where(b, c);
    PartsSplit(b);
    PartsSplit(b');
    var h := [SelectClause(b)] + FromPart(b) + b.joins;
    assert [SelectClause(b')] + FromPart(b') + b'.joins == h;
    var rest := OrderPart(b) + LimitPart(b);
    assert OrderPart(b') + LimitPart(b') == rest;
    Replace(h, WherePart(b), WherePart(b'), rest);
  }

  /** Replacing the middle of three pieces, seen through slices of the whole. */
  lemma Replace(h: seq<string>, m: seq<string>, m': seq<string>, t: seq<string>)
    ensures h + (m' + t) == (h + (m + t))[..|h|] + m' + (h + (m + t))[|h| + |m|..]
  {
    var w := h + (m + t);
    assert w[..|h|] == h;
    assert w[|h| + |m|..] == t;
  }

  /**
   * Selected fields accumulate: once any field is chosen, the query starts
   * with "SELECT " and all chosen fields in order, separated by ", ", and
   * the clauses after it are unchanged.
   */
  lemma SelectFieldsLeadsQuery(b: QueryBuilder, fields: seq<string>)
    requires b.selectFields + fields != []
    ensures var s := "SELECT " + Text.Join(b.selectFields + fields, ", ");
      |s| <= |Build(SelectFields(b, fields))| && Build(SelectFields(b, fields))[..|s|] == s
    ensures Parts(SelectFields(b, fields))[1..] == Parts(b)[1..]
  {
    var b' := SelectFields(b, fields);
    BuildShape(b');
    PartsSplit(b);
    PartsSplit(b');
    var w := WherePart(b) + OrderPart(b) + LimitPart(b);
    assert WherePart(b') + OrderPart(b') + LimitPart(b') == w;
    ConsAssoc(SelectClause(b), FromPart(b), b.joins, w);
    ConsAssoc(SelectClause(b'), FromPart(b), b.joins, w);
  }

  lemma ConsAssoc(x: string, f: seq<string>, j: seq<string>, w: seq<string>)
    ensures (([x] + f + j) + w)[1..] == f + j + w
  {
    assert ([x] + f + j) + w == [x] + (f + j + w);
  }

  /**
   * A join is placed after FROM and the earlier joins, before WHERE,
   * ORDER BY and LIMIT; every other clause stays as it was.
   */
  lemma JoinTablePlacesClause(b: QueryBuilder, table: string, condition: string)
    ensures var k := WhereIndex(b);
      k <= |Parts(b)| &&
      Parts(JoinTable(b, table, condition)) == Parts(b)[..k] + ["JOIN " + table + " ON " + condition] + Parts(b)[k..]
  {
    var b' := JoinTable(b, table, condition);
    PartsSplit(b);
    PartsSplit(b');
    var h := [SelectClause(b)] + FromPart(b) + b.joins;
    var t := WherePart(b) + OrderPart(b) + LimitPart(b);
    var j := "JOIN " + table + " ON " + condition;
    assert [SelectClause(b')] + FromPart(b') + b'.joins == h + [j];
    assert WherePart(b') + OrderPart(b') + LimitPart(b') == t;
    Replace(h, [], [j], t);
  }

  /**
   * A further ordering extends the ORDER BY clause, which comes after
   * WHERE and before LIMIT; every other clause stays as it was.
   */
  lemma OrderByPlacesClause(b: QueryBuilder, field: string, direction: string)
    ensures var k := WhereIndex(b) + |WherePart(b)|;
      k <= |Parts(b)| &&
      Parts(OrderByField(b, field, direction))
        == Parts(b)[..k] + ["ORDER BY " + Text.Join(b.orderBy + [field + " " + direction], ", ")] + LimitPart(b)
  {
    var b' := OrderByField(b, field, direction);
    PartsSplit(b);
    PartsSplit(b');
    var h := [SelectClause(b)] + FromPart(b) + b.joins + WherePart(b);
    assert [SelectClause(b')] + FromPart(b') + b'.joins + WherePart(b') == h;
    assert Parts(b) == h + (OrderPart(b) + LimitPart(b));
    assert Parts(b') == h + (OrderPart(b') + LimitPart(b'));
    Replace(h, OrderPart(b), [], OrderPart(b) + LimitPart(b));
  }

  // ---------------------------------------------------------------------------
  // Factories
  // ---------------------------------------------------------------------------

  /** The `Usuario` record of this file (dates left out). */
  datatype Usuario = Usuario(id: int, nome: string, email: string, setor: string, funcao: string,
                             nivelAcesso: Constantes.Level, saldoFerias: int)

  /**
   * `UsuarioFactory.criar_usuario_padrao(nome, email, setor, funcao)`: the
   * master level exactly when the role contains "RH" (case-sensitively),
   * the default balance, and id 0 for the database to replace.
   */
  function CreateDefaultUser(nome: string, email: string, setor: string, funcao: string): (r: Usuario)
    ensures r.nivelAcesso == Constantes.Master <==> Text.Contains(funcao, "RH")
    ensures r.nivelAcesso in {Constantes.Master, Constantes.Colaborador}
    ensures r.id == 0 && r.saldoFerias == DiasFeriasPadrao
    ensures r.nome == nome && r.email == email && r.setor == setor && r.funcao == funcao
  {
    var nivel := if Text.Contains(funcao, "RH") then Constantes.Master else Constantes.Colaborador;
    Usuario(0, nome, email, setor, funcao, nivel, DiasFeriasPadrao)
  }

  /** The default balance passes this file's validator and the balance rules. */
  lemma DefaultUserBalanceValid(nome: string, email: string, setor: string, funcao: string)
    ensures ValidateBalance(CreateDefaultUser(nome, email, setor, funcao).saldoFerias).valido
    ensures RegrasSaldo.CheckLimits(CreateDefaultUser(nome, email, setor, funcao).saldoFerias, Constantes.SourceLimits).valido
  {
  }

  /** The role test is case-sensitive: "rh" in lower case does not make a master. */
  lemma LowerCaseRhIsNotMaster()
    ensures CreateDefaultUser("Ana", "a@b", "TI", "Analista RH").nivelAcesso == Constantes.Master
    ensures CreateDefaultUser("Ana", "a@b", "TI", "rh").nivelAcesso == Constantes.Colaborador
  {
    assert Text.OccursAt("Analista RH", "RH", 9);
    assert "rh"[0] != "RH"[0];
    assert !Text.OccursAt("rh", "RH", 0);
  }

  /** The `Ferias` record of this file. */
  datatype Ferias = Ferias(id: int, usuarioId: int, dataInicio: string, dataFim: string, diasUtilizados: int,
                           status: Constantes.Status)

  /** `FeriasFactory.criar_ferias_padrao(usuario_id, data_inicio, data_fim, dias)`: always pending, id 0. */
  function CreateDefaultLeave(usuarioId: int, inicio: string, fim: string, dias: int): (r: Ferias)
    ensures r.status == Constantes.Pendente && r.id == 0
    ensures r.usuarioId == usuarioId && r.dataInicio == inicio && r.dataFim == fim && r.diasUtilizados == dias
  {
    Ferias(0, usuarioId, inicio, fim, dias, Constantes.Pendente)
  }

  /** A default leave is stored with the label "Pendente", which reads back as pending. */
  lemma DefaultLeaveIsPending(usuarioId: int, inicio: string, fim: string, dias: int)
    ensures var f := CreateDefaultLeave(usuarioId, inicio, fim, dias);
      Constantes.ParseStatus(Constantes.StatusLabel(f.status)) == Some(Constantes.Pendente)
  {
    Constantes.StatusRoundTrip(Constantes.Pendente);
  }

  // ---------------------------------------------------------------------------
  // Formatadores
  // ---------------------------------------------------------------------------

  /**
   * `Formatadores.formatar_periodo_ferias(data_inicio, data_fim)`: both
   * ends formatted as the date formatter formats a text, joined by " a ".
   */
  function FormatPeriod(inicio: string, fim: string): (r: string)
    ensures var a := Formatters.FormatDate(Formatters.ShownText(inicio));
      |a| + 3 <= |r| && r[..|a|] == a && r[|a|..|a| + 3] == " a "
      && r[|a| + 3..] == Formatters.FormatDate(Formatters.ShownText(fim))
  {
    Formatters.FormatDate(Formatters.ShownText(inicio)) + " a " + Formatters.FormatDate(Formatters.ShownText(fim))
  }
}
