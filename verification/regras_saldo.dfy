/**
 * The balance rules: the allowed range, the theoretical balance implied by
 * the approved requests, the one-day tolerance for inconsistencies, the
 * projection over pending requests, and the add/subtract/set operations.
 */
module RegrasSaldo {
  import opened Constantes
  import opened Wrappers
  import Text

  /** A value brought into [minimum, maximum], testing the minimum first. */
  function Clamp(s: int, lim: Limits): (r: int)
    ensures lim.saldoMinimo <= lim.saldoMaximo ==> lim.saldoMinimo <= r <= lim.saldoMaximo
    ensures lim.saldoMinimo <= s <= lim.saldoMaximo ==> r == s
    ensures s < lim.saldoMinimo ==> r == lim.saldoMinimo
    ensures s >= lim.saldoMinimo && s > lim.saldoMaximo ==> r == lim.saldoMaximo
  {
    if s < lim.saldoMinimo then lim.saldoMinimo
    else if s > lim.saldoMaximo then lim.saldoMaximo
    else s
  }

  lemma ClampIdempotent(s: int, lim: Limits)
    requires lim.WellFormed()
    ensures Clamp(Clamp(s, lim), lim) == Clamp(s, lim)
  {
  }

  datatype LimitCheck = LimitCheck(valido: bool, motivo: Option<string>, saldoCorrigido: int, mensagem: string)

  /** `validar_saldo_dentro_limites(saldo)`. */
  function CheckLimits(saldo: int, lim: Limits): (r: LimitCheck)
    ensures r.valido <==> lim.saldoMinimo <= saldo <= lim.saldoMaximo
    ensures r.saldoCorrigido == Clamp(saldo, lim)
    ensures r.motivo.None? <==> r.valido
    ensures saldo < lim.saldoMinimo ==> r.motivo == Some("saldo_abaixo_minimo")
    ensures lim.saldoMinimo <= saldo && saldo > lim.saldoMaximo ==> r.motivo == Some("saldo_acima_maximo")
  {
    if saldo < lim.saldoMinimo then
      LimitCheck(false, Some("saldo_abaixo_minimo"), lim.saldoMinimo,
        "Saldo abaixo do mínimo (" + Text.IntToString(lim.saldoMinimo) + ")")
    else if saldo > lim.saldoMaximo then
      LimitCheck(false, Some("saldo_acima_maximo"), lim.saldoMaximo,
        "Saldo acima do máximo (" + Text.IntToString(lim.saldoMaximo) + ")")
    else
      LimitCheck(true, None, saldo, "Saldo dentro dos limites")
  }

  /** The corrected value always passes the check, and correcting it again changes nothing. */
  lemma CorrectedBalanceIsValid(saldo: int, lim: Limits)
    requires lim.WellFormed()
    ensures CheckLimits(CheckLimits(saldo, lim).saldoCorrigido, lim).valido
    ensures CheckLimits(CheckLimits(saldo, lim).saldoCorrigido, lim).saldoCorrigido == CheckLimits(saldo, lim).saldoCorrigido
  {
    ClampIdempotent(saldo, lim);
  }

  /** A balance of 15 is within the maximum of 30 and outside the maximum of 12 the tests expect. */
  lemma LimitsConflict()
    ensures CheckLimits(15, SourceLimits).valido
    ensures !CheckLimits(15, TestedLimits).valido && CheckLimits(15, TestedLimits).saldoCorrigido == 12
    ensures !CheckLimits(-1, SourceLimits).valido && CheckLimits(-1, SourceLimits).saldoCorrigido == 0
  {
  }

  /** `ferias.get("dias_utilizados", 0)`: a request without the field counts as zero days. */
  function DaysOf(f: Option<int>): int
  {
    if f.Some? then f.value else 0
  }

  /** Σ of the days of the requests, folded from the last one. */
  function SumDays(ferias: seq<Option<int>>): int
  {
    if |ferias| == 0 then 0 else SumDays(ferias[..|ferias| - 1]) + DaysOf(ferias[|ferias| - 1])
  }

  lemma SumDaysSnoc(ferias: seq<Option<int>>, f: Option<int>)
    ensures SumDays(ferias + [f]) == SumDays(ferias) + DaysOf(f)
  {
    assert (ferias + [f])[..|ferias|] == ferias;
  }

  /** `calcular_saldo_teorico(ferias_aprovadas)`: the default balance minus the days used, never below the minimum. */
  function TheoreticalBalance(ferias: seq<Option<int>>, lim: Limits): (r: int)
    ensures r >= lim.saldoMinimo
    ensures r >= lim.saldoPadrao - SumDays(ferias)
    ensures lim.saldoPadrao - SumDays(ferias) >= lim.saldoMinimo ==> r == lim.saldoPadrao - SumDays(ferias)
  {
    var teorico := lim.saldoPadrao - SumDays(ferias);
    if lim.saldoMinimo > teorico then lim.saldoMinimo else teorico
  }

  /** One more approved request never raises the theoretical balance. */
  lemma TheoreticalBalanceAntitone(ferias: seq<Option<int>>, f: Option<int>, lim: Limits)
    requires DaysOf(f) >= 0
    ensures TheoreticalBalance(ferias + [f], lim) <= TheoreticalBalance(ferias, lim)
  {
    SumDaysSnoc(ferias, f);
  }

  /** Requests of 5 and 3 days leave 4 of the default 12; a request without the field counts zero. */
  lemma TheoreticalBalanceExample()
    ensures TheoreticalBalance([Some(5), Some(3)], SourceLimits) == 4
    ensures TheoreticalBalance([Some(5), None, Some(3)], SourceLimits) == 4
    ensures TheoreticalBalance([Some(20)], SourceLimits) == 0
  {
    SumDaysSnoc([], Some(5));
    assert [] + [Some(5)] == [Some(5)];
    SumDaysSnoc([Some(5)], Some(3));
    assert [Some(5)] + [Some(3)] == [Some(5), Some(3)];
    SumDaysSnoc([Some(5)], None);
    assert [Some(5)] + [None] == [Some(5), None];
    SumDaysSnoc([Some(5), None], Some(3));
    assert [Some(5), None] + [Some(3)] == [Some(5), None, Some(3)];
    SumDaysSnoc([], Some(20));
    assert [] + [Some(20)] == [Some(20)];
  }

  datatype Inconsistency = Inconsistency(inconsistente: bool, saldoAtual: int, saldoTeorico: int, diferenca: nat,
                                         sugestaoCorrecao: Option<int>, motivo: Option<string>)

  function Abs(x: int): nat { if x < 0 then -x else x }

  /** `detectar_inconsistencia_saldo(saldo_atual, ferias_aprovadas)` with its tolerance of one day. */
  function DetectInconsistency(atual: int, ferias: seq<Option<int>>, lim: Limits): (r: Inconsistency)
    ensures r.saldoAtual == atual && r.saldoTeorico == TheoreticalBalance(ferias, lim)
    ensures r.diferenca == Abs(atual - r.saldoTeorico)
    ensures r.inconsistente <==> r.diferenca > 1
    ensures r.sugestaoCorrecao == (if r.inconsistente then Some(r.saldoTeorico) else None)
    ensures r.motivo.Some? <==> r.inconsistente
  {
    var teorico := TheoreticalBalance(ferias, lim);
    var diferenca := Abs(atual - teorico);
    if diferenca <= 1 then
      Inconsistency(false, atual, teorico, diferenca, None, None)
    else
      Inconsistency(true, atual, teorico, diferenca, Some(teorico),
        Some("Diferença significativa entre saldo e férias aprovadas"))
  }

  /** Applying the suggested correction yields a consistent balance. */
  lemma CorrectionIsConsistent(atual: int, ferias: seq<Option<int>>, lim: Limits)
    ensures var r := DetectInconsistency(atual, ferias, lim);
      r.inconsistente ==> !DetectInconsistency(r.sugestaoCorrecao.value, ferias, lim).inconsistente
  {
  }

  datatype PendingSummary = PendingSummary(saldoAtual: int, diasPendentes: int, saldoSeAprovadas: int,
                                           temPendencias: bool, saldoSuficiente: bool)

  /** `calcular_saldo_com_pendentes(saldo_atual, ferias_pendentes)`. */
  function WithPending(atual: int, pendentes: seq<Option<int>>, lim: Limits): (r: PendingSummary)
    ensures r.saldoAtual == atual && r.diasPendentes == SumDays(pendentes)
    ensures r.saldoSeAprovadas >= lim.saldoMinimo && r.saldoSeAprovadas >= atual - r.diasPendentes
    ensures atual - r.diasPendentes >= lim.saldoMinimo ==> r.saldoSeAprovadas == atual - r.diasPendentes
    ensures r.temPendencias <==> r.diasPendentes > 0
    ensures r.saldoSuficiente <==> atual >= r.diasPendentes
  {
    var pend := SumDays(pendentes);
    var projetado := if lim.saldoMinimo > atual - pend then lim.saldoMinimo else atual - pend;
    PendingSummary(atual, pend, projetado, pend > 0, atual >= pend)
  }

  /** With a minimum of zero, a sufficient balance is projected exactly, with nothing cut off. */
  lemma SufficientProjectionIsExact(atual: int, pendentes: seq<Option<int>>)
    ensures var r := WithPending(atual, pendentes, SourceLimits);
      r.saldoSuficiente ==> r.saldoSeAprovadas == atual - r.diasPendentes && r.saldoSeAprovadas >= 0
  {
  }

  datatype OperationResult =
    | InvalidOperation(motivo: string)
    | Refused(saldoAtual: int, saldoPretendido: int, motivo: string, saldoCorrigido: int)
    | Permitted(saldoAtual: int, novoSaldo: int, operacao: string, valor: int)
  {
    /** The balance the operation asked for, whether or not it was permitted. */
    function Pretended(): int
      requires !InvalidOperation?
    {
      if Refused? then saldoPretendido else novoSaldo
    }
  }

  /** The balance an operation asks for: `None` for an unknown operation name. */
  function Intended(atual: int, operacao: string, valor: int): (r: Option<int>)
    ensures r.Some? <==> operacao in {"adicionar", "subtrair", "definir"}
  {
    if operacao == "adicionar" then Some(atual + valor)
    else if operacao == "subtrair" then Some(atual - valor)
    else if operacao == "definir" then Some(valor)
    else None
  }

  /** `validar_operacao_saldo(saldo_atual, operacao, valor)`. */
  function BalanceOperation(atual: int, operacao: string, valor: int, lim: Limits): (r: OperationResult)
    ensures r.InvalidOperation? <==> operacao !in {"adicionar", "subtrair", "definir"}
    ensures operacao == "adicionar" && !r.InvalidOperation? ==> r.saldoAtual == atual && r.Pretended() == atual + valor
    ensures operacao == "subtrair" && !r.InvalidOperation? ==> r.saldoAtual == atual && r.Pretended() == atual - valor
    ensures operacao == "definir" && !r.InvalidOperation? ==> r.saldoAtual == atual && r.Pretended() == valor
    ensures !r.InvalidOperation? ==> (r.Permitted? <==> lim.saldoMinimo <= r.Pretended() <= lim.saldoMaximo)
    ensures r.Refused? ==> r.saldoCorrigido == Clamp(r.saldoPretendido, lim)
    ensures r.Permitted? ==> r.operacao == operacao && r.valor == valor
  {
    var pretendido := Intended(atual, operacao, valor);
    if pretendido.None? then
      InvalidOperation("Operação inválida: " + operacao)
    else
      var validacao := CheckLimits(pretendido.value, lim);
      if !validacao.valido then
        Refused(atual, pretendido.value, validacao.mensagem, validacao.saldoCorrigido)
      else
        Permitted(atual, pretendido.value, operacao, valor)
  }

  /** Adding and then subtracting the same amount, both permitted, returns to the start. */
  lemma AddThenSubtract(atual: int, valor: int, lim: Limits)
    requires lim.saldoMinimo <= atual <= lim.saldoMaximo
    ensures var add := BalanceOperation(atual, "adicionar", valor, lim);
      add.Permitted? ==> BalanceOperation(add.novoSaldo, "subtrair", valor, lim) == Permitted(atual + valor, atual, "subtrair", valor)
  {
  }

  /** 10 − 5 is permitted with 5 left; 10 − 15 is refused and corrected to 0. */
  lemma OperationExamples()
    ensures BalanceOperation(10, "subtrair", 5, SourceLimits) == Permitted(10, 5, "subtrair", 5)
    ensures BalanceOperation(10, "subtrair", 15, SourceLimits).Refused?
    ensures BalanceOperation(10, "subtrair", 15, SourceLimits).saldoCorrigido == 0
    ensures BalanceOperation(10, "multiplicar", 2, SourceLimits).InvalidOperation?
  {
  }
}
