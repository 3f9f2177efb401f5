/**
 * The leave rules: minimum notice (with the HR exemption), the length of a
 * period in calendar days, whether the balance covers a request, and the
 * effect of a status change on the balance. The thresholds come from a
 * `Limits` value because the repository holds two different sets of them.
 */
module RegrasFerias {
  import opened Calendar
  import opened Constantes
  import Calculos
  import Text

  /** The label the rules compare against, exactly and case-sensitively. */
  const ApprovedLabel := "Aprovada"

  /** The three labels an approved request may fall back to with a refund. */
  const RefundLabels: seq<string> := ["Pendente", "Cancelada", "Rejeitada"]

  datatype NoticeResult = NoticeResult(valida: bool, diasAntecedencia: int, ehRh: bool, mensagem: string)

  /** `validar_antecedencia(data_inicio, usuario_nivel)` with today passed in. */
  function NoticeCheck(inicio: Date, hoje: Date, nivel: string, lim: Limits): (r: NoticeResult)
    requires Valid(inicio) && Valid(hoje)
    ensures r.diasAntecedencia == Ordinal(inicio) - Ordinal(hoje)
    ensures r.ehRh <==> nivel == HrLevel
    ensures r.ehRh ==> r.valida
    ensures !r.ehRh ==> (r.valida <==> Ordinal(inicio) - Ordinal(hoje) >= lim.diasAntecedencia)
    ensures !r.ehRh ==> (r.mensagem == "" <==> r.valida)
  {
    var dias := DaysBetween(inicio, hoje);
    if nivel == HrLevel then
      NoticeResult(true, dias, true, "RH pode cadastrar sem antecedência mínima")
    else
      var valida := dias >= lim.diasAntecedencia;
      NoticeResult(valida, dias, false,
        if !valida then "Antecedência mínima: " + Text.IntToString(lim.diasAntecedencia) + " dias" else "")
  }

  /** A later start never turns an accepted notice into a refused one. */
  lemma NoticeLaterStart(inicio1: Date, inicio2: Date, hoje: Date, nivel: string, lim: Limits)
    requires Valid(inicio1) && Valid(inicio2) && Valid(hoje)
    requires !Less(inicio2, inicio1)
    ensures NoticeCheck(inicio1, hoje, nivel, lim).valida ==> NoticeCheck(inicio2, hoje, nivel, lim).valida
  {
    LessIsOrdinalOrder(inicio2, inicio1);
  }

  /** Ten days of notice pass the threshold of the constants module (7) and fail the one the tests expect (30). */
  lemma NoticeThresholdConflict(inicio: Date, hoje: Date)
    requires Valid(inicio) && Valid(hoje) && DaysBetween(inicio, hoje) == 10
    ensures NoticeCheck(inicio, hoje, "colaborador", SourceLimits).valida
    ensures !NoticeCheck(inicio, hoje, "colaborador", TestedLimits).valida
    ensures NoticeCheck(inicio, hoje, HrLevel, TestedLimits).valida
  {
  }

  datatype PeriodResult = PeriodRejected(mensagem: string) | PeriodAccepted(diasTotais: int)

  /** `validar_periodo(data_inicio, data_fim)`: inclusive calendar days, at most the maximum balance. */
  function PeriodCheck(inicio: Date, fim: Date, lim: Limits): (r: PeriodResult)
    requires Valid(inicio) && Valid(fim)
    ensures Less(fim, inicio) ==> r == PeriodRejected("Data de fim deve ser posterior à data de início")
    ensures r.PeriodAccepted? <==> !Less(fim, inicio) && Ordinal(fim) - Ordinal(inicio) + 1 <= lim.saldoMaximo
    ensures r.PeriodAccepted? ==> r.diasTotais >= 1 && r.diasTotais == Ordinal(fim) - Ordinal(inicio) + 1
  {
    LessIsOrdinalOrder(fim, inicio);
    if Less(fim, inicio) then
      PeriodRejected("Data de fim deve ser posterior à data de início")
    else
      var diasTotais := DaysBetween(fim, inicio) + 1;
      if diasTotais > lim.saldoMaximo then
        PeriodRejected("Período não pode exceder " + Text.IntToString(lim.saldoMaximo) + " dias")
      else
        PeriodAccepted(diasTotais)
  }

  /** An accepted period counts every calendar day, so never fewer than its business days. */
  lemma PeriodCoversBusinessDays(inicio: Date, fim: Date, lim: Limits)
    requires Valid(inicio) && Valid(fim)
    ensures PeriodCheck(inicio, fim, lim).PeriodAccepted? ==>
      Calculos.BusinessDays(inicio, fim) <= PeriodCheck(inicio, fim, lim).diasTotais <= lim.saldoMaximo
  {
  }

  datatype SufficiencyResult = SufficiencyResult(valida: bool, saldoSuficiente: bool, saldoRestante: Wrappers.Option<int>, mensagem: string)

  /** `validar_saldo_suficiente(saldo_atual, dias_solicitados, status)`. */
  function SufficiencyCheck(saldo: int, dias: int, status: string): (r: SufficiencyResult)
    ensures r.saldoSuficiente <==> saldo >= dias
    ensures status != ApprovedLabel ==> r.valida && r.saldoRestante.None?
    ensures status == ApprovedLabel ==> (r.valida <==> saldo >= dias)
    ensures r.saldoRestante.Some? <==> status == ApprovedLabel && saldo >= dias
    ensures r.saldoRestante.Some? ==> r.saldoRestante.value == saldo - dias >= 0
  {
    if status != ApprovedLabel then
      SufficiencyResult(true, saldo >= dias, Wrappers.None, "Férias pendentes - saldo será verificado na aprovação")
    else if saldo < dias then
      SufficiencyResult(false, false, Wrappers.None,
        "Saldo insuficiente. Disponível: " + Text.IntToString(saldo) + ", Solicitado: " + Text.IntToString(dias))
    else
      SufficiencyResult(true, true, Wrappers.Some(saldo - dias), "")
  }

  /**
   * The outcome of `calcular_impacto_mudanca_status`: no change to the
   * balance (with the unchanged value), a debit or refund applied, or an
   * error with no new balance.
   */
  datatype Impact =
    | Unchanged(novoSaldo: int, operacao: string)
    | Applied(novoSaldo: int, operacao: string, diasAfetados: int)
    | Refused(erro: string)
  {
    predicate AlteraSaldo() { Applied? }
  }

  /** `calcular_impacto_mudanca_status(status_atual, novo_status, dias_utilizados, saldo_atual)`. */
  function StatusImpact(atual: string, novo: string, dias: int, saldo: int, lim: Limits): (r: Impact)
    ensures atual == novo ==> r == Unchanged(saldo, "sem_alteracao")
    ensures atual != novo && atual != ApprovedLabel && novo == ApprovedLabel ==>
      (r.Applied? <==> saldo >= dias) && (r.Refused? <==> saldo < dias)
    ensures atual != ApprovedLabel && novo == ApprovedLabel && r.Applied? ==>
      r.novoSaldo == saldo - dias && r.operacao == "desconto" && r.diasAfetados == dias
    ensures atual == ApprovedLabel && novo in RefundLabels ==>
      (r.Applied? <==> saldo + dias <= lim.saldoMaximo) && (r.Refused? <==> saldo + dias > lim.saldoMaximo)
    ensures atual == ApprovedLabel && novo in RefundLabels && r.Applied? ==>
      r.novoSaldo == saldo + dias && r.operacao == "devolucao" && r.diasAfetados == dias
    ensures atual != novo && novo != ApprovedLabel && !(atual == ApprovedLabel && novo in RefundLabels) ==>
      r == Unchanged(saldo, "sem_impacto_saldo")
    ensures r.Applied? && r.operacao == "desconto" && saldo >= 0 ==> r.novoSaldo >= 0
  {
    if atual == novo then
      Unchanged(saldo, "sem_alteracao")
    else if atual != ApprovedLabel && novo == ApprovedLabel then
      if saldo < dias then
        Refused("Saldo insuficiente para aprovação. Disponível: " + Text.IntToString(saldo)
          + ", Necessário: " + Text.IntToString(dias))
      else
        Applied(saldo - dias, "desconto", dias)
    else if atual == ApprovedLabel && novo in RefundLabels then
      var novoSaldo := saldo + dias;
      if novoSaldo > lim.saldoMaximo then
        Refused("Operação resultaria em saldo acima do máximo (" + Text.IntToString(lim.saldoMaximo) + ")")
      else
        Applied(novoSaldo, "devolucao", dias)
    else
      Unchanged(saldo, "sem_impacto_saldo")
  }

  /** The balance the impact leaves behind, when it leaves one. */
  function BalanceAfter(i: Impact): (r: Wrappers.Option<int>)
    ensures r.None? <==> i.Refused?
  {
    match i
    case Unchanged(s, _) => Wrappers.Some(s)
    case Applied(s, _, _) => Wrappers.Some(s)
    case Refused(_) => Wrappers.None
  }

  /** Every outcome that leaves a balance keeps a balance within [0, maximum] within it. */
  lemma ImpactKeepsBalanceInRange(atual: string, novo: string, dias: int, saldo: int, lim: Limits)
    requires 0 <= dias && 0 <= saldo <= lim.saldoMaximo
    ensures BalanceAfter(StatusImpact(atual, novo, dias, saldo, lim)).Some? ==>
      0 <= BalanceAfter(StatusImpact(atual, novo, dias, saldo, lim)).value <= lim.saldoMaximo
  {
  }

  /** Approving and then returning to any refund status restores the balance. */
  lemma ApproveThenRevertRestores(anterior: string, volta: string, dias: int, saldo: int, lim: Limits)
    requires anterior != ApprovedLabel && volta in RefundLabels
    requires saldo <= lim.saldoMaximo
    ensures var debit := StatusImpact(anterior, ApprovedLabel, dias, saldo, lim);
      debit.Applied? ==> StatusImpact(ApprovedLabel, volta, dias, debit.novoSaldo, lim) == Applied(saldo, "devolucao", dias)
  {
  }

  /** A status outside the enumeration, such as the masculine "Rejeitado", refunds nothing. */
  lemma MasculineLabelRefundsNothing(dias: int, saldo: int, lim: Limits)
    ensures StatusImpact(ApprovedLabel, "Rejeitado", dias, saldo, lim) == Unchanged(saldo, "sem_impacto_saldo")
  {
  }
}
