/**
 * `FeriasService`: the order in which a new leave request is validated
 * (period, then notice unless the user is HR, then business days, then
 * the balance for an "Aprovada" request), the registration that stores
 * nothing unless validation passes, the status changes behind the approve
 * and cancel buttons, and the approved-days total of a user.
 */
module ServicoFerias {
  import opened Wrappers
  import opened Calendar
  import opened Ledger
  import Constantes
  import RegrasFerias
  import Calculos
  import Usuarios
  import Text

  /** The `detalhes` a validation failure carries. */
  datatype Details = NoDetails | NoticeDetails(notice: RegrasFerias.NoticeResult)
                   | BalanceDetails(saldoAtual: int, diasSolicitados: int)

  /** The outcome of `validar_cadastro_ferias`. */
  datatype Validation =
    | Accepted(diasUteis: int)
    | Rejected(tipo: string, erro: string, detalhes: Details)
    | Invalid(erro: string)  // the `ValidationError` raised for a period without business days

  /** The period rule holds for the dates. */
  predicate PeriodOk(inicio: Date, fim: Date, lim: Constantes.Limits)
    requires Valid(inicio) && Valid(fim)
  {
    RegrasFerias.PeriodCheck(inicio, fim, lim).PeriodAccepted?
  }

  /** The notice rule holds, or does not apply to the user's level. */
  predicate NoticeOk(inicio: Date, hoje: Date, nivel: string, lim: Constantes.Limits)
    requires Valid(inicio) && Valid(hoje)
  {
    nivel == Constantes.HrLevel || RegrasFerias.NoticeCheck(inicio, hoje, nivel, lim).valida
  }

  /** `get_users()` lists the active users only, and the balance is looked up among them. */
  predicate Listed(l: Ledger, owner: nat)
  {
    owner in l.users && l.users[owner].ativo
  }

  /**
   * The balance-lookup failure, with the text of the exception pandas
   * raises: an empty listing has no "id" column (KeyError), and a user
   * missing from it leaves no row to take (IndexError).
   */
  function LookupError(l: Ledger): string
  {
    if exists u :: u in l.users && l.users[u].ativo then "Erro ao validar saldo: single positional indexer is out-of-bounds"
    else "Erro ao validar saldo: 'id'"
  }

  /**
   * `validar_cadastro_ferias(usuario_id, data_inicio, data_fim, status,
   * usuario_nivel)` with today passed in. A user missing from the listing
   * of active users makes the balance lookup fail, which is reported as a
   * balance failure.
   */
  function ValidateRequest(l: Ledger, owner: nat, inicio: Date, fim: Date, status: string, nivel: string,
                           hoje: Date, lim: Constantes.Limits): (r: Validation)
    requires Valid(inicio) && Valid(fim) && Valid(hoje)
    ensures r.Accepted? <==>
      (PeriodOk(inicio, fim, lim) && NoticeOk(inicio, hoje, nivel, lim) && Calculos.BusinessDays(inicio, fim) > 0
       && (status == "Aprovada" ==> Listed(l, owner) && l.users[owner].saldo >= Calculos.BusinessDays(inicio, fim)))
    ensures r.Accepted? ==> r.diasUteis == Calculos.BusinessDays(inicio, fim)
    ensures !PeriodOk(inicio, fim, lim) ==> r.Rejected? && r.tipo == "periodo"
    ensures r.Rejected? && r.tipo == "antecedencia" <==> PeriodOk(inicio, fim, lim) && !NoticeOk(inicio, hoje, nivel, lim)
    ensures r.Invalid? <==>
      PeriodOk(inicio, fim, lim) && NoticeOk(inicio, hoje, nivel, lim) && Calculos.BusinessDays(inicio, fim) == 0
    ensures r.Rejected? && r.tipo == "saldo" ==>
      status == "Aprovada" && Calculos.BusinessDays(inicio, fim) > 0 &&
      (if Listed(l, owner) then r.detalhes == BalanceDetails(l.users[owner].saldo, Calculos.BusinessDays(inicio, fim))
       else r.erro == LookupError(l) && r.detalhes == NoDetails)
  {
    var periodo := RegrasFerias.PeriodCheck(inicio, fim, lim);
    if periodo.PeriodRejected? then Rejected("periodo", periodo.mensagem, NoDetails)
    else if nivel != Constantes.HrLevel && !RegrasFerias.NoticeCheck(inicio, hoje, nivel, lim).valida then
      var aviso := RegrasFerias.NoticeCheck(inicio, hoje, nivel, lim);
      Rejected("antecedencia", aviso.mensagem, NoticeDetails(aviso))
    else
      var dias := Calculos.BusinessDays(inicio, fim);
      if dias <= 0 then Invalid("Período de férias inválido")
      else if status == "Aprovada" && !Listed(l, owner) then
        Rejected("saldo", LookupError(l), NoDetails)
      else if status == "Aprovada" && !RegrasFerias.SufficiencyCheck(l.users[owner].saldo, dias, status).valida then
        Rejected("saldo", RegrasFerias.SufficiencyCheck(l.users[owner].saldo, dias, status).mensagem,
                 BalanceDetails(l.users[owner].saldo, dias))
      else Accepted(dias)
  }

  /** The answer of `cadastrar_ferias`; `Escaped` is the validation exception leaving the call. */
  datatype Answer = Done(diasUteis: int) | Failed(tipo: string, erro: string) | Escaped(erro: string)

  datatype ServiceStep = ServiceStep(answer: Answer, after: Ledger)

  /**
   * `cadastrar_ferias(usuario_id, data_inicio, data_fim, status,
   * usuario_nivel)` over storage adapter `ad`: the request is stored only
   * when validation accepts it.
   */
  function Register(l: Ledger, ad: Adapter, owner: nat, inicio: Date, fim: Date, status: string, nivel: string,
                    hoje: Date, lim: Constantes.Limits): (r: ServiceStep)
    requires Valid(inicio) && Valid(fim) && Valid(hoje)
    ensures var v := ValidateRequest(l, owner, inicio, fim, status, nivel, hoje, lim);
      (r.answer.Escaped? <==> v.Invalid?) && (!v.Accepted? ==> r.after == l)
    ensures r.answer.Done? ==>
      ValidateRequest(l, owner, inicio, fim, status, nivel, hoje, lim).Accepted? &&
      r.answer.diasUteis == Calculos.BusinessDays(inicio, fim)
    ensures r.answer.Done? ==> Add(l, ad, lim, hoje, owner, inicio, fim, status, nivel) == Step(Returned(true), r.after)
    ensures !r.answer.Done? ==> r.after == l
  {
    var v := ValidateRequest(l, owner, inicio, fim, status, nivel, hoje, lim);
    if v.Rejected? then ServiceStep(Failed(v.tipo, v.erro), l)
    else if v.Invalid? then ServiceStep(Escaped(v.erro), l)
    else
      var s := Add(l, ad, lim, hoje, owner, inicio, fim, status, nivel);
      if s.reply == Returned(true) then ServiceStep(Done(v.diasUteis), s.after)
      else ServiceStep(Failed("database", "Erro interno ao cadastrar férias"), l)
  }

  /**
   * Through an adapter that counts business days and recognises
   * "Aprovada", a registered "Aprovada" request never leaves its owner
   * below zero: validation demanded the balance that the store debits.
   */
  lemma RegisteredApprovalIsCovered(l: Ledger, ad: Adapter, owner: nat, inicio: Date, fim: Date, nivel: string,
                                    hoje: Date, lim: Constantes.Limits)
    requires Valid(inicio) && Valid(fim) && Valid(hoje)
    requires ad.dayCount == BusinessDays && IsApproved(ad.approval, "Aprovada")
    requires owner in l.users && l.users[owner].saldo >= 0
    ensures var r := Register(l, ad, owner, inicio, fim, "Aprovada", nivel, hoje, lim);
      r.answer.Done? ==> owner in r.after.users && r.after.users[owner].saldo >= 0
  {
  }

  /**
   * The balance check looks for the exact text "Aprovada", but the
   * repository adapter also debits "Aprovado": such a request passes
   * validation whatever the balance and can overdraw it.
   */
  lemma MasculineStatusSkipsBalanceCheck(l: Ledger, owner: nat, inicio: Date, fim: Date, hoje: Date,
                                         lim: Constantes.Limits)
    requires Valid(inicio) && Valid(fim) && Valid(hoje)
    requires PeriodOk(inicio, fim, lim) && Calculos.BusinessDays(inicio, fim) > 0
    requires owner in l.users && l.users[owner].saldo < Calculos.BusinessDays(inicio, fim)
    ensures var r := Register(l, Repository, owner, inicio, fim, "Aprovado", Constantes.HrLevel, hoje, lim);
      r.answer.Done? && r.after.users[owner].saldo < 0
  {
    MasculineIsApprovedCaseInsensitively();
  }

  /** The answer of `alterar_status_ferias`. */
  datatype StatusAnswer = StatusChanged | StatusFailed(erro: string)

  datatype StatusStep = StatusStep(answer: StatusAnswer, after: Ledger)

  /** The answer of `alterar_status_ferias` when the request lookup finds no row. */
  const NotFound := StatusFailed("Período de férias não encontrado")

  /**
   * `alterar_status_ferias(ferias_id, novo_status)`: the request is first
   * looked up through the store's `_execute_query`. A store without that
   * helper makes the lookup fail, which the service reports as not found,
   * exactly like an unknown request; the store is not called then.
   * Otherwise the adapter's status change decides.
   */
  function ChangeStatus(l: Ledger, ad: Adapter, id: nat, novo: string): (r: StatusStep)
    ensures !ad.rowLookup || id !in l.requests ==> r == StatusStep(NotFound, l)
    ensures ad.rowLookup && id in l.requests ==> r.after == UpdateStatus(l, ad, id, novo).after
    ensures ad.rowLookup && id in l.requests ==>
      (r.answer.StatusChanged? <==> UpdateStatus(l, ad, id, novo).reply == Returned(true))
    ensures r.answer.StatusChanged? ==>
      id in l.requests && r.after.requests == l.requests[id := l.requests[id].(status := novo)]
  {
    if !ad.rowLookup || id !in l.requests then StatusStep(NotFound, l)
    else
      var s := UpdateStatus(l, ad, id, novo);
      match s.reply
      case Returned(true) => StatusStep(StatusChanged, s.after)
      case Returned(false) =>
        StatusStep(StatusFailed("Não foi possível alterar o status. Verifique os logs para mais detalhes."), s.after)
      case Raised(e) => StatusStep(StatusFailed("Erro interno: " + e), s.after)
  }

  /** `aprovar_ferias(ferias_id)`: the status text it writes is "Aprovado". */
  function Approve(l: Ledger, ad: Adapter, id: nat): (r: StatusStep)
    ensures r.answer.StatusChanged? ==> id in r.after.requests && r.after.requests[id].status == "Aprovado"
    ensures r.answer.StatusChanged? ==> id in l.requests && r.after.requests[id].dias == l.requests[id].dias
  {
    ChangeStatus(l, ad, id, "Aprovado")
  }

  /** `cancelar_ferias(ferias_id)`: the status text it writes is "Rejeitado". */
  function Cancel(l: Ledger, ad: Adapter, id: nat): (r: StatusStep)
    ensures r.answer.StatusChanged? ==> id in r.after.requests && r.after.requests[id].status == "Rejeitado"
    ensures r.answer.StatusChanged? ==> id in l.requests && r.after.requests[id].dias == l.requests[id].dias
  {
    ChangeStatus(l, ad, id, "Rejeitado")
  }

  /** Every status change through the service keeps balance plus approved days. */
  lemma ChangeStatusConserves(l: Ledger, ad: Adapter, id: nat, novo: string)
    ensures Conserves(l, ChangeStatus(l, ad, id, novo).after, ad.approval)
  {
    if ad.rowLookup && id in l.requests {
      UpdateStatusConserves(l, ad, id, novo);
    }
  }

  /**
   * The MySQL, SQLite and simple stores lack the lookup helper, so through
   * them every approval and cancellation is answered as not found and
   * changes nothing, whatever the request.
   */
  lemma StatusChangesNeedTheRepository(l: Ledger, id: nat)
    ensures Approve(l, MySql, id) == StatusStep(NotFound, l) && Cancel(l, MySql, id) == StatusStep(NotFound, l)
    ensures Approve(l, Sqlite, id) == StatusStep(NotFound, l) && Cancel(l, Sqlite, id) == StatusStep(NotFound, l)
    ensures Approve(l, Simple, id) == StatusStep(NotFound, l) && Cancel(l, Simple, id) == StatusStep(NotFound, l)
  {
  }

  /** Through the repository adapter, cancelling an approved request gives its days back. */
  lemma CancelRefundsApprovedDays(l: Ledger, id: nat)
    requires id in l.requests && l.requests[id].owner in l.users
    requires IsApproved(CaseInsensitive, l.requests[id].status)
    ensures var r := Cancel(l, Repository, id);
      r.answer.StatusChanged? &&
      r.after.users[l.requests[id].owner].saldo == l.users[l.requests[id].owner].saldo + l.requests[id].dias
  {
    assert !IsApproved(CaseInsensitive, "Rejeitado") by {
      RejeitadoIsNotApproved();
    }
  }

  lemma RejeitadoIsNotApproved()
    ensures !IsApproved(CaseInsensitive, "Rejeitado")
  {
    assert Text.Lower("Rejeitado")[0] == 'r';
  }

  /**
   * `obter_dias_aprovados(user_id)`: the days of the user's rows whose status
   * is exactly "Aprovado"; 0 when the rows cannot be read (`None`).
   */
  function ApprovedDaysTotal(rows: Option<seq<Usuarios.Row>>): (r: int)
    ensures rows.None? || rows.value == [] ==> r == 0
    ensures rows.Some? ==> r == Usuarios.StatusDays(rows.value, "Aprovado")
  {
    if rows.None? then 0 else Usuarios.StatusDays(rows.value, "Aprovado")
  }

  /** Rows approved with the feminine label the rules use add nothing to the total. */
  lemma {:induction false} FeminineApprovalNotCounted(rows: seq<Usuarios.Row>)
    requires forall i :: 0 <= i < |rows| ==> rows[i].status != "Aprovado"
    ensures ApprovedDaysTotal(Some(rows)) == 0
  {
    if rows != [] {
      FeminineApprovalNotCounted(rows[..|rows| - 1]);
    }
  }
}
