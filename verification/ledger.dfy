/**
 * The leave-balance ledger shared by the storage adapters: users with a
 * balance, leave requests with an owner, a day count and a status, and the
 * three request transitions (create, change status, delete) plus the edit
 * of a period. The adapters differ only in how they recognise an approved
 * status, how they count days, whether an approval is guarded by the
 * balance, and how they answer for a missing row; an `Adapter` value
 * records those choices.
 */
module Ledger {
  import opened Wrappers
  import opened Calendar
  import Calculos
  import Text
  import Constantes
  import RegrasFerias

  datatype User = User(nome: string, email: string, setor: string, funcao: string, nivel: string,
                       saldo: int, ativo: bool, admissao: Option<Date>, ultimaRenovacao: Option<Date>)

  datatype Request = Request(owner: nat, inicio: Date, fim: Date, dias: int, status: string)

  /** One row of `renovacao_saldo`: the year, the amount added, and when it was applied. */
  datatype RenewalRecord = RenewalRecord(id: nat, ano: int, saldoPadrao: int, appliedOn: Date, appliedAt: int,
                                         responsavel: Option<nat>)

  /** One row of `saldos_anuais`, keyed by (user, year). */
  datatype AnnualBalance = AnnualBalance(saldoInicial: int, saldoAtual: int)

  /**
   * The stored state. Identifiers come from the database sequences, so a
   * fresh identifier is one past every identifier in use.
   */
  datatype Ledger = Ledger(users: map<nat, User>, requests: map<nat, Request>,
                           renewals: seq<RenewalRecord>, annual: map<(nat, int), AnnualBalance>,
                           nextUserId: nat, nextRequestId: nat, nextRenewalId: nat)

  predicate WellFormed(l: Ledger)
  {
    (forall k :: k in l.users ==> k < l.nextUserId) && (forall k :: k in l.requests ==> k < l.nextRequestId)
  }

  /** How an adapter recognises an approved status. */
  datatype Approval =
    | CaseInsensitive  // "aprovado" or "aprovada" after lower-casing
    | ExactAprovada    // the exact string "Aprovada"
    | ExactAprovado    // the exact string "Aprovado"

  /** How an adapter computes `dias_utilizados` for a new request. */
  datatype DayCount = BusinessDays | CalendarDays

  datatype Adapter = Adapter(
    approval: Approval,
    dayCount: DayCount,
    approvalGuard: bool,    // an approval is refused when the balance does not cover it
    checksNotice: bool,     // creation runs the minimum-notice rule for non-HR users
    foreignKey: bool,       // the database refuses a request for an unknown user
    missingIsSuccess: bool, // update and delete of an unknown request still answer True
    rowLookup: bool         // the store has the `_execute_query` helper the leave service looks requests up with
  )

  /** `FeriasRepository` and the ledger methods of `SimplePsycopg2`. */
  const Repository := Adapter(CaseInsensitive, BusinessDays, false, false, true, false, true)
  /**
   * `MySQLFeriasManager`. A transition is what one call commits; a refused
   * approval's status write, left pending on the reused connection, is not
   * modelled.
   */
  const MySql := Adapter(ExactAprovado, BusinessDays, true, true, true, false, false)
  /** `SQLiteDatabase`, whose foreign keys SQLite does not enforce by default. */
  const Sqlite := Adapter(ExactAprovada, CalendarDays, false, false, false, true, false)
  /**
   * `SimpleDatabase`. Transitions read the stored request; the cached
   * `conn.query` read through which this store looks the request up is
   * not modelled.
   */
  const Simple := Adapter(ExactAprovada, CalendarDays, false, false, true, false, false)

  /** The approval test of an adapter. */
  predicate IsApproved(a: Approval, status: string)
  {
    match a
    case CaseInsensitive => Text.Lower(status) == "aprovado" || Text.Lower(status) == "aprovada"
    case ExactAprovada => status == "Aprovada"
    case ExactAprovado => status == "Aprovado"
  }

  /** The exact predicates each accept one spelling only. */
  lemma ExactApprovalVariants()
    ensures IsApproved(ExactAprovada, "Aprovada") && !IsApproved(ExactAprovada, "Aprovado")
    ensures IsApproved(ExactAprovado, "Aprovado") && !IsApproved(ExactAprovado, "Aprovada")
  {
  }

  /** The case-insensitive predicate accepts the masculine spelling the exact "Aprovada" test refuses. */
  lemma MasculineIsApprovedCaseInsensitively()
    ensures IsApproved(CaseInsensitive, "Aprovado") && !IsApproved(ExactAprovada, "Aprovado")
  {
    assert Text.Lower("Aprovado") == "aprovado";
  }

  /** The case-insensitive predicate accepts upper case, which both exact tests refuse. */
  lemma UpperCaseIsApprovedCaseInsensitively()
    ensures IsApproved(CaseInsensitive, "APROVADA")
    ensures !IsApproved(ExactAprovada, "APROVADA") && !IsApproved(ExactAprovado, "APROVADA")
  {
    assert Text.Lower("APROVADA") == "aprovada";
  }

  /** Whatever an exact predicate accepts, the case-insensitive one accepts too. */
  lemma ExactApprovalIsCaseInsensitive(a: Approval, status: string)
    requires IsApproved(a, status)
    ensures IsApproved(CaseInsensitive, status)
  {
    match a
    case CaseInsensitive =>
    case ExactAprovada => AprovadaIsApproved();
    case ExactAprovado => MasculineIsApprovedCaseInsensitively();
  }

  /** `dias_utilizados` of a new request. */
  function DaysFor(d: DayCount, inicio: Date, fim: Date): (r: int)
    requires Valid(inicio) && Valid(fim)
    ensures d == BusinessDays ==> r == Calculos.BusinessDays(inicio, fim)
    ensures d == CalendarDays ==> r == Ordinal(fim) - Ordinal(inicio) + 1
  {
    match d
    case BusinessDays => Calculos.BusinessDays(inicio, fim)
    case CalendarDays => DaysBetween(fim, inicio) + 1
  }

  /** On an ordered period the calendar count is never below the business count. */
  lemma CalendarCountsAtLeastBusiness(inicio: Date, fim: Date)
    requires Valid(inicio) && Valid(fim) && !Less(fim, inicio)
    ensures DaysFor(BusinessDays, inicio, fim) <= DaysFor(CalendarDays, inicio, fim)
  {
  }

  /** A balance change of `delta` for user `u`; an UPDATE that matches no row changes nothing. */
  function Credit(l: Ledger, u: nat, delta: int): (r: Ledger)
    ensures r.requests == l.requests && r.users.Keys == l.users.Keys
    ensures forall v :: v in l.users && v != u ==> r.users[v] == l.users[v]
    ensures u in l.users ==> r.users[u] == l.users[u].(saldo := l.users[u].saldo + delta)
    ensures u !in l.users ==> r == l
    ensures r.renewals == l.renewals && r.annual == l.annual && r.nextRequestId == l.nextRequestId
  {
    if u in l.users then l.(users := l.users[u := l.users[u].(saldo := l.users[u].saldo + delta)]) else l
  }

  /** How a storage call ends: a returned flag, or an exception escaping to the caller. */
  datatype Reply = Returned(ok: bool) | Raised(error: string)

  datatype Step = Step(reply: Reply, after: Ledger)

  /** `add_ferias(usuario_id, data_inicio, data_fim, status, usuario_nivel)` with today passed in. */
  function Add(l: Ledger, ad: Adapter, lim: Constantes.Limits, hoje: Date, owner: nat, inicio: Date, fim: Date,
               status: string, nivel: string): (r: Step)
    requires Valid(inicio) && Valid(fim) && Valid(hoje)
    ensures r.reply != Returned(true) ==> r.after == l
    ensures r.reply == Returned(true) ==>
      r.after.requests == l.requests[l.nextRequestId := Request(owner, inicio, fim, DaysFor(ad.dayCount, inicio, fim), status)]
    ensures r.reply == Returned(true) ==>
      r.after == Credit(l, owner, if IsApproved(ad.approval, status) then -DaysFor(ad.dayCount, inicio, fim) else 0)
                   .(requests := r.after.requests, nextRequestId := l.nextRequestId + 1)
    ensures r.reply.Raised? <==> (ad.checksNotice && nivel != Constantes.HrLevel
                                  && !RegrasFerias.NoticeCheck(inicio, hoje, nivel, lim).valida)
    ensures ad.foreignKey && owner !in l.users ==> r.reply != Returned(true)
  {
    var dias := DaysFor(ad.dayCount, inicio, fim);
    if ad.checksNotice && nivel != Constantes.HrLevel && !RegrasFerias.NoticeCheck(inicio, hoje, nivel, lim).valida then
      // The refusal raises before any cursor exists, and the cleanup then reads the unbound cursor.
      Step(Raised("UnboundLocalError"), l)
    else if ad.checksNotice && IsApproved(ad.approval, status) && owner !in l.users then
      Step(Returned(false), l)
    else if ad.checksNotice && IsApproved(ad.approval, status)
            && !RegrasFerias.SufficiencyCheck(l.users[owner].saldo, dias, status).valida then
      Step(Returned(false), l)
    else if ad.foreignKey && owner !in l.users then
      Step(Returned(false), l)
    else
      var requests := l.requests[l.nextRequestId := Request(owner, inicio, fim, dias, status)];
      var delta := if IsApproved(ad.approval, status) then -dias else 0;
      CreditCommutesWithStore(l, owner, delta, requests, l.nextRequestId + 1);
      Step(Returned(true), Credit(l.(requests := requests, nextRequestId := l.nextRequestId + 1), owner, delta))
  }

  /** Crediting a balance and storing requests touch different parts of the ledger. */
  lemma CreditCommutesWithStore(l: Ledger, u: nat, delta: int, requests: map<nat, Request>, next: nat)
    ensures Credit(l.(requests := requests, nextRequestId := next), u, delta)
            == Credit(l, u, delta).(requests := requests, nextRequestId := next)
  {
  }

  /**
   * The sufficiency check of the MySQL adapter never refuses: it forwards
   * "Aprovado", and the rule only enforces the balance for "Aprovada". An
   * approved request is therefore stored and debited whatever the balance.
   */
  lemma MySqlAddDebitsWithoutCover(l: Ledger, lim: Constantes.Limits, hoje: Date, owner: nat, inicio: Date, fim: Date)
    requires Valid(inicio) && Valid(fim) && Valid(hoje)
    requires owner in l.users
    ensures var r := Add(l, MySql, lim, hoje, owner, inicio, fim, "Aprovado", Constantes.HrLevel);
      r.reply == Returned(true) &&
      r.after.users[owner].saldo == l.users[owner].saldo - Calculos.BusinessDays(inicio, fim)
  {
  }

  /** `update_ferias_status(ferias_id, novo_status)`. */
  function UpdateStatus(l: Ledger, ad: Adapter, id: nat, novo: string): (r: Step)
    ensures r.reply.Returned?
    ensures id !in l.requests ==> r == Step(Returned(ad.missingIsSuccess), l)
    ensures r.reply == Returned(false) ==> r.after == l
    ensures id in l.requests && r.reply.ok ==>
      var q := l.requests[id];
      var delta := if !IsApproved(ad.approval, q.status) && IsApproved(ad.approval, novo) then -q.dias
                   else if IsApproved(ad.approval, q.status) && !IsApproved(ad.approval, novo) then q.dias
                   else 0;
      r.after == Credit(l, q.owner, delta).(requests := l.requests[id := q.(status := novo)])
    ensures id in l.requests && ad.approvalGuard ==>
      (r.reply.ok <==> l.requests[id].owner in l.users
                       && (IsApproved(ad.approval, l.requests[id].status) || !IsApproved(ad.approval, novo)
                           || l.users[l.requests[id].owner].saldo >= l.requests[id].dias))
    ensures id in l.requests && !ad.approvalGuard ==> r.reply.ok
  {
    if id !in l.requests then
      Step(Returned(ad.missingIsSuccess), l)
    else
      var q := l.requests[id];
      var wasApproved := IsApproved(ad.approval, q.status);
      var isApproved := IsApproved(ad.approval, novo);
      if ad.approvalGuard && q.owner !in l.users then
        Step(Returned(false), l)
      else if ad.approvalGuard && !wasApproved && isApproved && l.users[q.owner].saldo < q.dias then
        Step(Returned(false), l)
      else
        var restatused := l.(requests := l.requests[id := q.(status := novo)]);
        var delta := if !wasApproved && isApproved then -q.dias else if wasApproved && !isApproved then q.dias else 0;
        Step(Returned(true), Credit(restatused, q.owner, delta))
  }

  /** `delete_ferias(ferias_id)`. */
  function Delete(l: Ledger, ad: Adapter, id: nat): (r: Step)
    ensures id !in l.requests ==> r == Step(Returned(ad.missingIsSuccess), l)
    ensures id in l.requests ==> r.reply == Returned(true) && r.after.requests == l.requests - {id}
    ensures id in l.requests ==>
      r.after == Credit(l, l.requests[id].owner, if IsApproved(ad.approval, l.requests[id].status) then l.requests[id].dias else 0)
                   .(requests := l.requests - {id})
  {
    if id !in l.requests then
      Step(Returned(ad.missingIsSuccess), l)
    else
      var q := l.requests[id];
      var removed := l.(requests := l.requests - {id});
      Step(Returned(true), Credit(removed, q.owner, if IsApproved(ad.approval, q.status) then q.dias else 0))
  }

  // ---------------------------------------------------------------------
  // Conservation: balance plus the days of the user's approved requests.
  // ---------------------------------------------------------------------

  ghost function Pick(s: set<nat>): (k: nat)
    requires s != {}
    ensures k in s
  {
    var k :| k in s; k
  }

  /** The days request `q` holds against user `u`. */
  function Share(q: Request, a: Approval, u: nat): int
  {
    if q.owner == u && IsApproved(a, q.status) then q.dias else 0
  }

  /** Σ of the days of `u`'s approved requests. */
  ghost function ApprovedDays(reqs: map<nat, Request>, a: Approval, u: nat): int
    decreases |reqs.Keys|
  {
    if reqs.Keys == {} then 0
    else
      var k := Pick(reqs.Keys);
      assert reqs.Keys == (reqs - {k}).Keys + {k};
      Share(reqs[k], a, u) + ApprovedDays(reqs - {k}, a, u)
  }

  /** The sum does not depend on which key is taken first. */
  lemma {:induction false} ApprovedDaysRemove(reqs: map<nat, Request>, k: nat, a: Approval, u: nat)
    requires k in reqs
    ensures ApprovedDays(reqs, a, u) == Share(reqs[k], a, u) + ApprovedDays(reqs - {k}, a, u)
    decreases |reqs.Keys|
  {
    var j := Pick(reqs.Keys);
    if j != k {
      assert reqs.Keys == (reqs - {j}).Keys + {j};
      assert reqs.Keys == (reqs - {k}).Keys + {k};
      ApprovedDaysRemove(reqs - {j}, k, a, u);
      ApprovedDaysRemove(reqs - {k}, j, a, u);
      assert (reqs - {j}) - {k} == (reqs - {k}) - {j};
    }
  }

  /** Storing request `q` under key `k` replaces what `k` held before. */
  lemma ApprovedDaysStore(reqs: map<nat, Request>, k: nat, q: Request, a: Approval, u: nat)
    ensures ApprovedDays(reqs[k := q], a, u)
            == Share(q, a, u) + ApprovedDays(reqs, a, u) - (if k in reqs then Share(reqs[k], a, u) else 0)
  {
    ApprovedDaysRemove(reqs[k := q], k, a, u);
    if k in reqs {
      ApprovedDaysRemove(reqs, k, a, u);
      assert reqs[k := q] - {k} == reqs - {k};
    } else {
      assert reqs[k := q] - {k} == reqs;
    }
  }

  /** What user `u` holds: the balance plus the days of the approved requests. */
  ghost function Holding(l: Ledger, a: Approval, u: nat): int
    requires u in l.users
  {
    l.users[u].saldo + ApprovedDays(l.requests, a, u)
  }

  /** Every user keeps both its place and its holding. */
  ghost predicate Conserves(l: Ledger, l': Ledger, a: Approval)
  {
    l'.users.Keys == l.users.Keys && forall u :: u in l.users ==> Holding(l', a, u) == Holding(l, a, u)
  }

  lemma AddConserves(l: Ledger, ad: Adapter, lim: Constantes.Limits, hoje: Date, owner: nat, inicio: Date, fim: Date,
                     status: string, nivel: string)
    requires WellFormed(l) && Valid(inicio) && Valid(fim) && Valid(hoje)
    ensures Conserves(l, Add(l, ad, lim, hoje, owner, inicio, fim, status, nivel).after, ad.approval)
    ensures WellFormed(Add(l, ad, lim, hoje, owner, inicio, fim, status, nivel).after)
  {
    var r := Add(l, ad, lim, hoje, owner, inicio, fim, status, nivel);
    if r.reply == Returned(true) {
      var q := Request(owner, inicio, fim, DaysFor(ad.dayCount, inicio, fim), status);
      forall u | u in l.users
        ensures Holding(r.after, ad.approval, u) == Holding(l, ad.approval, u)
      {
        ApprovedDaysStore(l.requests, l.nextRequestId, q, ad.approval, u);
      }
    }
  }

  lemma UpdateStatusConserves(l: Ledger, ad: Adapter, id: nat, novo: string)
    ensures Conserves(l, UpdateStatus(l, ad, id, novo).after, ad.approval)
    ensures WellFormed(l) ==> WellFormed(UpdateStatus(l, ad, id, novo).after)
  {
    var r := UpdateStatus(l, ad, id, novo);
    if id in l.requests && r.reply.ok {
      var q := l.requests[id];
      forall u | u in l.users
        ensures Holding(r.after, ad.approval, u) == Holding(l, ad.approval, u)
      {
        ApprovedDaysStore(l.requests, id, q.(status := novo), ad.approval, u);
      }
    }
  }

  lemma DeleteConserves(l: Ledger, ad: Adapter, id: nat)
    ensures Conserves(l, Delete(l, ad, id).after, ad.approval)
    ensures WellFormed(l) ==> WellFormed(Delete(l, ad, id).after)
  {
    if id in l.requests {
      var r := Delete(l, ad, id);
      forall u | u in l.users
        ensures Holding(r.after, ad.approval, u) == Holding(l, ad.approval, u)
      {
        ApprovedDaysRemove(l.requests, id, ad.approval, u);
      }
    }
  }

  /** Creating a request and deleting it again restores balances and requests. */
  lemma AddThenDeleteRestores(l: Ledger, ad: Adapter, lim: Constantes.Limits, hoje: Date, owner: nat, inicio: Date,
                              fim: Date, status: string, nivel: string)
    requires WellFormed(l) && Valid(inicio) && Valid(fim) && Valid(hoje)
    ensures var added := Add(l, ad, lim, hoje, owner, inicio, fim, status, nivel);
      added.reply == Returned(true) ==>
        var deleted := Delete(added.after, ad, l.nextRequestId);
        deleted.reply == Returned(true) && deleted.after.users == l.users && deleted.after.requests == l.requests
  {
    var added := Add(l, ad, lim, hoje, owner, inicio, fim, status, nivel);
    if added.reply == Returned(true) {
      var q := Request(owner, inicio, fim, DaysFor(ad.dayCount, inicio, fim), status);
      DeleteUndoesAdd(l, ad, q, added.after);
    }
  }

  /** The ledger `Add` leaves behind, seen through its contract, is the one `DeleteUndoesStore` starts from. */
  lemma DeleteUndoesAdd(l: Ledger, ad: Adapter, q: Request, s: Ledger)
    requires l.nextRequestId !in l.requests
    requires s.requests == l.requests[l.nextRequestId := q]
    requires s == Credit(l, q.owner, if IsApproved(ad.approval, q.status) then -q.dias else 0)
                    .(requests := s.requests, nextRequestId := l.nextRequestId + 1)
    ensures var deleted := Delete(s, ad, l.nextRequestId);
      deleted.reply == Returned(true) && deleted.after.users == l.users && deleted.after.requests == l.requests
  {
    DeleteUndoesStore(l, ad, q);
  }

  /** Deleting a freshly stored request gives back its debit and its identifier's slot. */
  lemma DeleteUndoesStore(l: Ledger, ad: Adapter, q: Request)
    requires l.nextRequestId !in l.requests
    ensures var stored := Credit(l, q.owner, if IsApproved(ad.approval, q.status) then -q.dias else 0)
                            .(requests := l.requests[l.nextRequestId := q], nextRequestId := l.nextRequestId + 1);
      var deleted := Delete(stored, ad, l.nextRequestId);
      deleted.reply == Returned(true) && deleted.after.users == l.users && deleted.after.requests == l.requests
  {
    assert l.requests[l.nextRequestId := q] - {l.nextRequestId} == l.requests;
  }

  /** Under the guard, an approval the balance does not cover answers False and commits nothing. */
  lemma GuardRefusesUncoveredApproval(l: Ledger, id: nat, novo: string)
    requires id in l.requests && l.requests[id].owner in l.users
    requires !IsApproved(ExactAprovado, l.requests[id].status) && IsApproved(ExactAprovado, novo)
    requires l.users[l.requests[id].owner].saldo < l.requests[id].dias
    ensures UpdateStatus(l, MySql, id, novo) == Step(Returned(false), l)
  {
  }

  /** Without the guard an approval may drive the balance below zero. */
  lemma UnguardedApprovalMayGoNegative(l: Ledger, id: nat)
    requires id in l.requests && l.requests[id].owner in l.users
    requires l.requests[id].status == "Pendente" && 0 <= l.users[l.requests[id].owner].saldo < l.requests[id].dias
    ensures UpdateStatus(l, Repository, id, "Aprovada").after.users[l.requests[id].owner].saldo < 0
  {
    PendenteIsNotApproved();
    AprovadaIsApproved();
  }

  lemma PendenteIsNotApproved()
    ensures !IsApproved(CaseInsensitive, "Pendente")
  {
    assert Text.Lower("Pendente")[0] == 'p';
  }

  lemma AprovadaIsApproved()
    ensures IsApproved(CaseInsensitive, "Aprovada")
  {
    assert Text.Lower("Aprovada") == "aprovada";
  }

  // ---------------------------------------------------------------------
  // Editing a period (`Database.update_ferias`).
  // ---------------------------------------------------------------------

  /**
   * The edit gate: an unknown request, an unknown owner on an approving edit,
   * or an approving edit the balance does not cover is refused; otherwise the
   * new business-day count to store.
   */
  function EditGate(l: Ledger, id: nat, inicio: Date, fim: Date, status: string): (r: Option<int>)
    requires Valid(inicio) && Valid(fim)
    ensures r.Some? ==> id in l.requests && r.value == Calculos.BusinessDays(inicio, fim)
    ensures id in l.requests && l.requests[id].status != "Aprovada" && status == "Aprovada" ==>
      (r.Some? <==> l.requests[id].owner in l.users && l.users[l.requests[id].owner].saldo >= Calculos.BusinessDays(inicio, fim))
    ensures id in l.requests && !(l.requests[id].status != "Aprovada" && status == "Aprovada") ==> r.Some?
  {
    if id !in l.requests then None
    else
      var q := l.requests[id];
      var diasNovos := Calculos.BusinessDays(inicio, fim);
      if q.status != "Aprovada" && status == "Aprovada" && (q.owner !in l.users || l.users[q.owner].saldo < diasNovos) then None
      else Some(diasNovos)
  }

  /** `update_ferias(ferias_id, data_inicio, data_fim, status)` as written: new dates and days, then the status change. */
  function EditAsWritten(l: Ledger, ad: Adapter, id: nat, inicio: Date, fim: Date, status: string): (r: Step)
    requires Valid(inicio) && Valid(fim)
    ensures EditGate(l, id, inicio, fim, status).None? ==> r == Step(Returned(false), l)
    ensures EditGate(l, id, inicio, fim, status).Some? ==>
      var q := l.requests[id];
      r == UpdateStatus(l.(requests := l.requests[id := q.(inicio := inicio, fim := fim, dias := EditGate(l, id, inicio, fim, status).value)]),
                        ad, id, status)
  {
    var gate := EditGate(l, id, inicio, fim, status);
    if gate.None? then Step(Returned(false), l)
    else
      var q := l.requests[id];
      var redated := l.(requests := l.requests[id := q.(inicio := inicio, fim := fim, dias := gate.value)]);
      UpdateStatus(redated, ad, id, status)
  }

  /**
   * The edit as written loses the balance adjustment: an approved request
   * that stays approved gets a new day count while the balance keeps the old
   * debit, so the owner's holding moves by the difference.
   */
  lemma EditAsWrittenKeepsStaleDebit(l: Ledger, ad: Adapter, id: nat, inicio: Date, fim: Date)
    requires Valid(inicio) && Valid(fim)
    requires id in l.requests && l.requests[id].owner in l.users
    requires l.requests[id].status == "Aprovada" && IsApproved(ad.approval, "Aprovada")
    requires Calculos.BusinessDays(inicio, fim) != l.requests[id].dias
    ensures var r := EditAsWritten(l, ad, id, inicio, fim, "Aprovada");
      r.after.users == l.users &&
      Holding(r.after, ad.approval, l.requests[id].owner)
        == Holding(l, ad.approval, l.requests[id].owner) + Calculos.BusinessDays(inicio, fim) - l.requests[id].dias
  {
    var q := l.requests[id];
    var q' := q.(inicio := inicio, fim := fim, dias := Calculos.BusinessDays(inicio, fim));
    ApprovedDaysStore(l.requests, id, q', ad.approval, q.owner);
    ApprovedDaysStore(l.requests[id := q'], id, q'.(status := "Aprovada"), ad.approval, q.owner);
    assert l.requests[id := q'][id := q'.(status := "Aprovada")] == l.requests[id := q'];
  }

  /** The edit with the adjustment the balance needs: an approved request gets its old days back and the new ones taken. */
  function Edit(l: Ledger, ad: Adapter, id: nat, inicio: Date, fim: Date, status: string): (r: Step)
    requires Valid(inicio) && Valid(fim)
    ensures EditGate(l, id, inicio, fim, status).None? ==> r == Step(Returned(false), l)
    ensures r.reply == Returned(true) ==>
      (id in r.after.requests && r.after.requests[id].inicio == inicio && r.after.requests[id].fim == fim
       && r.after.requests[id].status == status && r.after.requests[id].dias == Calculos.BusinessDays(inicio, fim))
  {
    var gate := EditGate(l, id, inicio, fim, status);
    if gate.None? then Step(Returned(false), l)
    else UpdateStatus(Redate(l, ad.approval, id, inicio, fim, gate.value), ad, id, status)
  }

  /** Request `id` moved to `inicio`..`fim` with `dias` days, its owner credited the change in approved days. */
  function Redate(l: Ledger, a: Approval, id: nat, inicio: Date, fim: Date, dias: int): Ledger
    requires id in l.requests
  {
    var q := l.requests[id];
    var adjusted := Credit(l, q.owner, if IsApproved(a, q.status) then q.dias - dias else 0);
    adjusted.(requests := l.requests[id := q.(inicio := inicio, fim := fim, dias := dias)])
  }

  /** Re-dating a request while crediting its owner the change in its approved days keeps every holding. */
  lemma RedateConserves(l: Ledger, a: Approval, id: nat, inicio: Date, fim: Date, dias: int)
    requires id in l.requests
    ensures Conserves(l, Redate(l, a, id, inicio, fim, dias), a)
  {
    var q' := l.requests[id].(inicio := inicio, fim := fim, dias := dias);
    var redated := Redate(l, a, id, inicio, fim, dias);
    forall u | u in l.users
      ensures Holding(redated, a, u) == Holding(l, a, u)
    {
      ApprovedDaysStore(l.requests, id, q', a, u);
    }
  }

  /** The corrected edit keeps every holding, like the other transitions. */
  lemma EditConserves(l: Ledger, ad: Adapter, id: nat, inicio: Date, fim: Date, status: string)
    requires Valid(inicio) && Valid(fim)
    ensures Conserves(l, Edit(l, ad, id, inicio, fim, status).after, ad.approval)
  {
    var gate := EditGate(l, id, inicio, fim, status);
    if gate.Some? {
      var redated := Redate(l, ad.approval, id, inicio, fim, gate.value);
      RedateConserves(l, ad.approval, id, inicio, fim, gate.value);
      UpdateStatusConserves(redated, ad, id, status);
      ConservesChain(l, redated, UpdateStatus(redated, ad, id, status).after, ad.approval);
    }
  }

  lemma ConservesChain(l1: Ledger, l2: Ledger, l3: Ledger, a: Approval)
    requires Conserves(l1, l2, a) && Conserves(l2, l3, a)
    ensures Conserves(l1, l3, a)
  {
    forall u | u in l1.users
      ensures Holding(l3, a, u) == Holding(l1, a, u)
    {
      assert u in l2.users.Keys;
    }
  }
}
