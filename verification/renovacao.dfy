/**
 * Annual renewal of the leave balance and its same-day undo, as the
 * renewal repository and the psycopg2 adapter implement them: renewal adds
 * an amount to every active user and records the year once; undo removes
 * the amount again from the active users that still hold it and deletes
 * the latest record. Each of the two writes may fail independently, so the
 * failure of a write is a parameter.
 */
module Renovacao {
  import opened Wrappers
  import opened Calendar
  import opened Ledger
  import Text

  /** Which of the two writes of an operation fails, if any. */
  datatype Fault = NoFault | FirstWriteFails | SecondWriteFails

  datatype Outcome = Outcome(ok: bool, mensagem: string, after: Ledger)

  /** Some record of the ledger is for the year. */
  predicate HasRenewal(l: Ledger, ano: int)
  {
    exists i | 0 <= i < |l.renewals| :: l.renewals[i].ano == ano
  }

  /** `SELECT COUNT(*) FROM renovacao_saldo WHERE ano = ...`. */
  function YearCount(rs: seq<RenewalRecord>, ano: int): (n: nat)
    ensures n <= |rs|
  {
    if rs == [] then 0 else YearCount(rs[..|rs| - 1], ano) + (if rs[|rs| - 1].ano == ano then 1 else 0)
  }

  /**
   * `verificar_renovacao_ano(ano)` answers `count > 0`: exactly when a
   * record for the year exists. Under the unique key the count is at most 1.
   */
  lemma {:induction false} YearCountSpec(rs: seq<RenewalRecord>, ano: int)
    ensures YearCount(rs, ano) > 0 <==> exists i | 0 <= i < |rs| :: rs[i].ano == ano
    ensures YearsUnique(rs) ==> YearCount(rs, ano) <= 1
  {
    if rs != [] {
      var p := rs[..|rs| - 1];
      YearCountSpec(p, ano);
      assert forall i | 0 <= i < |p| :: p[i] == rs[i];
      if YearCount(p, ano) > 0 && YearsUnique(rs) {
        var i :| 0 <= i < |p| && p[i].ano == ano;
        assert rs[i].ano != rs[|rs| - 1].ano;
      }
      if YearsUnique(rs) {
        assert YearsUnique(p);
      }
    }
  }

  /** The year check of the store, as the service and the renewal use it. */
  lemma CountedRenewal(l: Ledger, ano: int)
    ensures YearCount(l.renewals, ano) > 0 <==> HasRenewal(l, ano)
    ensures YearsUnique(l.renewals) ==> YearCount(l.renewals, ano) <= 1
  {
    YearCountSpec(l.renewals, ano);
  }

  /** The UNIQUE key on `renovacao_saldo.ano`: no year is recorded twice. */
  predicate YearsUnique(rs: seq<RenewalRecord>)
  {
    forall i, j | 0 <= i < j < |rs| :: rs[i].ano != rs[j].ano
  }

  /** Record identifiers come from a sequence: distinct and below the next one. */
  predicate IdsFresh(l: Ledger)
  {
    forall i | 0 <= i < |l.renewals| :: l.renewals[i].id < l.nextRenewalId
  }

  function ActiveCount(l: Ledger): nat
  {
    |set u | u in l.users && l.users[u].ativo|
  }

  /** `UPDATE usuarios SET saldo_ferias = saldo_ferias + amount WHERE ativo = true`. */
  function AddToActive(l: Ledger, amount: int): (r: Ledger)
    ensures r.users.Keys == l.users.Keys && r.requests == l.requests && r.renewals == l.renewals && r.annual == l.annual
    ensures forall u :: u in l.users && l.users[u].ativo ==> r.users[u] == l.users[u].(saldo := l.users[u].saldo + amount)
    ensures forall u :: u in l.users && !l.users[u].ativo ==> r.users[u] == l.users[u]
    ensures r.nextRenewalId == l.nextRenewalId
  {
    l.(users := map u | u in l.users :: if l.users[u].ativo then l.users[u].(saldo := l.users[u].saldo + amount) else l.users[u])
  }

  /** `UPDATE ... SET saldo_ferias = saldo_ferias - amount WHERE ativo = true AND saldo_ferias >= amount`. */
  function SubtractFromActive(l: Ledger, amount: int): (r: Ledger)
    ensures r.users.Keys == l.users.Keys && r.requests == l.requests && r.renewals == l.renewals && r.annual == l.annual
    ensures forall u :: u in l.users && l.users[u].ativo && l.users[u].saldo >= amount ==>
      r.users[u] == l.users[u].(saldo := l.users[u].saldo - amount)
    ensures forall u :: u in l.users && !(l.users[u].ativo && l.users[u].saldo >= amount) ==> r.users[u] == l.users[u]
  {
    l.(users := map u | u in l.users ::
         if l.users[u].ativo && l.users[u].saldo >= amount then l.users[u].(saldo := l.users[u].saldo - amount) else l.users[u])
  }

  /**
   * `renovar_saldo_anual(ano, saldo_adicional, responsavel, modo_teste)`,
   * with the moment of application (`agora` and its timestamp) passed in.
   */
  function Renew(l: Ledger, ano: int, amount: int, responsavel: Option<nat>, agora: Date, stamp: int,
                 modoTeste: bool, fault: Fault): (r: Outcome)
    ensures modoTeste ==> r.ok && r.after == l
    ensures !modoTeste && HasRenewal(l, ano) ==> !r.ok && r.after == l
    ensures r.ok && !modoTeste ==> !HasRenewal(l, ano) && fault.NoFault?
    ensures r.ok && !modoTeste ==>
      r.after == AddToActive(l, amount).(renewals := l.renewals + [RenewalRecord(l.nextRenewalId, ano, amount, agora, stamp, responsavel)],
                                         nextRenewalId := l.nextRenewalId + 1)
    ensures !modoTeste && !HasRenewal(l, ano) && fault.SecondWriteFails? ==> !r.ok && r.after == AddToActive(l, amount)
    ensures !r.ok && !fault.SecondWriteFails? ==> r.after == l
  {
    if modoTeste then
      Outcome(true, "SIMULAÇÃO: " + Text.NatToString(ActiveCount(l)) + " colaboradores receberiam +"
                    + Text.IntToString(amount) + " dias somados ao saldo atual", l)
    else if HasRenewal(l, ano) then
      Outcome(false, "Já foi realizada renovação para este ano", l)
    else if fault.FirstWriteFails? then
      Outcome(false, "Erro ao atualizar saldos", l)
    else
      var credited := AddToActive(l, amount);
      if fault.SecondWriteFails? then
        Outcome(false, "Erro ao registrar renovação", credited)
      else
        var recorded := credited.(renewals := l.renewals + [RenewalRecord(l.nextRenewalId, ano, amount, agora, stamp, responsavel)],
                                  nextRenewalId := l.nextRenewalId + 1);
        Outcome(true, "Renovação aplicada! " + Text.NatToString(ActiveCount(l)) + " colaboradores receberam +"
                      + Text.IntToString(amount) + " dias para " + Text.IntToString(ano) + ".", recorded)
  }

  /** A successful renewal records its year, keeps the years unique, and a second one for that year is refused. */
  lemma RenewOncePerYear(l: Ledger, ano: int, amount: int, responsavel: Option<nat>, agora: Date, stamp: int,
                         amount2: int, agora2: Date, stamp2: int, fault2: Fault)
    requires YearsUnique(l.renewals)
    ensures var first := Renew(l, ano, amount, responsavel, agora, stamp, false, NoFault);
      first.ok ==>
        (HasRenewal(first.after, ano) && YearsUnique(first.after.renewals)
         && Renew(first.after, ano, amount2, responsavel, agora2, stamp2, false, fault2)
            == Outcome(false, "Já foi realizada renovação para este ano", first.after))
  {
    var first := Renew(l, ano, amount, responsavel, agora, stamp, false, NoFault);
    if first.ok {
      var n := |l.renewals|;
      assert first.after.renewals[n].ano == ano;
      forall i, j | 0 <= i < j < |first.after.renewals|
        ensures first.after.renewals[i].ano != first.after.renewals[j].ano
      {
        if j == n {
          assert first.after.renewals[i] == l.renewals[i];
        }
      }
    }
  }

  /**
   * The index of the record `ORDER BY data_aplicacao DESC LIMIT 1` returns.
   * SQL leaves the order of equal timestamps open; taking the latest
   * inserted among them is a choice of this model.
   */
  function LatestIndex(rs: seq<RenewalRecord>): (k: nat)
    requires |rs| > 0
    ensures k < |rs|
    ensures forall i | 0 <= i < |rs| :: rs[i].appliedAt <= rs[k].appliedAt
    ensures forall i | k < i < |rs| :: rs[i].appliedAt < rs[k].appliedAt
  {
    if |rs| == 1 then 0
    else
      var k := LatestIndex(rs[..|rs| - 1]);
      assert forall i | 0 <= i < |rs| - 1 :: rs[..|rs| - 1][i] == rs[i];
      if rs[|rs| - 1].appliedAt >= rs[k].appliedAt then |rs| - 1 else k
  }

  /** `DELETE FROM renovacao_saldo WHERE id = ...`. */
  function RemoveId(rs: seq<RenewalRecord>, id: nat): (r: seq<RenewalRecord>)
    ensures |r| <= |rs|
    ensures forall i | 0 <= i < |r| :: r[i].id != id && r[i] in rs
    ensures forall x | x in rs && x.id != id :: x in r
  {
    if |rs| == 0 then []
    else if rs[0].id == id then RemoveId(rs[1..], id)
    else [rs[0]] + RemoveId(rs[1..], id)
  }

  /** `desfazer_ultima_renovacao(responsavel)` with today passed in. */
  function Undo(l: Ledger, hoje: Date, fault: Fault): (r: Outcome)
    ensures |l.renewals| == 0 ==> r == Outcome(false, "Nenhuma renovação encontrada para desfazer", l)
    ensures |l.renewals| > 0 && l.renewals[LatestIndex(l.renewals)].appliedOn != hoje ==>
      r == Outcome(false, "Só é possível desfazer renovações do mesmo dia", l)
    ensures r.ok ==> |l.renewals| > 0 && fault.NoFault? && l.renewals[LatestIndex(l.renewals)].appliedOn == hoje
    ensures r.ok ==>
      var rec := l.renewals[LatestIndex(l.renewals)];
      r.after == SubtractFromActive(l, rec.saldoPadrao).(renewals := RemoveId(l.renewals, rec.id))
    ensures !r.ok && !fault.SecondWriteFails? ==> r.after == l
  {
    if |l.renewals| == 0 then
      Outcome(false, "Nenhuma renovação encontrada para desfazer", l)
    else
      var rec := l.renewals[LatestIndex(l.renewals)];
      if rec.appliedOn != hoje then
        Outcome(false, "Só é possível desfazer renovações do mesmo dia", l)
      else if fault.FirstWriteFails? then
        Outcome(false, "Erro ao atualizar saldos", l)
      else
        var debited := SubtractFromActive(l, rec.saldoPadrao);
        if fault.SecondWriteFails? then
          Outcome(false, "Erro ao remover registro", debited)
        else
          Outcome(true, "Renovação desfeita! Valor de " + Text.IntToString(rec.saldoPadrao) + " dias foi removido dos saldos.",
                  debited.(renewals := RemoveId(l.renewals, rec.id)))
  }

  /**
   * Undo on the day of a renewal that is the latest one restores the
   * record list and the balance of every user it does not skip: inactive
   * users, and active users whose balance was not negative before.
   */
  lemma RenewThenUndo(l: Ledger, ano: int, amount: int, responsavel: Option<nat>, agora: Date, stamp: int)
    requires IdsFresh(l)
    requires forall i | 0 <= i < |l.renewals| :: l.renewals[i].appliedAt < stamp
    ensures var renewed := Renew(l, ano, amount, responsavel, agora, stamp, false, NoFault);
      renewed.ok ==>
        var undone := Undo(renewed.after, agora, NoFault);
        undone.ok && undone.after.renewals == l.renewals
        && undone.after.users.Keys == l.users.Keys
        && forall u :: u in l.users && (!l.users[u].ativo || l.users[u].saldo >= 0) ==> undone.after.users[u] == l.users[u]
  {
    var renewed := Renew(l, ano, amount, responsavel, agora, stamp, false, NoFault);
    if renewed.ok {
      var rs := renewed.after.renewals;
      var n := |l.renewals|;
      assert rs == l.renewals + [RenewalRecord(l.nextRenewalId, ano, amount, agora, stamp, responsavel)];
      assert rs[n].appliedAt == stamp;
      assert LatestIndex(rs) == n;
      assert rs[..n] == l.renewals;
      RemoveIdSnoc(l.renewals, rs[n]);
    }
  }

  /** Deleting the identifier of the record just appended, absent before, gives back the earlier list. */
  lemma {:induction false} RemoveIdSnoc(rs: seq<RenewalRecord>, x: RenewalRecord)
    requires forall i | 0 <= i < |rs| :: rs[i].id != x.id
    ensures RemoveId(rs + [x], x.id) == rs
  {
    if |rs| == 0 {
      assert RemoveId([x], x.id) == RemoveId([], x.id);
    } else {
      assert (rs + [x])[1..] == rs[1..] + [x];
      RemoveIdSnoc(rs[1..], x);
    }
  }

  /** An active user whose balance was negative before the renewal is skipped by the undo and keeps the amount. */
  lemma UndoSkipsNegativeBalance(l: Ledger, ano: int, amount: int, responsavel: Option<nat>, agora: Date, stamp: int, u: nat)
    requires IdsFresh(l)
    requires forall i | 0 <= i < |l.renewals| :: l.renewals[i].appliedAt < stamp
    requires u in l.users && l.users[u].ativo && l.users[u].saldo < 0
    ensures var renewed := Renew(l, ano, amount, responsavel, agora, stamp, false, NoFault);
      renewed.ok ==> Undo(renewed.after, agora, NoFault).after.users[u].saldo == l.users[u].saldo + amount
  {
    var renewed := Renew(l, ano, amount, responsavel, agora, stamp, false, NoFault);
    if renewed.ok {
      var rs := renewed.after.renewals;
      var n := |l.renewals|;
      assert rs[n].appliedAt == stamp;
      assert LatestIndex(rs) == n;
    }
  }

  /**
   * `migrar_saldos_existentes()` for the year `ano`: a `saldos_anuais` row
   * for every user that lacks one, starting and current balance both the
   * user's balance; the result is the number of rows created (0 when the
   * write fails).
   */
  function Migrate(l: Ledger, ano: int, fails: bool): (r: (nat, Ledger))
    ensures fails ==> r == (0, l)
    ensures !fails ==> forall u :: u in l.users ==> (u, ano) in r.1.annual
    ensures !fails ==> forall u :: u in l.users && (u, ano) !in l.annual ==>
      r.1.annual[(u, ano)] == AnnualBalance(l.users[u].saldo, l.users[u].saldo)
    ensures forall k :: k in l.annual ==> k in r.1.annual && r.1.annual[k] == l.annual[k]
    ensures !fails ==> r.0 == |set u | u in l.users && (u, ano) !in l.annual|
    ensures r.1.users == l.users && r.1.requests == l.requests && r.1.renewals == l.renewals
  {
    if fails then (0, l)
    else
      var missing := set u | u in l.users && (u, ano) !in l.annual;
      var created := map k | k in (set u | u in missing :: (u, ano)) :: AnnualBalance(l.users[k.0].saldo, l.users[k.0].saldo);
      (|missing|, l.(annual := l.annual + created))
  }

  /** A second migration of the same year creates nothing and changes nothing. */
  lemma MigrateIdempotent(l: Ledger, ano: int)
    ensures var once := Migrate(l, ano, false).1;
      Migrate(once, ano, false) == (0, once)
  {
    var once := Migrate(l, ano, false).1;
    var missing := set u | u in once.users && (u, ano) !in once.annual;
    assert missing == {};
    assert (set u | u in missing :: (u, ano)) == {};
    assert once.annual + map[] == once.annual;
  }
}
