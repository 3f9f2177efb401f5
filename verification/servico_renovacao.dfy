/**
 * `RenovacaoService`: validation of an annual renewal (every failed rule
 * is collected), its execution through the store's renewal, and the
 * preview of the totals the renewal would produce.
 */
module ServicoRenovacao {
  import opened Wrappers
  import opened Calendar
  import opened Ledger
  import Text
  import Renovacao

  const AnoMinimo := 2024
  const AnoMaximo := 2030
  const SaldoRenovacaoMaximo := 30

  const ErroAno := "Ano deve estar entre 2024 e 2030"
  const ErroSaldo := "Saldo deve estar entre 0 e 30 dias"

  function ErroRepetida(ano: int): string
  {
    "Já foi realizada renovação para o ano " + Text.IntToString(ano)
  }

  /**
   * The store the service is given. `ListStore` is a store with
   * `verificar_renovacao_ano` and `renovar_saldo_anual` whose `get_users`
   * returns a list of rows (`DatabaseManager`, `SimplePsycopg2`).
   * `FrameStore` is a store with neither method whose `get_users` returns
   * a pandas DataFrame (the MySQL, SQLite and Simple stores).
   */
  datatype RenewalStore = ListStore | FrameStore

  /** The `str()` of the ValueError that testing a DataFrame for truth raises. */
  const AmbiguousFrame := "The truth value of a DataFrame is ambiguous. Use a.empty, a.bool(), a.item(), a.any() or a.all()."

  /**
   * `validar_renovacao(ano, novo_saldo)`: the year, the amount and the
   * year's earlier renewal are each checked and every failure listed, in
   * that order; valid iff the list is empty. A `FrameStore` has no
   * `verificar_renovacao_ano`, and the AttributeError skips the year check.
   */
  function ValidateRenewal(l: Ledger, store: RenewalStore, ano: int, novo: int): (r: (bool, seq<string>))
    ensures r.0 <==> r.1 == []
    ensures r.0 <==> AnoMinimo <= ano <= AnoMaximo && 0 <= novo <= SaldoRenovacaoMaximo
                     && !(store.ListStore? && Renovacao.HasRenewal(l, ano))
    ensures ErroAno in r.1 <==> !(AnoMinimo <= ano <= AnoMaximo)
    ensures ErroSaldo in r.1 <==> !(0 <= novo <= SaldoRenovacaoMaximo)
    ensures ErroRepetida(ano) in r.1 <==> store.ListStore? && Renovacao.HasRenewal(l, ano)
    ensures |r.1| <= 3
  {
    var e1 := if ano < AnoMinimo || ano > AnoMaximo then [ErroAno] else [];
    var e2 := if novo < 0 || novo > SaldoRenovacaoMaximo then [ErroSaldo] else [];
    var e3 := if store.ListStore? && Renovacao.HasRenewal(l, ano) then [ErroRepetida(ano)] else [];
    assert ErroAno != ErroSaldo;
    assert ErroRepetida(ano) != ErroAno && ErroRepetida(ano) != ErroSaldo by {
      assert ErroRepetida(ano)[0] != ErroAno[0] && ErroRepetida(ano)[0] != ErroSaldo[0];
    }
    var erros := e1 + e2 + e3;
    (erros == [], erros)
  }

  /**
   * `executar_renovacao(ano, novo_saldo, usuario_responsavel_id)`: an
   * invalid request is answered with the errors joined by "; " and the
   * store is not called; a valid one is the store's renewal, outside test
   * mode. On a `FrameStore` the missing `renovar_saldo_anual` sends the
   * service to its simulation, whose `if usuarios` raises on the
   * DataFrame; the handler answers that error and nothing is written.
   */
  function ExecuteRenewal(l: Ledger, store: RenewalStore, ano: int, novo: int, responsavel: Option<nat>, agora: Date,
                          stamp: int, fault: Renovacao.Fault): (r: Renovacao.Outcome)
    ensures !ValidateRenewal(l, store, ano, novo).0 ==>
      r == Renovacao.Outcome(false, Text.Join(ValidateRenewal(l, store, ano, novo).1, "; "), l)
    ensures ValidateRenewal(l, store, ano, novo).0 && store.FrameStore? ==>
      r == Renovacao.Outcome(false, "Erro na execução: " + AmbiguousFrame, l)
    ensures r.ok <==> ValidateRenewal(l, store, ano, novo).0 && store.ListStore? && fault.NoFault?
    ensures r.ok ==>
      r.after == Renovacao.AddToActive(l, novo).(renewals := l.renewals + [RenewalRecord(l.nextRenewalId, ano, novo, agora, stamp, responsavel)],
                                                nextRenewalId := l.nextRenewalId + 1)
  {
    var check := ValidateRenewal(l, store, ano, novo);
    if !check.0 then Renovacao.Outcome(false, Text.Join(check.1, "; "), l)
    else if store.FrameStore? then Renovacao.Outcome(false, "Erro na execução: " + AmbiguousFrame, l)
    else Renovacao.Renew(l, ano, novo, responsavel, agora, stamp, false, fault)
  }

  /**
   * A store without the renewal methods never renews: every request fails
   * and writes nothing, and an in-range request fails with the DataFrame
   * error even for a year already renewed, since the year check is skipped.
   */
  lemma FrameStoreNeverRenews(l: Ledger, ano: int, novo: int, responsavel: Option<nat>, agora: Date, stamp: int,
                              fault: Renovacao.Fault)
    ensures var r := ExecuteRenewal(l, FrameStore, ano, novo, responsavel, agora, stamp, fault);
      !r.ok && r.after == l
      && (AnoMinimo <= ano <= AnoMaximo && 0 <= novo <= SaldoRenovacaoMaximo ==>
            r.mensagem == "Erro na execução: " + AmbiguousFrame)
  {
  }

  /** After a renewal for a year succeeds, a second one for that year is refused by validation and changes nothing. */
  lemma ExecuteOncePerYear(l: Ledger, ano: int, novo: int, responsavel: Option<nat>, agora: Date, stamp: int,
                           novo2: int, agora2: Date, stamp2: int, fault2: Renovacao.Fault)
    requires ExecuteRenewal(l, ListStore, ano, novo, responsavel, agora, stamp, Renovacao.NoFault).ok
    ensures var once := ExecuteRenewal(l, ListStore, ano, novo, responsavel, agora, stamp, Renovacao.NoFault).after;
      var twice := ExecuteRenewal(once, ListStore, ano, novo2, responsavel, agora2, stamp2, fault2);
      !twice.ok && twice.after == once && ErroRepetida(ano) in ValidateRenewal(once, ListStore, ano, novo2).1
  {
    var once := ExecuteRenewal(l, ListStore, ano, novo, responsavel, agora, stamp, Renovacao.NoFault).after;
    assert once.renewals[|l.renewals|].ano == ano;
  }

  /** The integer totals of `get_previa_renovacao`. */
  datatype PreviewTotals = PreviewTotals(total: nat, saldoAtualTotal: int, saldoNovoTotal: int, diferencaTotal: int)

  function Sum(saldos: seq<int>): int
  {
    if saldos == [] then 0 else Sum(saldos[..|saldos| - 1]) + saldos[|saldos| - 1]
  }

  /** The sum over the users of how much each balance moves when it is replaced by `novo`. */
  function SumMoves(saldos: seq<int>, novo: int): int
  {
    if saldos == [] then 0 else SumMoves(saldos[..|saldos| - 1], novo) + (novo - saldos[|saldos| - 1])
  }

  lemma {:induction false} SumMovesIsDifference(saldos: seq<int>, novo: int)
    ensures SumMoves(saldos, novo) == |saldos| * novo - Sum(saldos)
  {
    if saldos != [] {
      SumMovesIsDifference(saldos[..|saldos| - 1], novo);
    }
  }

  /**
   * `get_previa_renovacao(novo_saldo)` over the balances of the users the
   * store lists: nothing without users; otherwise each balance is taken
   * to become `novo`. On a `FrameStore` `if not usuarios` raises, and the
   * handler answers nothing whatever the users.
   */
  function Preview(store: RenewalStore, saldos: seq<int>, novo: int): (r: Option<PreviewTotals>)
    ensures r.None? <==> store.FrameStore? || saldos == []
    ensures r.Some? ==> r.value.total == |saldos| && r.value.saldoAtualTotal == Sum(saldos)
    ensures r.Some? ==> r.value.diferencaTotal == SumMoves(saldos, novo)
    ensures r.Some? ==> r.value.saldoNovoTotal == r.value.saldoAtualTotal + r.value.diferencaTotal
  {
    if store.FrameStore? || saldos == [] then None
    else
      SumMovesIsDifference(saldos, novo);
      var total := |saldos|;
      var atual := Sum(saldos);
      Some(PreviewTotals(total, atual, total * novo, total * novo - atual))
  }

  /** Each balance increased by `n`, as the store's renewal does for active users. */
  function AddEach(saldos: seq<int>, n: int): (r: seq<int>)
    ensures |r| == |saldos|
    ensures forall i :: 0 <= i < |saldos| ==> r[i] == saldos[i] + n
  {
    seq(|saldos|, i requires 0 <= i < |saldos| => saldos[i] + n)
  }

  lemma {:induction false} SumAddEach(saldos: seq<int>, n: int)
    ensures Sum(AddEach(saldos, n)) == Sum(saldos) + |saldos| * n
  {
    if saldos != [] {
      var init := saldos[..|saldos| - 1];
      assert AddEach(saldos, n)[..|saldos| - 1] == AddEach(init, n);
      SumAddEach(init, n);
    }
  }

  /**
   * The preview announces `total × novo` as the new total, but the store's
   * renewal adds `novo` to every balance; the two agree exactly when the
   * current balances sum to zero.
   */
  lemma PreviewDisagreesWithAdditiveRenewal(saldos: seq<int>, novo: int)
    requires saldos != []
    ensures Preview(ListStore, saldos, novo).value.saldoNovoTotal == Sum(AddEach(saldos, novo)) <==> Sum(saldos) == 0
  {
    SumAddEach(saldos, novo);
  }
}
