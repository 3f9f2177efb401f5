/**
 * The user-side writes of the storage adapters that touch the leave
 * balance: the pending-balance projection `MySQLUserManager.get_users`
 * attaches to every user, the two `update_saldo_ferias` variants (bounded
 * in MySQL, verbatim in psycopg2), and `create_user` with its e-mail
 * uniqueness and its date defaults.
 */
module Usuarios {
  import opened Wrappers
  import opened Calendar
  import opened Ledger
  import Constantes
  import RegrasSaldo
  import Text

  /** One of a user's requests as `get_users` reads it back: `dias_utilizados` and `status`. */
  datatype Row = Row(dias: int, status: string)

  datatype BalanceView = BalanceView(saldoAtual: int, saldoPendente: int)

  /** Total days of the rows whose status is exactly `status` (a pandas filter on `==` and a `sum()`). */
  function StatusDays(rows: seq<Row>, status: string): int
  {
    if rows == [] then 0
    else StatusDays(rows[..|rows| - 1], status) + (if rows[|rows| - 1].status == status then rows[|rows| - 1].dias else 0)
  }

  /** The total is additive over a split of the rows. */
  lemma {:induction false} StatusDaysConcat(xs: seq<Row>, ys: seq<Row>, status: string)
    ensures StatusDays(xs + ys, status) == StatusDays(xs, status) + StatusDays(ys, status)
    decreases |ys|
  {
    if ys == [] {
      assert xs + ys == xs;
    } else {
      assert (xs + ys)[..|xs + ys| - 1] == xs + ys[..|ys| - 1];
      StatusDaysConcat(xs, ys[..|ys| - 1], status);
    }
  }

  /** Days of the rows whose status is exactly "Pendente". */
  function PendingDays(rows: seq<Row>): int
  {
    StatusDays(rows, "Pendente")
  }

  /** The same rows as the list of pending day counts `calcular_saldo_com_pendentes` takes. */
  function PendingList(rows: seq<Row>): (r: seq<Option<int>>)
    ensures |r| <= |rows|
    ensures forall i :: 0 <= i < |r| ==> r[i].Some?
  {
    if rows == [] then []
    else PendingList(rows[..|rows| - 1]) + (if rows[|rows| - 1].status == "Pendente" then [Some(rows[|rows| - 1].dias)] else [])
  }

  /**
   * The balance columns `get_users` adds for one user: a NULL balance that
   * pandas delivers as `None` reads as 0; with no requests at all the pending projection is the balance
   * itself, otherwise the balance minus the pending days, floored at 0.
   */
  function View(saldo: Option<int>, rows: seq<Row>): (r: BalanceView)
    ensures r.saldoAtual == (if saldo.Some? then saldo.value else 0)
    ensures rows == [] ==> r.saldoPendente == r.saldoAtual
    ensures rows != [] ==> r.saldoPendente >= 0 && r.saldoPendente >= r.saldoAtual - PendingDays(rows)
    ensures rows != [] ==> (r.saldoPendente == 0 || r.saldoPendente == r.saldoAtual - PendingDays(rows))
  {
    var base := if saldo.Some? then saldo.value else 0;
    if rows == [] then BalanceView(base, base)
    else
      var p := base - PendingDays(rows);
      BalanceView(base, if p < 0 then 0 else p)
  }

  lemma {:induction false} PendingListSum(rows: seq<Row>)
    ensures RegrasSaldo.SumDays(PendingList(rows)) == PendingDays(rows)
  {
    if rows != [] {
      var init := rows[..|rows| - 1];
      var last := rows[|rows| - 1];
      PendingListSum(init);
      if last.status == "Pendente" {
        RegrasSaldo.SumDaysSnoc(PendingList(init), Some(last.dias));
      } else {
        assert PendingList(rows) == PendingList(init) + [];
        assert PendingList(init) + [] == PendingList(init);
      }
    }
  }

  /**
   * Once a user has any request, the listing's projection is exactly the
   * balance rule's "balance if every pending request were approved".
   */
  lemma ViewAgreesWithPendingRule(saldo: Option<int>, rows: seq<Row>)
    requires rows != []
    ensures View(saldo, rows).saldoPendente ==
      RegrasSaldo.WithPending(View(saldo, rows).saldoAtual, PendingList(rows), Constantes.SourceLimits).saldoSeAprovadas
  {
    PendingListSum(rows);
  }

  /**
   * A negative balance is shown as is while the user has no requests, but
   * as 0 as soon as the user has any request, pending or not.
   */
  lemma NegativeBalanceDependsOnHistory()
    ensures View(Some(-2), []).saldoPendente == -2
    ensures View(Some(-2), [Row(3, "Aprovada")]).saldoPendente == 0
  {
    var rows := [Row(3, "Aprovada")];
    assert rows[..0] == [];
    assert PendingDays(rows) == 0;
  }

  /** The answer of a balance write and whether an audit entry was attempted. */
  datatype BalanceWrite = BalanceWrite(reply: Reply, audited: bool, after: Ledger)

  function SetBalance(l: Ledger, u: nat, novo: int): (r: Ledger)
    requires u in l.users
    ensures r.users.Keys == l.users.Keys && r.users[u].saldo == novo
    ensures forall v :: v in l.users && v != u ==> r.users[v] == l.users[v]
    ensures r.requests == l.requests && r.renewals == l.renewals && r.annual == l.annual
  {
    l.(users := l.users[u := l.users[u].(saldo := novo)])
  }

  /**
   * `MySQLUserManager.update_saldo_ferias(user_id, novo_saldo)`. A value
   * outside the balance limits returns from inside the `try` before the
   * cursor is assigned, so the `finally` block's test of the cursor raises
   * `UnboundLocalError`; nothing is written either way. The answer is
   * `cursor.rowcount > 0`, and MySQL counts only rows whose value changed,
   * so rewriting the stored balance answers False.
   */
  function MySqlUpdateBalance(l: Ledger, u: nat, novo: int, lim: Constantes.Limits): (r: BalanceWrite)
    ensures r.reply.Raised? <==> !(lim.saldoMinimo <= novo <= lim.saldoMaximo)
    ensures r.reply == Returned(true) <==> lim.saldoMinimo <= novo <= lim.saldoMaximo && u in l.users && l.users[u].saldo != novo
    ensures r.reply != Returned(true) ==> r.after == l && !r.audited
    ensures r.reply == Returned(true) ==> u in l.users && r.after == SetBalance(l, u, novo)
    ensures r.audited <==> r.reply == Returned(true) && l.users[u].saldo != novo
  {
    var check := RegrasSaldo.CheckLimits(novo, lim);
    if !check.valido then BalanceWrite(Raised("UnboundLocalError"), false, l)
    else if u !in l.users then BalanceWrite(Returned(false), false, l)
    else
      var corrigido := check.saldoCorrigido;
      var changed := l.users[u].saldo != corrigido;
      assert !changed ==> SetBalance(l, u, corrigido) == l;
      BalanceWrite(Returned(changed), changed, SetBalance(l, u, corrigido))
  }

  /** Writing the same balance twice changes nothing the second time, audits nothing and answers False. */
  lemma MySqlUpdateBalanceIdempotent(l: Ledger, u: nat, novo: int, lim: Constantes.Limits)
    requires MySqlUpdateBalance(l, u, novo, lim).reply == Returned(true)
    ensures var once := MySqlUpdateBalance(l, u, novo, lim).after;
      MySqlUpdateBalance(once, u, novo, lim) == BalanceWrite(Returned(false), false, once)
  {
    var once := MySqlUpdateBalance(l, u, novo, lim).after;
    assert SetBalance(once, u, novo) == once;
  }

  /**
   * `SimplePsycopg2.update_saldo_ferias(user_id, novo_saldo)`: the
   * value is written as given; an unknown user matches no row and still
   * answers True. `fails` is a failed connection or statement.
   */
  function PsycopgUpdateBalance(l: Ledger, u: nat, novo: int, fails: bool): (r: Step)
    ensures r.reply == Returned(!fails)
    ensures fails || u !in l.users ==> r.after == l
    ensures !fails && u in l.users ==> r.after == SetBalance(l, u, novo)
  {
    if fails || u !in l.users then Step(Returned(!fails), l)
    else Step(Returned(true), SetBalance(l, u, novo))
  }

  /** The psycopg2 adapter stores a balance the MySQL adapter refuses. */
  lemma OnlyMySqlBoundsTheBalance(l: Ledger, u: nat)
    requires u in l.users
    ensures PsycopgUpdateBalance(l, u, 45, false).after.users[u].saldo == 45
    ensures MySqlUpdateBalance(l, u, 45, Constantes.SourceLimits).reply.Raised?
    ensures MySqlUpdateBalance(l, u, 45, Constantes.SourceLimits).after == l
  {
  }

  /** The two adapters whose `create_user` the model follows. */
  datatype UserStore = MySqlUsers | PsycopgUsers

  /**
   * Whether two addresses collide on the UNIQUE e-mail key: PostgreSQL
   * compares text exactly, MySQL's `utf8mb4_unicode_ci` collation ignores
   * case (modelled for ASCII letters).
   */
  predicate SameEmail(store: UserStore, a: string, b: string)
  {
    match store
    case MySqlUsers => Text.Lower(a) == Text.Lower(b)
    case PsycopgUsers => a == b
  }

  predicate EmailTaken(l: Ledger, store: UserStore, email: string)
  {
    exists v :: v in l.users && SameEmail(store, l.users[v].email, email)
  }

  /** No two users share an e-mail under the store's comparison. */
  predicate EmailsUnique(l: Ledger, store: UserStore)
  {
    forall v, w :: v in l.users && w in l.users && v != w ==> !SameEmail(store, l.users[v].email, l.users[w].email)
  }

  /**
   * `create_user(nome, email, senha, setor, funcao, nivel, saldo, data_admissao)`.
   * A taken e-mail returns False with nothing inserted (the explicit count in
   * psycopg2, the UNIQUE key in MySQL). A missing admission date becomes
   * `hoje`; MySQL also starts `ultima_renovacao` at the admission date,
   * psycopg2 leaves it unset. The password hash is not modelled.
   */
  function CreateUser(l: Ledger, store: UserStore, nome: string, email: string, setor: string, funcao: string,
                      nivel: string, saldo: int, admissao: Option<Date>, hoje: Date): (r: (bool, Ledger))
    requires WellFormed(l)
    ensures r.0 <==> !EmailTaken(l, store, email)
    ensures !r.0 ==> r.1 == l
    ensures r.0 ==> l.nextUserId !in l.users && l.nextUserId in r.1.users && r.1.users == l.users[l.nextUserId := r.1.users[l.nextUserId]]
    ensures r.0 ==> r.1.nextUserId == l.nextUserId + 1 && r.1.requests == l.requests && r.1.renewals == l.renewals
    ensures r.0 ==> var nu := r.1.users[l.nextUserId];
      nu.nome == nome && nu.email == email && nu.saldo == saldo && nu.ativo &&
      nu.admissao == Some(if admissao.Some? then admissao.value else hoje) &&
      nu.ultimaRenovacao == (if store == MySqlUsers then nu.admissao else None)
  {
    if EmailTaken(l, store, email) then (false, l)
    else
      var adm := if admissao.Some? then admissao.value else hoje;
      var renov := if store == MySqlUsers then Some(adm) else None;
      var nu := User(nome, email, setor, funcao, nivel, saldo, true, Some(adm), renov);
      (true, l.(users := l.users[l.nextUserId := nu], nextUserId := l.nextUserId + 1))
  }

  /** Creating users keeps the stored e-mails unique. */
  lemma CreateKeepsEmailsUnique(l: Ledger, store: UserStore, nome: string, email: string, setor: string, funcao: string,
                                nivel: string, saldo: int, admissao: Option<Date>, hoje: Date)
    requires WellFormed(l) && EmailsUnique(l, store)
    ensures var r := CreateUser(l, store, nome, email, setor, funcao, nivel, saldo, admissao, hoje);
      WellFormed(r.1) && EmailsUnique(r.1, store)
  {
    var r := CreateUser(l, store, nome, email, setor, funcao, nivel, saldo, admissao, hoje);
    if r.0 {
      forall v, w | v in r.1.users && w in r.1.users && v != w
        ensures !SameEmail(store, r.1.users[v].email, r.1.users[w].email)
      {
        if v == l.nextUserId {
          assert !SameEmail(store, l.users[w].email, email);
        } else if w == l.nextUserId {
          assert !SameEmail(store, l.users[v].email, email);
        }
      }
    }
  }

  /** Some user other than `id` already holds the e-mail under the store's comparison. */
  predicate EmailTakenByOther(l: Ledger, store: UserStore, id: nat, email: string)
  {
    exists v :: v in l.users && v != id && SameEmail(store, l.users[v].email, email)
  }

  /**
   * `update_user(user_id, nome, email, setor, funcao, nivel_acesso,
   * saldo_ferias)`: a single UPDATE of the user's row. An e-mail held by
   * another user violates the UNIQUE key and nothing changes; an unknown
   * user matches no row, which MySQL reports as False and psycopg2 as True.
   * MySQL's `rowcount` counts changed rows only, so an update that leaves
   * every field as it was answers False there.
   */
  function UpdateUser(l: Ledger, store: UserStore, id: nat, nome: string, email: string, setor: string,
                      funcao: string, nivel: string, saldo: int): (r: (bool, Ledger))
    ensures EmailTakenByOther(l, store, id, email) ==> r == (false, l)
    ensures id !in l.users ==> r.1 == l && (r.0 <==> store == PsycopgUsers && !EmailTakenByOther(l, store, id, email))
    ensures id in l.users && !EmailTakenByOther(l, store, id, email) ==>
      var updated := l.users[id].(nome := nome, email := email, setor := setor, funcao := funcao, nivel := nivel,
                                  saldo := saldo);
      r.1 == l.(users := l.users[id := updated]) && (r.0 <==> store == PsycopgUsers || updated != l.users[id])
  {
    if EmailTakenByOther(l, store, id, email) then (false, l)
    else if id !in l.users then (store == PsycopgUsers, l)
    else
      var updated := l.users[id].(nome := nome, email := email, setor := setor, funcao := funcao, nivel := nivel,
                                  saldo := saldo);
      (store == PsycopgUsers || updated != l.users[id], l.(users := l.users[id := updated]))
  }

  /** Updating a user keeps the stored e-mails unique. */
  lemma UpdateKeepsEmailsUnique(l: Ledger, store: UserStore, id: nat, nome: string, email: string, setor: string,
                                funcao: string, nivel: string, saldo: int)
    requires EmailsUnique(l, store)
    ensures EmailsUnique(UpdateUser(l, store, id, nome, email, setor, funcao, nivel, saldo).1, store)
  {
    var r := UpdateUser(l, store, id, nome, email, setor, funcao, nivel, saldo);
    if r.1 != l {
      forall v, w | v in r.1.users && w in r.1.users && v != w
        ensures !SameEmail(store, r.1.users[v].email, r.1.users[w].email)
      {
        if v == id {
          assert !SameEmail(store, l.users[w].email, email);
          SameEmailSymmetric(store, l.users[w].email, email);
        } else if w == id {
          assert !SameEmail(store, l.users[v].email, email);
        }
      }
    }
  }

  lemma SameEmailSymmetric(store: UserStore, a: string, b: string)
    ensures SameEmail(store, a, b) == SameEmail(store, b, a)
  {
  }

  /** MySQL refuses an address that differs from a stored one only in case; psycopg2 accepts it. */
  lemma MySqlEmailIgnoresCase(l: Ledger, hoje: Date)
    requires WellFormed(l)
    requires l.users == map[0 := User("Ana", "a@b", "TI", "Dev", "colaborador", 12, true, None, None)]
    ensures !CreateUser(l, MySqlUsers, "Ana", "A@b", "TI", "Dev", "colaborador", 12, None, hoje).0
    ensures CreateUser(l, PsycopgUsers, "Ana", "A@b", "TI", "Dev", "colaborador", 12, None, hoje).0
  {
    assert Text.Lower("A@b") == Text.Lower("a@b");
    assert l.users[0].email != "A@b";
  }
}
