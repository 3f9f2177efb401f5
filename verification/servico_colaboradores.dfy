/**
 * `ColaboradoresService`: the field-by-field validation of an employee
 * (name, e-mail, password, sector, role, balance — the first failure
 * names its field), registration with a trimmed name and a trimmed,
 * lower-cased e-mail, the update of an employee, and the balance-only
 * update; none of them writes when validation fails.
 */
module ServicoColaboradores {
  import opened Wrappers
  import opened Calendar
  import opened Ledger
  import Constantes
  import RegrasSaldo
  import Text
  import Validacao
  import Usuarios

  /** The outcome of `validar_dados_colaborador`. */
  datatype EmployeeCheck =
    | EmployeeOk(saldoFinal: int)
    | EmployeeRejected(campo: string, erro: string, sugerido: Option<int>)

  /** `not text or not text.strip()`. */
  predicate Missing(text: string)
  {
    Text.Strip(text) == []
  }

  /**
   * `validar_dados_colaborador(nome, email, senha, setor, funcao,
   * saldo_ferias)`: nome, then e-mail, then password, then sector, then
   * role, then the balance limits.
   */
  function ValidateEmployee(nome: string, email: string, senha: string, setor: string, funcao: string, saldo: int,
                            lim: Constantes.Limits): (r: EmployeeCheck)
    ensures r.EmployeeOk? <==>
      Validacao.NameValid(nome).0 && Validacao.EmailValid(email) && Validacao.PasswordValid(senha).0
      && !Missing(setor) && !Missing(funcao) && lim.saldoMinimo <= saldo <= lim.saldoMaximo
    ensures r.EmployeeOk? ==> r.saldoFinal == saldo
    ensures !Validacao.NameValid(nome).0 ==> r.EmployeeRejected? && r.campo == "nome"
    ensures r.EmployeeRejected? && r.campo == "email" <==> Validacao.NameValid(nome).0 && !Validacao.EmailValid(email)
    ensures r.EmployeeRejected? && r.campo == "setor" ==>
      Validacao.NameValid(nome).0 && Validacao.EmailValid(email) && Validacao.PasswordValid(senha).0 && Missing(setor)
    ensures r.EmployeeRejected? && r.campo == "saldo_ferias" <==>
      Validacao.NameValid(nome).0 && Validacao.EmailValid(email) && Validacao.PasswordValid(senha).0
      && !Missing(setor) && !Missing(funcao) && !(lim.saldoMinimo <= saldo <= lim.saldoMaximo)
    ensures r.EmployeeRejected? && r.campo == "saldo_ferias" ==> r.sugerido == Some(RegrasSaldo.Clamp(saldo, lim))
    ensures r.EmployeeRejected? && r.campo != "saldo_ferias" ==> r.sugerido.None?
  {
    if !Validacao.NameValid(nome).0 then EmployeeRejected("nome", Validacao.NameValid(nome).1, None)
    else if !Validacao.EmailValid(email) then EmployeeRejected("email", "Email inválido", None)
    else if !Validacao.PasswordValid(senha).0 then EmployeeRejected("senha", Validacao.PasswordValid(senha).1, None)
    else if Missing(setor) then EmployeeRejected("setor", "Setor é obrigatório", None)
    else if Missing(funcao) then EmployeeRejected("funcao", "Função é obrigatória", None)
    else
      var check := RegrasSaldo.CheckLimits(saldo, lim);
      if !check.valido then EmployeeRejected("saldo_ferias", check.mensagem, Some(check.saldoCorrigido))
      else EmployeeOk(check.saldoCorrigido)
  }

  /** The answer of the service calls: success with the balance used, or the failing field. */
  datatype Answer = Saved(saldo: int) | Refused(campo: string, erro: string, saldoCorrigido: Option<int>)

  datatype ServiceStep = ServiceStep(answer: Answer, after: Ledger)

  /** The e-mail as the service stores it: trimmed and lower-cased. */
  function NormalEmail(email: string): (r: string)
    ensures |r| == |Text.Strip(email)|
    ensures forall i :: 0 <= i < |r| ==> !('A' <= r[i] <= 'Z')
  {
    Text.LowerIdempotent(Text.Strip(email));
    Text.Lower(Text.Strip(email))
  }

  /**
   * `cadastrar_colaborador(nome, email, senha, setor, funcao, nivel_acesso,
   * saldo_ferias, data_admissao)` over user store `store`; a missing
   * admission date becomes `hoje`.
   */
  function RegisterEmployee(l: Ledger, store: Usuarios.UserStore, nome: string, email: string, senha: string,
                            setor: string, funcao: string, nivel: string, saldo: int, admissao: Option<Date>,
                            hoje: Date, lim: Constantes.Limits): (r: ServiceStep)
    requires WellFormed(l)
    ensures !ValidateEmployee(nome, email, senha, setor, funcao, saldo, lim).EmployeeOk? ==>
      r.after == l && r.answer.Refused? && r.answer.campo == ValidateEmployee(nome, email, senha, setor, funcao, saldo, lim).campo
    ensures r.answer.Saved? ==> r.answer.saldo == saldo && lim.saldoMinimo <= saldo <= lim.saldoMaximo
    ensures r.answer.Saved? ==> l.nextUserId in r.after.users
    ensures r.answer.Saved? && l.nextUserId in r.after.users ==>
      var nu := r.after.users[l.nextUserId];
      nu.nome == Text.Strip(nome) && nu.email == NormalEmail(email) && nu.setor == setor && nu.funcao == funcao
      && nu.saldo == saldo && nu.admissao == Some(if admissao.Some? then admissao.value else hoje)
    ensures r.answer.Refused? && r.answer.campo == "email" && ValidateEmployee(nome, email, senha, setor, funcao, saldo, lim).EmployeeOk? ==>
      r.after == l && Usuarios.EmailTaken(l, store, NormalEmail(email))
  {
    var check := ValidateEmployee(nome, email, senha, setor, funcao, saldo, lim);
    if check.EmployeeRejected? then ServiceStep(Refused(check.campo, check.erro, check.sugerido), l)
    else
      var adm := if admissao.Some? then admissao.value else hoje;
      var created := Usuarios.CreateUser(l, store, Text.Strip(nome), NormalEmail(email), setor, funcao, nivel,
                                         check.saldoFinal, Some(adm), hoje);
      if created.0 then ServiceStep(Saved(check.saldoFinal), created.1)
      else ServiceStep(Refused("email", "Email já está em uso ou erro interno", None), l)
  }

  /** Every stored address is as the service leaves it: no upper-case ASCII letter. */
  predicate EmailsNormalised(l: Ledger)
  {
    forall v, i :: v in l.users && 0 <= i < |l.users[v].email| ==> !('A' <= l.users[v].email[i] <= 'Z')
  }

  /** A text without upper-case ASCII letters is its own lower-case form. */
  lemma LowerKeepsLowerCase(s: string)
    requires forall i :: 0 <= i < |s| ==> !('A' <= s[i] <= 'Z')
    ensures Text.Lower(s) == s
  {
  }

  /**
   * Because the service lower-cases before storing, the case-insensitive
   * MySQL key and the exact psycopg2 comparison refuse the same addresses
   * once every stored address went through the service.
   */
  lemma StoresAgreeOnNormalisedEmails(l: Ledger, email: string)
    requires EmailsNormalised(l)
    ensures Usuarios.EmailTaken(l, Usuarios.MySqlUsers, NormalEmail(email))
        <==> Usuarios.EmailTaken(l, Usuarios.PsycopgUsers, NormalEmail(email))
  {
    var e := NormalEmail(email);
    LowerKeepsLowerCase(e);
    forall v | v in l.users
      ensures Usuarios.SameEmail(Usuarios.MySqlUsers, l.users[v].email, e)
          <==> Usuarios.SameEmail(Usuarios.PsycopgUsers, l.users[v].email, e)
    {
      LowerKeepsLowerCase(l.users[v].email);
    }
  }

  /** Registering through the service keeps every stored address normalised. */
  lemma RegisterKeepsEmailsNormalised(l: Ledger, store: Usuarios.UserStore, nome: string, email: string, senha: string,
                                      setor: string, funcao: string, nivel: string, saldo: int, admissao: Option<Date>,
                                      hoje: Date, lim: Constantes.Limits)
    requires WellFormed(l) && EmailsNormalised(l)
    ensures EmailsNormalised(RegisterEmployee(l, store, nome, email, senha, setor, funcao, nivel, saldo, admissao, hoje, lim).after)
  {
  }

  /**
   * `atualizar_colaborador(user_id, nome, email, setor, funcao,
   * nivel_acesso, saldo_ferias)`: name, e-mail and balance are checked
   * (not the password, sector or role) before the single update.
   */
  function UpdateEmployee(l: Ledger, store: Usuarios.UserStore, id: nat, nome: string, email: string, setor: string,
                          funcao: string, nivel: string, saldo: int, lim: Constantes.Limits): (r: ServiceStep)
    ensures !Validacao.NameValid(nome).0 ==> r == ServiceStep(Refused("nome", Validacao.NameValid(nome).1, None), l)
    ensures Validacao.NameValid(nome).0 && !Validacao.EmailValid(email) ==>
      r == ServiceStep(Refused("email", "Email inválido", None), l)
    ensures !(lim.saldoMinimo <= saldo <= lim.saldoMaximo) ==> r.after == l && r.answer.Refused?
    ensures r.answer.Saved? <==>
      Validacao.NameValid(nome).0 && Validacao.EmailValid(email) && lim.saldoMinimo <= saldo <= lim.saldoMaximo
      && Usuarios.UpdateUser(l, store, id, Text.Strip(nome), NormalEmail(email), setor, funcao, nivel, saldo).0
    ensures r.answer.Saved? ==>
      r.after == Usuarios.UpdateUser(l, store, id, Text.Strip(nome), NormalEmail(email), setor, funcao, nivel, saldo).1
    ensures Validacao.NameValid(nome).0 && Validacao.EmailValid(email) && lim.saldoMinimo <= saldo <= lim.saldoMaximo ==>
      r.answer.Saved? || r.answer == Refused("sistema", "Erro ao atualizar colaborador", None)
    ensures !r.answer.Saved? ==> r.after == l
  {
    if !Validacao.NameValid(nome).0 then ServiceStep(Refused("nome", Validacao.NameValid(nome).1, None), l)
    else if !Validacao.EmailValid(email) then ServiceStep(Refused("email", "Email inválido", None), l)
    else
      var check := RegrasSaldo.CheckLimits(saldo, lim);
      if !check.valido then ServiceStep(Refused("saldo_ferias", check.mensagem, Some(check.saldoCorrigido)), l)
      else
        var updated := Usuarios.UpdateUser(l, store, id, Text.Strip(nome), NormalEmail(email), setor, funcao, nivel,
                                           check.saldoCorrigido);
        if updated.0 then ServiceStep(Saved(check.saldoCorrigido), updated.1)
        else ServiceStep(Refused("sistema", "Erro ao atualizar colaborador", None), l)
  }

  /**
   * `atualizar_saldo_colaborador(user_id, novo_saldo)`: an out-of-range
   * value is refused with the clamped suggestion and nothing written;
   * otherwise the store's `update_saldo_ferias` decides. Because the value
   * is checked first, the MySQL adapter's out-of-range failure is never
   * reached; the psycopg2 adapter's True for an unknown user is reported
   * as success although no row changed, while MySQL's False for the
   * current balance is reported as an error.
   */
  function UpdateEmployeeBalance(l: Ledger, store: Usuarios.UserStore, id: nat, novo: int, lim: Constantes.Limits)
    : (r: ServiceStep)
    ensures !(lim.saldoMinimo <= novo <= lim.saldoMaximo) ==>
      r.after == l && r.answer.Refused? && r.answer.saldoCorrigido == Some(RegrasSaldo.Clamp(novo, lim))
    ensures lim.saldoMinimo <= novo <= lim.saldoMaximo ==>
      (r.answer.Saved? <==> store == Usuarios.PsycopgUsers || (id in l.users && l.users[id].saldo != novo))
    ensures lim.saldoMinimo <= novo <= lim.saldoMaximo && !r.answer.Saved? ==>
      r.answer == Refused("", "Erro ao atualizar saldo", None)
    ensures r.answer.Saved? ==> r.answer.saldo == novo
    ensures r.answer.Saved? && id in l.users ==> r.after == Usuarios.SetBalance(l, id, novo)
    ensures id !in l.users || !r.answer.Saved? ==> r.after == l
  {
    var check := RegrasSaldo.CheckLimits(novo, lim);
    if !check.valido then ServiceStep(Refused("saldo_ferias", check.mensagem, Some(check.saldoCorrigido)), l)
    else
      var write := match store
        case MySqlUsers =>
          var w := Usuarios.MySqlUpdateBalance(l, id, check.saldoCorrigido, lim);
          Step(w.reply, w.after)
        case PsycopgUsers => Usuarios.PsycopgUpdateBalance(l, id, check.saldoCorrigido, false);
      if write.reply == Returned(true) then ServiceStep(Saved(check.saldoCorrigido), write.after)
      else ServiceStep(Refused("", "Erro ao atualizar saldo", None), l)
  }

  /** Setting a balance and then setting the old one back restores the ledger. */
  lemma UpdateEmployeeBalanceUndo(l: Ledger, store: Usuarios.UserStore, id: nat, novo: int, lim: Constantes.Limits)
    requires id in l.users && lim.saldoMinimo <= l.users[id].saldo <= lim.saldoMaximo
    requires lim.saldoMinimo <= novo <= lim.saldoMaximo
    ensures var once := UpdateEmployeeBalance(l, store, id, novo, lim).after;
      UpdateEmployeeBalance(once, store, id, l.users[id].saldo, lim).after == l
  {
    var once := UpdateEmployeeBalance(l, store, id, novo, lim).after;
    var back := UpdateEmployeeBalance(once, store, id, l.users[id].saldo, lim).after;
    assert back.users == l.users;
  }
}
