/**
 * Three pure helpers of the Streamlit menus: the date-conflict check of
 * the leave screen, the recipient selection of the notice screen (a union
 * of three selections with duplicates removed by id, first occurrence
 * kept), and the row filters of the employee screen.
 */
module Menus {
  import opened Wrappers
  import opened Calendar
  import Text

  // ---------------------------------------------------------------------------
  // Selection of list elements, shared by the two filters below
  // ---------------------------------------------------------------------------

  /** `r` is `xs` with some elements removed and the rest in their order. */
  predicate SubList<T(==,!new)>(r: seq<T>, xs: seq<T>)
  {
    if r == [] then true
    else if xs == [] then false
    else if r[|r| - 1] == xs[|xs| - 1] then SubList(r[..|r| - 1], xs[..|xs| - 1])
    else SubList(r, xs[..|xs| - 1])
  }

  /** `[x for x in xs if keep(x)]`. */
  function Select<T(==,!new)>(xs: seq<T>, keep: T -> bool): (r: seq<T>)
    ensures forall x :: x in r <==> x in xs && keep(x)
    ensures SubList(r, xs)
  {
    if xs == [] then []
    else
      var init := Select(xs[..|xs| - 1], keep);
      var last := xs[|xs| - 1];
      assert xs == xs[..|xs| - 1] + [last];
      if keep(last) then
        assert (init + [last])[..|init|] == init;
        init + [last]
      else init
  }

  // ---------------------------------------------------------------------------
  // `_verificar_conflito_datas` (gerenciar_ferias)
  // ---------------------------------------------------------------------------

  /** An occupied leave period, first and last day. */
  datatype Period = Period(inicio: Date, fim: Date)

  predicate LessEq(a: Date, b: Date) { !Less(b, a) }

  /** `nova_inicio <= fim_ocupada and nova_fim >= inicio_ocupada`: inclusive on both ends. */
  predicate Overlaps(inicio: Date, fim: Date, p: Period)
  {
    LessEq(inicio, p.fim) && LessEq(p.inicio, fim)
  }

  /** The position of the first occupied period, in list order, that the new period overlaps. */
  function FirstConflict(inicio: Date, fim: Date, ocupadas: seq<Period>): (r: Option<nat>)
    ensures r.None? <==> forall k :: 0 <= k < |ocupadas| ==> !Overlaps(inicio, fim, ocupadas[k])
    ensures r.Some? ==> r.value < |ocupadas| && Overlaps(inicio, fim, ocupadas[r.value])
    ensures r.Some? ==> forall k :: 0 <= k < r.value ==> !Overlaps(inicio, fim, ocupadas[k])
  {
    if ocupadas == [] then None
    else if Overlaps(inicio, fim, ocupadas[0]) then Some(0)
    else
      var rest := FirstConflict(inicio, fim, ocupadas[1..]);
      if rest.None? then None else Some(rest.value + 1)
  }

  /** Python `date` objects are always valid calendar dates. */
  predicate ValidPeriods(ocupadas: seq<Period>)
  {
    forall k :: 0 <= k < |ocupadas| ==> Valid(ocupadas[k].inicio) && Valid(ocupadas[k].fim)
  }

  function ConflictText(p: Period): string
    requires Valid(p.inicio) && Valid(p.fim)
  {
    "Período conflita com férias já aprovadas de " + FormatBr(p.inicio) + " a " + FormatBr(p.fim)
  }

  /**
   * `_verificar_conflito_datas(nova_inicio, nova_fim, datas_ocupadas)`:
   * no message when nothing overlaps, otherwise the message naming the
   * first overlapping period.
   */
  function CheckConflict(inicio: Date, fim: Date, ocupadas: seq<Period>): (r: Option<string>)
    requires ValidPeriods(ocupadas)
    ensures ocupadas == [] ==> r.None?
    ensures r.None? <==> forall k :: 0 <= k < |ocupadas| ==> !Overlaps(inicio, fim, ocupadas[k])
    ensures r.Some? ==> (exists k :: 0 <= k < |ocupadas| && Overlaps(inicio, fim, ocupadas[k])
                           && (forall j :: 0 <= j < k ==> !Overlaps(inicio, fim, ocupadas[j]))
                           && r.value == ConflictText(ocupadas[k]))
  {
    var k := FirstConflict(inicio, fim, ocupadas);
    if k.None? then None
    else
      var msg := ConflictText(ocupadas[k.value]);
      assert 0 <= k.value < |ocupadas| && Overlaps(inicio, fim, ocupadas[k.value])
        && (forall j :: 0 <= j < k.value ==> !Overlaps(inicio, fim, ocupadas[j])) && msg == ConflictText(ocupadas[k.value]);
      Some(msg)
  }

  /** A period that starts on the last day of an occupied one conflicts with it. */
  lemma TouchingEndpointsConflict(p: Period, fim: Date)
    requires Valid(p.inicio) && Valid(p.fim)
    requires LessEq(p.inicio, p.fim) && LessEq(p.fim, fim)
    ensures FirstConflict(p.fim, fim, [p]) == Some(0)
    ensures CheckConflict(p.fim, fim, [p]).Some?
  {
  }

  /** Overlap does not depend on which of the two periods is the new one. */
  lemma OverlapSymmetric(a: Period, b: Period)
    ensures Overlaps(a.inicio, a.fim, b) <==> Overlaps(b.inicio, b.fim, a)
  {
  }

  /** Appending more occupied periods never moves a conflict already found. */
  lemma FirstConflictStable(inicio: Date, fim: Date, xs: seq<Period>, ys: seq<Period>)
    requires FirstConflict(inicio, fim, xs).Some?
    ensures FirstConflict(inicio, fim, xs + ys) == FirstConflict(inicio, fim, xs)
  {
    var k := FirstConflict(inicio, fim, xs).value;
    var zs := xs + ys;
    assert forall j :: 0 <= j <= k ==> zs[j] == xs[j];
  }

  /** Appending more occupied periods never changes the message of a conflict already found. */
  lemma ConflictStableUnderAppend(inicio: Date, fim: Date, xs: seq<Period>, ys: seq<Period>)
    requires ValidPeriods(xs) && ValidPeriods(ys)
    requires CheckConflict(inicio, fim, xs).Some?
    ensures ValidPeriods(xs + ys)
    ensures CheckConflict(inicio, fim, xs + ys) == CheckConflict(inicio, fim, xs)
  {
    assert ValidPeriods(xs + ys) by {
      forall k | 0 <= k < |xs + ys|
        ensures Valid((xs + ys)[k].inicio) && Valid((xs + ys)[k].fim)
      {
        if k < |xs| { assert (xs + ys)[k] == xs[k]; } else { assert (xs + ys)[k] == ys[k - |xs|]; }
      }
    }
    FirstConflictStable(inicio, fim, xs, ys);
    var k := FirstConflict(inicio, fim, xs).value;
    assert (xs + ys)[k] == xs[k];
  }

  // ---------------------------------------------------------------------------
  // `_filtrar_destinatarios` (avisos)
  // ---------------------------------------------------------------------------

  /** The columns of a listed user that the recipient selection reads. */
  datatype Recipient = Recipient(id: int, nome: string, setor: string, funcao: string)

  /** `xs[i]` is the first element of `xs` with its id. */
  predicate FirstOfId(xs: seq<Recipient>, i: nat)
    requires i < |xs|
  {
    forall m :: 0 <= m < i ==> xs[m].id != xs[i].id
  }

  /** The reference result of the de-duplication: the first element of each id, among the first `n`, in list order. */
  function KeepFirst(xs: seq<Recipient>, n: nat): seq<Recipient>
    requires n <= |xs|
  {
    if n == 0 then []
    else KeepFirst(xs, n - 1) + (if FirstOfId(xs, n - 1) then [xs[n - 1]] else [])
  }

  function IdsUpTo(xs: seq<Recipient>, n: nat): set<int>
    requires n <= |xs|
  {
    set k | 0 <= k < n :: xs[k].id
  }

  predicate DistinctIds(r: seq<Recipient>)
  {
    forall a, b :: 0 <= a < b < |r| ==> r[a].id != r[b].id
  }

  /** The ids a list holds. */
  function IdsOf(p: seq<Recipient>): set<int>
  {
    set x | x in p :: x.id
  }

  lemma IdsUpToStep(xs: seq<Recipient>, n: nat)
    requires 0 < n <= |xs|
    ensures IdsUpTo(xs, n) == IdsUpTo(xs, n - 1) + {xs[n - 1].id}
  {
    assert xs[n - 1].id in IdsUpTo(xs, n);
  }

  lemma IdsOfSnoc(p: seq<Recipient>, x: Recipient)
    ensures IdsOf(p + [x]) == IdsOf(p) + {x.id}
  {
    assert x in p + [x];
    forall y | y in p
      ensures y in p + [x]
    {
    }
  }

  /** Appending an element with a new id keeps the ids distinct. */
  lemma DistinctSnoc(p: seq<Recipient>, x: Recipient)
    requires DistinctIds(p) && x.id !in IdsOf(p)
    ensures DistinctIds(p + [x])
  {
    var r := p + [x];
    forall a | 0 <= a < |p|
      ensures r[a].id != x.id
    {
      assert p[a] in p;
    }
  }

  /** The reference keeps one element per id, and every id it saw. */
  lemma {:induction false} KeepFirstIds(xs: seq<Recipient>, n: nat)
    requires n <= |xs|
    ensures DistinctIds(KeepFirst(xs, n))
    ensures IdsOf(KeepFirst(xs, n)) == IdsUpTo(xs, n)
    ensures forall x :: x in KeepFirst(xs, n) ==> x in xs
  {
    if n > 0 {
      KeepFirstIds(xs, n - 1);
      IdsUpToStep(xs, n);
      var p := KeepFirst(xs, n - 1);
      if FirstOfId(xs, n - 1) {
        assert KeepFirst(xs, n) == p + [xs[n - 1]];
        assert xs[n - 1].id !in IdsUpTo(xs, n - 1);
        DistinctSnoc(p, xs[n - 1]);
        IdsOfSnoc(p, xs[n - 1]);
      } else {
        assert KeepFirst(xs, n) == p + [] == p;
        var k :| 0 <= k < n - 1 && xs[k].id == xs[n - 1].id;
        assert xs[n - 1].id in IdsUpTo(xs, n - 1);
      }
    }
  }

  /**
   * The removal of duplicates: the loop of `_filtrar_destinatarios` that
   * keeps a user when its id has not been seen yet.
   */
  method DedupById(xs: seq<Recipient>) returns (r: seq<Recipient>)
    ensures r == KeepFirst(xs, |xs|)
    ensures DistinctIds(r)
    ensures forall x :: x in r ==> x in xs
    ensures forall x :: x in xs ==> exists y :: y in r && y.id == x.id
  {
    r := [];
    var seen: set<int> := {};
    var i := 0;
    while i < |xs|
      invariant 0 <= i <= |xs|
      invariant r == KeepFirst(xs, i)
      invariant seen == IdsUpTo(xs, i)
    {
      if xs[i].id !in seen {
        r := r + [xs[i]];
        seen := seen + {xs[i].id};
      } else {
        var k :| 0 <= k < i && xs[k].id == xs[i].id;
      }
      IdsUpToStep(xs, i + 1);
      i := i + 1;
    }
    KeepFirstIds(xs, |xs|);
    forall x | x in xs
      ensures exists y :: y in r && y.id == x.id
    {
      var k :| 0 <= k < |xs| && xs[k] == x;
      assert x.id in IdsUpTo(xs, |xs|);
      assert x.id in IdsOf(r);
    }
  }

  /** `nome.split(' - ')[0]` for every selected option. */
  function SelectedNames(opcoes: seq<string>): (r: seq<string>)
    ensures |r| == |opcoes|
    ensures forall i :: 0 <= i < |opcoes| ==> r[i] == Text.BeforeSeparator(opcoes[i], " - ")
  {
    seq(|opcoes|, i requires 0 <= i < |opcoes| => Text.BeforeSeparator(opcoes[i], " - "))
  }

  /** Whether a user is addressed by one of the three selections. */
  predicate Addressed(u: Recipient, setores: seq<string>, funcoes: seq<string>, especificos: seq<string>)
  {
    u.setor in setores || u.funcao in funcoes || u.nome in SelectedNames(especificos)
  }

  /** The three selections concatenated, before de-duplication. */
  function Candidates(users: seq<Recipient>, setores: seq<string>, funcoes: seq<string>, especificos: seq<string>)
    : (r: seq<Recipient>)
    ensures forall u :: u in r <==> u in users && Addressed(u, setores, funcoes, especificos)
  {
    var nomes := SelectedNames(especificos);
    (if setores != [] then Select(users, (u: Recipient) => u.setor in setores) else [])
    + (if funcoes != [] then Select(users, (u: Recipient) => u.funcao in funcoes) else [])
    + (if especificos != [] then Select(users, (u: Recipient) => u.nome in nomes) else [])
  }

  /**
   * What `users_db.get_users()` gives the recipient filter: it raised; a
   * pandas DataFrame, as the MySQL, SQLite and Simple stores return; or a
   * list of row dictionaries, as `SimplePsycopg2` and `UsersRepository`
   * return. Iterating a DataFrame yields its column labels, so the first
   * `user['setor']` raises TypeError.
   */
  datatype UserListing = ListingRaised | DataFrame | Records(users: seq<Recipient>)

  /**
   * `_filtrar_destinatarios(setores, funcoes, usuarios_especificos)`: the
   * bare `except` turns a raising listing, and any selection over a
   * DataFrame, into an empty answer; only a list of records reaches the
   * de-duplication.
   */
  method FilterRecipients(listing: UserListing, setores: seq<string>, funcoes: seq<string>,
                          especificos: seq<string>) returns (r: seq<Recipient>)
    ensures !listing.Records? ==> r == []
    ensures listing.Records? ==>
      var c := Candidates(listing.users, setores, funcoes, especificos); r == KeepFirst(c, |c|)
    ensures DistinctIds(r)
    ensures forall u :: u in r ==> listing.Records? && u in listing.users && Addressed(u, setores, funcoes, especificos)
    ensures listing.Records? ==> forall u :: u in listing.users && Addressed(u, setores, funcoes, especificos) ==>
      exists y :: y in r && y.id == u.id
  {
    if !listing.Records? {
      return [];
    }
    var candidatos := Candidates(listing.users, setores, funcoes, especificos);
    r := DedupById(candidatos);
  }

  // ---------------------------------------------------------------------------
  // `_aplicar_filtros` (gerenciar_colaboradores)
  // ---------------------------------------------------------------------------

  /** The columns of a listed employee that the filters read. */
  datatype Employee = Employee(nome: string, setor: string, funcao: string, saldo: int)

  const Todos := "Todos"

  /** The balance labels the screen offers in its select box. */
  const OfferedSaldoLabels: seq<string> :=
    [Todos, "Baixo (menor que 3 dias)", "Normal (3-8 dias)", "Alto (maior que 8 dias)"]

  /** The balance test each rotulo selects; any other rotulo, offered ones included, tests nothing. */
  predicate SaldoPasses(rotulo: string, saldo: int)
  {
    if rotulo == "Baixo (<3)" then saldo < 3
    else if rotulo == "Normal (3-8)" then 3 <= saldo <= 8
    else if rotulo == "Alto (>8)" then saldo > 8
    else true
  }

  /** All four filters on one row: a case-insensitive name search and three selections. */
  predicate Passes(e: Employee, nome: string, setor: string, funcao: string, saldo: string)
  {
    (nome == [] || Text.Contains(Text.Lower(e.nome), Text.Lower(nome)))
    && (setor == Todos || e.setor == setor)
    && (funcao == Todos || e.funcao == funcao)
    && (saldo == Todos || SaldoPasses(saldo, e.saldo))
  }

  /**
   * `_aplicar_filtros(users_df, filtro_nome, filtro_setor, filtro_funcao,
   * filtro_saldo)`: each filter narrows the rows in turn, which is one
   * selection by all of them.
   */
  function ApplyFilters(rows: seq<Employee>, nome: string, setor: string, funcao: string, saldo: string)
    : (r: seq<Employee>)
    ensures SubList(r, rows)
    ensures forall e :: e in r <==> e in rows && Passes(e, nome, setor, funcao, saldo)
  {
    Select(rows, (e: Employee) => Passes(e, nome, setor, funcao, saldo))
  }

  /** With every filter at its neutral value nothing is removed. */
  lemma {:induction false} NeutralFiltersKeepAll(rows: seq<Employee>)
    ensures ApplyFilters(rows, [], Todos, Todos, Todos) == rows
  {
    if rows != [] {
      NeutralFiltersKeepAll(rows[..|rows| - 1]);
      assert rows == rows[..|rows| - 1] + [rows[|rows| - 1]];
    }
  }

  /** None of the balance labels the screen offers narrows the rows. */
  lemma OfferedSaldoLabelsNeverFilter(rows: seq<Employee>, nome: string, setor: string, funcao: string, rotulo: string)
    requires rotulo in OfferedSaldoLabels
    ensures ApplyFilters(rows, nome, setor, funcao, rotulo) == ApplyFilters(rows, nome, setor, funcao, Todos)
  {
    SelectSamePredicate(rows, (e: Employee) => Passes(e, nome, setor, funcao, rotulo),
                        (e: Employee) => Passes(e, nome, setor, funcao, Todos));
  }

  lemma {:induction false} SelectSamePredicate<T(!new)>(xs: seq<T>, f: T -> bool, g: T -> bool)
    requires forall x :: x in xs ==> f(x) == g(x)
    ensures Select(xs, f) == Select(xs, g)
  {
    if xs != [] {
      SelectSamePredicate(xs[..|xs| - 1], f, g);
      assert xs[|xs| - 1] in xs;
    }
  }
}
