/**
 * System-wide constants: balance limits, default balance, minimum notice,
 * the request statuses and the access levels. The limits are a parameter of
 * the rules because the repository holds two sets of values: the ones the
 * constants module defines and the ones its unit tests expect.
 */
module Constantes {
  import opened Wrappers

  datatype Limits = Limits(saldoMinimo: int, saldoMaximo: int, saldoPadrao: int, diasAntecedencia: int)
  {
    /** The shape every configuration must have: a non-empty range holding the default. */
    predicate WellFormed()
    {
      saldoMinimo < saldoMaximo && saldoMinimo <= saldoPadrao <= saldoMaximo && diasAntecedencia >= 0
    }
  }

  /** SALDO_MINIMO, SALDO_MAXIMO, DIAS_FERIAS_PADRAO and DIAS_ANTECEDENCIA_MINIMA as the constants module defines them. */
  const SourceLimits := Limits(0, 30, 12, 7)

  /** The maximum balance (12) and minimum notice (30) the unit tests assert instead. */
  const TestedLimits := Limits(0, 12, 12, 30)

  /** Both configurations are well formed; they differ in the maximum and in the notice. */
  lemma LimitsWellFormed()
    ensures SourceLimits.WellFormed() && TestedLimits.WellFormed()
    ensures SourceLimits.saldoMaximo != TestedLimits.saldoMaximo
    ensures SourceLimits.diasAntecedencia != TestedLimits.diasAntecedencia
  {
  }

  /** The four request statuses of STATUS_FERIAS. */
  datatype Status = Aprovada | Pendente | Cancelada | Rejeitada

  /** The dictionary key of a status. */
  function StatusKey(s: Status): string
  {
    match s
    case Aprovada => "APROVADA"
    case Pendente => "PENDENTE"
    case Cancelada => "CANCELADA"
    case Rejeitada => "REJEITADA"
  }

  /** The stored (feminine) label of a status. */
  function StatusLabel(s: Status): (r: string)
  {
    match s
    case Aprovada => "Aprovada"
    case Pendente => "Pendente"
    case Cancelada => "Cancelada"
    case Rejeitada => "Rejeitada"
  }

  /** STATUS_FERIAS_OPTIONS: the labels in declaration order. */
  const StatusOptions: seq<string> := ["Aprovada", "Pendente", "Cancelada", "Rejeitada"]

  /** Reads a stored label back; anything else is not a status of the enumeration. */
  function ParseStatus(text: string): (r: Option<Status>)
    ensures r.Some? <==> text in StatusOptions
    ensures r.Some? ==> StatusLabel(r.value) == text
  {
    if text == "Aprovada" then Some(Aprovada)
    else if text == "Pendente" then Some(Pendente)
    else if text == "Cancelada" then Some(Cancelada)
    else if text == "Rejeitada" then Some(Rejeitada)
    else None
  }

  /** Labels and statuses correspond one to one. */
  lemma StatusRoundTrip(s: Status)
    ensures ParseStatus(StatusLabel(s)) == Some(s)
    ensures StatusLabel(s) in StatusOptions
  {
  }

  /** The four access levels of NIVEIS_ACESSO. */
  datatype Level = Master | Diretoria | Coordenador | Colaborador

  function LevelKey(l: Level): string
  {
    match l
    case Master => "master"
    case Diretoria => "diretoria"
    case Coordenador => "coordenador"
    case Colaborador => "colaborador"
  }

  function LevelDescription(l: Level): string
  {
    match l
    case Master => "RH - Acesso Total"
    case Diretoria => "Diretoria - Relatórios Executivos"
    case Coordenador => "Coordenador - Gestão do Setor"
    case Colaborador => "Colaborador - Visualização Pessoal"
  }

  function ParseLevel(key: string): (r: Option<Level>)
    ensures r.Some? ==> LevelKey(r.value) == key
    ensures r.None? <==> key !in {"master", "diretoria", "coordenador", "colaborador"}
  {
    if key == "master" then Some(Master)
    else if key == "diretoria" then Some(Diretoria)
    else if key == "coordenador" then Some(Coordenador)
    else if key == "colaborador" then Some(Colaborador)
    else None
  }

  lemma LevelRoundTrip(l: Level)
    ensures ParseLevel(LevelKey(l)) == Some(l)
  {
  }

  /** The level that bypasses the notice rule. */
  const HrLevel := "master"
}
