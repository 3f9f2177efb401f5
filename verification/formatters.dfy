/**
 * The display formatters: a date shown as DD/MM/YYYY (a date object, an
 * ISO text, or anything else shown unchanged) and a balance shown with
 * the singular or plural word for days.
 */
module Formatters {
  import opened Wrappers
  import opened Calendar
  import Text
  import Validacao

  /** What `formatar_data_brasileira` may receive. */
  datatype Shown =
    | ShownDate(d: Date)      // an object with `strftime`
    | ShownText(s: string)    // a `str`
    | ShownOther(repr: string) // anything else, with its `str()`

  /**
   * `formatar_data_brasileira(data)`: a date is printed DD/MM/YYYY; a text
   * that reads as YYYY-MM-DD is reprinted that way; any other text, and
   * any other value, is shown as it is.
   */
  function FormatDate(v: Shown): (r: string)
    requires v.ShownDate? ==> Valid(v.d)
    ensures v.ShownDate? ==> Validacao.ParseBr(r) == Some(v.d)
    ensures v.ShownText? && Validacao.ParseIso(v.s).None? ==> r == v.s
    ensures v.ShownText? && Validacao.ParseIso(v.s).Some? ==> Validacao.ParseBr(r) == Validacao.ParseIso(v.s)
    ensures v.ShownOther? ==> r == v.repr
  {
    match v
    case ShownDate(d) =>
      Validacao.ParseBrRoundTrip(d);
      FormatBr(d)
    case ShownText(s) =>
      var parsed := Validacao.ParseIso(s);
      if parsed.Some? then
        Validacao.ParseBrRoundTrip(parsed.value);
        FormatBr(parsed.value)
      else s
    case ShownOther(repr) => repr
  }

  /** An ISO text and the date it spells are shown alike. */
  lemma IsoTextShownAsItsDate(d: Date)
    requires Valid(d)
    ensures FormatDate(ShownText(FormatIso(d))) == FormatDate(ShownDate(d))
  {
    Validacao.ParseIsoRoundTrip(d);
  }

  /** Formatting a text twice is formatting it once: the Brazilian form is not read as ISO again. */
  lemma FormatDateIdempotent(s: string)
    ensures FormatDate(ShownText(FormatDate(ShownText(s)))) == FormatDate(ShownText(s))
  {
    var parsed := Validacao.ParseIso(s);
    if parsed.Some? {
      Validacao.BrTextIsNotIso(parsed.value);
    }
  }

  /** `formatar_saldo_ferias(saldo)`: "1 dia" for one day, "N dias" for any other count, zero included. */
  function FormatBalance(saldo: int): (r: string)
    ensures r == Text.IntToString(saldo) + (if saldo == 1 then " dia" else " dias")
  {
    if saldo == 1 then "1 dia" else Text.IntToString(saldo) + " dias"
  }

  /** The count shown reads back as the balance, and the singular word appears exactly for one day. */
  lemma FormatBalanceReadsBack(saldo: int)
    ensures var r := FormatBalance(saldo);
      var n := |Text.IntToString(saldo)|;
      n < |r| && Validacao.ParseInt(r[..n]) == Some(saldo) && (r[n..] == " dia" <==> saldo == 1)
  {
    var r := FormatBalance(saldo);
    var n := |Text.IntToString(saldo)|;
    assert r[..n] == Text.IntToString(saldo);
    Validacao.ParseIntRoundTrip(saldo);
    assert r[n..] == (if saldo == 1 then " dia" else " dias");
  }
}
