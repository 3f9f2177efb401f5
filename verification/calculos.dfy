/**
 * Leave-day arithmetic on dates: business days (Monday to Friday, both ends
 * included), business days net of holidays, notice in days, the printed
 * period, and the next anniversary of an admission date.
 */
module Calculos {
  import opened Calendar
  import opened Wrappers
  import HtmlSecurity
  import Text

  /** Business days among the ordinals lo..hi (none when hi < lo). */
  function CountBusiness(lo: int, hi: int): (r: nat)
    ensures r <= if hi < lo then 0 else hi - lo + 1
    decreases hi - lo + 1
  {
    if hi < lo then 0 else CountBusiness(lo, hi - 1) + (if WeekdayOfOrdinal(hi) < 5 then 1 else 0)
  }

  /** `calcular_dias_uteis(inicio, fim)`. */
  function BusinessDays(inicio: Date, fim: Date): (r: nat)
    requires Valid(inicio) && Valid(fim)
    ensures Less(fim, inicio) ==> r == 0
    ensures r <= if Less(fim, inicio) then 0 else DaysBetween(fim, inicio) + 1
  {
    LessIsOrdinalOrder(fim, inicio);
    if Less(fim, inicio) then 0 else CountBusiness(Ordinal(inicio), Ordinal(fim))
  }

  /**
   * `calcular_dias_uteis` steps one day past every day it counts, and the
   * step past `LastDate` raises OverflowError: exactly when a non-empty
   * period ends on that day.
   */
  predicate StepsPastLastDate(inicio: Date, fim: Date)
  {
    !Less(fim, inicio) && fim == LastDate
  }

  /**
   * The day-by-day loop of `calcular_dias_uteis`, walking from `inicio` to
   * `fim`: the business-day count, or the OverflowError of the step past
   * the last representable date.
   */
  method CountBusinessDays(inicio: Date, fim: Date) returns (r: Result<nat, string>)
    requires Valid(inicio) && Valid(fim)
    ensures r.Failure? <==> StepsPastLastDate(inicio, fim)
    ensures r.Failure? ==> r.error == "OverflowError"
    ensures r.Success? ==> r.value == BusinessDays(inicio, fim)
  {
    LessIsOrdinalOrder(fim, inicio);
    if Less(fim, inicio) {
      return Success(0);
    }
    var lo := Ordinal(inicio);
    var hi := Ordinal(fim);
    var last := Ordinal(LastDate);
    LessIsOrdinalOrder(fim, LastDate);
    var current := lo;
    var count := 0;
    while current <= hi
      invariant lo <= current <= hi + 1 && current <= last
      invariant count == CountBusiness(lo, current - 1)
      decreases hi - current
    {
      if WeekdayOfOrdinal(current) < 5 {
        count := count + 1;
      }
      if current == last {
        return Failure("OverflowError");
      }
      current := current + 1;
    }
    return Success(count);
  }

  lemma {:induction false} CountBusinessSplit(lo: int, mid: int, hi: int)
    requires lo - 1 <= mid <= hi
    ensures CountBusiness(lo, hi) == CountBusiness(lo, mid) + CountBusiness(mid + 1, hi)
    decreases hi - mid
  {
    if mid < hi {
      CountBusinessSplit(lo, mid, hi - 1);
    }
  }

  lemma WeekdayShift(n: int, i: nat)
    ensures WeekdayOfOrdinal(n + i) == (WeekdayOfOrdinal(n) + i) % 7
  {
  }

  /** Any seven consecutive days hold exactly five business days. */
  lemma WeekHasFiveBusinessDays(lo: int)
    ensures CountBusiness(lo, lo + 6) == 5
  {
    WeekdayShift(lo, 1);
    WeekdayShift(lo, 2);
    WeekdayShift(lo, 3);
    WeekdayShift(lo, 4);
    WeekdayShift(lo, 5);
    WeekdayShift(lo, 6);
    var c0 := if WeekdayOfOrdinal(lo) < 5 then 1 else 0;
    var c1 := if WeekdayOfOrdinal(lo + 1) < 5 then 1 else 0;
    var c2 := if WeekdayOfOrdinal(lo + 2) < 5 then 1 else 0;
    var c3 := if WeekdayOfOrdinal(lo + 3) < 5 then 1 else 0;
    var c4 := if WeekdayOfOrdinal(lo + 4) < 5 then 1 else 0;
    var c5 := if WeekdayOfOrdinal(lo + 5) < 5 then 1 else 0;
    var c6 := if WeekdayOfOrdinal(lo + 6) < 5 then 1 else 0;
    assert CountBusiness(lo, lo) == c0;
    assert CountBusiness(lo, lo + 1) == c0 + c1;
    assert CountBusiness(lo, lo + 2) == c0 + c1 + c2;
    assert CountBusiness(lo, lo + 3) == c0 + c1 + c2 + c3;
    assert CountBusiness(lo, lo + 4) == c0 + c1 + c2 + c3 + c4;
    assert CountBusiness(lo, lo + 5) == c0 + c1 + c2 + c3 + c4 + c5;
    assert CountBusiness(lo, lo + 6) == c0 + c1 + c2 + c3 + c4 + c5 + c6;
  }

  /** Extending a period by a whole week adds exactly five business days. */
  lemma WholeWeekAddsFive(lo: int, hi: int)
    requires lo - 1 <= hi
    ensures CountBusiness(lo, hi + 7) == CountBusiness(lo, hi) + 5
  {
    CountBusinessSplit(lo, hi, hi + 7);
    WeekHasFiveBusinessDays(hi + 1);
  }

  /** Weekend days (Saturday, Sunday) among the ordinals lo..hi. */
  function CountWeekend(lo: int, hi: int): nat
    decreases hi - lo + 1
  {
    if hi < lo then 0 else CountWeekend(lo, hi - 1) + (if WeekdayOfOrdinal(hi) >= 5 then 1 else 0)
  }

  /** Every day of a period is either a business day or a weekend day. */
  lemma {:induction false} BusinessPlusWeekend(lo: int, hi: int)
    requires lo - 1 <= hi
    ensures CountBusiness(lo, hi) + CountWeekend(lo, hi) == hi - lo + 1
    decreases hi - lo + 1
  {
    if lo <= hi {
      BusinessPlusWeekend(lo, hi - 1);
    }
  }

  /** The holidays of a list that fall on a business day inside [inicio, fim]; repeats count again. */
  function WeekdayHolidaysIn(feriados: seq<Date>, inicio: Date, fim: Date): (r: nat)
    requires Valid(inicio) && Valid(fim)
    requires forall k :: 0 <= k < |feriados| ==> Valid(feriados[k])
    ensures r <= |feriados|
  {
    if feriados == [] then 0
    else
      var f := feriados[|feriados| - 1];
      WeekdayHolidaysIn(feriados[..|feriados| - 1], inicio, fim)
      + (if !Less(f, inicio) && !Less(fim, f) && Weekday(f) < 5 then 1 else 0)
  }

  datatype Breakdown = Breakdown(totalDias: int, diasUteisBrutos: nat, feriadosUteis: nat, diasFinais: nat, finsSemana: int)

  /**
   * `calcular_dias_com_feriados(inicio, fim, feriados)`: fails with the
   * OverflowError of `calcular_dias_uteis` on a period ending on `LastDate`.
   */
  function DaysWithHolidays(inicio: Date, fim: Date, feriados: seq<Date>): (r: Result<Breakdown, string>)
    requires Valid(inicio) && Valid(fim)
    requires forall k :: 0 <= k < |feriados| ==> Valid(feriados[k])
    ensures r.Failure? <==> StepsPastLastDate(inicio, fim)
    ensures r.Success? ==> r.value.totalDias == DaysBetween(fim, inicio) + 1
    ensures r.Success? ==> r.value.diasUteisBrutos == BusinessDays(inicio, fim)
    ensures r.Success? ==> r.value.diasFinais <= r.value.diasUteisBrutos
    ensures r.Success? ==> r.value.diasFinais ==
                             if r.value.feriadosUteis >= r.value.diasUteisBrutos then 0
                             else r.value.diasUteisBrutos - r.value.feriadosUteis
    ensures r.Success? ==> r.value.finsSemana == r.value.totalDias - r.value.diasUteisBrutos
  {
    if StepsPastLastDate(inicio, fim) then Failure("OverflowError")
    else
      var total := DaysBetween(fim, inicio) + 1;
      var brutos := BusinessDays(inicio, fim);
      var uteis := WeekdayHolidaysIn(feriados, inicio, fim);
      Success(Breakdown(total, brutos, uteis, if brutos - uteis > 0 then brutos - uteis else 0, total - brutos))
  }

  /** For a non-empty period the weekend count is the number of Saturdays and Sundays in it. */
  lemma WeekendCount(inicio: Date, fim: Date, feriados: seq<Date>)
    requires Valid(inicio) && Valid(fim) && !Less(fim, inicio)
    requires forall k :: 0 <= k < |feriados| ==> Valid(feriados[k])
    ensures var r := DaysWithHolidays(inicio, fim, feriados);
      r.Success? ==> r.value.finsSemana == CountWeekend(Ordinal(inicio), Ordinal(fim))
  {
    LessIsOrdinalOrder(fim, inicio);
    BusinessPlusWeekend(Ordinal(inicio), Ordinal(fim));
  }

  /** A business-day holiday listed twice is deducted twice. */
  lemma DuplicateHolidayCountsTwice(inicio: Date, fim: Date, feriados: seq<Date>, h: Date)
    requires Valid(inicio) && Valid(fim) && Valid(h)
    requires forall k :: 0 <= k < |feriados| ==> Valid(feriados[k])
    requires !Less(h, inicio) && !Less(fim, h) && Weekday(h) < 5
    ensures WeekdayHolidaysIn(feriados + [h, h], inicio, fim) == WeekdayHolidaysIn(feriados, inicio, fim) + 2
  {
    var once := feriados + [h];
    var twice := feriados + [h, h];
    assert twice[..|twice| - 1] == once;
    assert once[..|once| - 1] == feriados;
  }

  /** `calcular_antecedencia(inicio, referencia)`: negative exactly when the period starts before the reference. */
  function Antecedencia(inicio: Date, referencia: Date): (r: int)
    requires Valid(inicio) && Valid(referencia)
    ensures r < 0 <==> Less(inicio, referencia)
    ensures r == 0 <==> inicio == referencia
  {
    LessIsOrdinalOrder(inicio, referencia);
    DaysBetween(inicio, referencia)
  }

  /** `formatar_periodo_ferias(inicio, fim)`: "DD/MM/YYYY a DD/MM/YYYY" through the HTML sanitiser. */
  function FormatPeriod(inicio: Date, fim: Date): (r: string)
    requires Valid(inicio) && Valid(fim)
  {
    HtmlSecurity.SanitizeHtml(HtmlSecurity.Str(FormatBr(inicio) + " a " + FormatBr(fim)))
  }

  /** The sanitiser leaves the printed period unchanged. */
  lemma FormatPeriodText(inicio: Date, fim: Date)
    requires Valid(inicio) && Valid(fim)
    ensures FormatPeriod(inicio, fim) == FormatBr(inicio) + " a " + FormatBr(fim)
    ensures |FormatPeriod(inicio, fim)| == 23
  {
    var s := FormatBr(inicio) + " a " + FormatBr(fim);
    PeriodTextChars(inicio, fim);
    NoMarkerInPlainText(s);
    HtmlSecurity.SanitizePlain(s);
  }

  predicate PlainChar(c: char)
  {
    Text.IsDigit(c) || c == '/' || c == ' ' || c == 'a'
  }

  lemma PeriodTextChars(inicio: Date, fim: Date)
    requires Valid(inicio) && Valid(fim)
    ensures var s := FormatBr(inicio) + " a " + FormatBr(fim);
      forall i :: 0 <= i < |s| ==> PlainChar(s[i])
  {
    PrintedDatePlain(inicio);
    PrintedDatePlain(fim);
    PlainJoin(FormatBr(inicio), FormatBr(fim));
  }

  lemma PrintedDatePlain(d: Date)
    requires Valid(d)
    ensures forall i :: 0 <= i < |FormatBr(d)| ==> PlainChar(FormatBr(d)[i])
  {
    FormatBrDigits(d);
  }

  lemma PlainJoin(a: string, b: string)
    requires forall i :: 0 <= i < |a| ==> PlainChar(a[i])
    requires forall i :: 0 <= i < |b| ==> PlainChar(b[i])
    ensures forall i :: 0 <= i < |a + " a " + b| ==> PlainChar((a + " a " + b)[i])
  {
  }

  lemma NoMarkerInPlainText(s: string)
    requires forall i :: 0 <= i < |s| ==> PlainChar(s[i])
    ensures forall i :: 0 <= i < |s| ==> s[i] != '&' && s[i] != '<' && s[i] != '>' && s[i] != '"' && s[i] != '\''
    ensures forall k, i :: 0 <= k < |HtmlSecurity.Markers| && 0 <= i < |s| ==> !HtmlSecurity.MatchesAt(s, HtmlSecurity.Markers[k], i)
  {
    forall k, i | 0 <= k < |HtmlSecurity.Markers| && 0 <= i < |s|
      ensures !HtmlSecurity.MatchesAt(s, HtmlSecurity.Markers[k], i)
    {
      var m := HtmlSecurity.Markers[k];
      assert m[0] == 'j' || m[0] == 'v' || m[0] == 'o';
      assert !HtmlSecurity.FoldMatch(s[i], m[0]);
    }
  }

  /** The `ValueError` texts of `date.replace` for a bad day and for a year past 9999. */
  const DayOutOfRange := "day is out of range for month"
  const YearOverflow := "year 10000 is out of range"

  /**
   * `calcular_proximo_aniversario_admissao(admissao, referencia)`: the
   * admission's day and month in the reference year, or in the next year when
   * that is not after the reference. `date.replace` raising for 29 February in
   * a common year, or for a year past 9999, is the failure; the year is
   * checked first, so a move to year 10000 carries the year's message.
   */
  function NextAnniversary(admissao: Date, referencia: Date): (r: Result<Date, string>)
    requires Valid(admissao) && Valid(referencia)
    ensures r.Success? ==> Valid(r.value) && Less(referencia, r.value)
    ensures r.Success? ==> r.value.month == admissao.month && r.value.day == admissao.day
    ensures r.Success? ==> r.value.year == referencia.year || r.value.year == referencia.year + 1
    ensures r.Success? && r.value.year == referencia.year + 1 ==>
              !Valid(Date(referencia.year, admissao.month, admissao.day)) || !Less(referencia, Date(referencia.year, admissao.month, admissao.day))
    ensures r.Failure? ==> (admissao.month == 2 && admissao.day == 29) || referencia.year == MaxYear
    ensures r.Failure? ==> (r.error == YearOverflow <==> referencia.year == MaxYear
                                                         && Valid(Date(referencia.year, admissao.month, admissao.day)))
    ensures r.Failure? && r.error != YearOverflow ==> r.error == DayOutOfRange && admissao.month == 2 && admissao.day == 29
  {
    var este := Date(referencia.year, admissao.month, admissao.day);
    if !Valid(este) then Failure(DayOutOfRange)
    else if Less(referencia, este) then Success(este)
    else
      var proximo := Date(referencia.year + 1, admissao.month, admissao.day);
      if proximo.year > MaxYear then Failure(YearOverflow)
      else if !Valid(proximo) then Failure(DayOutOfRange)
      else Success(proximo)
  }

  /** Apart from 29 February and the last representable year, the next anniversary always exists. */
  lemma NextAnniversaryExists(admissao: Date, referencia: Date)
    requires Valid(admissao) && Valid(referencia)
    requires !(admissao.month == 2 && admissao.day == 29) && referencia.year < MaxYear
    ensures NextAnniversary(admissao, referencia).Success?
  {
  }
}
