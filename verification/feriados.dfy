/**
 * The fixed Brazilian national holidays: the eight dates of a year, their
 * names, the holidays that fall inside a period, and the next holiday after a
 * reference date.
 */
module Feriados {
  import opened Calendar
  import opened Wrappers

  /** The (month, day) of each fixed national holiday, in calendar order. */
  const HolidayDays: seq<(int, int)> := [(1, 1), (4, 21), (5, 1), (9, 7), (10, 12), (11, 2), (11, 15), (12, 25)]

  const DefaultName := "Feriado Nacional"

  predicate IsHolidayDay(m: int, d: int)
  {
    (m, d) in HolidayDays
  }

  /** `obter_feriados_nacionais(ano)`. */
  function NationalHolidays(y: int): (r: seq<Date>)
    requires MinYear <= y <= MaxYear
    ensures |r| == 8
    ensures forall k :: 0 <= k < 8 ==> Valid(r[k]) && r[k].year == y && (r[k].month, r[k].day) == HolidayDays[k]
    ensures forall j, k :: 0 <= j < k < 8 ==> Less(r[j], r[k])
    ensures forall d :: d in r <==> d.year == y && IsHolidayDay(d.month, d.day)
  {
    seq(8, k requires 0 <= k < 8 => Date(y, HolidayDays[k].0, HolidayDays[k].1))
  }

  /** `obter_nome_feriado`: the holiday's name, or the generic label for any other day. */
  function HolidayName(d: Date): (r: string)
    ensures !IsHolidayDay(d.month, d.day) <==> r == DefaultName
  {
    match (d.month, d.day)
    case (1, 1) => "Confraternização Universal"
    case (4, 21) => "Tiradentes"
    case (5, 1) => "Dia do Trabalhador"
    case (9, 7) => "Independência do Brasil"
    case (10, 12) => "Nossa Senhora Aparecida"
    case (11, 2) => "Finados"
    case (11, 15) => "Proclamação da República"
    case (12, 25) => "Natal"
    case _ => DefaultName
  }

  /** The eight holidays have eight different names. */
  lemma HolidayNamesDistinct(y: int)
    requires MinYear <= y <= MaxYear
    ensures forall j, k :: 0 <= j < k < 8 ==> HolidayName(NationalHolidays(y)[j]) != HolidayName(NationalHolidays(y)[k])
  {
  }

  /** `eh_feriado(d)`. */
  function IsHoliday(d: Date): (r: bool)
    requires Valid(d)
    ensures r <==> IsHolidayDay(d.month, d.day)
  {
    d in NationalHolidays(d.year)
  }

  datatype HolidayEntry = HolidayEntry(date: Date, name: string, weekday: int)

  function Entry(h: Date): (e: HolidayEntry)
    requires Valid(h)
  {
    HolidayEntry(h, HolidayName(h), Weekday(h))
  }

  /** `a <= h <= b` on dates. */
  predicate InPeriod(h: Date, a: Date, b: Date)
  {
    !Less(h, a) && !Less(b, h)
  }

  predicate Ascending(ds: seq<Date>)
  {
    forall j, k :: 0 <= j < k < |ds| ==> Less(ds[j], ds[k])
  }

  predicate AllValid(ds: seq<Date>)
  {
    forall k :: 0 <= k < |ds| ==> Valid(ds[k])
  }

  /** The holidays of the years `y`..`last`, year after year. */
  function YearsHolidays(y: int, last: int): (r: seq<Date>)
    requires MinYear <= y && last <= MaxYear
    decreases last - y
  {
    if y > last then [] else NationalHolidays(y) + YearsHolidays(y + 1, last)
  }

  lemma {:induction false} YearsHolidaysSpec(y: int, last: int)
    requires MinYear <= y && last <= MaxYear
    ensures AllValid(YearsHolidays(y, last)) && Ascending(YearsHolidays(y, last))
    ensures forall d :: d in YearsHolidays(y, last) <==> y <= d.year <= last && IsHolidayDay(d.month, d.day)
    decreases last - y
  {
    if y <= last {
      YearsHolidaysSpec(y + 1, last);
      var hs := NationalHolidays(y);
      var rest := YearsHolidays(y + 1, last);
      forall x, z | x in hs && z in rest
        ensures Less(x, z)
      {
      }
      AscendingConcat(hs, rest);
    }
  }

  lemma AscendingConcat(xs: seq<Date>, ys: seq<Date>)
    requires Ascending(xs) && Ascending(ys)
    requires forall x, z :: x in xs && z in ys ==> Less(x, z)
    ensures Ascending(xs + ys)
  {
    forall j, k | 0 <= j < k < |xs + ys|
      ensures Less((xs + ys)[j], (xs + ys)[k])
    {
      if k < |xs| {
        assert (xs + ys)[j] == xs[j] && (xs + ys)[k] == xs[k];
      } else if j >= |xs| {
        assert (xs + ys)[j] == ys[j - |xs|] && (xs + ys)[k] == ys[k - |xs|];
      } else {
        assert (xs + ys)[j] in xs && (xs + ys)[k] in ys;
      }
    }
  }

  /** The dates of `ds` with a <= d <= b, in their original order. */
  function Select(ds: seq<Date>, a: Date, b: Date): (r: seq<Date>)
  {
    if ds == [] then []
    else if InPeriod(ds[0], a, b) then [ds[0]] + Select(ds[1..], a, b)
    else Select(ds[1..], a, b)
  }

  lemma {:induction false} SelectSpec(ds: seq<Date>, a: Date, b: Date)
    ensures forall d :: d in Select(ds, a, b) <==> d in ds && InPeriod(d, a, b)
    ensures AllValid(ds) ==> AllValid(Select(ds, a, b))
    ensures Ascending(ds) ==> Ascending(Select(ds, a, b))
  {
    if ds != [] {
      SelectSpec(ds[1..], a, b);
      var rest := Select(ds[1..], a, b);
      if InPeriod(ds[0], a, b) && Ascending(ds) {
        assert forall d :: d in rest ==> d in ds[1..];
        AscendingConcat([ds[0]], rest);
      }
    }
  }

  /** The dates `obter_feriados_no_periodo(a, b)` reports, before they are decorated. */
  function PeriodDates(a: Date, b: Date): (r: seq<Date>)
    requires Valid(a) && Valid(b)
  {
    if Less(b, a) then [] else Select(YearsHolidays(a.year, b.year), a, b)
  }

  /**
   * The year-collecting walk of `obter_feriados_no_periodo` moves from a
   * December to 1 January of the next year, a date that does not exist
   * after December 9999, so `date` raises ValueError. The walk reaches that
   * month exactly when a non-empty period ends in it.
   */
  predicate ReachesLastMonth(a: Date, b: Date)
  {
    !Less(b, a) && b.year == MaxYear && b.month == 12
  }

  /** The decorated holidays of the period, when the walk completes. */
  function PeriodEntries(a: Date, b: Date): (r: seq<HolidayEntry>)
    requires Valid(a) && Valid(b)
    ensures |r| == |PeriodDates(a, b)|
  {
    var ds := PeriodDates(a, b);
    PeriodDatesSpec(a, b);
    seq(|ds|, k requires 0 <= k < |ds| => Entry(ds[k]))
  }

  /**
   * `obter_feriados_no_periodo(a, b)`: the holidays of every year the period
   * touches, kept when a <= h <= b, with name and weekday, in date order;
   * the ValueError of the walk past December 9999 otherwise.
   */
  function HolidaysInPeriod(a: Date, b: Date): (r: Result<seq<HolidayEntry>, string>)
    requires Valid(a) && Valid(b)
    ensures r.Failure? <==> ReachesLastMonth(a, b)
    ensures r.Success? ==> |r.value| == |PeriodDates(a, b)|
  {
    if ReachesLastMonth(a, b) then Failure("ValueError") else Success(PeriodEntries(a, b))
  }

  lemma PeriodDatesSpec(a: Date, b: Date)
    requires Valid(a) && Valid(b)
    ensures AllValid(PeriodDates(a, b)) && Ascending(PeriodDates(a, b))
    ensures forall h :: Valid(h) ==> (h in PeriodDates(a, b) <==> IsHoliday(h) && InPeriod(h, a, b))
  {
    if !Less(b, a) {
      YearsHolidaysSpec(a.year, b.year);
      SelectSpec(YearsHolidays(a.year, b.year), a, b);
    }
  }

  /** The decorated list holds exactly the national holidays h with a <= h <= b, ascending, each with its name and weekday. */
  lemma PeriodEntriesSpec(a: Date, b: Date)
    requires Valid(a) && Valid(b)
    ensures var es := PeriodEntries(a, b);
      forall k :: 0 <= k < |es| ==> Valid(es[k].date) && es[k] == Entry(es[k].date)
    ensures var es := PeriodEntries(a, b);
      forall h :: Valid(h) ==> ((exists k :: 0 <= k < |es| && es[k].date == h) <==> IsHoliday(h) && InPeriod(h, a, b))
    ensures var es := PeriodEntries(a, b);
      forall j, k :: 0 <= j < k < |es| ==> Less(es[j].date, es[k].date)
    ensures Less(b, a) ==> PeriodEntries(a, b) == []
  {
    PeriodDatesSpec(a, b);
    var ds := PeriodDates(a, b);
    var es := PeriodEntries(a, b);
    assert forall k :: 0 <= k < |es| ==> es[k].date == ds[k];
  }

  /**
   * The period list fails exactly when the walk passes December 9999;
   * otherwise it holds exactly the national holidays h with a <= h <= b,
   * ascending, each with its name and weekday.
   */
  lemma HolidaysInPeriodSpec(a: Date, b: Date)
    requires Valid(a) && Valid(b)
    ensures HolidaysInPeriod(a, b).Failure? <==> ReachesLastMonth(a, b)
    ensures var r := HolidaysInPeriod(a, b);
      r.Success? ==> forall k :: 0 <= k < |r.value| ==> Valid(r.value[k].date) && r.value[k] == Entry(r.value[k].date)
    ensures var r := HolidaysInPeriod(a, b);
      r.Success? ==> forall h :: Valid(h) ==>
        ((exists k :: 0 <= k < |r.value| && r.value[k].date == h) <==> IsHoliday(h) && InPeriod(h, a, b))
    ensures var r := HolidaysInPeriod(a, b);
      r.Success? ==> forall j, k :: 0 <= j < k < |r.value| ==> Less(r.value[j].date, r.value[k].date)
    ensures Less(b, a) ==> HolidaysInPeriod(a, b) == Success([])
  {
    PeriodEntriesSpec(a, b);
  }

  /** The number of entries whose weekday is Monday to Friday. */
  function CountWeekdayEntries(es: seq<HolidayEntry>): (r: nat)
    ensures r == |set k | 0 <= k < |es| && es[k].weekday < 5|
  {
    if es == [] then 0
    else
      var n := |es| - 1;
      WeekdayIndicesSnoc(es);
      CountWeekdayEntries(es[..n]) + (if es[n].weekday < 5 then 1 else 0)
  }

  lemma WeekdayIndicesSnoc(es: seq<HolidayEntry>)
    requires es != []
    ensures var n := |es| - 1;
      var before := set k | 0 <= k < n && es[..n][k].weekday < 5;
      (set k | 0 <= k < |es| && es[k].weekday < 5) == before + (if es[n].weekday < 5 then {n} else {}) &&
      n !in before
  {
  }

  /**
   * `contar_feriados_periodo(a, b)`: the period's holidays that fall Monday
   * to Friday, or the failure of the period list.
   */
  function CountHolidaysInPeriod(a: Date, b: Date): (r: Result<nat, string>)
    requires Valid(a) && Valid(b)
    ensures r.Failure? <==> ReachesLastMonth(a, b)
    ensures var es := HolidaysInPeriod(a, b);
      r.Success? ==> es.Success? && r.value == |set k | 0 <= k < |es.value| && es.value[k].weekday < 5|
  {
    var es := HolidaysInPeriod(a, b);
    if es.Failure? then Failure(es.error) else Success(CountWeekdayEntries(es.value))
  }

  /** The count is positive exactly when some national holiday inside the period falls Monday to Friday. */
  lemma CountPositiveIffWeekdayHoliday(a: Date, b: Date)
    requires Valid(a) && Valid(b)
    ensures var r := CountHolidaysInPeriod(a, b);
      r.Success? ==> (r.value > 0 <==> exists h :: Valid(h) && IsHoliday(h) && InPeriod(h, a, b) && Weekday(h) < 5)
  {
    if !ReachesLastMonth(a, b) {
      var es := PeriodEntries(a, b);
      assert CountHolidaysInPeriod(a, b) == Success(CountWeekdayEntries(es));
      WeekdayCountPositive(es);
      WeekdayEntryIffHoliday(a, b);
    }
  }

  lemma WeekdayCountPositive(es: seq<HolidayEntry>)
    ensures CountWeekdayEntries(es) > 0 <==> exists k :: 0 <= k < |es| && es[k].weekday < 5
  {
    var idx := set k | 0 <= k < |es| && es[k].weekday < 5;
    if k :| 0 <= k < |es| && es[k].weekday < 5 {
      assert k in idx;
    }
  }

  lemma WeekdayEntryIffHoliday(a: Date, b: Date)
    requires Valid(a) && Valid(b)
    ensures var es := PeriodEntries(a, b);
      (exists k :: 0 <= k < |es| && es[k].weekday < 5) <==>
      (exists h :: Valid(h) && IsHoliday(h) && InPeriod(h, a, b) && Weekday(h) < 5)
  {
    PeriodEntriesSpec(a, b);
    var es := PeriodEntries(a, b);
    if k :| 0 <= k < |es| && es[k].weekday < 5 {
      var h := es[k].date;
      assert Valid(h) && es[k] == Entry(h);
      assert IsHoliday(h) && InPeriod(h, a, b);
    }
    if h :| Valid(h) && IsHoliday(h) && InPeriod(h, a, b) && Weekday(h) < 5 {
      var k :| 0 <= k < |es| && es[k].date == h;
      assert es[k] == Entry(h);
    }
  }

  datatype NextHolidayInfo = NextHolidayInfo(date: Date, name: string, daysLeft: int)

  function FirstAfter(hs: seq<Date>, ref: Date): (r: int)
    ensures -1 <= r < |hs|
    ensures r >= 0 ==> Less(ref, hs[r]) && forall k :: 0 <= k < r ==> !Less(ref, hs[k])
    ensures r == -1 ==> forall k :: 0 <= k < |hs| ==> !Less(ref, hs[k])
  {
    if hs == [] then -1
    else if Less(ref, hs[0]) then 0
    else
      var k := FirstAfter(hs[1..], ref);
      if k < 0 then -1 else k + 1
  }

  /**
   * `proximo_feriado(ref)`: the first holiday of the reference year strictly
   * after `ref`, otherwise 1 January of the next year; building that date past
   * year 9999 is the `ValueError` of `date()`.
   */
  function NextHoliday(ref: Date): (r: Result<NextHolidayInfo, string>)
    requires Valid(ref)
  {
    var hs := NationalHolidays(ref.year);
    var k := FirstAfter(hs, ref);
    if k >= 0 then
      Success(NextHolidayInfo(hs[k], HolidayName(hs[k]), DaysBetween(hs[k], ref)))
    else if ref.year + 1 > MaxYear then
      Failure("year is out of range")
    else
      var h := Date(ref.year + 1, 1, 1);
      Success(NextHolidayInfo(h, HolidayName(h), DaysBetween(h, ref)))
  }

  /** The search fails only past the last holiday of year 9999. */
  lemma NextHolidayFailure(ref: Date)
    requires Valid(ref)
    ensures NextHoliday(ref).Failure? <==> ref.year == MaxYear && !Less(ref, Date(MaxYear, 12, 25))
  {
    var hs := NationalHolidays(ref.year);
    var k := FirstAfter(hs, ref);
    if k >= 0 {
      assert Less(ref, hs[k]) && !Less(hs[7], hs[k]);
    } else {
      assert !Less(ref, hs[7]);
    }
  }

  /**
   * The next holiday is a holiday strictly after the reference date, with a
   * positive day count, and no holiday lies strictly between the two.
   */
  lemma NextHolidaySpec(ref: Date)
    requires Valid(ref)
    ensures NextHoliday(ref).Success? ==>
              var n := NextHoliday(ref).value;
              Valid(n.date) && IsHoliday(n.date) && Less(ref, n.date) && n.daysLeft > 0
              && n.daysLeft == DaysBetween(n.date, ref) && n.name == HolidayName(n.date)
              && forall h :: Valid(h) && IsHoliday(h) && Less(ref, h) ==> !Less(h, n.date)
  {
    var hs := NationalHolidays(ref.year);
    var k := FirstAfter(hs, ref);
    if k >= 0 {
      NextInYear(ref, hs, k);
    } else if ref.year + 1 <= MaxYear {
      NextInFollowingYear(ref, hs);
    }
  }

  lemma NextInYear(ref: Date, hs: seq<Date>, k: int)
    requires Valid(ref) && hs == NationalHolidays(ref.year) && 0 <= k < |hs|
    requires Less(ref, hs[k]) && forall j :: 0 <= j < k ==> !Less(ref, hs[j])
    ensures Ordinal(hs[k]) > Ordinal(ref)
    ensures forall h :: Valid(h) && IsHoliday(h) && Less(ref, h) ==> !Less(h, hs[k])
  {
    LessIsOrdinalOrder(ref, hs[k]);
    forall h | Valid(h) && IsHoliday(h) && Less(ref, h)
      ensures !Less(h, hs[k])
    {
    }
  }

  lemma NextInFollowingYear(ref: Date, hs: seq<Date>)
    requires Valid(ref) && ref.year + 1 <= MaxYear && hs == NationalHolidays(ref.year)
    requires forall j :: 0 <= j < |hs| ==> !Less(ref, hs[j])
    ensures Ordinal(Date(ref.year + 1, 1, 1)) > Ordinal(ref)
    ensures forall h :: Valid(h) && IsHoliday(h) && Less(ref, h) ==> !Less(h, Date(ref.year + 1, 1, 1))
  {
    var n := Date(ref.year + 1, 1, 1);
    LessIsOrdinalOrder(ref, n);
    forall h | Valid(h) && IsHoliday(h) && Less(ref, h)
      ensures !Less(h, n)
    {
    }
  }
}
