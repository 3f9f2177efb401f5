/**
 * The proleptic Gregorian calendar as Python's `datetime.date` implements it:
 * years 1..9999, day ordinals counted from 0001-01-01 (ordinal 1, a Monday),
 * `weekday()` with Monday = 0, date subtraction as a difference of ordinals,
 * and `strftime` with the `%d`, `%m` and `%Y` directives.
 */
module Calendar {
  import Text

  const MinYear := 1
  const MaxYear := 9999

  datatype Date = Date(year: int, month: int, day: int)

  /** `date.max`: no valid date comes after it. */
  const LastDate := Date(MaxYear, 12, 31)

  predicate IsLeap(y: int)
  {
    y % 4 == 0 && (y % 100 != 0 || y % 400 == 0)
  }

  function DaysInMonth(y: int, m: int): (r: int)
    requires 1 <= m <= 12
    ensures 28 <= r <= 31
    ensures m == 2 ==> (r == 29 <==> IsLeap(y))
  {
    if m == 2 then (if IsLeap(y) then 29 else 28)
    else if m == 4 || m == 6 || m == 9 || m == 11 then 30
    else 31
  }

  function DaysInYear(y: int): (r: int)
    ensures r == 365 || r == 366
    ensures r == 366 <==> IsLeap(y)
  {
    if IsLeap(y) then 366 else 365
  }

  /** A date Python's `date(y, m, d)` accepts. */
  predicate Valid(d: Date)
  {
    MinYear <= d.year <= MaxYear && 1 <= d.month <= 12 && 1 <= d.day <= DaysInMonth(d.year, d.month)
  }

  /** Days in the years before `y`. */
  function DaysBeforeYear(y: int): int
    requires y >= 1
  {
    var p := y - 1;
    p * 365 + p / 4 - p / 100 + p / 400
  }

  /** Days in the months of year `y` before month `m`. */
  function DaysBeforeMonth(y: int, m: int): int
    requires 1 <= m <= 13
  {
    (if m == 1 then 0 else if m == 2 then 31 else if m == 3 then 59 else if m == 4 then 90
     else if m == 5 then 120 else if m == 6 then 151 else if m == 7 then 181 else if m == 8 then 212
     else if m == 9 then 243 else if m == 10 then 273 else if m == 11 then 304 else if m == 12 then 334
     else 365)
    + (if m > 2 && IsLeap(y) then 1 else 0)
  }

  /** `date.toordinal()`. */
  function Ordinal(d: Date): int
    requires Valid(d)
  {
    DaysBeforeYear(d.year) + DaysBeforeMonth(d.year, d.month) + d.day
  }

  /** `date.weekday()` of the date with ordinal `n`: Monday is 0, Sunday is 6. */
  function WeekdayOfOrdinal(n: int): (r: int)
    ensures 0 <= r < 7
  {
    (n + 6) % 7
  }

  function Weekday(d: Date): (r: int)
    requires Valid(d)
    ensures 0 <= r < 7
  {
    WeekdayOfOrdinal(Ordinal(d))
  }

  /** `(a - b).days`. */
  function DaysBetween(a: Date, b: Date): int
    requires Valid(a) && Valid(b)
  {
    Ordinal(a) - Ordinal(b)
  }

  /** Python's comparison of dates: lexicographic on (year, month, day). */
  predicate Less(a: Date, b: Date)
  {
    a.year < b.year || (a.year == b.year && (a.month < b.month || (a.month == b.month && a.day < b.day)))
  }

  lemma DaysBeforeMonthStep(y: int, m: int)
    requires 1 <= m <= 12
    ensures DaysBeforeMonth(y, m + 1) == DaysBeforeMonth(y, m) + DaysInMonth(y, m)
  {
  }

  lemma {:induction false} DaysBeforeMonthMonotone(y: int, m1: int, m2: int)
    requires 1 <= m1 < m2 <= 13
    ensures DaysBeforeMonth(y, m1) + DaysInMonth(y, m1) <= DaysBeforeMonth(y, m2)
    decreases m2 - m1
  {
    DaysBeforeMonthStep(y, m1);
    if m1 + 1 < m2 {
      DaysBeforeMonthMonotone(y, m1 + 1, m2);
    }
  }

  /** Consecutive years are separated by exactly the length of the earlier one. */
  lemma DaysBeforeYearStep(y: int)
    requires y >= 1
    ensures DaysBeforeYear(y + 1) == DaysBeforeYear(y) + DaysInYear(y)
  {
    var p := y - 1;
    DivStep(y, 4);
    DivStep(y, 100);
    DivStep(y, 400);
    ModFactors(y);
    var leap := (if y % 4 == 0 then 1 else 0) - (if y % 100 == 0 then 1 else 0) + (if y % 400 == 0 then 1 else 0);
    assert leap == DaysInYear(y) - 365;
    calc {
      DaysBeforeYear(y + 1);
      y * 365 + y / 4 - y / 100 + y / 400;
      (p * 365 + p / 4 - p / 100 + p / 400) + 365 + leap;
      DaysBeforeYear(y) + DaysInYear(y);
    }
  }

  /** A multiple of 400 is one of 100, and a multiple of 100 is one of 4. */
  lemma ModFactors(y: int)
    ensures y % 400 == 0 ==> y % 100 == 0
    ensures y % 100 == 0 ==> y % 4 == 0
  {
    if y % 400 == 0 {
      MultipleMod(y / 400 * 4, 100);
      assert y == y / 400 * 4 * 100;
    }
    if y % 100 == 0 {
      MultipleMod(y / 100 * 25, 4);
      assert y == y / 100 * 25 * 4;
    }
  }

  lemma MultipleMod(t: int, k: int)
    requires k == 4 || k == 100
    ensures (t * k) % k == 0
  {
    if k == 4 {
      assert (t * 4) % 4 == 0;
    } else {
      assert (t * 100) % 100 == 0;
    }
  }

  /** Counting the multiples of `k` up to `y` adds one exactly when `k` divides `y`. */
  lemma DivStep(y: int, k: int)
    requires y >= 1 && (k == 4 || k == 100 || k == 400)
    ensures y / k == (y - 1) / k + (if y % k == 0 then 1 else 0)
  {
    if k == 4 {
      assert y / 4 == (y - 1) / 4 + (if y % 4 == 0 then 1 else 0);
    } else if k == 100 {
      assert y / 100 == (y - 1) / 100 + (if y % 100 == 0 then 1 else 0);
    } else {
      assert y / 400 == (y - 1) / 400 + (if y % 400 == 0 then 1 else 0);
    }
  }

  lemma {:induction false} DaysBeforeYearMonotone(y1: int, y2: int)
    requires 1 <= y1 < y2
    ensures DaysBeforeYear(y1) + DaysInYear(y1) <= DaysBeforeYear(y2)
    decreases y2 - y1
  {
    DaysBeforeYearStep(y1);
    if y1 + 1 < y2 {
      DaysBeforeYearMonotone(y1 + 1, y2);
    }
  }

  /** A valid date's ordinal lies inside its own year. */
  lemma OrdinalInYear(d: Date)
    requires Valid(d)
    ensures DaysBeforeYear(d.year) < Ordinal(d) <= DaysBeforeYear(d.year) + DaysInYear(d.year)
  {
    DaysBeforeMonthMonotone(d.year, d.month, 13);
  }

  /** Lexicographic order on valid dates is the order of their ordinals. */
  lemma {:induction false} LessIsOrdinalOrder(a: Date, b: Date)
    requires Valid(a) && Valid(b)
    ensures Less(a, b) <==> Ordinal(a) < Ordinal(b)
    ensures a == b <==> Ordinal(a) == Ordinal(b)
  {
    if Less(a, b) {
      LessImpliesOrdinalLess(a, b);
    } else if Less(b, a) {
      LessImpliesOrdinalLess(b, a);
    }
  }

  lemma LessImpliesOrdinalLess(a: Date, b: Date)
    requires Valid(a) && Valid(b) && Less(a, b)
    ensures Ordinal(a) < Ordinal(b)
  {
    if a.year < b.year {
      OrdinalInYear(a);
      OrdinalInYear(b);
      DaysBeforeYearMonotone(a.year, b.year);
    } else if a.month < b.month {
      DaysBeforeMonthMonotone(a.year, a.month, b.month);
    }
  }

  /** 1 January 2024 was a Monday. */
  lemma KnownMonday()
    ensures Valid(Date(2024, 1, 1)) && Weekday(Date(2024, 1, 1)) == 0
  {
  }

  function TwoDigits(n: nat): (r: string)
    requires n < 100
    ensures |r| == 2
    ensures forall i :: 0 <= i < |r| ==> Text.IsDigit(r[i])
  {
    Text.ZeroPadValue(Text.NatToString(n), 2);
    Text.ZeroPad(Text.NatToString(n), 2)
  }

  function FourDigits(n: nat): (r: string)
    requires n < 10000
    ensures |r| == 4
    ensures forall i :: 0 <= i < |r| ==> Text.IsDigit(r[i])
  {
    Text.ZeroPadValue(Text.NatToString(n), 4);
    Text.ZeroPad(Text.NatToString(n), 4)
  }

  /** Three fields separated by one character, as `strftime` lays them out. */
  function Fields(a: string, b: string, c: string, sep: char): (r: string)
    ensures |r| == |a| + |b| + |c| + 2
    ensures r[|a|] == sep && r[|a| + 1 + |b|] == sep
    ensures forall i :: 0 <= i < |a| ==> r[i] == a[i]
    ensures forall i :: 0 <= i < |b| ==> r[|a| + 1 + i] == b[i]
    ensures forall i :: 0 <= i < |c| ==> r[|a| + |b| + 2 + i] == c[i]
  {
    a + [sep] + b + [sep] + c
  }

  /** `strftime('%d/%m/%Y')`. */
  function FormatBr(d: Date): (r: string)
    requires Valid(d)
    ensures |r| == 10 && r[2] == '/' && r[5] == '/'
  {
    Fields(TwoDigits(d.day), TwoDigits(d.month), FourDigits(d.year), '/')
  }

  /** `strftime('%Y-%m-%d')` (also `date.isoformat()`). */
  function FormatIso(d: Date): (r: string)
    requires Valid(d)
    ensures |r| == 10 && r[4] == '-' && r[7] == '-'
  {
    Fields(FourDigits(d.year), TwoDigits(d.month), TwoDigits(d.day), '-')
  }

  /** Every character of a printed date other than the two separators is a digit. */
  lemma FormatBrDigits(d: Date)
    requires Valid(d)
    ensures forall i :: 0 <= i < 10 && i != 2 && i != 5 ==> Text.IsDigit(FormatBr(d)[i])
  {
  }

  lemma FormatIsoDigits(d: Date)
    requires Valid(d)
    ensures forall i :: 0 <= i < 10 && i != 4 && i != 7 ==> Text.IsDigit(FormatIso(d)[i])
  {
  }
}
