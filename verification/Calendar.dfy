/** Civil months, dates and recurring fiscal years
    (crates/griffe-core/src/domain/period.rs). Years are unbounded. */
module Calendar {

  datatype YearMonth = YearMonth(year: int, month: int)

  type Month = m: YearMonth | 1 <= m.month <= 12 witness YearMonth(2026, 1)

  datatype YearMonthDay = YearMonthDay(year: int, month: int, day: int)

  type Date = d: YearMonthDay | IsDate(d) witness YearMonthDay(2026, 1, 1)

  predicate IsLeap(year: int) {
    year % 4 == 0 && (year % 100 != 0 || year % 400 == 0)
  }

  function DaysIn(year: int, month: int): int {
    if month == 2 then if IsLeap(year) then 29 else 28
    else if month in {4, 6, 9, 11} then 30
    else 31
  }

  predicate IsDate(d: YearMonthDay) {
    1 <= d.month <= 12 && 1 <= d.day <= DaysIn(d.year, d.month)
  }

  /** Months numbered in calendar order. */
  function Index(m: Month): int { m.year * 12 + m.month - 1 }

  /** Dates numbered in calendar order, with gaps. */
  function Key(d: Date): int { Index(MonthOf(d)) * 32 + d.day }

  predicate AtMost(a: Date, b: Date) { Key(a) <= Key(b) }

  predicate Before(a: Date, b: Date) { Key(a) < Key(b) }

  function Later(a: Date, b: Date): Date { if AtMost(a, b) then b else a }

  function Earlier(a: Date, b: Date): Date { if AtMost(a, b) then a else b }

  function MonthOf(d: Date): Month { YearMonth(d.year, d.month) }

  function Succ(m: Month): Month {
    if m.month == 12 then YearMonth(m.year + 1, 1) else YearMonth(m.year, m.month + 1)
  }

  function NextDay(d: Date): Date {
    if d.day < DaysIn(d.year, d.month) then YearMonthDay(d.year, d.month, d.day + 1)
    else FirstDay(Succ(MonthOf(d)))
  }

  function PreviousDay(d: Date): Date {
    if d.day > 1 then YearMonthDay(d.year, d.month, d.day - 1)
    else if d.month == 1 then YearMonthDay(d.year - 1, 12, 31)
    else YearMonthDay(d.year, d.month - 1, DaysIn(d.year, d.month - 1))
  }

  function FirstDay(m: Month): Date { YearMonthDay(m.year, m.month, 1) }

  function LastDay(m: Month): Date { PreviousDay(FirstDay(Succ(m))) }

  lemma MonthsAreOrderedByIndex(a: Month, b: Month)
    ensures Index(a) == Index(b) <==> a == b
    ensures Index(Succ(a)) == Index(a) + 1
  {
  }

  lemma DatesAreOrderedByKey(a: Date, b: Date)
    ensures Key(a) == Key(b) <==> a == b
    ensures Index(MonthOf(a)) < Index(MonthOf(b)) ==> Before(a, b)
  {
  }

  /** A date lies between the first and the last day of its own month, and of no other. */
  lemma MonthBounds(m: Month, d: Date)
    ensures LastDay(m) == YearMonthDay(m.year, m.month, DaysIn(m.year, m.month))
    ensures AtMost(FirstDay(m), d) && AtMost(d, LastDay(m)) <==> MonthOf(d) == m
    ensures Before(d, FirstDay(m)) <==> Index(MonthOf(d)) < Index(m)
    ensures Before(LastDay(m), d) <==> Index(m) < Index(MonthOf(d))
  {
  }

  /** No date fits between a date and its eve. */
  lemma EveIsAdjacent(d: Date, other: Date)
    ensures NextDay(PreviousDay(d)) == d && Before(PreviousDay(d), d)
    ensures Before(other, d) <==> AtMost(other, PreviousDay(d))
  {
    MonthBounds(MonthOf(PreviousDay(d)), other);
    MonthBounds(MonthOf(d), other);
  }

  function AddMonths(d: Date, months: nat): Date
  {
    var m := Advance(MonthOf(d), months);
    YearMonthDay(m.year, m.month, if d.day <= LastDay(m).day then d.day else LastDay(m).day)
  }

  function Advance(m: Month, months: nat): Month {
    if months == 0 then m else Succ(Advance(m, months - 1))
  }

  lemma {:induction false} AdvanceIndex(m: Month, months: nat)
    ensures Index(Advance(m, months)) == Index(m) + months
  {
    if months > 0 {
      AdvanceIndex(m, months - 1);
    }
  }

  // -------------------------------------------------------------------------
  // Fiscal years
  // -------------------------------------------------------------------------

  datatype FiscalYear = FiscalYear(start: Date, end: Date) {
    predicate Contains(date: Date) { AtMost(start, date) && AtMost(date, end) }
  }

  datatype MonthDay = MonthDay(month: int, day: int)

  /** The recurring closing date; a day too large for its month is clipped. */
  type FiscalYearEnd = e: MonthDay | 1 <= e.month <= 12 && 1 <= e.day <= 31 witness MonthDay(12, 31)

  const CALENDAR_YEAR_END: FiscalYearEnd := MonthDay(12, 31)

  function EndInYear(e: FiscalYearEnd, year: int): Date {
    YearMonthDay(year, e.month, if e.day <= DaysIn(year, e.month) then e.day else DaysIn(year, e.month))
  }

  function Containing(e: FiscalYearEnd, date: Date): FiscalYear {
    var thisYearEnd := EndInYear(e, date.year);
    var end := if AtMost(date, thisYearEnd) then thisYearEnd else EndInYear(e, date.year + 1);
    FiscalYear(NextDay(EndInYear(e, end.year - 1)), end)
  }

  lemma ContainingContainsItsDate(e: FiscalYearEnd, date: Date)
    ensures Containing(e, date).Contains(date)
  {
  }

  /** The fiscal year that ends in a given civil year. */
  function YearEnding(e: FiscalYearEnd, year: int): FiscalYear {
    FiscalYear(NextDay(EndInYear(e, year - 1)), EndInYear(e, year))
  }

  /** Every date is in one fiscal year of the company, and in no other. */
  lemma ContainingIsTheOnlyYear(e: FiscalYearEnd, date: Date, year: int)
    ensures YearEnding(e, year).Contains(date) <==> Containing(e, date) == YearEnding(e, year)
  {
    hide Key, EndInYear, NextDay;
    ContainingContainsItsDate(e, date);
    YearsFollow(e, year, date);
    YearsFollow(e, date.year, date);
    YearsFollow(e, date.year + 1, date);
    EndsAreSpaced(e, date.year - 1, year);
    EndsAreSpaced(e, date.year, year);
    EndsAreSpaced(e, year - 1, date.year);
    EndsAreSpaced(e, year - 1, date.year + 1);
    EndsAreSpaced(e, year, date.year);
    EndsAreSpaced(e, year, date.year + 1);
  }

  lemma YearsFollow(e: FiscalYearEnd, year: int, date: Date)
    ensures AtMost(NextDay(EndInYear(e, year - 1)), date) <==> Before(EndInYear(e, year - 1), date)
  {
  }

  lemma EndsAreSpaced(e: FiscalYearEnd, y: int, z: int)
    ensures y < z <==> Before(EndInYear(e, y), EndInYear(e, z))
    ensures EndInYear(e, y) == EndInYear(e, z) <==> y == z
    ensures EndInYear(e, z).year == z
  {
  }

  /** The company closes on the last day of a month, leap years included. */
  predicate ClosesAtMonthEnd(e: FiscalYearEnd) {
    e.day >= if e.month == 2 then 29 else DaysIn(2026, e.month)
  }

  lemma MonthEndClosing(e: FiscalYearEnd, year: int)
    requires ClosesAtMonthEnd(e)
    ensures EndInYear(e, year).day == DaysIn(year, e.month)
    ensures NextDay(EndInYear(e, year)) == FirstDay(Succ(YearMonth(year, e.month)))
  {
  }

  lemma MonthIsInOneFiscalYear(e: FiscalYearEnd, date: Date)
    requires ClosesAtMonthEnd(e)
    ensures AtMost(Containing(e, date).start, FirstDay(MonthOf(date)))
  {
    MonthEndClosing(e, date.year - 1);
    MonthEndClosing(e, date.year);
    var closing := if AtMost(date, EndInYear(e, date.year)) then date.year - 1 else date.year;
    assert Containing(e, date).start == FirstDay(Succ(YearMonth(closing, e.month)));
    assert Index(YearMonth(closing, e.month)) < Index(MonthOf(date)) by {
      MonthBounds(YearMonth(date.year, e.month), date);
    }
  }

  lemma MidMonthClosing(e: FiscalYearEnd)
    requires !ClosesAtMonthEnd(e)
    ensures var m := YearMonth(2024, e.month);
            && Containing(e, LastDay(m)).start == YearMonthDay(2024, e.month, e.day + 1)
            && Before(FirstDay(m), Containing(e, LastDay(m)).start)
  {
    var m: Month := YearMonth(2024, e.month);
    assert LastDay(m) == YearMonthDay(2024, e.month, DaysIn(2024, e.month)) by { MonthBounds(m, LastDay(m)); }
    assert DaysIn(2024, e.month) == if e.month == 2 then 29 else DaysIn(2026, e.month);
    assert !AtMost(LastDay(m), EndInYear(e, 2024));
    assert Containing(e, LastDay(m)).end == EndInYear(e, 2025);
  }

  /** The fiscal year of a month's last day reaches back to the month's first day, for every
      month, exactly when the company closes at a month end. */
  lemma FiscalYearsCoverWholeMonthsExactly(e: FiscalYearEnd)
    ensures (forall m: Month :: AtMost(Containing(e, LastDay(m)).start, FirstDay(m))) <==> ClosesAtMonthEnd(e)
  {
    if ClosesAtMonthEnd(e) {
      forall m: Month
        ensures AtMost(Containing(e, LastDay(m)).start, FirstDay(m))
      {
        MonthBounds(m, LastDay(m));
        MonthIsInOneFiscalYear(e, LastDay(m));
      }
    } else {
      MidMonthClosing(e);
      var m: Month := YearMonth(2024, e.month);
      assert Before(FirstDay(m), Containing(e, LastDay(m)).start);
    }
  }
}
