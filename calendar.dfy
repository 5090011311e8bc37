/**
  Gregorian calendar arithmetic of timedate.c: the leap-year rule, the day count and
  Unix timestamp of a date (days since 1970-01-01, times 86400), decoding a day count
  back into year/month/day, the validity check against the data floor 2013-04-28, and
  the inclusive number of days between two dates.

  The C `struct date_yyyymmdd_t` has three uint32_t fields; the model uses `nat`. The
  32-bit accumulator of get_timestamp and the 32-bit product `days * 86400` are written
  out as reductions modulo 2^32.
 */
module Calendar {
  import opened CSemantics

  datatype Date = Date(year: nat, month: nat, day: nat)

  /** The static days_in_month table (February with 28 days). */
  function DaysInMonthTable(index: nat): (r: nat)
    requires index < 12
    ensures 28 <= r <= 31
  {
    if index == 1 then 28
    else if index == 3 || index == 5 || index == 8 || index == 10 then 30
    else 31
  }

  const SecondsPerDay: nat := 86400

  /** The largest day count whose product with 86400 still fits in 32 bits
      (49710 * 86400 < 2^32 <= 49711 * 86400): around the year 2106. */
  const MaxUnwrappedDays: nat := 49710

  /** is_leap_year: divisible by 4, and not by 100 unless by 400. */
  function IsLeapYear(year: nat): (leap: bool)
    ensures leap <==> year % 4 == 0 && (year % 100 != 0 || year % 400 == 0)
  {
    if year % 4 > 0 then false
    else if year % 100 > 0 then true
    else year % 400 == 0
  }

  /** 365 + is_leap_year(year). */
  function YearLength(year: nat): (r: nat)
    ensures r == 365 || r == 366
  {
    365 + (if IsLeapYear(year) then 1 else 0)
  }

  /** The real length of a month: the table entry, except 29 for February of a leap year. */
  function MonthLength(year: nat, month: nat): nat
    requires 1 <= month <= 12
  {
    if month == 2 && IsLeapYear(year) then 29 else DaysInMonthTable(month - 1)
  }

  /** A real calendar date no earlier than the epoch year, as the decoding produces. */
  predicate IsCalendarDate(d: Date)
  {
    d.year >= 1970 && 1 <= d.month <= 12 && 1 <= d.day <= MonthLength(d.year, d.month)
  }

  /** Days in the whole years 1970 .. year-1 (none for years up to 1970). */
  function DaysBeforeYear(year: nat): nat
  {
    if year <= 1970 then 0 else DaysBeforeYear(year - 1) + YearLength(year - 1)
  }

  /** Sum of the table entries of the months before `month`. */
  function DaysBeforeMonth(month: nat): nat
    requires month <= 13
  {
    if month <= 1 then 0 else DaysBeforeMonth(month - 1) + DaysInMonthTable(month - 2)
  }

  /** The extra leap day get_timestamp adds. The second disjunct, `month == 2 &&
      month >= 29`, is the source's condition and can never hold. */
  function LeapCorrection(year: nat, month: nat): nat
  {
    if IsLeapYear(year) && (month > 2 || (month == 2 && month >= 29)) then 1 else 0
  }

  /** Days from 1970-01-01 to the start of the given month of the given year. */
  function DaysBeforeMonthOf(year: nat, month: nat): nat
    requires month <= 13
  {
    DaysBeforeYear(year) + DaysBeforeMonth(month) + LeapCorrection(year, month)
  }

  /** The day count get_timestamp computes before scaling, counted from 1970-01-01. It is
      negative only for a day 0 in a month up to January of 1970 or of an earlier year;
      the uint32 arithmetic then wraps it. */
  function DayCount(d: Date): (r: int)
    requires d.month <= 13
    ensures d.day >= 1 ==> r >= 0
  {
    DaysBeforeMonthOf(d.year, d.month) + d.day - 1
  }

  /** get_timestamp's result: the day count times 86400, computed in uint32_t. */
  function Timestamp(d: Date): (r: nat)
    requires d.month <= 13
    ensures r < U32
  {
    (DayCount(d) * SecondsPerDay) % U32
  }

  /** The tail of get_timestamp: adding the day of the month and the conditional leap
      day to the wrapped count of whole years and months, then scaling by 86400 in uint32_t
      arithmetic, gives the timestamp of the date. */
  lemma TimestampTail(date: Date, days: int, total: int)
    requires date.month <= 13
    requires total == DaysBeforeYear(date.year) + DaysBeforeMonth(date.month)
    requires days == total % U32
    ensures IsLeapYear(date.year) && (date.month > 2 || (date.month == 2 && date.month >= 29)) ==>
      (((days + (date.day - 1)) % U32 + 1) % U32 * SecondsPerDay) % U32 == Timestamp(date)
    ensures !(IsLeapYear(date.year) && (date.month > 2 || (date.month == 2 && date.month >= 29))) ==>
      ((days + (date.day - 1)) % U32 * SecondsPerDay) % U32 == Timestamp(date)
  {
    var partial := total + (date.day - 1);
    AddWrapped(days, total, date.day - 1);
    var d1 := (days + (date.day - 1)) % U32;
    AddWrapped(d1, partial, 1);
    ScaledWrap(d1, partial);
    ScaledWrap((d1 + 1) % U32, partial + 1);
  }

  /** get_timestamp's month loop: adds the lengths of the months before the date's month,
      from the table, to the uint32_t day counter. */
  method AddMonths(date: Date, days: int, ghost total: int) returns (days': int, ghost total': int)
    requires date.month <= 13
    requires total == DaysBeforeYear(date.year) && days == total % U32
    ensures total' == DaysBeforeYear(date.year) + DaysBeforeMonth(date.month)
    ensures days' == total' % U32
  {
    days', total' := days, total;
    if date.month > 1 {
      var i: nat := 0;
      while i < date.month - 1
        invariant i <= date.month - 1
        invariant total' == DaysBeforeYear(date.year) + DaysBeforeMonth(i + 1)
        invariant days' == total' % U32
      {
        AddWrapped(days', total', DaysInMonthTable(i));
        days' := (days' + DaysInMonthTable(i)) % U32;
        total' := total' + DaysInMonthTable(i);
        i := i + 1;
      }
    }
  }

  /** get_timestamp: sums whole years and whole months in loops, in a uint32_t counter. */
  method GetTimestamp(date: Date) returns (timestamp: int)
    requires date.month <= 13
    ensures timestamp == Timestamp(date)
    ensures 0 <= timestamp < U32
  {
    var days: int := 0;
    ghost var total: int := 0;
    var year: nat := 1970;
    while year < date.year
      invariant 1970 <= year
      invariant date.year >= 1970 ==> year <= date.year
      invariant date.year < 1970 ==> year == 1970
      invariant total == DaysBeforeYear(year)
      invariant days == total % U32
    {
      AddWrapped(days, total, YearLength(year));
      days := (days + YearLength(year)) % U32;
      total := total + YearLength(year);
      year := year + 1;
    }
    days, total := AddMonths(date, days, total);
    TimestampTail(date, days, total);
    days := (days + (date.day - 1)) % U32;
    if IsLeapYear(date.year) {
      if date.month > 2 || (date.month == 2 && date.month >= 29) {
        days := (days + 1) % U32;
      }
    }
    timestamp := (days * SecondsPerDay) % U32;
  }

  /** is_valid_date. The table is indexed with month - 1 before the month range is
      checked, so the month must already lie in 1..12; with that, the month-range
      branch is dead. The "date in the future" branch is switched off by a constant
      flag in the source and is left out. */
  function IsValidDate(date: Date): (valid: bool)
    requires 1 <= date.month <= 12
    ensures valid <==>
      (date.month == 2 && date.day == 29 && IsLeapYear(date.year))
      || (1 <= date.day <= MonthLength(date.year, date.month) && NotBeforeFloor(date))
  {
    if date.month == 2 && date.day == 29 then IsLeapYear(date.year)
    else if date.day < 1 || date.day > DaysInMonthTable(date.month - 1) then false
    else if date.month < 1 || date.month > 12 then false
    else if date.year < 2013 then false
    else if date.year == 2013 && date.month < 4 then false
    else if date.year == 2013 && date.month == 4 && date.day < 28 then false
    else true
  }

  /** The date is 2013-04-28 (the first day the data source covers) or later. */
  predicate NotBeforeFloor(d: Date)
  {
    d.year > 2013 || (d.year == 2013 && (d.month > 4 || (d.month == 4 && d.day >= 28)))
  }

  /** days_between: 1 + (ts(end) - ts(begin) + 1) / 86400 with C's truncating int64
      division, returned as uint32_t; 0 when either date is invalid. */
  function DaysBetween(dateBegin: Date, dateEnd: Date): (days: nat)
    requires 1 <= dateBegin.month <= 12 && 1 <= dateEnd.month <= 12
    ensures days < U32
  {
    if !IsValidDate(dateBegin) then 0
    else if !IsValidDate(dateEnd) then 0
    else (1 + TruncDiv(Timestamp(dateEnd) - Timestamp(dateBegin) + 1, SecondsPerDay)) % U32
  }

  /** The day count add_days_to_date decodes: the offset plus the input's timestamp in
      days, stored in a uint16_t. */
  function ShiftedDayCount(date: Date, addDays: nat): (r: nat)
    requires date.month <= 13
    ensures r < U16
  {
    (addDays + Timestamp(date) / SecondsPerDay) % U16
  }

  /** Days left in the year from the first of the given month on. */
  function DaysLeftInYear(year: nat, month: nat): int
    requires month <= 13
  {
    YearLength(year) - DaysBeforeMonth(month) - LeapCorrection(year, month)
  }

  /** The output parameter of add_days_to_date: a date record written field by field. */
  class DateRecord {
    var year: nat
    var month: nat
    var day: nat

    constructor (d: Date)
      ensures Value() == d
    {
      year, month, day := d.year, d.month, d.day;
    }

    function Value(): Date
      reads this
    {
      Date(year, month, day)
    }
  }

  /** add_days_to_date: encodes the date as a day count, adds the offset in uint16_t,
      then decodes by peeling off whole years and then whole months (February of a
      leap year with 29 days) until the rest fits in the current month. A missing
      input date returns 0 and leaves the output untouched. */
  method AddDaysToDate(date: Option<Date>, output: DateRecord, addDays: nat) returns (status: int)
    requires addDays < U16
    requires date.Some? ==> date.value.month <= 13
    modifies output
    ensures date.None? ==> status == 0 && output.Value() == old(output.Value())
    ensures date.Some? ==> status == 1
    ensures date.Some? ==> IsCalendarDate(output.Value())
    ensures date.Some? ==> DayCount(output.Value()) == ShiftedDayCount(date.value, addDays)
    ensures date.Some? && 0 <= DayCount(date.value) && DayCount(date.value) + addDays <= MaxUnwrappedDays ==>
      Timestamp(output.Value()) == Timestamp(date.value) + SecondsPerDay * addDays
    ensures date.Some? && IsCalendarDate(date.value) && DayCount(date.value) <= MaxUnwrappedDays && addDays == 0 ==>
      output.Value() == date.value
  {
    if date.None? {
      return 0;
    }
    var year: nat, month: nat, day: nat := 1970, 1, 1;
    var done := false;
    var timestamp := GetTimestamp(date.value);
    var days: nat := (addDays + timestamp / SecondsPerDay) % U16;
    ghost var target := days;
    var daysInAYear: nat := 0;
    while !done
      invariant !done ==> Decoding(Date(year, month, day), days, target)
      invariant done ==> IsCalendarDate(Date(year, month, day)) && DayCount(Date(year, month, day)) == target
      decreases days + (if done then 0 else 1)
    {
      ghost var cur := Date(year, month, day);
      daysInAYear := YearLength(year);
      if days >= daysInAYear {
        YearPeel(cur, days, target);
        days := days - daysInAYear;
        year := year + 1;
      } else if days >= DaysInMonthTable(month - 1) {
        if month == 2 && daysInAYear == 366 {
          if days >= 29 {
            MonthPeel(cur, days, target, 29);
            month := month + 1;
            days := days - 29;
          } else {
            DecodingDone(cur, days, target);
            done := true;
            day := day + days;
          }
        } else {
          MonthPeel(cur, days, target, DaysInMonthTable(month - 1));
          days := days - DaysInMonthTable(month - 1);
          month := month + 1;
        }
      } else {
        DecodingDone(cur, days, target);
        done := true;
        day := day + days;
      }
    }
    output.year, output.month, output.day := year, month, day;
    status := 1;
    AddDaysFacts(date.value, output.Value(), addDays);
  }

  /** The state of add_days_to_date's decoding loop: at the first of a month of a year
      from 1970 on, with `days` still to go to reach `target`; past January, what is left
      stays inside the current year. */
  ghost predicate Decoding(cur: Date, days: nat, target: int)
  {
    cur.year >= 1970 && 1 <= cur.month <= 12 && cur.day == 1
    && DayCount(cur) + days == target
    && (cur.month == 1 || days < DaysLeftInYear(cur.year, cur.month))
  }

  /** Peeling a whole year happens only in January and moves to January of the next year. */
  lemma YearPeel(cur: Date, days: nat, target: int)
    requires Decoding(cur, days, target)
    requires days >= YearLength(cur.year)
    ensures Decoding(Date(cur.year + 1, cur.month, cur.day), days - YearLength(cur.year), target)
  {
  }

  /** Peeling a whole month (29 days for a leap February, the table entry otherwise)
      never passes December and moves to the first of the next month. */
  lemma MonthPeel(cur: Date, days: nat, target: int, length: nat)
    requires Decoding(cur, days, target)
    requires days < YearLength(cur.year)
    requires length == if cur.month == 2 && YearLength(cur.year) == 366 then 29 else DaysInMonthTable(cur.month - 1)
    requires days >= length
    ensures length >= 28
    ensures Decoding(Date(cur.year, cur.month + 1, cur.day), days - length, target)
  {
    MonthStep(cur.year, cur.month);
    DaysBeforeMonthTotals();
  }

  /** Fewer days left than the month has: the date is reached inside this month. */
  lemma DecodingDone(cur: Date, days: nat, target: int)
    requires Decoding(cur, days, target)
    requires days < DaysInMonthTable(cur.month - 1) || (cur.month == 2 && YearLength(cur.year) == 366 && days < 29)
    ensures IsCalendarDate(Date(cur.year, cur.month, cur.day + days))
    ensures DayCount(Date(cur.year, cur.month, cur.day + days)) == target
  {
  }

  /** What the decoded date means: the shifted timestamp while nothing wraps, and the
      input itself when no days are added to a calendar date. */
  lemma AddDaysFacts(d: Date, out: Date, addDays: nat)
    requires d.month <= 13
    requires IsCalendarDate(out) && DayCount(out) == ShiftedDayCount(d, addDays)
    ensures 0 <= DayCount(d) && DayCount(d) + addDays <= MaxUnwrappedDays ==>
      Timestamp(out) == Timestamp(d) + SecondsPerDay * addDays
    ensures IsCalendarDate(d) && DayCount(d) <= MaxUnwrappedDays && addDays == 0 ==> out == d
  {
    if 0 <= DayCount(d) && DayCount(d) + addDays <= MaxUnwrappedDays {
      ShiftedDayCountUnwrapped(d, addDays);
      TimestampUnwrapped(d);
      TimestampUnwrapped(out);
    }
    if IsCalendarDate(d) && DayCount(d) <= MaxUnwrappedDays && addDays == 0 {
      CalendarDateDayCountNonNegative(d);
      ShiftedDayCountUnwrapped(d, 0);
      DayCountInjective(out, d);
    }
  }

  // ----- Lemmas -----

  /** Scaling a uint32_t day count by 86400 in uint32_t arithmetic gives the wrapped
      product of the true count. */
  lemma ScaledWrap(days: int, count: int)
    requires days == count % U32
    ensures (days * SecondsPerDay) % U32 == (count * SecondsPerDay) % U32
  {
    ModMul(count, SecondsPerDay);
  }

  /** The month sums of the table: 334 days before December, 365 in a common year. */
  lemma DaysBeforeMonthTotals()
    ensures DaysBeforeMonth(12) == 334 && DaysBeforeMonth(13) == 365
  {
    assert DaysBeforeMonth(2) == 31;
    assert DaysBeforeMonth(3) == 59;
    assert DaysBeforeMonth(4) == 90;
    assert DaysBeforeMonth(5) == 120;
    assert DaysBeforeMonth(6) == 151;
    assert DaysBeforeMonth(7) == 181;
    assert DaysBeforeMonth(8) == 212;
    assert DaysBeforeMonth(9) == 243;
    assert DaysBeforeMonth(10) == 273;
    assert DaysBeforeMonth(11) == 304;
  }

  /** Examples of the leap-year rule. */
  lemma LeapYearExamples()
    ensures IsLeapYear(2000) && IsLeapYear(2024) && IsLeapYear(2012)
    ensures !IsLeapYear(1900) && !IsLeapYear(2023) && !IsLeapYear(2100)
  {
  }

  /** One month further into a year adds exactly that month's real length, including
      the leap day after February. */
  lemma MonthStep(year: nat, month: nat)
    requires 1 <= month <= 12
    ensures DaysLeftInYear(year, month) == MonthLength(year, month) + DaysLeftInYear(year, month + 1)
    ensures DaysBeforeMonthOf(year, month + 1) == DaysBeforeMonthOf(year, month) + MonthLength(year, month)
  {
  }

  /** The months of a year fill it exactly: December is as long as what is left of the year. */
  lemma {:induction false} DaysLeftCoversMonth(year: nat, month: nat)
    requires 1 <= month <= 12
    ensures DaysLeftInYear(year, month) >= MonthLength(year, month)
    decreases 12 - month
  {
    if month == 12 {
      DaysBeforeMonthTotals();
    } else {
      MonthStep(year, month);
      DaysLeftCoversMonth(year, month + 1);
    }
  }

  /** A calendar date's day count lies inside its own year. */
  lemma DayCountInYear(d: Date)
    requires IsCalendarDate(d)
    ensures DaysBeforeYear(d.year) <= DayCount(d) < DaysBeforeYear(d.year) + YearLength(d.year)
  {
    DaysLeftCoversMonth(d.year, d.month);
  }

  lemma CalendarDateDayCountNonNegative(d: Date)
    requires IsCalendarDate(d)
    ensures DayCount(d) >= 0
  {
    DayCountInYear(d);
  }

  /** Whole years are laid end to end: an earlier year ends no later than a later one starts. */
  lemma {:induction false} DaysBeforeYearOrdered(y1: nat, y2: nat)
    requires 1970 <= y1 < y2
    ensures DaysBeforeYear(y1) + YearLength(y1) <= DaysBeforeYear(y2)
    decreases y2
  {
    if y2 > y1 + 1 {
      DaysBeforeYearOrdered(y1, y2 - 1);
    }
  }

  /** Months within a year are laid end to end. */
  lemma {:induction false} DaysBeforeMonthOrdered(year: nat, m1: nat, m2: nat)
    requires 1 <= m1 < m2 <= 12
    ensures DaysBeforeMonthOf(year, m1) + MonthLength(year, m1) <= DaysBeforeMonthOf(year, m2)
    decreases m2
  {
    MonthStep(year, m1);
    if m2 > m1 + 1 {
      DaysBeforeMonthOrdered(year, m1, m2 - 1);
      MonthStep(year, m2 - 1);
    }
  }

  /** Decoding inverts encoding: two calendar dates with the same day count are the same
      date. With the decoding loop of AddDaysToDate this gives add_days(d, 0) == d. */
  lemma DayCountInjective(d: Date, e: Date)
    requires IsCalendarDate(d) && IsCalendarDate(e)
    requires DayCount(d) == DayCount(e)
    ensures d == e
  {
    DayCountInYear(d);
    DayCountInYear(e);
    if d.year < e.year {
      DaysBeforeYearOrdered(d.year, e.year);
    } else if e.year < d.year {
      DaysBeforeYearOrdered(e.year, d.year);
    }
    assert d.year == e.year;
    if d.month < e.month {
      DaysBeforeMonthOrdered(d.year, d.month, e.month);
    } else if e.month < d.month {
      DaysBeforeMonthOrdered(d.year, e.month, d.month);
    }
  }

  /** While the day count stays within 49710 days, the uint32 product does not wrap and
      the timestamp is exactly 86400 times the day count; 1970-01-01 is timestamp 0. */
  lemma TimestampUnwrapped(d: Date)
    requires d.month <= 13
    requires 0 <= DayCount(d) <= MaxUnwrappedDays
    ensures Timestamp(d) == DayCount(d) * SecondsPerDay
    ensures Timestamp(d) / SecondsPerDay == DayCount(d)
  {
  }

  lemma EpochIsZero()
    ensures Timestamp(Date(1970, 1, 1)) == 0
  {
  }

  /** Adding n days to a date whose day count stays unwrapped adds exactly n to its day count. */
  lemma ShiftedDayCountUnwrapped(d: Date, n: nat)
    requires d.month <= 13
    requires 0 <= DayCount(d) && DayCount(d) + n <= MaxUnwrappedDays
    ensures ShiftedDayCount(d, n) == DayCount(d) + n
  {
    TimestampUnwrapped(d);
  }

  /** The calendar date after d: the next day of the month, the 1st of the next month
      (1 March after 29 February), or 1 January of the next year. */
  function Next(d: Date): (r: Date)
    requires IsCalendarDate(d)
    ensures r.year == d.year || (r.year == d.year + 1 && r.month == 1 && r.day == 1)
  {
    if d.day < MonthLength(d.year, d.month) then Date(d.year, d.month, d.day + 1)
    else if d.month < 12 then Date(d.year, d.month + 1, 1)
    else Date(d.year + 1, 1, 1)
  }

  /** The next calendar date is a calendar date one day count further, across month and
      year ends and the leap day. */
  lemma Successor(d: Date)
    requires IsCalendarDate(d)
    ensures IsCalendarDate(Next(d)) && DayCount(Next(d)) == DayCount(d) + 1
  {
    if d.day == MonthLength(d.year, d.month) {
      if d.month < 12 {
        MonthStep(d.year, d.month);
      } else {
        DaysBeforeMonthTotals();
      }
    }
  }

  /** The next calendar date starts exactly 86400 seconds later, below the wrap-around. */
  lemma ConsecutiveDatesDifferByOneDay(d: Date)
    requires IsCalendarDate(d) && DayCount(d) + 1 <= MaxUnwrappedDays
    ensures Timestamp(Next(d)) == Timestamp(d) + SecondsPerDay
  {
    Successor(d);
    CalendarDateDayCountNonNegative(d);
    TimestampUnwrapped(d);
    TimestampUnwrapped(Next(d));
  }

  /** A whole number of days plus one second, divided with truncation, gives back the days. */
  lemma TruncDivWholeDays(k: int)
    ensures TruncDiv(k * SecondsPerDay + 1, SecondsPerDay) == (if k >= 0 then k else k + 1)
  {
  }

  /** A date is_valid_date accepts has a day count of at least 0 (it is the first of a
      month or later), and is a calendar date unless it is a leap day before 1970. */
  lemma ValidDateShape(d: Date)
    requires 1 <= d.month <= 12 && IsValidDate(d)
    ensures 1 <= d.day <= MonthLength(d.year, d.month)
    ensures d.year >= 1970 ==> IsCalendarDate(d)
    ensures DayCount(d) >= 0
  {
  }

  /** For valid dates in order, days_between is the inclusive count 1 + (end - begin):
      the `+ 1` inside the division never changes the quotient. */
  lemma DaysBetweenInclusive(b: Date, e: Date)
    requires 1 <= b.month <= 12 && 1 <= e.month <= 12
    requires IsValidDate(b) && IsValidDate(e)
    requires DayCount(b) <= DayCount(e) <= MaxUnwrappedDays
    ensures DaysBetween(b, e) == 1 + DayCount(e) - DayCount(b)
  {
    ValidDateShape(b);
    ValidDateShape(e);
    TimestampUnwrapped(b);
    TimestampUnwrapped(e);
    InclusiveCount(Timestamp(b), Timestamp(e), DayCount(b), DayCount(e));
  }

  /** The arithmetic of days_between on two whole-day timestamps in order. */
  lemma InclusiveCount(tb: int, te: int, cb: int, ce: int)
    requires tb == cb * SecondsPerDay && te == ce * SecondsPerDay
    requires 0 <= cb <= ce <= MaxUnwrappedDays
    ensures (1 + TruncDiv(te - tb + 1, SecondsPerDay)) % U32 == 1 + ce - cb
  {
    assert te - tb + 1 == (ce - cb) * SecondsPerDay + 1;
    TruncDivWholeDays(ce - cb);
  }

  /** days_between does not reject an end before the begin: one day before gives 1,
      two days before give 0, and k >= 3 days before give 2 - k wrapped to uint32_t. */
  lemma DaysBetweenReversed(b: Date, e: Date, k: nat)
    requires 1 <= b.month <= 12 && 1 <= e.month <= 12
    requires IsValidDate(b) && IsValidDate(e)
    requires k >= 1 && DayCount(e) + k == DayCount(b) <= MaxUnwrappedDays
    ensures k == 1 ==> DaysBetween(b, e) == 1
    ensures k == 2 ==> DaysBetween(b, e) == 0
    ensures k >= 3 ==> DaysBetween(b, e) == U32 + 2 - k
  {
    ValidDateShape(b);
    ValidDateShape(e);
    TimestampUnwrapped(b);
    TimestampUnwrapped(e);
    var back: int := -(k as int);
    assert Timestamp(e) - Timestamp(b) + 1 == back * SecondsPerDay + 1;
    TruncDivWholeDays(back);
  }

  /** The day count of a year start grows by at most 366 days a year. */
  lemma {:induction false} DaysBeforeYearBound(year: nat)
    ensures year >= 1970 ==> DaysBeforeYear(year) <= 366 * (year - 1970)
  {
    if year > 1970 {
      DaysBeforeYearBound(year - 1);
    }
  }

  /** Two days_between examples: a single day counts 1, January 2021 counts 31. */
  lemma DaysBetweenExamples()
    ensures DaysBetween(Date(2021, 1, 1), Date(2021, 1, 1)) == 1
    ensures DaysBetween(Date(2021, 1, 1), Date(2021, 1, 31)) == 31
  {
    DaysBeforeYearBound(2021);
    DaysBetweenInclusive(Date(2021, 1, 1), Date(2021, 1, 1));
    DaysBetweenInclusive(Date(2021, 1, 1), Date(2021, 1, 31));
  }

  /** is_valid_date on the edges of its rules; 2012-02-29 is accepted although it is
      before the floor, because the leap-day test returns before the floor is checked. */
  lemma ValidDateExamples()
    ensures IsValidDate(Date(2012, 2, 29))
    ensures !IsValidDate(Date(2013, 2, 29))
    ensures !IsValidDate(Date(2013, 4, 27)) && IsValidDate(Date(2013, 4, 28))
    ensures !IsValidDate(Date(2021, 4, 31)) && !IsValidDate(Date(2021, 1, 0))
    ensures IsValidDate(Date(2024, 2, 29)) && IsValidDate(Date(2021, 12, 31))
  {
  }
}
