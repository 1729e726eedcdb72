/**
 Civil dates: Hinnant's `days_from_civil` against counting days one at a time
 (solvency-report/src/instant.rs).
 */
module Calendar {

  /** Rust's integer division, which truncates toward zero. */
  function TruncDiv(a: int, b: int): int
    requires b > 0
  {
    if a >= 0 then a / b else -(-a / b)
  }

  /** `days_from_civil` */
  function DaysFromCivil(y0: int, m: nat, d: nat): int {
    var y := if m <= 2 then y0 - 1 else y0;
    var era := TruncDiv(if y >= 0 then y else y - 399, 400);
    var yoe := y - era * 400;
    var mp := (m + 9) % 12;
    var doy := (153 * mp + 2) / 5 + d - 1;
    var doe := yoe * 365 + TruncDiv(yoe, 4) - TruncDiv(yoe, 100) + doy;
    era * 146_097 + doe - 719_468
  }

  predicate IsLeap(y: int) {
    (y % 4 == 0 && y % 100 != 0) || y % 400 == 0
  }

  function DaysInMonth(y: int, m: nat): nat {
    match m
    case 1 => 31 case 3 => 31 case 5 => 31 case 7 => 31 case 8 => 31 case 10 => 31 case 12 => 31
    case 4 => 30 case 6 => 30 case 9 => 30 case 11 => 30
    case 2 => if IsLeap(y) then 29 else 28
    case _ => 0
  }

  datatype Date = Date(year: int, month: nat, day: nat)

  predicate ValidDate(t: Date) {
    1 <= t.month <= 12 && 1 <= t.day <= DaysInMonth(t.year, t.month)
  }

  function Days(t: Date): int {
    DaysFromCivil(t.year, t.month, t.day)
  }

  const EPOCH := Date(1970, 1, 1)

  // ----- the naive calendar: one day after another

  function NextDay(t: Date): Date {
    if t.day < DaysInMonth(t.year, t.month) then Date(t.year, t.month, t.day + 1)
    else if t.month < 12 then Date(t.year, t.month + 1, 1)
    else Date(t.year + 1, 1, 1)
  }

  function PreviousDay(t: Date): Date {
    if t.day > 1 then Date(t.year, t.month, t.day - 1)
    else if t.month > 1 then Date(t.year, t.month - 1, DaysInMonth(t.year, t.month - 1))
    else Date(t.year - 1, 12, 31)
  }

  /** The date `n` days from 1970-01-01, found by stepping. */
  function DateAt(n: int): Date
    decreases if n >= 0 then n else -n
  {
    if n == 0 then EPOCH
    else if n > 0 then NextDay(DateAt(n - 1))
    else PreviousDay(DateAt(n + 1))
  }

  lemma StepsInvert(t: Date)
    requires ValidDate(t)
    ensures ValidDate(NextDay(t)) && PreviousDay(NextDay(t)) == t
    ensures ValidDate(PreviousDay(t)) && NextDay(PreviousDay(t)) == t
  {
  }

  // ----- one step is one day

  /** Days before the shifted year `y`, which starts on 1 March, in closed form. */
  function ShiftedYearStart(y: int): int {
    365 * y + y / 4 - y / 100 + y / 400
  }

  lemma EraArithmetic(y: int)
    ensures
      var era := TruncDiv(if y >= 0 then y else y - 399, 400);
      var yoe := y - era * 400;
      && era == y / 400 && 0 <= yoe < 400
      && era * 146_097 + yoe * 365 + TruncDiv(yoe, 4) - TruncDiv(yoe, 100) == ShiftedYearStart(y)
  {
    var era := TruncDiv(if y >= 0 then y else y - 399, 400);
    assert era == y / 400;
    var yoe := y - era * 400;
    assert yoe / 4 == y / 4 - 100 * era;
    assert yoe / 100 == y / 100 - 4 * era;
  }

  lemma DaysClosedForm(y: int, m: nat, d: nat)
    ensures DaysFromCivil(y, m, d) ==
      ShiftedYearStart(if m <= 2 then y - 1 else y) + (153 * ((m + 9) % 12) + 2) / 5 + d - 1 - 719_468
  {
    EraArithmetic(if m <= 2 then y - 1 else y);
  }

  lemma ShiftedYearLength(y: int)
    ensures ShiftedYearStart(y) - ShiftedYearStart(y - 1) == if IsLeap(y) then 366 else 365
  {
    assert y / 4 - (y - 1) / 4 == if y % 4 == 0 then 1 else 0;
    assert y / 100 - (y - 1) / 100 == if y % 100 == 0 then 1 else 0;
    assert y / 400 - (y - 1) / 400 == if y % 400 == 0 then 1 else 0;
  }

  /** The next valid date is exactly one day on, across months, leap years, centuries and eras. */
  lemma NextDayIsOneDay(t: Date)
    requires ValidDate(t)
    ensures Days(NextDay(t)) == Days(t) + 1
  {
    hide Days, DaysInMonth;
    if t.day < DaysInMonth(t.year, t.month) {
      NextInMonth(t.year, t.month, t.day);
    } else if t.month < 12 {
      NextMonth(t.year, t.month);
    } else {
      NextYear(t.year);
    }
  }

  lemma NextInMonth(y: int, m: nat, d: nat)
    ensures Days(Date(y, m, d + 1)) == Days(Date(y, m, d)) + 1
  {
    hide ShiftedYearStart, DaysFromCivil;
    DaysClosedForm(y, m, d);
    DaysClosedForm(y, m, d + 1);
  }

  lemma NextMonth(y: int, m: nat)
    requires 1 <= m < 12
    ensures Days(Date(y, m + 1, 1)) == Days(Date(y, m, DaysInMonth(y, m))) + 1
  {
    hide ShiftedYearStart, DaysFromCivil, IsLeap;
    DaysClosedForm(y, m, DaysInMonth(y, m));
    DaysClosedForm(y, m + 1, 1);
    if m == 2 {
      ShiftedYearLength(y);
    }
  }

  lemma NextYear(y: int)
    ensures Days(Date(y + 1, 1, 1)) == Days(Date(y, 12, DaysInMonth(y, 12))) + 1
  {
    hide ShiftedYearStart, DaysFromCivil;
    DaysClosedForm(y, 12, DaysInMonth(y, 12));
    DaysClosedForm(y + 1, 1, 1);
  }

  lemma EpochIsZero()
    ensures ValidDate(EPOCH) && Days(EPOCH) == 0
  {
  }

  // ----- the calendar is the count

  lemma {:induction false} DateAtCounts(n: int)
    ensures ValidDate(DateAt(n)) && Days(DateAt(n)) == n
    decreases if n >= 0 then n else -n
  {
    hide Days;
    EpochIsZero();
    if n > 0 {
      DateAtCounts(n - 1);
      StepsInvert(DateAt(n - 1));
      NextDayIsOneDay(DateAt(n - 1));
    } else if n < 0 {
      DateAtCounts(n + 1);
      StepsInvert(DateAt(n + 1));
      NextDayIsOneDay(DateAt(n));
    }
  }

  predicate Earlier(a: Date, b: Date) {
    || a.year < b.year
    || (a.year == b.year && a.month < b.month)
    || (a.year == b.year && a.month == b.month && a.day < b.day)
  }

  lemma MonthLength(y: int, m: nat)
    requires 1 <= m < 12
    ensures Days(Date(y, m + 1, 1)) == Days(Date(y, m, 1)) + DaysInMonth(y, m)
  {
    hide DaysFromCivil;
    NextDayIsOneDay(Date(y, m, DaysInMonth(y, m)));
    DaysClosedForm(y, m, DaysInMonth(y, m));
    DaysClosedForm(y, m, 1);
  }

  lemma {:induction false} MonthsAhead(y: int, m: nat, m': nat)
    requires 1 <= m < m' <= 12
    ensures Days(Date(y, m, 1)) + DaysInMonth(y, m) <= Days(Date(y, m', 1))
    decreases m'
  {
    hide Days;
    MonthLength(y, m' - 1);
    if m < m' - 1 {
      MonthsAhead(y, m, m' - 1);
    }
  }

  lemma {:induction false} YearsAhead(y: int, y': int)
    requires y < y'
    ensures Days(Date(y, 12, 31)) < Days(Date(y', 1, 1))
    decreases y'- y
  {
    hide Days;
    NextDayIsOneDay(Date(y' - 1, 12, 31));
    if y < y' - 1 {
      YearsAhead(y, y' - 1);
      InYear(Date(y' - 1, 12, 31));
    }
  }

  lemma InMonth(t: Date)
    requires ValidDate(t)
    ensures Days(t) == Days(Date(t.year, t.month, 1)) + t.day - 1
  {
    hide ShiftedYearStart;
    DaysClosedForm(t.year, t.month, t.day);
    DaysClosedForm(t.year, t.month, 1);
  }

  lemma InYear(t: Date)
    requires ValidDate(t)
    ensures Days(Date(t.year, 1, 1)) <= Days(t) <= Days(Date(t.year, 12, 31))
  {
    hide Days;
    InMonth(t);
    InMonth(Date(t.year, 12, 31));
    if t.month > 1 {
      MonthsAhead(t.year, 1, t.month);
    }
    if t.month < 12 {
      MonthsAhead(t.year, t.month, 12);
    }
  }

  lemma EarlierIsFewerDays(a: Date, b: Date)
    requires ValidDate(a) && ValidDate(b) && Earlier(a, b)
    ensures Days(a) < Days(b)
  {
    hide Days;
    if a.year < b.year {
      InYear(a);
      InYear(b);
      YearsAhead(a.year, b.year);
    } else {
      InMonth(a);
      InMonth(b);
      if a.month < b.month {
        MonthsAhead(a.year, a.month, b.month);
      }
    }
  }

  /** Dates compare as their day counts do. */
  lemma OrderIsDayOrder(a: Date, b: Date)
    requires ValidDate(a) && ValidDate(b)
    ensures Earlier(a, b) <==> Days(a) < Days(b)
    ensures a == b <==> Days(a) == Days(b)
  {
    hide Days;
    if Earlier(a, b) {
      EarlierIsFewerDays(a, b);
    } else if Earlier(b, a) {
      EarlierIsFewerDays(b, a);
    }
  }

  /**
   `days_from_civil` is the naive count: stepping day by day from 1970-01-01, forward or back, the
   date reached after `n` steps is the one valid date it maps to `n`.
   */
  lemma DaysFromCivilIsTheCount(t: Date, n: int)
    requires ValidDate(t)
    ensures Days(t) == n <==> DateAt(n) == t
  {
    DateAtCounts(n);
    OrderIsDayOrder(DateAt(n), t);
  }
}
