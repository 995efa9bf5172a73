/** UTC calendar arithmetic on day numbers (days since 1970-01-01), standing
    in for the `Date.UTC`, `getUTCDate` and `getUTCDay` calls of the calendar
    view. Months are numbered 0 to 11 as in JavaScript. */
module Calendar {

  /** Leap years of the proleptic Gregorian calendar. */
  predicate IsLeapYear(y: int) {
    y % 4 == 0 && (y % 100 != 0 || y % 400 == 0)
  }

  function DaysInYear(y: int): int {
    if IsLeapYear(y) then 366 else 365
  }

  function DaysInMonth(y: int, m: int): (r: int)
    requires 0 <= m < 12
    ensures 28 <= r <= 31
    ensures m == 1 ==> (r == 29 <==> IsLeapYear(y))
  {
    if m == 1 then (if IsLeapYear(y) then 29 else 28)
    else if m == 3 || m == 5 || m == 8 || m == 10 then 30
    else 31
  }

  /** The number of leap years among the years 1 to `y` (and its continuation
      below 1); `/` rounds down for a positive divisor. */
  function LeapsThrough(y: int): int {
    y / 4 - y / 100 + y / 400
  }

  /** The day number of 1 January of year `y`. */
  function YearStart(y: int): int {
    365 * (y - 1970) + LeapsThrough(y - 1) - LeapsThrough(1969)
  }

  /** Days in the months of year `y` before month `m`. */
  function DaysBeforeMonth(y: int, m: int): int
    requires 0 <= m <= 12
  {
    if m == 0 then 0 else DaysBeforeMonth(y, m - 1) + DaysInMonth(y, m - 1)
  }

  /** `Date.UTC(y, m, d)` in days, for a day `d` of month `m`. */
  function DayNumber(y: int, m: int, d: int): int
    requires 0 <= m < 12
  {
    YearStart(y) + DaysBeforeMonth(y, m) + d - 1
  }

  function MonthStart(y: int, m: int): int
    requires 0 <= m < 12
  {
    DayNumber(y, m, 1)
  }

  /** `Date.UTC(y, m + 1, 1)`, where month 12 rolls over into January of the
      next year. */
  function NextMonthStart(y: int, m: int): int
    requires 0 <= m < 12
  {
    if m == 11 then MonthStart(y + 1, 0) else MonthStart(y, m + 1)
  }

  /** `Date.prototype.getUTCDay`: 0 is Sunday; 1970-01-01 was a Thursday. */
  function Weekday(day: int): (r: int)
    ensures 0 <= r < 7
  {
    (day + 4) % 7
  }

  /** A step of `/` by one: it goes up exactly at the multiples. */
  lemma DivStep(y: int, b: int)
    requires b == 4 || b == 100 || b == 400
    ensures y / b - (y - 1) / b == if y % b == 0 then 1 else 0
  {
    var q, r := (y - 1) / b, (y - 1) % b;
    assert y - 1 == b * q + r && 0 <= r < b;
    if r == b - 1 {
      assert y == b * (q + 1);
    } else {
      assert y == b * q + (r + 1);
    }
  }

  lemma LeapsStep(y: int)
    ensures LeapsThrough(y) - LeapsThrough(y - 1) == if IsLeapYear(y) then 1 else 0
  {
    DivStep(y, 4);
    DivStep(y, 100);
    DivStep(y, 400);
    DivisibilityChain(y);
  }

  lemma DivisibilityChain(y: int)
    ensures y % 400 == 0 ==> y % 100 == 0
    ensures y % 100 == 0 ==> y % 4 == 0
  {
    if y % 400 == 0 {
      MultipleOfMultiple(y, 100, 4);
    }
    if y % 100 == 0 {
      MultipleOfMultiple(y, 4, 25);
    }
  }

  /** A multiple of `a * c` is a multiple of `a`. */
  lemma MultipleOfMultiple(y: int, a: int, c: int)
    requires 0 < a && 0 < c && y % (a * c) == 0
    ensures y % a == 0
  {
    var k := y / (a * c);
    assert y == (a * c) * k;
    assert y == a * (c * k);
  }

  /** Consecutive years are `DaysInYear` apart. */
  lemma YearStartStep(y: int)
    ensures YearStart(y + 1) == YearStart(y) + DaysInYear(y)
  {
    LeapsStep(y);
  }

  /** The twelve months fill the year. */
  lemma MonthsFillYear(y: int)
    ensures DaysBeforeMonth(y, 12) == DaysInYear(y)
  {
    assert DaysBeforeMonth(y, 1) == 31;
    assert DaysBeforeMonth(y, 2) == 31 + DaysInMonth(y, 1);
    assert DaysBeforeMonth(y, 3) == DaysBeforeMonth(y, 2) + 31;
    assert DaysBeforeMonth(y, 4) == DaysBeforeMonth(y, 2) + 61;
    assert DaysBeforeMonth(y, 5) == DaysBeforeMonth(y, 2) + 92;
    assert DaysBeforeMonth(y, 6) == DaysBeforeMonth(y, 2) + 122;
    assert DaysBeforeMonth(y, 7) == DaysBeforeMonth(y, 2) + 153;
    assert DaysBeforeMonth(y, 8) == DaysBeforeMonth(y, 2) + 184;
    assert DaysBeforeMonth(y, 9) == DaysBeforeMonth(y, 2) + 214;
    assert DaysBeforeMonth(y, 10) == DaysBeforeMonth(y, 2) + 245;
    assert DaysBeforeMonth(y, 11) == DaysBeforeMonth(y, 2) + 275;
  }

  /** `calendarMeta.daysInMonth`: the source takes the date of
      `Date.UTC(y, m + 1, 0)`, the day before the next month starts; that day
      is day `DaysInMonth(y, m)` of month `m`. */
  lemma MonthEnd(y: int, m: int)
    requires 0 <= m < 12
    ensures NextMonthStart(y, m) - 1 == DayNumber(y, m, DaysInMonth(y, m))
    ensures NextMonthStart(y, m) - MonthStart(y, m) == DaysInMonth(y, m)
  {
    if m == 11 {
      MonthsFillYear(y);
      YearStartStep(y);
    }
  }

  /** The Monday the week-day labels are anchored at: 2 January 2023. */
  const MondayAnchor: int := 19359

  lemma MondayAnchorIsMonday()
    ensures MondayAnchor == DayNumber(2023, 0, 2)
    ensures Weekday(MondayAnchor) == 1
  {
    assert LeapsThrough(2022) == 490;
    assert LeapsThrough(1969) == 477;
  }

  /** `calendarMeta.firstDayOffset`: the blank cells before the first of the
      month in a grid whose weeks start on Monday. */
  function FirstDayOffset(y: int, m: int): (r: int)
    requires 0 <= m < 12
    ensures 0 <= r < 7
  {
    (Weekday(MonthStart(y, m)) + 6) % 7
  }

  /** The offset counts the days since the last Monday on or before the first
      of the month: it is zero exactly when the month starts on a Monday, and
      it agrees with the Monday-first week-day labels. */
  lemma FirstDayOffsetFromMonday(y: int, m: int)
    requires 0 <= m < 12
    ensures FirstDayOffset(y, m) == (MonthStart(y, m) - MondayAnchor) % 7
    ensures FirstDayOffset(y, m) == 0 <==> Weekday(MonthStart(y, m)) == 1
  {
    MondayOffset(MonthStart(y, m));
  }

  /** For any day, the Monday-first offset is the distance from the anchor
      Monday, modulo a week. */
  lemma MondayOffset(n: int)
    ensures (Weekday(n) + 6) % 7 == (n - MondayAnchor) % 7
    ensures (Weekday(n) + 6) % 7 == 0 <==> Weekday(n) == 1
  {
    var q, r := (n + 4) / 7, (n + 4) % 7;
    assert n - MondayAnchor == 7 * (q - 2767) + (r + 6);
    if r == 0 {
      assert n - MondayAnchor == 7 * (q - 2767) + 6;
    } else {
      assert n - MondayAnchor == 7 * (q - 2766) + (r - 1);
    }
  }
}
