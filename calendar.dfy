/** Proleptic Gregorian calendar arithmetic, the civil-date conversion that
    JavaScript's `Date` performs for its UTC fields. Days are numbered from
    0000-01-01 (day 0), so every day number of interest is a `nat`. */
module Calendar {

  datatype CivilDate = CivilDate(year: nat, month: int, day: int)

  predicate IsLeapYear(y: int) {
    y % 4 == 0 && (y % 100 != 0 || y % 400 == 0)
  }

  function DaysInYear(y: int): int {
    if IsLeapYear(y) then 366 else 365
  }

  function DaysInMonth(y: int, m: int): int
    requires 1 <= m <= 12
  {
    if m == 2 then (if IsLeapYear(y) then 29 else 28)
    else if m == 4 || m == 6 || m == 9 || m == 11 then 30
    else 31
  }

  /** Days in the months of year `y` that come before month `m`; month 13
      stands for the end of the year. */
  function DaysBeforeMonth(y: int, m: int): int
    requires 1 <= m <= 13
  {
    [0, 31, 59, 90, 120, 151, 181, 212, 243, 273, 304, 334, 365][m - 1]
      + (if m > 2 && IsLeapYear(y) then 1 else 0)
  }

  /** Days in the years before year `y`. */
  function DaysBeforeYear(y: nat): nat {
    if y == 0 then 0 else DaysBeforeYear(y - 1) + DaysInYear(y - 1)
  }

  predicate ValidDate(c: CivilDate) {
    1 <= c.month <= 12 && 1 <= c.day <= DaysInMonth(c.year, c.month)
  }

  /** The day number of a date. */
  function DaysFromCivil(c: CivilDate): (n: nat)
    requires ValidDate(c)
    ensures DaysBeforeYear(c.year) <= n < DaysBeforeYear(c.year + 1)
  {
    DaysBeforeMonthStep(c.year, c.month);
    DaysBeforeMonthMono(c.year, c.month + 1, 13);
    DaysBeforeYear(c.year) + DaysBeforeMonth(c.year, c.month) + c.day - 1
  }

  /** Consecutive month starts are one month apart. */
  lemma DaysBeforeMonthStep(y: int, m: int)
    requires 1 <= m <= 12
    ensures DaysBeforeMonth(y, m + 1) == DaysBeforeMonth(y, m) + DaysInMonth(y, m)
  {
  }

  /** Month starts are increasing within a year, and month 13 ends the year. */
  lemma DaysBeforeMonthMono(y: int, m: int, k: int)
    requires 1 <= m <= k <= 13
    ensures DaysBeforeMonth(y, m) <= DaysBeforeMonth(y, k)
    ensures DaysBeforeMonth(y, 13) == DaysInYear(y)
  {
  }

  /** Year starts are strictly increasing. */
  lemma {:induction false} DaysBeforeYearMono(a: nat, b: nat)
    requires a < b
    ensures DaysBeforeYear(a + 1) <= DaysBeforeYear(b)
    decreases b - a
  {
    if a + 1 < b {
      DaysBeforeYearMono(a, b - 1);
    }
  }

  /** No year is longer than 366 days, so year `n / 366` starts at or before
      day `n`. */
  lemma {:induction false} DaysBeforeYearAtMostLeap(y: nat)
    ensures DaysBeforeYear(y) <= 366 * y
  {
    if y > 0 {
      DaysBeforeYearAtMostLeap(y - 1);
    }
  }

  lemma LeapStep4(y: nat)
    ensures (y + 4) / 4 - (y + 3) / 4 == if y % 4 == 0 then 1 else 0
  {
  }

  lemma LeapStep100(y: nat)
    ensures (y + 100) / 100 - (y + 99) / 100 == if y % 100 == 0 then 1 else 0
  {
  }

  lemma LeapStep400(y: nat)
    ensures (y + 400) / 400 - (y + 399) / 400 == if y % 400 == 0 then 1 else 0
  {
  }

  /** Leap years in [0, y), counted in closed form. */
  function LeapYearsBefore(y: nat): int {
    (y + 3) / 4 - (y + 99) / 100 + (y + 399) / 400
  }

  /** A multiple of 400 is a multiple of 100, and a multiple of 100 is a
      multiple of 4. */
  lemma Divisibility(y: nat)
    ensures y % 400 == 0 ==> y % 100 == 0
    ensures y % 100 == 0 ==> y % 4 == 0
  {
    if y % 400 == 0 {
      var q := y / 400;
      assert y == 100 * (4 * q);
    }
    if y % 100 == 0 {
      var q := y / 100;
      assert y == 4 * (25 * q);
    }
  }

  /** The closed-form count grows by one exactly across a leap year. */
  lemma LeapYearsBeforeStep(y: nat)
    ensures LeapYearsBefore(y + 1) == LeapYearsBefore(y) + (if IsLeapYear(y) then 1 else 0)
  {
    var d4 := if y % 4 == 0 then 1 else 0;
    var d100 := if y % 100 == 0 then 1 else 0;
    var d400 := if y % 400 == 0 then 1 else 0;
    LeapStep4(y);
    LeapStep100(y);
    LeapStep400(y);
    assert LeapYearsBefore(y + 1) == LeapYearsBefore(y) + d4 - d100 + d400;
    Divisibility(y);
  }

  /** The count of days before year `y` in closed form: 365 per year plus one
      per leap year in [0, y). */
  lemma {:induction false} DaysBeforeYearClosedForm(y: nat)
    ensures DaysBeforeYear(y) == 365 * y + LeapYearsBefore(y)
  {
    if y > 0 {
      DaysBeforeYearClosedForm(y - 1);
      LeapYearsBeforeStep(y - 1);
    }
  }

  /** The year holding day `n`, searched upward from a year that starts no
      later than `n`. */
  function FindYear(n: nat, y: nat): (r: nat)
    requires DaysBeforeYear(y) <= n
    ensures y <= r && DaysBeforeYear(r) <= n < DaysBeforeYear(r + 1)
    decreases n - DaysBeforeYear(y)
  {
    if DaysBeforeYear(y + 1) <= n then FindYear(n, y + 1) else y
  }

  /** The month holding day `r` of year `y`, searched upward from month `m`. */
  function FindMonth(r: int, y: int, m: int): (k: int)
    requires 1 <= m <= 12 && DaysBeforeMonth(y, m) <= r < DaysInYear(y)
    ensures m <= k <= 12 && DaysBeforeMonth(y, k) <= r < DaysBeforeMonth(y, k + 1)
    decreases 12 - m
  {
    if m < 12 && DaysBeforeMonth(y, m + 1) <= r then FindMonth(r, y, m + 1) else m
  }

  /** The date of day number `n`: the inverse of `DaysFromCivil`. */
  function CivilFromDays(n: nat): (c: CivilDate)
    ensures ValidDate(c) && DaysFromCivil(c) == n
  {
    DaysBeforeYearAtMostLeap(n / 366);
    var y := FindYear(n, n / 366);
    var r := n - DaysBeforeYear(y);
    DaysBeforeMonthMono(y, 1, 13);
    var m := FindMonth(r, y, 1);
    DaysBeforeMonthStep(y, m);
    CivilDate(y, m, r - DaysBeforeMonth(y, m) + 1)
  }

  /** Distinct valid dates have distinct day numbers. */
  lemma DaysFromCivilInjective(a: CivilDate, b: CivilDate)
    requires ValidDate(a) && ValidDate(b) && DaysFromCivil(a) == DaysFromCivil(b)
    ensures a == b
  {
    if a.year < b.year {
      DaysBeforeYearMono(a.year, b.year);
    } else if b.year < a.year {
      DaysBeforeYearMono(b.year, a.year);
    } else {
      var y := a.year;
      DaysBeforeMonthStep(y, a.month);
      DaysBeforeMonthStep(y, b.month);
      if a.month < b.month {
        DaysBeforeMonthMono(y, a.month + 1, b.month);
      } else if b.month < a.month {
        DaysBeforeMonthMono(y, b.month + 1, a.month);
      }
    }
  }

  /** Converting a valid date to its day number and back gives the date. */
  lemma CivilFromDaysFromCivil(c: CivilDate)
    requires ValidDate(c)
    ensures CivilFromDays(DaysFromCivil(c)) == c
  {
    DaysFromCivilInjective(CivilFromDays(DaysFromCivil(c)), c);
  }

  /** The calendar day after `c`, rolling over the month and the year. */
  function NextDay(c: CivilDate): CivilDate
    requires ValidDate(c)
  {
    if c.day < DaysInMonth(c.year, c.month) then c.(day := c.day + 1)
    else if c.month < 12 then CivilDate(c.year, c.month + 1, 1)
    else CivilDate(c.year + 1, 1, 1)
  }

  /** The next day is a valid date one day number later. */
  lemma NextDayIsNext(c: CivilDate)
    requires ValidDate(c)
    ensures ValidDate(NextDay(c)) && DaysFromCivil(NextDay(c)) == DaysFromCivil(c) + 1
  {
    DaysBeforeMonthStep(c.year, c.month);
    DaysBeforeMonthMono(c.year, 1, 13);
  }
}
