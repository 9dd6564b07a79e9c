/** The civil (Gregorian) calendar: months are counted from January 1970, days from 1 January 1970. */
module Calendar {
  function YearOf(month: int): int {
    1970 + month / 12
  }

  predicate Leap(year: int) {
    year % 4 == 0 && (year % 100 != 0 || year % 400 == 0)
  }

  function MonthLength(month: int): (days: int)
    ensures 28 <= days <= 31
  {
    var m := month % 12 + 1;
    if m == 2 then (if Leap(YearOf(month)) then 29 else 28)
    else if m == 4 || m == 6 || m == 9 || m == 11 then 30
    else 31
  }

  /** The day number of the first day of a month. */
  function MonthStart(month: int): int
    decreases if month < 0 then -month else month
  {
    if month == 0 then 0
    else if month > 0 then MonthStart(month - 1) + MonthLength(month - 1)
    else MonthStart(month + 1) - MonthLength(month)
  }

  lemma MonthsFollow(month: int)
    ensures MonthStart(month + 1) == MonthStart(month) + MonthLength(month)
  {
  }

  lemma {:induction false} MonthsIncrease(a: int, b: int)
    requires a <= b
    ensures MonthStart(b) - MonthStart(a) >= 28 * (b - a)
    decreases b - a
  {
    if a < b {
      MonthsFollow(b - 1);
      MonthsIncrease(a, b - 1);
    }
  }

  function Distance(day: int, month: int): nat {
    if day < MonthStart(month) then MonthStart(month) - day
    else if day >= MonthStart(month + 1) then day - MonthStart(month + 1) + 1
    else 0
  }

  function Search(day: int, month: int): (found: int)
    ensures MonthStart(found) <= day < MonthStart(found + 1)
    decreases Distance(day, month)
  {
    MonthsFollow(month - 1);
    MonthsFollow(month);
    MonthsFollow(month + 1);
    if day < MonthStart(month) then Search(day, month - 1)
    else if day >= MonthStart(month + 1) then Search(day, month + 1)
    else month
  }

  /** The month a day falls in. */
  function MonthOf(day: int): (month: int)
    ensures MonthStart(month) <= day < MonthStart(month + 1)
  {
    Search(day, 0)
  }

  lemma MonthIsUnique(day: int, month: int)
    requires MonthStart(month) <= day < MonthStart(month + 1)
    ensures MonthOf(day) == month
  {
    var found := MonthOf(day);
    if found < month {
      MonthsIncrease(found + 1, month);
    } else if month < found {
      MonthsIncrease(month + 1, found);
    }
  }

  /** Days since the first of the month. */
  function DayInMonth(day: int): (d: nat)
    ensures d < MonthLength(MonthOf(day))
  {
    MonthsFollow(MonthOf(day));
    day - MonthStart(MonthOf(day))
  }

  /** Calendar arithmetic that keeps the day of the month and lets an overflowing day spill into the following month. */
  function AddMonths(day: int, n: int): int {
    MonthStart(MonthOf(day) + n) + DayInMonth(day)
  }

  /** One month back lands in the preceding month exactly when that month has the day; otherwise it stays in this one. */
  lemma OneMonthBack(day: int)
    ensures var month := MonthOf(day);
            MonthOf(AddMonths(day, -1)) == if DayInMonth(day) < MonthLength(month - 1) then month - 1 else month
  {
    var month := MonthOf(day);
    MonthsFollow(month - 1);
    MonthsFollow(month);
    MonthIsUnique(AddMonths(day, -1), if DayInMonth(day) < MonthLength(month - 1) then month - 1 else month);
  }

  lemma MonthInYear(year: int, m: int)
    requires 0 <= m < 12
    ensures MonthLength(12 * (year - 1970) + m)
            == if m == 1 then (if Leap(year) then 29 else 28) else if m == 3 || m == 5 || m == 8 || m == 10 then 30 else 31
  {
    var month := 12 * (year - 1970) + m;
    assert month / 12 == year - 1970 && month % 12 == m;
  }

  /** A year has 365 days, 366 if it is divisible by 4 but not by 100 unless by 400. */
  lemma YearLength(year: int)
    ensures MonthStart(12 * (year + 1 - 1970)) - MonthStart(12 * (year - 1970))
            == if year % 4 == 0 && (year % 100 != 0 || year % 400 == 0) then 366 else 365
  {
    var first := 12 * (year - 1970);
    ghost var days := 0;
    for m := 0 to 12
      invariant MonthStart(first + m) == MonthStart(first) + days
      invariant days == 31 * m - (if m > 1 then (if Leap(year) then 2 else 3) else 0) - (if m > 3 then 1 else 0)
                        - (if m > 5 then 1 else 0) - (if m > 8 then 1 else 0) - (if m > 10 then 1 else 0)
    {
      MonthsFollow(first + m);
      MonthInYear(year, m);
      days := days + MonthLength(first + m);
    }
  }

  /** The leap days up to the end of a year, from a common reference. */
  function LeapDays(year: int): int {
    year / 4 - year / 100 + year / 400
  }

  lemma MultiplesGrow(year: int)
    ensures year / 4 - (year - 1) / 4 == if year % 4 == 0 then 1 else 0
    ensures year / 100 - (year - 1) / 100 == if year % 100 == 0 then 1 else 0
    ensures year / 400 - (year - 1) / 400 == if year % 400 == 0 then 1 else 0
  {
  }

  lemma MultiplesNest(year: int)
    ensures year % 400 == 0 ==> year % 100 == 0
    ensures year % 100 == 0 ==> year % 4 == 0
  {
  }

  lemma LeapDaysGrow(year: int)
    ensures LeapDays(year) - LeapDays(year - 1) == if year % 4 == 0 && (year % 100 != 0 || year % 400 == 0) then 1 else 0
  {
    MultiplesGrow(year);
    MultiplesNest(year);
  }

  /** The first of January of every year in closed form: day 0 is the first of January 1970. */
  lemma {:induction false} YearStart(year: int)
    ensures MonthStart(12 * (year - 1970)) == 365 * (year - 1970) + LeapDays(year - 1) - LeapDays(1969)
    decreases if year < 1970 then 1970 - year else year - 1970
  {
    if year > 1970 {
      YearStart(year - 1);
      YearLength(year - 1);
      LeapDaysGrow(year - 1);
    } else if year < 1970 {
      YearStart(year + 1);
      YearLength(year);
      LeapDaysGrow(year);
    }
  }

  /** The months of a year: where each begins, counted from the first of January. */
  lemma MonthStartInYear(year: int, m: int)
    requires 0 <= m < 12
    ensures MonthStart(12 * (year - 1970) + m) - MonthStart(12 * (year - 1970))
            == [0, 31, 59, 90, 120, 151, 181, 212, 243, 273, 304, 334][m]
               + (if m >= 2 && year % 4 == 0 && (year % 100 != 0 || year % 400 == 0) then 1 else 0)
  {
    var first, starts := 12 * (year - 1970), [0, 31, 59, 90, 120, 151, 181, 212, 243, 273, 304, 334];
    for k := 0 to m
      invariant MonthStart(first + k) - MonthStart(first)
                == starts[k] + (if k >= 2 && year % 4 == 0 && (year % 100 != 0 || year % 400 == 0) then 1 else 0)
    {
      MonthsFollow(first + k);
      MonthInYear(year, k);
    }
  }
}
