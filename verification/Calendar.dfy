/** Points in time: microseconds since the start of 1970 in UTC, their days, and their months in the
    Gregorian calendar. */
module Calendar {
  const MICROS_PER_SECOND := 1000000
  const MICROS_PER_HOUR := 3600000000
  const MICROS_PER_DAY := 86400000000

  function Day(t: int): int {
    t / MICROS_PER_DAY
  }

  // ---------------------------------------------------------------- months

  /** Months are counted from January of year 0. */
  const EPOCH_MONTH := 1970 * 12

  predicate IsLeap(year: int) {
    year % 4 == 0 && (year % 100 != 0 || year % 400 == 0)
  }

  function DaysIn(month: int): (days: nat)
    ensures 28 <= days <= 31
  {
    match month % 12
    case 1 => if IsLeap(month / 12) then 29 else 28
    case 3 => 30
    case 5 => 30
    case 8 => 30
    case 10 => 30
    case _ => 31
  }

  /** The month in which the `day`-th day lies, counted from the first day of `month`. */
  function MonthFrom(day: int, month: int): int
    decreases if day >= 0 then day else 31 - day
  {
    if day < 0 then MonthFrom(day + DaysIn(month - 1), month - 1)
    else if day < DaysIn(month) then month
    else MonthFrom(day - DaysIn(month), month + 1)
  }

  function MonthOf(t: int): int {
    MonthFrom(Day(t), EPOCH_MONTH)
  }

  /** The first day of a month: the months before it, or back from it, one after the other. */
  function FirstDay(month: int): int
    decreases if month >= EPOCH_MONTH then month - EPOCH_MONTH else EPOCH_MONTH - month
  {
    if month == EPOCH_MONTH then 0
    else if month > EPOCH_MONTH then FirstDay(month - 1) + DaysIn(month - 1)
    else FirstDay(month + 1) - DaysIn(month)
  }

  lemma MonthsFollow(month: int)
    ensures FirstDay(month + 1) == FirstDay(month) + DaysIn(month)
  {
  }

  lemma {:induction false} FirstDaysAscend(m: int, n: int)
    requires m <= n
    ensures FirstDay(m) + 28 * (n - m) <= FirstDay(n)
    decreases n - m
  {
    if m < n {
      FirstDaysAscend(m, n - 1);
      MonthsFollow(n - 1);
    }
  }

  lemma {:induction false} MonthFromContains(day: int, month: int)
    ensures var m := MonthFrom(day, month); FirstDay(m) <= FirstDay(month) + day < FirstDay(m + 1)
    decreases if day >= 0 then day else 31 - day
  {
    hide DaysIn, FirstDay;
    MonthsFollow(month);
    MonthsFollow(month - 1);
    if day < 0 {
      MonthFromContains(day + DaysIn(month - 1), month - 1);
    } else if day >= DaysIn(month) {
      MonthFromContains(day - DaysIn(month), month + 1);
    }
  }

  /** A point in time lies in a month exactly when its day is one of the days of that month. */
  lemma MonthOfIff(t: int, month: int)
    ensures MonthOf(t) == month <==> FirstDay(month) <= Day(t) < FirstDay(month + 1)
  {
    var m := MonthOf(t);
    MonthFromContains(Day(t), EPOCH_MONTH);
    if m < month {
      FirstDaysAscend(m + 1, month);
    } else if month < m {
      FirstDaysAscend(month + 1, m);
    }
  }

  lemma MonthsAscend(s: int, t: int)
    requires s <= t
    ensures MonthOf(s) <= MonthOf(t)
  {
    hide MonthOf, FirstDay;
    MonthOfIff(s, MonthOf(s));
    MonthOfIff(t, MonthOf(t));
    if MonthOf(t) < MonthOf(s) {
      FirstDaysAscend(MonthOf(t) + 1, MonthOf(s));
    }
  }
}
