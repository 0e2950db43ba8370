/**
  Calendar dates as kotlinx-datetime's LocalDate sees them (the proleptic
  Gregorian calendar of java.time), a day count that stands in for
  LocalDate.daysUntil, and the due tag of a task.
 */
module Calendar {
  import opened Text

  datatype Date = Date(year: int, month: int, day: int)

  /** The year range java.time.LocalDate accepts. */
  const MinYear: int := -999_999_999
  const MaxYear: int := 999_999_999

  predicate IsLeapYear(y: int) {
    y % 4 == 0 && (y % 100 != 0 || y % 400 == 0)
  }

  function DaysInYear(y: int): int {
    if IsLeapYear(y) then 366 else 365
  }

  function DaysInMonth(y: int, m: int): (n: int)
    requires 1 <= m <= 12
    ensures 28 <= n <= 31
  {
    if m == 2 then (if IsLeapYear(y) then 29 else 28)
    else if m == 4 || m == 6 || m == 9 || m == 11 then 30
    else 31
  }

  /** LocalDate(year, month, day) is constructed without an exception exactly for these. */
  predicate ValidDate(d: Date) {
    && MinYear <= d.year <= MaxYear
    && 1 <= d.month <= 12
    && 1 <= d.day <= DaysInMonth(d.year, d.month)
  }

  /** Days of year `y` before the first day of month `m`; m = 13 stands for the next year. */
  function DaysBeforeMonth(y: int, m: int): (n: nat)
    requires 1 <= m <= 13
  {
    var table := [0, 31, 59, 90, 120, 151, 181, 212, 243, 273, 304, 334, 365];
    table[m - 1] + if m > 2 && IsLeapYear(y) then 1 else 0
  }

  /** Days from 0000-01-01 to the first day of year `y` (negative before year 0). */
  function DaysBeforeYear(y: int): int {
    365 * y + (y + 3) / 4 - (y + 99) / 100 + (y + 399) / 400
  }

  /** The number of the day `d`, counted from 0000-01-01. */
  function DayNumber(d: Date): int
    requires 1 <= d.month <= 12
  {
    DaysBeforeYear(d.year) + DaysBeforeMonth(d.year, d.month) + d.day - 1
  }

  /** LocalDate.daysUntil: the signed number of days from `from` to `to`. */
  function DaysUntil(from: Date, to: Date): int
    requires ValidDate(from) && ValidDate(to)
  {
    DayNumber(to) - DayNumber(from)
  }

  /** `a` comes strictly before `b` in calendar order (year, then month, then day). */
  predicate Before(a: Date, b: Date) {
    || a.year < b.year
    || (a.year == b.year && a.month < b.month)
    || (a.year == b.year && a.month == b.month && a.day < b.day)
  }

  lemma DaysBeforeMonthStep(y: int, m: int)
    requires 1 <= m <= 12
    ensures DaysBeforeMonth(y, m) + DaysInMonth(y, m) == DaysBeforeMonth(y, m + 1)
  {
  }

  lemma DaysBeforeMonthYear(y: int)
    ensures DaysBeforeMonth(y, 13) == DaysInYear(y)
  {
  }

  lemma {:induction false} DaysBeforeMonthMono(y: int, m: int, n: int)
    requires 1 <= m <= n <= 13
    ensures DaysBeforeMonth(y, m) <= DaysBeforeMonth(y, n)
    decreases n - m
  {
    if m < n {
      DaysBeforeMonthStep(y, m);
      DaysBeforeMonthMono(y, m + 1, n);
    }
  }

  /** A year adds its own length to the day count. */
  lemma DaysBeforeYearStep(y: int)
    ensures DaysBeforeYear(y + 1) == DaysBeforeYear(y) + DaysInYear(y)
  {
    QuotientStep(y, 4);
    QuotientStep(y, 100);
    QuotientStep(y, 400);
    MultipleOf4(y);
    var a, b, c := (y + 3) / 4, (y + 99) / 100, (y + 399) / 400;
    assert DaysBeforeYear(y) == 365 * y + a - b + c;
    assert DaysInYear(y) == 365 + (if y % 4 == 0 then 1 else 0) - (if y % 100 == 0 then 1 else 0) + (if y % 400 == 0 then 1 else 0);
  }

  /** Multiples of 400 are multiples of 100, which are multiples of 4. */
  lemma MultipleOf4(y: int)
    ensures y % 400 == 0 ==> y % 100 == 0
    ensures y % 100 == 0 ==> y % 4 == 0
  {
    if y % 400 == 0 {
      var u := y / 100 - 4 * (y / 400);
      assert 100 * u == -(y % 100);
    }
    if y % 100 == 0 {
      var u := y / 4 - 25 * (y / 100);
      assert 4 * u == -(y % 4);
    }
  }

  /** Going from y - 1 to y, the count of multiples of k passed grows by one exactly at a multiple of k. */
  lemma QuotientStep(y: int, k: int)
    requires k == 4 || k == 100 || k == 400
    ensures (y + k) / k == (y + k - 1) / k + (if y % k == 0 then 1 else 0)
  {
    if k == 4 {
      assert (y + 4) / 4 == (y + 3) / 4 + (if y % 4 == 0 then 1 else 0);
    } else if k == 100 {
      assert (y + 100) / 100 == (y + 99) / 100 + (if y % 100 == 0 then 1 else 0);
    } else {
      assert (y + 400) / 400 == (y + 399) / 400 + (if y % 400 == 0 then 1 else 0);
    }
  }

  lemma {:induction false} DaysBeforeYearMono(y: int, z: int)
    requires y < z
    ensures DaysBeforeYear(y) + DaysInYear(y) <= DaysBeforeYear(z)
    decreases z - y
  {
    DaysBeforeYearStep(y);
    if y + 1 < z {
      DaysBeforeYearMono(y + 1, z);
    }
  }

  /** The day count is strictly increasing in calendar order. */
  lemma DayNumberIncreasing(a: Date, b: Date)
    requires ValidDate(a) && ValidDate(b) && Before(a, b)
    ensures DayNumber(a) < DayNumber(b)
  {
    DaysBeforeMonthStep(a.year, a.month);
    if a.year < b.year {
      DaysBeforeMonthMono(a.year, a.month + 1, 13);
      DaysBeforeMonthYear(a.year);
      DaysBeforeYearMono(a.year, b.year);
    } else if a.month < b.month {
      DaysBeforeMonthMono(a.year, a.month + 1, b.month);
    }
  }

  // ---------------------------------------------------------------------------
  // The due tag
  // ---------------------------------------------------------------------------

  /** How a task's date stands against today's date. */
  datatype Due = Overdue | DueToday | Upcoming

  /** dueTag: the sign of the number of days from today to the task's date. */
  function DueTag(task: Date, today: Date): Due
    requires ValidDate(task) && ValidDate(today)
  {
    var days := DaysUntil(today, task);
    if days == 0 then DueToday
    else if days > 0 then Upcoming
    else Overdue
  }

  /** The marker printed for a due tag: yellow for today, green for later, red for past. */
  function DueMarker(due: Due): string {
    match due
    case DueToday => ColorBlock(Yellow)
    case Upcoming => ColorBlock(Green)
    case Overdue => ColorBlock(Red)
  }

  /** The due tag is the calendar comparison of the task's date with today. */
  lemma DueTagByCalendar(task: Date, today: Date)
    requires ValidDate(task) && ValidDate(today)
    ensures DueTag(task, today) == DueToday <==> task == today
    ensures DueTag(task, today) == Upcoming <==> Before(today, task)
    ensures DueTag(task, today) == Overdue <==> Before(task, today)
  {
    if Before(today, task) {
      DayNumberIncreasing(today, task);
    } else if Before(task, today) {
      DayNumberIncreasing(task, today);
    }
  }

  /** The three due markers are pairwise different. */
  lemma DueMarkersDistinct(a: Due, b: Due)
    requires DueMarker(a) == DueMarker(b)
    ensures a == b
  {
    var codeA := match a case DueToday => Yellow case Upcoming => Green case Overdue => Red;
    var codeB := match b case DueToday => Yellow case Upcoming => Green case Overdue => Red;
    ColorBlockInjective(codeA, codeB);
  }
}
