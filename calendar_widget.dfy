/**
 * The month calendar beside the slot list. A day is an integer (0 is Thursday
 * 1970-01-01, negative days are earlier) and a month is an integer (0 is
 * January 1970). `today` is the start of the current day and is a parameter;
 * the Gregorian calendar stands in for the date library.
 */
module CalendarWidget {
  import opened Wrappers

  /** `getDay`: 0 for Sunday through 6 for Saturday. */
  function Weekday(day: int): (w: nat)
    ensures w < 7
  {
    (day + 4) % 7
  }

  /** The year a month falls in. */
  function YearOf(month: int): int {
    1970 + month / 12
  }

  /** `getMonth`: 0 for January through 11 for December. */
  function MonthOfYear(month: int): (r: nat)
    ensures r < 12
  {
    month % 12
  }

  predicate IsLeapYear(y: int) {
    y % 4 == 0 && (y % 100 != 0 || y % 400 == 0)
  }

  function DaysInMonth(month: int): (n: nat)
    ensures 28 <= n <= 31
  {
    var moy := MonthOfYear(month);
    if moy == 1 then (if IsLeapYear(YearOf(month)) then 29 else 28)
    else if moy == 3 || moy == 5 || moy == 8 || moy == 10 then 30
    else 31
  }

  /** `startOfMonth`: the first day of a month. */
  function FirstDay(month: int): int
    decreases if month < 0 then -month else month
  {
    if month == 0 then 0
    else if month > 0 then FirstDay(month - 1) + DaysInMonth(month - 1)
    else FirstDay(month + 1) - DaysInMonth(month)
  }

  /** Consecutive months are laid end to end. */
  lemma FirstDayNext(month: int)
    ensures FirstDay(month + 1) == FirstDay(month) + DaysInMonth(month)
  {
  }

  /** Later months start later. */
  lemma {:induction false} FirstDayIncreasing(a: int, b: int)
    requires a <= b
    ensures FirstDay(a) + 28 * (b - a) <= FirstDay(b)
    decreases b - a
  {
    if a < b {
      FirstDayNext(b - 1);
      FirstDayIncreasing(a, b - 1);
    }
  }

  /** `endOfMonth`: the last day of a month. */
  function LastDay(month: int): int {
    FirstDay(month + 1) - 1
  }

  /** A day lies in a month. */
  predicate InMonth(day: int, month: int) {
    FirstDay(month) <= day <= LastDay(month)
  }

  /** A day belongs to exactly one month. */
  lemma InMonthUnique(day: int, a: int, b: int)
    requires InMonth(day, a) && InMonth(day, b)
    ensures a == b
  {
    if a < b {
      FirstDayMonotone(a + 1, b);
    } else if b < a {
      FirstDayMonotone(b + 1, a);
    }
  }

  /** A later month does not start earlier. */
  lemma FirstDayMonotone(a: int, b: int)
    requires a <= b
    ensures FirstDay(a) <= FirstDay(b)
  {
    FirstDayIncreasing(a, b);
  }

  /** The month of a day at or after the first day of `month`, searching forwards. */
  function MonthUp(day: int, month: int): (r: int)
    requires FirstDay(month) <= day
    ensures InMonth(day, r)
    decreases day - FirstDay(month)
  {
    FirstDayNext(month);
    if day < FirstDay(month + 1) then month else MonthUp(day, month + 1)
  }

  /** The month of a day before the start of `month + 1`, searching backwards. */
  function MonthDown(day: int, month: int): (r: int)
    requires day < FirstDay(month + 1)
    ensures InMonth(day, r)
    decreases FirstDay(month + 1) - day
  {
    FirstDayNext(month);
    if FirstDay(month) <= day then month else MonthDown(day, month - 1)
  }

  /** The month a day falls in: `startOfMonth` read as a month. */
  function MonthOf(day: int): (r: int)
    ensures InMonth(day, r)
  {
    if day >= 0 then MonthUp(day, 0) else MonthDown(day, -1)
  }

  /** The month of a day is the one month containing it. */
  lemma MonthOfIs(day: int, month: int)
    requires InMonth(day, month)
    ensures MonthOf(day) == month
  {
    InMonthUnique(day, MonthOf(day), month);
  }

  /** `startDate`: back from the first of the month to its Sunday. */
  function StartDate(month: int): int {
    FirstDay(month) - Weekday(FirstDay(month))
  }

  /** `endDate`: forward from the last of the month to its Saturday. */
  function EndDate(month: int): int {
    LastDay(month) + 6 - Weekday(LastDay(month))
  }

  /** `eachDayOfInterval` from `startDate` to `endDate`, both included. */
  function Days(month: int): (r: seq<int>)
  {
    var n := EndDate(month) - StartDate(month) + 1;
    FirstDayNext(month);
    seq(if n < 0 then 0 else n, i => StartDate(month) + i)
  }

  /**
   * The grid starts on a Sunday at most six days before the first of the month
   * and ends on a Saturday at most six days after its last day.
   */
  lemma GridBounds(month: int)
    ensures Weekday(StartDate(month)) == 0
    ensures StartDate(month) <= FirstDay(month) <= StartDate(month) + 6
    ensures Weekday(EndDate(month)) == 6
    ensures LastDay(month) <= EndDate(month) <= LastDay(month) + 6
  {
    var f, l := FirstDay(month), LastDay(month);
    var _ := SundayBefore(f);
    var _ := SaturdayAfter(l);
    assert StartDate(month) == f - Weekday(f);
    assert EndDate(month) == l + 6 - Weekday(l);
  }

  /** Stepping back by a day's weekday lands on a Sunday, `q` weeks after the epoch's Sunday. */
  lemma SundayBefore(day: int) returns (q: int)
    ensures day - Weekday(day) + 4 == 7 * q
    ensures Weekday(day - Weekday(day)) == 0
  {
    q := (day + 4) / 7;
    assert day + 4 == 7 * q + Weekday(day);
  }

  /** Stepping forward to weekday 6 lands on a Saturday, `q` weeks after the epoch's Sunday. */
  lemma SaturdayAfter(day: int) returns (q: int)
    ensures day + 6 - Weekday(day) + 4 == 7 * q + 6
    ensures Weekday(day + 6 - Weekday(day)) == 6
  {
    q := (day + 4) / 7;
    assert day + 4 == 7 * q + Weekday(day);
  }

  /**
   * The grid is whole weeks of consecutive days, four to six of them, and shows
   * every day of the month.
   */
  lemma GridShape(month: int)
    ensures |Days(month)| % 7 == 0 && 28 <= |Days(month)| <= 42
    ensures forall i :: 0 <= i < |Days(month)| ==> Days(month)[i] == StartDate(month) + i
    ensures |Days(month)| == EndDate(month) - StartDate(month) + 1
  {
    var f, l := FirstDay(month), LastDay(month);
    FirstDayNext(month);
    assert 28 <= l - f + 1 <= 31;
    var q1 := SundayBefore(f);
    var q2 := SaturdayAfter(l);
    var start, end := StartDate(month), EndDate(month);
    assert start == f - Weekday(f) && end == l + 6 - Weekday(l);
    var weeks := q2 - q1 + 1;
    assert end - start + 1 == 7 * weeks;
    assert 4 <= weeks <= 6;
    assert |Days(month)| == 7 * weeks;
  }

  /** Each day of the month has its place in the grid. */
  lemma GridCoversMonth(month: int, day: int)
    requires InMonth(day, month)
    ensures 0 <= day - StartDate(month) < |Days(month)|
    ensures Days(month)[day - StartDate(month)] == day
  {
    GridBounds(month);
    GridShape(month);
  }

  /** Days in the grid belong to the month or to one of its two neighbours. */
  lemma GridNeighbours(month: int, day: int)
    requires StartDate(month) <= day <= EndDate(month)
    ensures month - 1 <= MonthOf(day) <= month + 1
  {
    GridBounds(month);
    FirstDayNext(month - 1);
    FirstDayNext(month);
    FirstDayNext(month + 1);
    var m := MonthOf(day);
    if m < month - 1 {
      FirstDayIncreasing(m + 1, month - 1);
      assert false;
    } else if m > month + 1 {
      FirstDayIncreasing(month + 2, m);
      assert false;
    }
  }

  /**
   * In the grid, comparing only the month of the year (`getMonth`) tells the
   * month's own days from the neighbours' days exactly.
   */
  lemma SameMonthOfYearInGrid(month: int, day: int)
    requires StartDate(month) <= day <= EndDate(month)
    ensures MonthOfYear(MonthOf(day)) == MonthOfYear(month) <==> InMonth(day, month)
  {
    GridNeighbours(month, day);
    if InMonth(day, month) {
      MonthOfIs(day, month);
    }
  }

  /** `isBefore(startOfMonth(subMonths(currentMonth, 1)), startOfMonth(today))`. */
  predicate PrevDisabled(currentMonth: int, today: int) {
    FirstDay(currentMonth - 1) < FirstDay(MonthOf(today))
  }

  /** The back button is disabled exactly when the previous month is before today's. */
  lemma PrevDisabledRule(currentMonth: int, today: int)
    ensures PrevDisabled(currentMonth, today) <==> currentMonth - 1 < MonthOf(today)
  {
    if currentMonth - 1 < MonthOf(today) {
      FirstDayIncreasing(currentMonth - 1, MonthOf(today));
    } else if currentMonth - 1 > MonthOf(today) {
      FirstDayIncreasing(MonthOf(today), currentMonth - 1);
    }
  }

  /** `handleDateClick`: the day handed to `onDateSelect`, unless it is before today. */
  function HandleDateClick(day: int, today: int): (r: Option<int>)
    ensures r.Some? ==> r.value == day
  {
    if !(day < today) then Some(day) else None
  }

  /** A cell's `onClick`: only days not past and in the shown month of the year reach `handleDateClick`. */
  function CellClick(day: int, currentMonth: int, today: int): Option<int> {
    var isPastDate := day < today;
    var isCurrentMonth := MonthOfYear(MonthOf(day)) == MonthOfYear(currentMonth);
    if !isPastDate && isCurrentMonth then HandleDateClick(day, today) else None
  }

  /** A click selects a day exactly when it is today or later. */
  lemma HandleDateClickRule(day: int, today: int)
    ensures HandleDateClick(day, today).Some? <==> today <= day
  {
  }

  /** A grid cell selects its day exactly when the day is not past and lies in the shown month. */
  lemma CellClickRule(month: int, i: nat, today: int)
    requires i < |Days(month)|
    ensures var day := Days(month)[i];
      CellClick(day, month, today) == (if today <= day && InMonth(day, month) then Some(day) else None)
  {
    GridShape(month);
    GridBounds(month);
    SameMonthOfYearInGrid(month, Days(month)[i]);
  }

  /** The widget's one piece of state: the month shown. */
  class Calendar {
    var currentMonth: int

    /** `useState(startOfMonth(selectedDate))`. */
    constructor(selectedDate: int)
      ensures currentMonth == MonthOf(selectedDate) && InMonth(selectedDate, currentMonth)
    {
      currentMonth := MonthOf(selectedDate);
    }

    /** `handlePrevMonth`: go back one month unless that month starts before today's. */
    method HandlePrevMonth(today: int)
      modifies this
      ensures currentMonth == if PrevDisabled(old(currentMonth), today) then old(currentMonth) else old(currentMonth) - 1
      ensures PrevDisabled(old(currentMonth), today) <==> currentMonth == old(currentMonth)
      ensures currentMonth != old(currentMonth) ==> MonthOf(today) <= currentMonth
    {
      var newMonth := currentMonth - 1;
      PrevDisabledRule(currentMonth, today);
      if !(FirstDay(newMonth) < FirstDay(MonthOf(today))) {
        currentMonth := newMonth;
      }
    }

    /** `handleNextMonth`: always forward one month. */
    method HandleNextMonth()
      modifies this
      ensures currentMonth == old(currentMonth) + 1
      ensures FirstDay(currentMonth) == FirstDay(old(currentMonth)) + DaysInMonth(old(currentMonth))
    {
      FirstDayNext(currentMonth);
      currentMonth := currentMonth + 1;
    }
  }

  /** Going back never leaves a month at or after today's for one before it. */
  lemma PrevKeepsFromToday(currentMonth: int, today: int)
    requires MonthOf(today) <= currentMonth
    ensures var next := if PrevDisabled(currentMonth, today) then currentMonth else currentMonth - 1;
      MonthOf(today) <= next
  {
    PrevDisabledRule(currentMonth, today);
  }
}
