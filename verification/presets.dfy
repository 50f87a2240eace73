/**
 * The dashboard's `date_filter` presets, computed from "today" with
 * `timedelta` arithmetic. A preset that steps outside 0001-01-01..9999-12-31
 * raises OverflowError in Python; here that is the `Overflow` range.
 */
module Presets {
  import opened Wrappers
  import opened Calendar

  datatype Range = AllDates | Dates(start: Date, end: Date) | Overflow

  /** `today - timedelta(days=today.weekday())`, then `+ timedelta(days=6)`. */
  function WeekRange(today: Date): Range
    requires Valid(today)
  {
    BackwardOrdinal(today, Weekday(today));
    match Backward(today, Weekday(today))
    case None => Overflow
    case Some(start) =>
      match Forward(start, 6)
      case None => Overflow
      case Some(end) => Dates(start, end)
  }

  /** `today.replace(day=1)`, and `(start + timedelta(days=32)).replace(day=1) - timedelta(days=1)`. */
  function MonthRange(today: Date): Range
    requires Valid(today)
  {
    var start := FirstOfMonth(today);
    ForwardOrdinal(start, 32);
    match Forward(start, 32)
    case None => Overflow
    case Some(later) =>
      match Backward(FirstOfMonth(later), 1)
      case None => Overflow
      case Some(end) => Dates(start, end)
  }

  /** `(today.replace(day=1) - timedelta(days=1)).replace(day=1)` to `today.replace(day=1) - timedelta(days=1)`. */
  function LastMonthRange(today: Date): Range
    requires Valid(today)
  {
    BackwardOrdinal(FirstOfMonth(today), 1);
    match Backward(FirstOfMonth(today), 1)
    case None => Overflow
    case Some(end) => Dates(FirstOfMonth(end), end)
  }

  /** The `date_filter` dispatch of the dashboard; unknown filters and 'all' mean no range. */
  function PresetRange(filter: string, today: Date): Range
    requires Valid(today)
  {
    if filter == "today" then Dates(today, today)
    else if filter == "week" then WeekRange(today)
    else if filter == "month" then MonthRange(today)
    else if filter == "last_month" then LastMonthRange(today)
    else if filter == "year" then Dates(today.(month := 1, day := 1), today.(month := 12, day := 31))
    else AllDates
  }

  /** Stepping back by the weekday lands on a Monday, at day 1 or later. */
  lemma MondayArithmetic(o: int)
    requires o >= 1
    ensures WeekdayOf(o) <= o - 1
    ensures WeekdayOf(o - WeekdayOf(o)) == 0
  {
    var q := (o + 6) / 7;
    assert o - (o + 6) % 7 + 6 == 7 * q;
  }

  lemma SundayAfterMonday(monday: Date, sunday: Date)
    requires Valid(monday) && Valid(sunday)
    requires Weekday(monday) == 0 && Ordinal(sunday) == Ordinal(monday) + 6
    ensures Weekday(sunday) == 6
  {
    SixLater(Ordinal(monday));
  }

  /** Six days after a Monday is a Sunday. */
  lemma SixLater(o: int)
    requires WeekdayOf(o) == 0
    ensures WeekdayOf(o + 6) == 6
  {
  }

  /** The Monday of today's week never precedes 0001-01-01, which was a Monday. */
  lemma WeekStart(today: Date)
    requires Valid(today)
    ensures Backward(today, Weekday(today)).Some?
    ensures var start := Backward(today, Weekday(today)).value;
            Valid(start) && Ordinal(start) == Ordinal(today) - Weekday(today) && Weekday(start) == 0
  {
    OrdinalRange(today);
    MondayArithmetic(Ordinal(today));
    BackwardOrdinal(today, Weekday(today));
  }

  /**
   * The week runs from the Monday of today's week to the Sunday six days later,
   * so it contains today; only a week that crosses 9999-12-31 overflows.
   */
  lemma WeekPreset(today: Date)
    requires Valid(today)
    ensures var r := WeekRange(today);
            && (r.Overflow? <==> Ordinal(today) - Weekday(today) + 6 > MaxOrdinal)
            && !r.AllDates?
            && (r.Dates? ==>
                  && Valid(r.start) && Valid(r.end)
                  && Weekday(r.start) == 0 && Weekday(r.end) == 6
                  && Ordinal(r.end) == Ordinal(r.start) + 6
                  && LessEq(r.start, today) && LessEq(today, r.end))
  {
    WeekStart(today);
    var start := Backward(today, Weekday(today)).value;
    ForwardOrdinal(start, 6);
    OrdinalOrder(start, today);
    if Forward(start, 6).Some? {
      var end := Forward(start, 6).value;
      SundayAfterMonday(start, end);
      OrdinalOrder(today, end);
    }
  }

  /** 32 days after the 1st of a month is day 33 - length of the following month. */
  lemma MonthLanding(y: nat, m: nat)
    requires Valid(Date(y, m, 1)) && (y < MaxYear || m < 12)
    ensures var first := if m < 12 then Date(y, m + 1, 1) else Date(y + 1, 1, 1);
            Forward(Date(y, m, 1), 32) == Some(first.(day := 33 - DaysInMonth(y, m)))
  {
    var start := Date(y, m, 1);
    NextMonthOrdinal(y, m);
    var first := if m < 12 then Date(y, m + 1, 1) else Date(y + 1, 1, 1);
    var landing := first.(day := 33 - DaysInMonth(y, m));
    assert Valid(landing);
    assert Ordinal(landing) == Ordinal(first) + 32 - DaysInMonth(y, m);
    OrdinalRange(landing);
    ForwardOrdinal(start, 32);
    var later := Forward(start, 32).value;
    OrdinalOrder(later, landing);
  }

  lemma MonthOverflow(today: Date)
    requires Valid(today) && today.year == MaxYear && today.month == 12
    ensures Forward(FirstOfMonth(today), 32).None?
  {
    ForwardOrdinal(FirstOfMonth(today), 32);
    OrdinalOrder(MaxDate, MaxDate);
    assert Ordinal(MaxDate) == Ordinal(FirstOfMonth(today)) + 30;
  }

  /** The +32-days trick always lands in the next month, so the range is the whole current month. */
  lemma MonthPreset(today: Date)
    requires Valid(today)
    ensures MonthRange(today)
         == if today.year == MaxYear && today.month == 12 then Overflow
            else Dates(Date(today.year, today.month, 1), Date(today.year, today.month, DaysInMonth(today.year, today.month)))
  {
    var (y, m) := (today.year, today.month);
    if y == MaxYear && m == 12 {
      MonthOverflow(today);
    } else {
      MonthLanding(y, m);
      var first := if m < 12 then Date(y, m + 1, 1) else Date(y + 1, 1, 1);
      assert Backward(first, 1) == Some(Pred(first));
    }
  }

  /** The previous month from its 1st to its last day, across January too; only January of year 1 overflows. */
  lemma LastMonthPreset(today: Date)
    requires Valid(today)
    ensures LastMonthRange(today)
         == if today.year == MinYear && today.month == 1 then Overflow
            else if today.month == 1 then Dates(Date(today.year - 1, 12, 1), Date(today.year - 1, 12, 31))
            else Dates(Date(today.year, today.month - 1, 1), Date(today.year, today.month - 1, DaysInMonth(today.year, today.month - 1)))
  {
    var first := FirstOfMonth(today);
    if first != MinDate {
      assert Backward(first, 1) == Some(Pred(first));
    }
  }

  /**
   * Every preset other than last_month is a range of real dates containing
   * today; last_month ends before today; unknown filters and 'all' filter nothing.
   */
  lemma PresetContainsToday(filter: string, today: Date)
    requires Valid(today)
    ensures var r := PresetRange(filter, today);
            r.Dates? ==> Valid(r.start) && Valid(r.end) && LessEq(r.start, r.end)
                         && (if filter == "last_month" then Less(r.end, today) else LessEq(r.start, today) && LessEq(today, r.end))
    ensures filter !in {"today", "week", "month", "last_month", "year"} ==> PresetRange(filter, today) == AllDates
  {
    if filter == "week" {
      WeekPreset(today);
    } else if filter == "month" {
      MonthPreset(today);
    } else if filter == "last_month" {
      LastMonthPreset(today);
    }
  }
}
