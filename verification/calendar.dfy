/**
 * Proleptic Gregorian dates as Python's `datetime.date` sees them: years
 * 1..9999, `toordinal()` (0001-01-01 is day 1), `weekday()` (Monday is 0), and
 * `timedelta` day arithmetic, which raises OverflowError when the result leaves
 * the year range.
 */
module Calendar {
  import opened Wrappers

  datatype Date = Date(year: nat, month: nat, day: nat)

  const MinYear: nat := 1
  const MaxYear: nat := 9999
  const MinDate := Date(MinYear, 1, 1)
  const MaxDate := Date(MaxYear, 12, 31)

  predicate IsLeap(y: nat) {
    y % 4 == 0 && (y % 100 != 0 || y % 400 == 0)
  }

  function DaysInMonth(y: nat, m: nat): nat
    requires 1 <= m <= 12
  {
    if m == 2 then (if IsLeap(y) then 29 else 28)
    else if m == 4 || m == 6 || m == 9 || m == 11 then 30
    else 31
  }

  function DaysInYear(y: nat): nat {
    if IsLeap(y) then 366 else 365
  }

  /** A value `datetime.date` accepts. */
  predicate Valid(d: Date) {
    MinYear <= d.year <= MaxYear && 1 <= d.month <= 12 && 1 <= d.day <= DaysInMonth(d.year, d.month)
  }

  /** Chronological order of dates: lexicographic on (year, month, day). */
  predicate Less(a: Date, b: Date) {
    a.year < b.year
    || (a.year == b.year && a.month < b.month)
    || (a.year == b.year && a.month == b.month && a.day < b.day)
  }

  predicate LessEq(a: Date, b: Date) {
    a == b || Less(a, b)
  }

  /** Days in the years before `y` (Python's `_days_before_year`). */
  function DaysBeforeYear(y: nat): int
    requires y >= 1
  {
    var p := y - 1;
    365 * p + p / 4 - p / 100 + p / 400
  }

  /** Days in the months of year `y` before month `m`. */
  function DaysBeforeMonth(y: nat, m: nat): nat
    requires 1 <= m <= 13
  {
    if m == 1 then 0 else DaysBeforeMonth(y, m - 1) + DaysInMonth(y, m - 1)
  }

  /** `date.toordinal()`. */
  function Ordinal(d: Date): int
    requires Valid(d)
  {
    DaysBeforeYear(d.year) + DaysBeforeMonth(d.year, d.month) + d.day
  }

  const MaxOrdinal: int := 3652059

  /** The weekday of the day with ordinal `o`: day 1 (0001-01-01) was a Monday, 0. */
  function WeekdayOf(o: int): nat {
    (o + 6) % 7
  }

  /** `date.weekday()`: Monday is 0, Sunday is 6. */
  function Weekday(d: Date): (r: nat)
    requires Valid(d)
    ensures r < 7
  {
    WeekdayOf(Ordinal(d))
  }

  /** The next day; defined below `MaxDate`. */
  function Succ(d: Date): Date
    requires Valid(d) && d != MaxDate
  {
    if d.day < DaysInMonth(d.year, d.month) then Date(d.year, d.month, d.day + 1)
    else if d.month < 12 then Date(d.year, d.month + 1, 1)
    else Date(d.year + 1, 1, 1)
  }

  /** The previous day; defined above `MinDate`. */
  function Pred(d: Date): Date
    requires Valid(d) && d != MinDate
  {
    if d.day > 1 then Date(d.year, d.month, d.day - 1)
    else if d.month > 1 then Date(d.year, d.month - 1, DaysInMonth(d.year, d.month - 1))
    else Date(d.year - 1, 12, 31)
  }

  /** `d + timedelta(days=n)`; None is Python's OverflowError. */
  function Forward(d: Date, n: nat): Option<Date>
    requires Valid(d)
    decreases n
  {
    if n == 0 then Some(d)
    else if d == MaxDate then None
    else (SuccValid(d); Forward(Succ(d), n - 1))
  }

  /** `d - timedelta(days=n)`; None is Python's OverflowError. */
  function Backward(d: Date, n: nat): Option<Date>
    requires Valid(d)
    decreases n
  {
    if n == 0 then Some(d)
    else if d == MinDate then None
    else (PredValid(d); Backward(Pred(d), n - 1))
  }

  /** `d.replace(day=1)`. */
  function FirstOfMonth(d: Date): (r: Date)
    requires Valid(d)
    ensures Valid(r)
  {
    Date(d.year, d.month, 1)
  }

  // ---------------------------------------------------------------------------
  // Facts about the ordinal numbering

  lemma SuccValid(d: Date)
    requires Valid(d) && d != MaxDate
    ensures Valid(Succ(d))
  {
  }

  lemma PredValid(d: Date)
    requires Valid(d) && d != MinDate
    ensures Valid(Pred(d))
  {
  }

  lemma DaysBeforeYearStep(y: nat)
    requires y >= 1
    ensures DaysBeforeYear(y + 1) == DaysBeforeYear(y) + DaysInYear(y)
  {
    LeapCountStep(y);
    LeapIndicator(y);
    var p := y - 1;
    assert DaysBeforeYear(y + 1) == 365 * p + 365 + y / 4 - y / 100 + y / 400;
  }

  /** Leap years are the multiples of 4, less the multiples of 100, plus the multiples of 400. */
  lemma LeapIndicator(y: nat)
    ensures (if y % 4 == 0 then 1 else 0) - (if y % 100 == 0 then 1 else 0) + (if y % 400 == 0 then 1 else 0)
            == DaysInYear(y) - 365
  {
    if y % 400 == 0 {
      MultipleOf400(y);
      MultipleOf100(y);
    } else if y % 100 == 0 {
      MultipleOf100(y);
    }
  }

  lemma MultipleOf400(y: nat)
    requires y % 400 == 0
    ensures y % 100 == 0
  {
    assert y == 100 * (4 * (y / 400));
  }

  lemma MultipleOf100(y: nat)
    requires y % 100 == 0
    ensures y % 4 == 0
  {
    assert y == 4 * (25 * (y / 100));
  }

  /** Passing year `y` adds one to each count of multiples exactly when `y` is one. */
  lemma LeapCountStep(y: nat)
    requires y >= 1
    ensures y / 4 == (y - 1) / 4 + (if y % 4 == 0 then 1 else 0)
    ensures y / 100 == (y - 1) / 100 + (if y % 100 == 0 then 1 else 0)
    ensures y / 400 == (y - 1) / 400 + (if y % 400 == 0 then 1 else 0)
  {
  }

  lemma DaysBeforeMonthOfYear(y: nat)
    ensures DaysBeforeMonth(y, 13) == DaysInYear(y)
  {
    assert DaysBeforeMonth(y, 2) == 31;
    assert DaysBeforeMonth(y, 3) == 31 + DaysInMonth(y, 2);
    assert DaysBeforeMonth(y, 4) == DaysBeforeMonth(y, 3) + 31;
    assert DaysBeforeMonth(y, 5) == DaysBeforeMonth(y, 3) + 61;
    assert DaysBeforeMonth(y, 6) == DaysBeforeMonth(y, 3) + 92;
    assert DaysBeforeMonth(y, 7) == DaysBeforeMonth(y, 3) + 122;
    assert DaysBeforeMonth(y, 8) == DaysBeforeMonth(y, 3) + 153;
    assert DaysBeforeMonth(y, 9) == DaysBeforeMonth(y, 3) + 184;
    assert DaysBeforeMonth(y, 10) == DaysBeforeMonth(y, 3) + 214;
    assert DaysBeforeMonth(y, 11) == DaysBeforeMonth(y, 3) + 245;
    assert DaysBeforeMonth(y, 12) == DaysBeforeMonth(y, 3) + 275;
  }

  lemma {:induction false} DaysBeforeMonthMonotone(y: nat, m1: nat, m2: nat)
    requires 1 <= m1 <= m2 <= 13
    ensures DaysBeforeMonth(y, m1) <= DaysBeforeMonth(y, m2)
    decreases m2 - m1
  {
    if m1 < m2 {
      DaysBeforeMonthMonotone(y, m1, m2 - 1);
    }
  }

  lemma {:induction false} DaysBeforeYearMonotone(y1: nat, y2: nat)
    requires 1 <= y1 <= y2
    ensures DaysBeforeYear(y1) + 365 * (y2 - y1) <= DaysBeforeYear(y2)
    decreases y2 - y1
  {
    if y1 < y2 {
      DaysBeforeYearMonotone(y1, y2 - 1);
      DaysBeforeYearStep(y2 - 1);
    }
  }

  /** Each day of a month gets an ordinal inside its month, inside its year. */
  lemma OrdinalWithinYear(d: Date)
    requires Valid(d)
    ensures DaysBeforeYear(d.year) < Ordinal(d) <= DaysBeforeYear(d.year) + DaysInYear(d.year)
  {
    DaysBeforeMonthMonotone(d.year, d.month + 1, 13);
    DaysBeforeMonthOfYear(d.year);
  }

  lemma SuccOrdinal(d: Date)
    requires Valid(d) && d != MaxDate
    ensures Valid(Succ(d)) && Ordinal(Succ(d)) == Ordinal(d) + 1
  {
    if d.day == DaysInMonth(d.year, d.month) && d.month == 12 {
      DaysBeforeYearStep(d.year);
      DaysBeforeMonthOfYear(d.year);
    }
  }

  lemma PredOrdinal(d: Date)
    requires Valid(d) && d != MinDate
    ensures Valid(Pred(d)) && Ordinal(Pred(d)) == Ordinal(d) - 1
  {
    if d.day == 1 && d.month == 1 {
      DaysBeforeYearStep(d.year - 1);
      DaysBeforeMonthOfYear(d.year - 1);
    }
  }

  /** The ordinal numbering is strictly increasing in chronological order. */
  lemma {:induction false} OrdinalMonotone(a: Date, b: Date)
    requires Valid(a) && Valid(b) && Less(a, b)
    ensures Ordinal(a) < Ordinal(b)
  {
    if a.year < b.year {
      OrdinalWithinYear(a);
      OrdinalWithinYear(b);
      DaysBeforeYearStep(a.year);
      DaysBeforeYearMonotone(a.year + 1, b.year);
    } else if a.month < b.month {
      DaysBeforeMonthMonotone(a.year, a.month + 1, b.month);
    }
  }

  /** Chronological order and ordinal order agree, so the ordinal is injective. */
  lemma OrdinalOrder(a: Date, b: Date)
    requires Valid(a) && Valid(b)
    ensures LessEq(a, b) <==> Ordinal(a) <= Ordinal(b)
    ensures a == b <==> Ordinal(a) == Ordinal(b)
  {
    if Less(a, b) {
      OrdinalMonotone(a, b);
    } else if Less(b, a) {
      OrdinalMonotone(b, a);
    }
  }

  lemma OrdinalRange(d: Date)
    requires Valid(d)
    ensures 1 <= Ordinal(d) <= MaxOrdinal
  {
    OrdinalOrder(MinDate, d);
    OrdinalOrder(d, MaxDate);
  }

  /** `d + timedelta(n)` lands on the ordinal `n` days later, and overflows exactly past `MaxDate`. */
  lemma {:induction false} ForwardOrdinal(d: Date, n: nat)
    requires Valid(d)
    ensures Forward(d, n).Some? <==> Ordinal(d) + n <= MaxOrdinal
    ensures Forward(d, n).Some? ==> Valid(Forward(d, n).value) && Ordinal(Forward(d, n).value) == Ordinal(d) + n
    decreases n
  {
    OrdinalRange(d);
    if n > 0 {
      if d == MaxDate {
      } else {
        SuccOrdinal(d);
        ForwardOrdinal(Succ(d), n - 1);
      }
    }
  }

  /** `d - timedelta(n)` lands on the ordinal `n` days earlier, and overflows exactly before `MinDate`. */
  lemma {:induction false} BackwardOrdinal(d: Date, n: nat)
    requires Valid(d)
    ensures Backward(d, n).Some? <==> Ordinal(d) - n >= 1
    ensures Backward(d, n).Some? ==> Valid(Backward(d, n).value) && Ordinal(Backward(d, n).value) == Ordinal(d) - n
    decreases n
  {
    OrdinalRange(d);
    if n > 0 {
      if d == MinDate {
      } else {
        PredOrdinal(d);
        BackwardOrdinal(Pred(d), n - 1);
      }
    }
  }

  /** The first of the month after `d`'s month comes `DaysInMonth` days after the first of `d`'s. */
  lemma NextMonthOrdinal(y: nat, m: nat)
    requires Valid(Date(y, m, 1)) && (y < MaxYear || m < 12)
    ensures var next := if m < 12 then Date(y, m + 1, 1) else Date(y + 1, 1, 1);
            Valid(next) && Ordinal(next) == Ordinal(Date(y, m, 1)) + DaysInMonth(y, m)
  {
    if m == 12 {
      DaysBeforeYearStep(y);
      DaysBeforeMonthOfYear(y);
    }
  }
}
