/**
 * The proleptic Gregorian calendar as Python's `datetime.date` implements it.
 *
 * Dates here are mathematical: any year is allowed, so that successor and
 * predecessor are total on valid dates. Python only represents the years
 * MIN_YEAR..MAX_YEAR; the operations `Make`, `Plus` and `Minus` check that range
 * exactly where Python raises (`ValueError` from the constructor,
 * `OverflowError` from adding or subtracting a `timedelta`). The constructor
 * of CPython's C implementation also raises `OverflowError` for an argument
 * that does not fit a C `int`.
 */
module Dates {
  import opened Wrappers

  const MIN_YEAR := 1
  const MAX_YEAR := 9999

  /** The range of a C `int`, which CPython's `date()` converts its arguments to. */
  const C_INT_MIN := -0x8000_0000
  const C_INT_MAX := 0x7FFF_FFFF

  predicate IsCInt(n: int) {
    C_INT_MIN <= n <= C_INT_MAX
  }

  datatype Date = Date(year: int, month: int, day: int)

  /** What Python raises: `ValueError` for a bad (year, month, day), `OverflowError`
      for an argument beyond a C `int` or for date arithmetic that leaves the
      representable years. */
  datatype DateError = InvalidDate | Overflow

  /** The Gregorian leap-year rule. */
  predicate IsLeap(y: int) {
    y % 4 == 0 && (y % 100 != 0 || y % 400 == 0)
  }

  function DaysInYear(y: int): (n: int)
    ensures n == 365 || n == 366
    ensures n == 366 <==> IsLeap(y)
  {
    if IsLeap(y) then 366 else 365
  }

  function DaysInMonth(y: int, m: int): (n: int)
    ensures 28 <= n <= 31
  {
    if m == 2 then (if IsLeap(y) then 29 else 28)
    else if m == 4 || m == 6 || m == 9 || m == 11 then 30
    else 31
  }

  predicate IsValid(d: Date) {
    1 <= d.month <= 12 && 1 <= d.day <= DaysInMonth(d.year, d.month)
  }

  predicate InRange(d: Date) {
    MIN_YEAR <= d.year <= MAX_YEAR
  }

  /** The values a Python `date` can hold. */
  type PyDate = d: Date | IsValid(d) && InRange(d) witness Date(1, 1, 1)

  /** `date(y, m, d)`: a Python date, `OverflowError` when an argument does not
      fit a C `int`, or `ValueError`. */
  function Make(y: int, m: int, d: int): (r: Result<Date, DateError>)
    ensures r.Success? <==> IsValid(Date(y, m, d)) && InRange(Date(y, m, d))
    ensures r.Success? ==> r.value == Date(y, m, d)
    ensures r.Failure? ==> (r.error == Overflow <==> !(IsCInt(y) && IsCInt(m) && IsCInt(d)))
  {
    if !(IsCInt(y) && IsCInt(m) && IsCInt(d)) then Failure(Overflow)
    else if 1 <= m <= 12 && 1 <= d <= DaysInMonth(y, m) && MIN_YEAR <= y <= MAX_YEAR
    then Success(Date(y, m, d))
    else Failure(InvalidDate)
  }

  // ---------------------------------------------------------------------------
  // Day ordinals and weekdays, as CPython computes them

  /** Days in the years before year `y` (CPython's `_days_before_year`). */
  function DaysBeforeYear(y: int): int {
    var p := y - 1;
    365 * p + p / 4 - p / 100 + p / 400
  }

  /** Days in a common year before the first of month `m`. */
  function CommonDaysBeforeMonth(m: int): int {
    if m == 1 then 0 else if m == 2 then 31 else if m == 3 then 59
    else if m == 4 then 90 else if m == 5 then 120 else if m == 6 then 151
    else if m == 7 then 181 else if m == 8 then 212 else if m == 9 then 243
    else if m == 10 then 273 else if m == 11 then 304 else 334
  }

  /** Days in year `y` before the first of month `m` (CPython's `_days_before_month`). */
  function DaysBeforeMonth(y: int, m: int): int {
    CommonDaysBeforeMonth(m) + (if m > 2 && IsLeap(y) then 1 else 0)
  }

  /** `date.toordinal()`: 0001-01-01 is day 1. */
  function Ordinal(d: Date): int {
    DaysBeforeYear(d.year) + DaysBeforeMonth(d.year, d.month) + d.day
  }

  /** `date.weekday()`: 0 is Monday, 6 is Sunday. */
  function Weekday(d: Date): (w: int)
    ensures 0 <= w < 7
  {
    (Ordinal(d) + 6) % 7
  }

  /** 0001-01-01 has ordinal 1 ... */
  lemma EraStartOrdinal(d: Date)
    requires d == Date(MIN_YEAR, 1, 1)
    ensures Ordinal(d) == 1
  {
    assert DaysBeforeYear(d.year) == 0;
  }

  /** ... and is a Monday. */
  lemma EraStartsOnMonday(d: Date)
    requires d == Date(MIN_YEAR, 1, 1)
    ensures Weekday(d) == 0
  {
    assert 7 % 7 == 0;
    EraStartOrdinal(d);
  }

  // ---------------------------------------------------------------------------
  // Day steps

  /** The day after `d`. */
  function Succ(d: Date): Date {
    if d.day < DaysInMonth(d.year, d.month) then Date(d.year, d.month, d.day + 1)
    else if d.month < 12 then Date(d.year, d.month + 1, 1)
    else Date(d.year + 1, 1, 1)
  }

  /** The day before `d`. */
  function Pred(d: Date): Date {
    if d.day > 1 then Date(d.year, d.month, d.day - 1)
    else if d.month > 1 then Date(d.year, d.month - 1, DaysInMonth(d.year, d.month - 1))
    else Date(d.year - 1, 12, 31)
  }

  /** `d` moved `n` days forward. */
  function AddDays(d: Date, n: nat): Date
    decreases n
  {
    if n == 0 then d else Succ(AddDays(d, n - 1))
  }

  /** `d` moved `n` days back. */
  function SubDays(d: Date, n: nat): Date
    decreases n
  {
    if n == 0 then d else Pred(SubDays(d, n - 1))
  }

  /** `d + timedelta(days=n)`. */
  function Plus(d: Date, n: nat): (r: Result<Date, DateError>)
    ensures r.Success? ==> r.value == AddDays(d, n) && InRange(r.value)
    ensures r.Failure? ==> r.error == Overflow && !InRange(AddDays(d, n))
  {
    var e := AddDays(d, n);
    if InRange(e) then Success(e) else Failure(Overflow)
  }

  /** `d - timedelta(days=n)`. */
  function Minus(d: Date, n: nat): (r: Result<Date, DateError>)
    ensures r.Success? ==> r.value == SubDays(d, n) && InRange(r.value)
    ensures r.Failure? ==> r.error == Overflow && !InRange(SubDays(d, n))
  {
    var e := SubDays(d, n);
    if InRange(e) then Success(e) else Failure(Overflow)
  }

  /** Adding one day is taking the successor. */
  lemma PlusOneDay(d: Date)
    ensures Plus(d, 1) == if InRange(Succ(d)) then Success(Succ(d)) else Failure(Overflow)
  {
    assert AddDays(d, 1) == Succ(d);
  }

  // ---------------------------------------------------------------------------
  // Lemmas: day steps keep dates valid

  lemma SuccValid(d: Date)
    requires IsValid(d)
    ensures IsValid(Succ(d))
  {
  }

  lemma PredValid(d: Date)
    requires IsValid(d)
    ensures IsValid(Pred(d))
  {
  }

  lemma {:induction false} AddDaysValid(d: Date, n: nat)
    requires IsValid(d)
    ensures IsValid(AddDays(d, n))
    decreases n
  {
    if n > 0 {
      AddDaysValid(d, n - 1);
      SuccValid(AddDays(d, n - 1));
    }
  }

  lemma {:induction false} SubDaysValid(d: Date, n: nat)
    requires IsValid(d)
    ensures IsValid(SubDays(d, n))
    decreases n
  {
    if n > 0 {
      SubDaysValid(d, n - 1);
      PredValid(SubDays(d, n - 1));
    }
  }

  // ---------------------------------------------------------------------------
  // Lemmas: the ordinal counts days

  lemma DivStep4(p: int)
    ensures (p + 1) / 4 == p / 4 + (if (p + 1) % 4 == 0 then 1 else 0)
  {
  }

  lemma DivStep100(p: int)
    ensures (p + 1) / 100 == p / 100 + (if (p + 1) % 100 == 0 then 1 else 0)
  {
  }

  lemma DivStep400(p: int)
    ensures (p + 1) / 400 == p / 400 + (if (p + 1) % 400 == 0 then 1 else 0)
  {
  }

  /** A year contributes its own length to the days before the next one. */
  lemma DaysBeforeNextYear(y: int)
    ensures DaysBeforeYear(y + 1) == DaysBeforeYear(y) + DaysInYear(y)
  {
    var p := y - 1;
    DivStep4(p);
    DivStep100(p);
    DivStep400(p);
    assert DaysBeforeYear(y) == 365 * p + p / 4 - p / 100 + p / 400;
    assert DaysBeforeYear(y + 1) == 365 * p + 365 + (p + 1) / 4 - (p + 1) / 100 + (p + 1) / 400;
    assert IsLeap(y) <==> (p + 1) % 4 == 0 && ((p + 1) % 100 != 0 || (p + 1) % 400 == 0);
  }

  /** The ordinal of the next day is one more. */
  lemma SuccOrdinal(d: Date)
    requires IsValid(d)
    ensures Ordinal(Succ(d)) == Ordinal(d) + 1
  {
    if d.day == DaysInMonth(d.year, d.month) && d.month == 12 {
      DaysBeforeNextYear(d.year);
    }
  }

  /** The ordinal of the previous day is one less. */
  lemma PredOrdinal(d: Date)
    requires IsValid(d)
    ensures Ordinal(Pred(d)) == Ordinal(d) - 1
  {
    if d.day == 1 && d.month == 1 {
      DaysBeforeNextYear(d.year - 1);
    }
  }

  lemma {:induction false} AddDaysOrdinal(d: Date, n: nat)
    requires IsValid(d)
    ensures Ordinal(AddDays(d, n)) == Ordinal(d) + n
    decreases n
  {
    if n > 0 {
      AddDaysOrdinal(d, n - 1);
      AddDaysValid(d, n - 1);
      SuccOrdinal(AddDays(d, n - 1));
    }
  }

  lemma {:induction false} SubDaysOrdinal(d: Date, n: nat)
    requires IsValid(d)
    ensures Ordinal(SubDays(d, n)) == Ordinal(d) - n
    decreases n
  {
    if n > 0 {
      SubDaysOrdinal(d, n - 1);
      SubDaysValid(d, n - 1);
      PredOrdinal(SubDays(d, n - 1));
    }
  }

  /** Moving `n` days forward moves the weekday `n` places, modulo 7. */
  lemma AddDaysWeekday(d: Date, n: nat)
    requires IsValid(d)
    ensures Weekday(AddDays(d, n)) == (Weekday(d) + n) % 7
  {
    AddDaysOrdinal(d, n);
    ModShift(Ordinal(d) + 6, n);
  }

  /** `n` days after a Monday is weekday `n % 7`. */
  lemma FromMonday(d: Date, n: nat)
    requires IsValid(d) && Weekday(d) == 0
    ensures Weekday(AddDays(d, n)) == n % 7
  {
    AddDaysWeekday(d, n);
  }

  lemma ModShift(o: int, n: int)
    ensures (o + n) % 7 == (o % 7 + n) % 7
  {
    var q := o / 7;
    assert o == 7 * q + o % 7;
    ModMultiple(o % 7 + n, q);
  }

  lemma ModMultiple(x: int, q: int)
    ensures (7 * q + x) % 7 == x % 7
  {
  }

  /** Days after `d` have strictly larger ordinals, so no date repeats. */
  lemma AddDaysIncreasing(d: Date, a: nat, b: nat)
    requires IsValid(d) && a < b
    ensures Ordinal(AddDays(d, a)) < Ordinal(AddDays(d, b))
    ensures AddDays(d, a) != AddDays(d, b)
  {
    AddDaysOrdinal(d, a);
    AddDaysOrdinal(d, b);
  }

  // ---------------------------------------------------------------------------
  // Lemmas: day steps in calendar terms

  lemma {:induction false} AddDaysCompose(d: Date, a: nat, b: nat)
    ensures AddDays(d, a + b) == AddDays(AddDays(d, a), b)
    decreases b
  {
    if b > 0 {
      AddDaysCompose(d, a, b - 1);
    }
  }

  lemma {:induction false} SubDaysCompose(d: Date, a: nat, b: nat)
    ensures SubDays(d, a + b) == SubDays(SubDays(d, a), b)
    decreases b
  {
    if b > 0 {
      SubDaysCompose(d, a, b - 1);
    }
  }

  /** Inside one month, moving forward only raises the day number. */
  lemma {:induction false} AddDaysInMonth(d: Date, n: nat)
    requires d.day + n <= DaysInMonth(d.year, d.month)
    ensures AddDays(d, n) == Date(d.year, d.month, d.day + n)
    decreases n
  {
    if n > 0 {
      AddDaysInMonth(d, n - 1);
    }
  }

  /** Inside one month, moving back only lowers the day number. */
  lemma {:induction false} SubDaysInMonth(d: Date, n: nat)
    requires d.day - n >= 1
    ensures SubDays(d, n) == Date(d.year, d.month, d.day - n)
    decreases n
  {
    if n > 0 {
      SubDaysInMonth(d, n - 1);
    }
  }

  /** Going back one day and forward one day returns where it started. */
  lemma SuccPred(d: Date)
    requires IsValid(d)
    ensures Succ(Pred(d)) == d
  {
  }

  /** Going back `n` days and forward `k <= n` days is going back `n - k` days. */
  lemma {:induction false} AddSubDays(d: Date, n: nat, k: nat)
    requires IsValid(d) && k <= n
    ensures AddDays(SubDays(d, n), k) == SubDays(d, n - k)
    decreases k
  {
    if k > 0 {
      AddSubDays(d, n, k - 1);
      SubDaysValid(d, n - k);
      SuccPred(SubDays(d, n - k));
    }
  }

  /** Moving forward never lowers the year. */
  lemma {:induction false} AddDaysYearMonotone(d: Date, a: nat, b: nat)
    requires a <= b
    ensures AddDays(d, a).year <= AddDays(d, b).year
    decreases b
  {
    if a < b {
      AddDaysYearMonotone(d, a, b - 1);
    }
  }

  /** Once stepping forward from an in-range date leaves the range, stepping further stays out. */
  lemma OverflowPersists(d: Date, n: nat, total: nat)
    requires InRange(d) && n < total && !InRange(Succ(AddDays(d, n)))
    ensures !InRange(AddDays(d, total))
  {
    AddDaysYearMonotone(d, 0, n + 1);
    AddDaysYearMonotone(d, n + 1, total);
  }
}
