/**
 * The month view of the trading calendar: the boundaries of the requested month,
 * the per-day and per-week P/L lookups, the 6 x 7 grid of day cells starting on
 * a Monday, and the links to the previous and next month.
 *
 * Day rows and week rows are the results of the two database queries, taken as
 * input sequences. P/L amounts are carried through unchanged.
 */
module Calendar {
  import opened Wrappers
  import opened Dates

  /** Number of cells in the grid: six weeks of seven days. */
  const GRID_CELLS := 6 * 7

  /** A P/L amount; the calendar never computes with it. */
  type Amount = int

  /** A row of the `days` query: a date and its day P/L. */
  datatype DayRow = DayRow(date: PyDate, dayPl: Amount)

  /** A row of the `weeks` query. */
  datatype WeekRow = WeekRow(id: int, startDate: PyDate, endDate: PyDate, weekPl: Amount)

  /** One grid cell. */
  datatype Cell = Cell(date: Date, inMonth: bool, dayPl: Option<Amount>, weekPl: Option<Amount>)

  datatype YearMonth = YearMonth(year: int, month: int)

  /** `first_day`, `next_month` and `last_day` of the requested month. */
  datatype MonthBounds = MonthBounds(firstDay: Date, nextMonth: Date, lastDay: Date)

  /** The links below the calendar. */
  datatype Links = Links(prev: YearMonth, next: YearMonth)

  /** What the view hands to the template. */
  datatype View = View(year: int, month: int, firstDay: Date, cells: seq<Cell>, prev: YearMonth, next: YearMonth)

  // ---------------------------------------------------------------------------
  // Reference definitions of neighbouring months

  predicate ValidMonth(year: int, month: int) {
    MIN_YEAR <= year <= MAX_YEAR && 1 <= month <= 12
  }

  function PrevMonthOf(year: int, month: int): YearMonth {
    if month == 1 then YearMonth(year - 1, 12) else YearMonth(year, month - 1)
  }

  function NextMonthOf(year: int, month: int): YearMonth {
    if month == 12 then YearMonth(year + 1, 1) else YearMonth(year, month + 1)
  }

  function FirstOf(ym: YearMonth): Date {
    Date(ym.year, ym.month, 1)
  }

  function MonthOf(d: Date): YearMonth {
    YearMonth(d.year, d.month)
  }

  // ---------------------------------------------------------------------------
  // Month boundaries (`first_day`, `next_month`, `last_day`)

  /** Day 28 plus four days is always in the next month, on day 1 to 4. */
  lemma AddFourToDay28(y: int, m: int)
    requires 1 <= m <= 12
    ensures var next := NextMonthOf(y, m);
      AddDays(Date(y, m, 28), 4) == Date(next.year, next.month, 32 - DaysInMonth(y, m))
  {
    var dim := DaysInMonth(y, m);
    var next := NextMonthOf(y, m);
    AddDaysInMonth(Date(y, m, 28), dim - 28);
    AddDaysCompose(Date(y, m, 28), dim - 28, 1);
    AddDaysCompose(Date(y, m, 28), dim - 27, 31 - dim);
    AddDaysInMonth(FirstOf(next), 31 - dim);
  }

  function Bounds(year: int, month: int): (r: Result<MonthBounds, DateError>)
    ensures r.Failure? && r.error == InvalidDate <==> IsCInt(year) && IsCInt(month) && !ValidMonth(year, month)
    ensures r.Failure? && r.error == Overflow <==>
              !(IsCInt(year) && IsCInt(month)) || (year == MAX_YEAR && month == 12)
    ensures r.Success? ==>
              && r.value.firstDay == Date(year, month, 1)
              && r.value.nextMonth == FirstOf(NextMonthOf(year, month))
              && r.value.lastDay == Date(year, month, DaysInMonth(year, month))
              && Succ(r.value.lastDay) == r.value.nextMonth
  {
    match Make(year, month, 1)
    case Failure(e) => Failure(e)
    case Success(first) =>
      AddFourToDay28(year, month);
      match Plus(first.(day := 28), 4)
      case Failure(e) => Failure(e)
      case Success(d) =>
        var next := d.(day := 1);
        match Minus(next, 1)
        case Failure(e) => Failure(e)
        case Success(last) => Success(MonthBounds(first, next, last))
  }

  // ---------------------------------------------------------------------------
  // The day P/L map

  /** `{ r["date"]: r["day_pl"] for r in day_rows }` */
  function DayPlMap(rows: seq<DayRow>): map<Date, Amount> {
    if rows == [] then map[]
    else DayPlMap(rows[..|rows| - 1])[rows[|rows| - 1].date := rows[|rows| - 1].dayPl]
  }

  /** The day map has a key for exactly the dates of the rows, and a later row
      for the same date wins. */
  lemma {:induction false} DayPlMapSpec(rows: seq<DayRow>)
    ensures forall d :: d in DayPlMap(rows) <==> exists i :: 0 <= i < |rows| && rows[i].date == d
    ensures forall i :: 0 <= i < |rows| && (forall j :: i < j < |rows| ==> rows[j].date != rows[i].date)
               ==> rows[i].date in DayPlMap(rows) && DayPlMap(rows)[rows[i].date] == rows[i].dayPl
  {
    if rows != [] {
      var n := |rows| - 1;
      var prefix := rows[..n];
      var last := rows[n];
      var m := DayPlMap(rows);
      assert m == DayPlMap(prefix)[last.date := last.dayPl];
      DayPlMapSpec(prefix);
      forall d
        ensures d in m <==> exists i :: 0 <= i < |rows| && rows[i].date == d
      {
        if d != last.date && d in m {
          var i :| 0 <= i < |prefix| && prefix[i].date == d;
          assert rows[i] == prefix[i];
        }
      }
      forall i | 0 <= i < |rows| && (forall j :: i < j < |rows| ==> rows[j].date != rows[i].date)
        ensures rows[i].date in m && m[rows[i].date] == rows[i].dayPl
      {
        if i < n {
          assert rows[i] == prefix[i];
          assert forall j :: i < j < |prefix| ==> prefix[j] == rows[j];
        }
      }
    }
  }

  // ---------------------------------------------------------------------------
  // The weekend week-P/L map

  /** `(5 - start_date.weekday()) % 7` */
  function DaysToSaturday(start: Date): (n: nat)
    ensures n < 7
  {
    (5 - Weekday(start)) % 7
  }

  /** The week's display Saturday: its start date moved on to a Saturday. */
  function DisplaySaturday(start: Date): Date
  {
    AddDays(start, DaysToSaturday(start))
  }

  /** Moving forward `(5 - w) % 7` days from weekday `w` reaches weekday 5. */
  lemma SaturdayOffset(w: int)
    requires 0 <= w < 7
    ensures (w + (5 - w) % 7) % 7 == 5
  {
    if w == 6 {
      assert (5 - w) % 7 == 6;
    } else {
      assert (5 - w) % 7 == 5 - w;
    }
  }

  /** No shorter move from weekday `w` reaches weekday 5. */
  lemma NoEarlierSaturday(w: int, k: int)
    requires 0 <= w < 7 && 0 <= k < (5 - w) % 7
    ensures (w + k) % 7 != 5
  {
    if w == 6 {
      assert (5 - w) % 7 == 6;
    } else {
      assert (5 - w) % 7 == 5 - w;
    }
  }

  /** The display Saturday is the first Saturday on or after the start date. */
  lemma DisplaySaturdayIsSaturday(start: Date)
    requires IsValid(start)
    ensures Weekday(DisplaySaturday(start)) == 5
    ensures 0 <= Ordinal(DisplaySaturday(start)) - Ordinal(start) <= 6
  {
    var n := DaysToSaturday(start);
    SaturdayOffset(Weekday(start));
    AddDaysWeekday(start, n);
    AddDaysOrdinal(start, n);
  }

  /** No day between the start date and its display Saturday is a Saturday. */
  lemma DisplaySaturdayIsFirst(start: Date, k: nat)
    requires IsValid(start) && k < DaysToSaturday(start)
    ensures Weekday(AddDays(start, k)) != 5
  {
    NoEarlierSaturday(Weekday(start), k);
    AddDaysWeekday(start, k);
  }

  /** The map the week loop builds: display Saturday to week P/L, for the
      weeks whose display Saturday has the requested month number. */
  function WeekendMapSpec(weeks: seq<WeekRow>, month: int): map<Date, Amount> {
    if weeks == [] then map[]
    else
      var last := weeks[|weeks| - 1];
      var saturday := DisplaySaturday(last.startDate);
      if saturday.month == month then WeekendMapSpec(weeks[..|weeks| - 1], month)[saturday := last.weekPl]
      else WeekendMapSpec(weeks[..|weeks| - 1], month)
  }

  /** The weekend map has a key for exactly the display Saturdays with the
      requested month number. */
  lemma {:induction false} WeekendMapSpecKeys(weeks: seq<WeekRow>, month: int, d: Date)
    ensures d in WeekendMapSpec(weeks, month) <==>
              d.month == month && exists i :: 0 <= i < |weeks| && DisplaySaturday(weeks[i].startDate) == d
  {
    if weeks != [] {
      var n := |weeks| - 1;
      var prefix := weeks[..n];
      WeekendMapSpecKeys(prefix, month, d);
      if d in WeekendMapSpec(prefix, month) {
        var i :| 0 <= i < |prefix| && DisplaySaturday(prefix[i].startDate) == d;
        assert weeks[i] == prefix[i];
      }
      if d.month == month && exists i :: 0 <= i < |weeks| && DisplaySaturday(weeks[i].startDate) == d {
        var i :| 0 <= i < |weeks| && DisplaySaturday(weeks[i].startDate) == d;
        if i < n {
          assert weeks[i] == prefix[i];
        }
      }
    }
  }

  /** In the weekend map a later week with the same display Saturday wins. */
  lemma {:induction false} WeekendMapSpecLastWins(weeks: seq<WeekRow>, month: int, i: nat)
    requires i < |weeks| && DisplaySaturday(weeks[i].startDate).month == month
    requires forall j :: i < j < |weeks| ==> DisplaySaturday(weeks[j].startDate) != DisplaySaturday(weeks[i].startDate)
    ensures DisplaySaturday(weeks[i].startDate) in WeekendMapSpec(weeks, month)
    ensures WeekendMapSpec(weeks, month)[DisplaySaturday(weeks[i].startDate)] == weeks[i].weekPl
  {
    var n := |weeks| - 1;
    if i < n {
      var prefix := weeks[..n];
      assert weeks[i] == prefix[i];
      assert forall j :: i < j < |prefix| ==> prefix[j] == weeks[j];
      WeekendMapSpecLastWins(prefix, month, i);
    }
  }

  /** Every key of the weekend map is a Saturday of the requested month number. */
  lemma WeekendMapKeys(weeks: seq<WeekRow>, month: int, d: Date)
    requires d in WeekendMapSpec(weeks, month)
    ensures Weekday(d) == 5 && d.month == month
  {
    WeekendMapSpecKeys(weeks, month, d);
    var i :| 0 <= i < |weeks| && DisplaySaturday(weeks[i].startDate) == d;
    DisplaySaturdayIsSaturday(weeks[i].startDate);
  }

  /** The week loop: fails as Python does when a display Saturday is past the
      last representable date. */
  method WeekendPlMap(weeks: seq<WeekRow>, month: int) returns (r: Result<map<Date, Amount>, DateError>)
    ensures r.Success? <==> forall i :: 0 <= i < |weeks| ==> InRange(DisplaySaturday(weeks[i].startDate))
    ensures r.Success? ==> r.value == WeekendMapSpec(weeks, month)
    ensures r.Failure? ==> r.error == Overflow
  {
    var m: map<Date, Amount> := map[];
    for i := 0 to |weeks|
      invariant m == WeekendMapSpec(weeks[..i], month)
      invariant forall k :: 0 <= k < i ==> InRange(DisplaySaturday(weeks[k].startDate))
    {
      var w := weeks[i];
      var saturday :- Plus(w.startDate, DaysToSaturday(w.startDate));
      if saturday.month == month {
        m := m[saturday := w.weekPl];
      }
      assert weeks[..i + 1][..i] == weeks[..i];
    }
    assert weeks[..|weeks|] == weeks;
    return Success(m);
  }

  // ---------------------------------------------------------------------------
  // The grid

  /** `first_day - timedelta(days=first_day.weekday())` */
  function GridStart(first: Date): Date
  {
    SubDays(first, Weekday(first))
  }

  function MakeCell(d: Date, month: int, dayMap: map<Date, Amount>, satMap: map<Date, Amount>): Cell
  {
    Cell(d, d.month == month, Get(dayMap, d), if Weekday(d) >= 5 then Get(satMap, d) else None)
  }

  /** The first `n` cells from `start` on, one day apart. */
  function GridPrefix(start: Date, n: nat, month: int, dayMap: map<Date, Amount>, satMap: map<Date, Amount>): seq<Cell>
    decreases n
  {
    if n == 0 then []
    else GridPrefix(start, n - 1, month, dayMap, satMap) + [MakeCell(AddDays(start, n - 1), month, dayMap, satMap)]
  }

  /** The 42 cells from `start` on. */
  function Grid(start: Date, month: int, dayMap: map<Date, Amount>, satMap: map<Date, Amount>): (g: seq<Cell>)
    ensures |g| == GRID_CELLS
  {
    GridPrefixAt(start, GRID_CELLS, month, dayMap, satMap, 0);
    GridPrefix(start, GRID_CELLS, month, dayMap, satMap)
  }

  /** Cell `i` of the grid is the cell of the date `i` days after the start. */
  lemma GridAt(start: Date, month: int, dayMap: map<Date, Amount>, satMap: map<Date, Amount>, i: nat)
    requires i < GRID_CELLS
    ensures Grid(start, month, dayMap, satMap)[i] == MakeCell(AddDays(start, i), month, dayMap, satMap)
  {
    GridPrefixAt(start, GRID_CELLS, month, dayMap, satMap, i);
  }

  /** Cell `i` of a prefix is the cell of the date `i` days after the start. */
  lemma {:induction false} GridPrefixAt(start: Date, n: nat, month: int, dayMap: map<Date, Amount>, satMap: map<Date, Amount>, i: nat)
    requires i < n
    ensures |GridPrefix(start, n, month, dayMap, satMap)| == n
    ensures GridPrefix(start, n, month, dayMap, satMap)[i] == MakeCell(AddDays(start, i), month, dayMap, satMap)
    decreases n
  {
    if i < n - 1 {
      GridPrefixAt(start, n - 1, month, dayMap, satMap, i);
    } else if n > 1 {
      GridPrefixAt(start, n - 1, month, dayMap, satMap, 0);
    }
  }

  /** The grid loop. It fails as Python does when the date after the last cell
      is past the last representable date. */
  method BuildGrid(start: Date, month: int, dayMap: map<Date, Amount>, satMap: map<Date, Amount>)
    returns (r: Result<seq<Cell>, DateError>)
    requires IsValid(start) && InRange(start)
    ensures r.Success? <==> InRange(AddDays(start, GRID_CELLS))
    ensures r.Success? ==> r.value == Grid(start, month, dayMap, satMap)
    ensures r.Failure? ==> r.error == Overflow
  {
    var cells: seq<Cell> := [];
    var d := start;
    for n := 0 to GRID_CELLS
      invariant d == AddDays(start, n) && InRange(d)
      invariant cells == GridPrefix(start, n, month, dayMap, satMap)
    {
      cells := cells + [MakeCell(d, month, dayMap, satMap)];
      var next := Plus(d, 1);
      PlusOneDay(d);
      if next.Failure? {
        OverflowPersists(start, n, GRID_CELLS);
        return Failure(Overflow);
      }
      d := next.value;
    }
    return Success(cells);
  }

  /** The grid of month (y, m) as the view builds it from the query rows. */
  function MonthGrid(y: int, m: int, dayRows: seq<DayRow>, weeks: seq<WeekRow>): seq<Cell>
    requires 1 <= m <= 12
  {
    Grid(GridStart(Date(y, m, 1)), m, DayPlMap(dayRows), WeekendMapSpec(weeks, m))
  }

  /** The date in cell `i` of the grid of (y, m), written out in calendar terms:
      the tail of the previous month, the whole month, the head of the next one. */
  function ExpectedGridDate(y: int, m: int, i: int): Date
    requires 1 <= m <= 12
  {
    var wd := Weekday(Date(y, m, 1));
    var dim := DaysInMonth(y, m);
    var prev := PrevMonthOf(y, m);
    var next := NextMonthOf(y, m);
    if i < wd then Date(prev.year, prev.month, DaysInMonth(prev.year, prev.month) - wd + i + 1)
    else if i < wd + dim then Date(y, m, i - wd + 1)
    else Date(next.year, next.month, i - wd - dim + 1)
  }

  /** The grid starts on the Monday on or before the 1st, at most six days earlier. */
  lemma GridStartIsMonday(y: int, m: int)
    requires 1 <= m <= 12
    ensures Weekday(GridStart(Date(y, m, 1))) == 0
    ensures Ordinal(GridStart(Date(y, m, 1))) == Ordinal(Date(y, m, 1)) - Weekday(Date(y, m, 1))
    ensures 0 <= Ordinal(Date(y, m, 1)) - Ordinal(GridStart(Date(y, m, 1))) <= 6
  {
    var first := Date(y, m, 1);
    SubDaysOrdinal(first, Weekday(first));
    var o := Ordinal(first) + 6;
    assert o - o % 7 == 7 * (o / 7);
    ModMultiple(0, o / 7);
  }

  /** The `n` days before the 1st of a month are the last days of the previous month. */
  lemma DaysBeforeFirst(y: int, m: int, n: nat)
    requires 1 <= m <= 12 && 1 <= n <= 28
    ensures var prev := PrevMonthOf(y, m);
      SubDays(Date(y, m, 1), n) == Date(prev.year, prev.month, DaysInMonth(prev.year, prev.month) - n + 1)
  {
    SubDaysCompose(Date(y, m, 1), 1, n - 1);
    SubDaysInMonth(Pred(Date(y, m, 1)), n - 1);
  }

  /** Moving on from the 1st past the end of the month lands in the next month. */
  lemma DaysAfterMonth(y: int, m: int, j: nat)
    requires 1 <= m <= 12 && DaysInMonth(y, m) <= j < DaysInMonth(y, m) + 28
    ensures var next := NextMonthOf(y, m);
      AddDays(Date(y, m, 1), j) == Date(next.year, next.month, j - DaysInMonth(y, m) + 1)
  {
    var dim := DaysInMonth(y, m);
    AddDaysInMonth(Date(y, m, 1), dim - 1);
    AddDaysCompose(Date(y, m, 1), dim - 1, 1);
    AddDaysCompose(Date(y, m, 1), dim, j - dim);
    AddDaysInMonth(FirstOf(NextMonthOf(y, m)), j - dim);
  }

  /** Stepping `i` days from `n` days before `first` is stepping `i - n` days from `first`. */
  lemma StepFromBefore(first: Date, n: nat, i: nat)
    requires IsValid(first) && n <= i
    ensures AddDays(SubDays(first, n), i) == AddDays(first, i - n)
  {
    AddDaysCompose(SubDays(first, n), n, i - n);
    AddSubDays(first, n, n);
  }

  /** Stepping from the grid start gives the calendar dates of `ExpectedGridDate`. */
  lemma GridDateAt(y: int, m: int, i: nat)
    requires 1 <= m <= 12 && i < GRID_CELLS
    ensures AddDays(GridStart(Date(y, m, 1)), i) == ExpectedGridDate(y, m, i)
  {
    var first := Date(y, m, 1);
    var wd := Weekday(first);
    var dim := DaysInMonth(y, m);
    if i < wd {
      AddSubDays(first, wd, i);
      DaysBeforeFirst(y, m, wd - i);
    } else {
      StepFromBefore(first, wd, i);
      if i - wd < dim {
        AddDaysInMonth(first, i - wd);
      } else {
        DaysAfterMonth(y, m, i - wd);
      }
    }
  }

  /** Cell `i` of the grid of (y, m) is the cell of `ExpectedGridDate(y, m, i)`. */
  lemma MonthGridAt(y: int, m: int, dayRows: seq<DayRow>, weeks: seq<WeekRow>, i: nat)
    requires 1 <= m <= 12 && i < GRID_CELLS
    ensures var c := MonthGrid(y, m, dayRows, weeks)[i];
      && c.date == AddDays(GridStart(Date(y, m, 1)), i)
      && c.date == ExpectedGridDate(y, m, i)
      && c == MakeCell(c.date, m, DayPlMap(dayRows), WeekendMapSpec(weeks, m))
  {
    GridAt(GridStart(Date(y, m, 1)), m, DayPlMap(dayRows), WeekendMapSpec(weeks, m), i);
    GridDateAt(y, m, i);
  }

  /** The first cell is the grid start: a Monday at most six days before the 1st. */
  lemma GridFirstCell(y: int, m: int, dayRows: seq<DayRow>, weeks: seq<WeekRow>)
    requires 1 <= m <= 12
    ensures var first := Date(y, m, 1);
      var c := MonthGrid(y, m, dayRows, weeks)[0];
      && c.date == GridStart(first)
      && Weekday(c.date) == 0
      && 0 <= Ordinal(first) - Ordinal(c.date) <= 6
  {
    MonthGridAt(y, m, dayRows, weeks, 0);
    GridStartIsMonday(y, m);
  }

  /** Each cell is the day after the one before. */
  lemma GridConsecutive(y: int, m: int, dayRows: seq<DayRow>, weeks: seq<WeekRow>, i: nat)
    requires 1 <= m <= 12 && 0 < i < GRID_CELLS
    ensures var g := MonthGrid(y, m, dayRows, weeks);
      g[i].date == Succ(g[i - 1].date) && Ordinal(g[i].date) == Ordinal(g[i - 1].date) + 1
  {
    var start := GridStart(Date(y, m, 1));
    MonthGridAt(y, m, dayRows, weeks, i);
    MonthGridAt(y, m, dayRows, weeks, i - 1);
    SubDaysValid(Date(y, m, 1), Weekday(Date(y, m, 1)));
    AddDaysValid(start, i - 1);
    SuccOrdinal(AddDays(start, i - 1));
  }

  /** Cell `i` falls on weekday `i % 7`. */
  lemma GridWeekday(y: int, m: int, dayRows: seq<DayRow>, weeks: seq<WeekRow>, i: nat)
    requires 1 <= m <= 12 && i < GRID_CELLS
    ensures Weekday(MonthGrid(y, m, dayRows, weeks)[i].date) == i % 7
  {
    var start := GridStart(Date(y, m, 1));
    MonthGridAt(y, m, dayRows, weeks, i);
    GridStartIsMonday(y, m);
    SubDaysValid(Date(y, m, 1), Weekday(Date(y, m, 1)));
    FromMonday(start, i);
  }

  /** `in_month` holds exactly on the dates of month (y, m), even though the
      code compares only the month number. */
  lemma GridInMonth(y: int, m: int, dayRows: seq<DayRow>, weeks: seq<WeekRow>, i: nat)
    requires 1 <= m <= 12 && i < GRID_CELLS
    ensures var c := MonthGrid(y, m, dayRows, weeks)[i];
      c.inMonth <==> c.date.year == y && c.date.month == m
  {
    MonthGridAt(y, m, dayRows, weeks, i);
  }

  /** Day `k` of the month is the expected date of cell `weekday(first_day) + k - 1`. */
  lemma MonthDayCell(y: int, m: int, k: int)
    requires 1 <= m <= 12 && 1 <= k <= DaysInMonth(y, m)
    ensures var i := Weekday(Date(y, m, 1)) + k - 1;
      0 <= i < GRID_CELLS && ExpectedGridDate(y, m, i) == Date(y, m, k)
  {
  }

  /** Every day of month (y, m) is in the grid: day `k` is in cell
      `weekday(first_day) + k - 1`. */
  lemma GridCoversMonth(y: int, m: int, dayRows: seq<DayRow>, weeks: seq<WeekRow>, k: int)
    requires 1 <= m <= 12 && 1 <= k <= DaysInMonth(y, m)
    ensures var i := Weekday(Date(y, m, 1)) + k - 1;
      i < GRID_CELLS && MonthGrid(y, m, dayRows, weeks)[i].date == Date(y, m, k)
  {
    MonthDayCell(y, m, k);
    MonthGridAt(y, m, dayRows, weeks, Weekday(Date(y, m, 1)) + k - 1);
  }

  /** A cell's day P/L is the stored value for exactly its date, from the last
      row for that date, and null when no row has that date. */
  lemma GridDayPl(y: int, m: int, dayRows: seq<DayRow>, weeks: seq<WeekRow>, i: nat)
    requires 1 <= m <= 12 && i < GRID_CELLS
    ensures var c := MonthGrid(y, m, dayRows, weeks)[i];
      && (c.dayPl.None? <==> forall j :: 0 <= j < |dayRows| ==> dayRows[j].date != c.date)
      && forall j :: 0 <= j < |dayRows| && dayRows[j].date == c.date
           && (forall k :: j < k < |dayRows| ==> dayRows[k].date != dayRows[j].date)
           ==> c.dayPl == Some(dayRows[j].dayPl)
  {
    MonthGridAt(y, m, dayRows, weeks, i);
    DayPlMapSpec(dayRows);
  }

  /** When every day row lies in month (y, m), the cells outside the month carry no day P/L. */
  lemma GridDayPlOutsideMonth(y: int, m: int, dayRows: seq<DayRow>, weeks: seq<WeekRow>, i: nat)
    requires 1 <= m <= 12 && i < GRID_CELLS
    requires forall j :: 0 <= j < |dayRows| ==> dayRows[j].date.year == y && dayRows[j].date.month == m
    ensures var c := MonthGrid(y, m, dayRows, weeks)[i];
      !c.inMonth ==> c.dayPl.None?
  {
    GridInMonth(y, m, dayRows, weeks, i);
    GridDayPl(y, m, dayRows, weeks, i);
  }

  /** Week P/L appears only on a Saturday of month (y, m) that is the display
      Saturday of some week; Monday to Friday and Sunday cells carry none. */
  lemma GridWeekPl(y: int, m: int, dayRows: seq<DayRow>, weeks: seq<WeekRow>, i: nat)
    requires 1 <= m <= 12 && i < GRID_CELLS
    ensures var c := MonthGrid(y, m, dayRows, weeks)[i];
      && (i % 7 != 5 ==> c.weekPl.None?)
      && (c.weekPl.Some? ==>
            && c.date.year == y && c.date.month == m
            && exists j :: 0 <= j < |weeks| && DisplaySaturday(weeks[j].startDate) == c.date)
  {
    var c := MonthGrid(y, m, dayRows, weeks)[i];
    MonthGridAt(y, m, dayRows, weeks, i);
    WeekendMapSpecKeys(weeks, m, c.date);
    if c.date in WeekendMapSpec(weeks, m) {
      WeekendMapKeys(weeks, m, c.date);
    }
    GridWeekday(y, m, dayRows, weeks, i);
    GridInMonth(y, m, dayRows, weeks, i);
  }

  /** A Saturday of month (y, m) that is a week's display Saturday shows that
      week's P/L, the last such week's when several share it. */
  lemma GridWeekPlShown(y: int, m: int, dayRows: seq<DayRow>, weeks: seq<WeekRow>, i: nat, j: nat)
    requires 1 <= m <= 12 && i < GRID_CELLS && j < |weeks|
    requires DisplaySaturday(weeks[j].startDate) == MonthGrid(y, m, dayRows, weeks)[i].date
    requires MonthGrid(y, m, dayRows, weeks)[i].inMonth
    requires forall k :: j < k < |weeks| ==> DisplaySaturday(weeks[k].startDate) != DisplaySaturday(weeks[j].startDate)
    ensures MonthGrid(y, m, dayRows, weeks)[i].weekPl == Some(weeks[j].weekPl)
  {
    MonthGridAt(y, m, dayRows, weeks, i);
    DisplaySaturdayIsSaturday(weeks[j].startDate);
    WeekendMapSpecLastWins(weeks, m, j);
  }

  /** The grid start of a representable month is representable, January of
      year 1 included (0001-01-01 is a Monday). */
  lemma GridStartInRange(y: int, m: int)
    requires ValidMonth(y, m)
    ensures InRange(GridStart(Date(y, m, 1)))
  {
    var first := Date(y, m, 1);
    var wd := Weekday(first);
    if y == MIN_YEAR && m == 1 {
      EraStartsOnMonday(first);
      assert GridStart(first) == first;
    } else if wd == 0 {
      assert GridStart(first) == first;
    } else {
      DaysBeforeFirst(y, m, wd);
    }
  }

  /** The date after the last cell is in the year of the next month. */
  lemma GridEndYear(y: int, m: int)
    requires 1 <= m <= 12
    ensures AddDays(GridStart(Date(y, m, 1)), GRID_CELLS).year == NextMonthOf(y, m).year
  {
    GridDateAt(y, m, GRID_CELLS - 1);
  }

  // ---------------------------------------------------------------------------
  // Previous and next month

  /** `(first_day - timedelta(days=1)).replace(day=1)` and
      `(last_day + timedelta(days=1)).replace(day=1)`, as (year, month). */
  function AdjacentMonths(firstDay: Date, lastDay: Date): (r: Result<Links, DateError>)
    ensures r.Success? <==> InRange(SubDays(firstDay, 1)) && InRange(AddDays(lastDay, 1))
    ensures r.Success? ==> r.value == Links(MonthOf(Pred(firstDay)), MonthOf(Succ(lastDay)))
    ensures r.Failure? ==> r.error == Overflow
  {
    match Minus(firstDay, 1)
    case Failure(e) => Failure(e)
    case Success(before) =>
      match Plus(lastDay, 1)
      case Failure(e) => Failure(e)
      case Success(after) =>
        var prev := before.(day := 1);
        var next := after.(day := 1);
        Success(Links(YearMonth(prev.year, prev.month), YearMonth(next.year, next.month)))
  }

  /** For a month of the calendar the links are the neighbouring months, with
      the year rolling at January and December; only January of year 1 fails. */
  lemma AdjacentMonthsOfMonth(y: int, m: int)
    requires ValidMonth(y, m) && !(y == MAX_YEAR && m == 12)
    ensures var r := AdjacentMonths(Date(y, m, 1), Date(y, m, DaysInMonth(y, m)));
      && (r.Success? <==> !(y == MIN_YEAR && m == 1))
      && (r.Success? ==> r.value == Links(PrevMonthOf(y, m), NextMonthOf(y, m)))
  {
  }

  // ---------------------------------------------------------------------------
  // The whole view

  /** The month view for (year, month), built from the day rows and week rows. */
  method CalendarView(year: int, month: int, dayRows: seq<DayRow>, weeks: seq<WeekRow>)
    returns (r: Result<View, DateError>)
    ensures r.Failure? && r.error == InvalidDate <==> IsCInt(year) && IsCInt(month) && !ValidMonth(year, month)
    ensures r.Failure? && r.error == Overflow <==>
              || !(IsCInt(year) && IsCInt(month))
              || (&& ValidMonth(year, month)
                  && ((year == MAX_YEAR && month == 12) || (year == MIN_YEAR && month == 1)
                      || exists i :: 0 <= i < |weeks| && !InRange(DisplaySaturday(weeks[i].startDate))))
    ensures r.Success? ==>
              r.value == View(year, month, Date(year, month, 1), MonthGrid(year, month, dayRows, weeks),
                              PrevMonthOf(year, month), NextMonthOf(year, month))
  {
    var bounds :- Bounds(year, month);
    var first := bounds.firstDay;
    var dayMap := DayPlMap(dayRows);
    var satMap :- WeekendPlMap(weeks, month);
    GridStartInRange(year, month);
    // The grid start can always be represented once the month's bounds could.
    var startOrError := Minus(first, Weekday(first));
    var start := startOrError.value;
    SubDaysValid(first, Weekday(first));
    GridEndYear(year, month);
    // So can the date after the last cell.
    var cellsOrError := BuildGrid(start, month, dayMap, satMap);
    var cells := cellsOrError.value;
    AdjacentMonthsOfMonth(year, month);
    var links :- AdjacentMonths(first, bounds.lastDay);
    return Success(View(year, month, first, cells, links.prev, links.next));
  }
}
