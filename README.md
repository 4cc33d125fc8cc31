# Trading calendar view: a verified model of the month grid and the trade form check

This project models, in Dafny, the two pieces of logic in the trading journal's
web application `app.py`:

* **The month view (`calendar_view`).** The view starts from a requested year
  and month.
  * It finds the month's first day, the first of the next month and the last
    day. It does this with the "day 28 plus four days, then day 1" trick.
  * It turns the `days` rows into a date → day P/L map.
  * It turns the `weeks` rows into a map from each week's *display Saturday*
    to the week P/L. The display Saturday is `start_date` moved forward
    `(5 - weekday) % 7` days, and only Saturdays with the requested month number
    are kept.
  * It backs up to the Monday on or before the 1st and emits 42 consecutive day
    cells. Each cell carries `in_month`, `day_pl` and `week_pl`. `week_pl` is
    looked up only on Saturday and Sunday cells.
  * Finally it computes the previous and next month for the links.
* **The trade form check (`create_trade`).** The symbol is read with a default
  of `""`, stripped and upper-cased. The other four fields are read as they
  are. The submission is refused with "All fields are required." when any of
  the five values is empty or absent.

Files:

* `wrappers.dfy`: `Option`, `Result` and `dict.get`.
* `dates.dfy` (module `Dates`): Python's `datetime.date` on the proleptic
  Gregorian calendar.
  * The ordinal and the weekday are defined as CPython computes them:
    `_days_before_year` in closed form, and `weekday = (toordinal() + 6) % 7`.
  * Day steps are total over mathematical years.
  * The representable years 1..9999 are checked where Python raises:
    `ValueError` from `date(...)`, and `OverflowError` from adding or
    subtracting a `timedelta`. `date(...)` also raises `OverflowError` for an
    argument beyond a C `int`, as CPython's C implementation does.
* `calendar.dfy` (module `Calendar`): the month view.
  * The week loop and the grid loop are methods with loop invariants, proved
    against recursive specification functions (`WeekendMapSpec`, `Grid`).
  * `CalendarView` composes the steps in the order the source takes them.
* `trade_form.dfy` (module `TradeForm`): `strip()`, ASCII `upper()` and the
  required-field check.

The database queries are inputs; the model takes their rows as plain
sequences. P/L values are integers that the model carries through without
computing on them.

Some results about the model:

* `in_month` compares only the month number. It still holds exactly on the
  dates of the requested year and month, because 42 cells never reach the same
  month of another year (`GridInMonth`).
* `CalendarView` fails in exactly these cases:
  * a year or month that does not fit a C `int`, which CPython's `date()`
    rejects with `OverflowError`;
  * any other invalid month;
  * December 9999, whose "day 28 + 4 days" overflows;
  * January of year 1, whose previous-month link overflows;
  * a week row whose display Saturday is past 9999-12-31.

  The grid loop itself never overflows for a representable month
  (`GridStartInRange`, `GridEndYear`).

`create_trade` checks only that the fields are non-empty. A non-numeric value
reaches `float(...)` inside the insert's `try` block (app.py:135-143) and is
reported there as a "DB error". `CheckTrade` likewise refuses only missing or
empty fields.

## Model

| member | source | states |
|---|---|---|
| `Dates.Make` | app.py:57 | `date(y, m, 1)`: `OverflowError` exactly when an argument does not fit a C `int`. Otherwise it succeeds exactly when the date is valid and its year is in 1..9999, giving that date, and raises `ValueError` in the remaining cases. |
| `Dates.Plus` | app.py:58 | `d + timedelta(days=n)` is the date `n` successor steps later, or `OverflowError` exactly when that date's year is outside 1..9999. |
| `Dates.Minus` | app.py:59 | `d - timedelta(days=n)` is the date `n` predecessor steps earlier, or `OverflowError` exactly when it leaves 1..9999. |
| `Dates.Ordinal` | app.py:88 | `date.toordinal()`, CPython's day count with 0001-01-01 as day 1. `Dates.SuccOrdinal`, `Dates.AddDaysOrdinal` and `Dates.EraStartOrdinal` specify it. |
| `Dates.Weekday` | app.py:88 | `date.weekday()`, `(toordinal() + 6) % 7`, always in 0..6 with 0 for Monday. `Dates.AddDaysWeekday` and `Dates.EraStartsOnMonday` specify it. |
| `Dates.Succ` | app.py:108 | The next calendar day, rolling over month and year ends. `Dates.SuccValid`, `Dates.SuccOrdinal` and `Dates.SuccPred` specify it. |
| `Dates.Pred` | app.py:59 | The previous calendar day, rolling back over month and year starts. `Dates.PredValid`, `Dates.PredOrdinal` and `Dates.SuccPred` specify it. |
| `Dates.AddDays` | app.py:58 | `n` steps forward. `Dates.AddDaysValid`, `Dates.AddDaysOrdinal`, `Dates.AddDaysCompose` and `Dates.AddDaysInMonth` specify it. |
| `Dates.SubDays` | app.py:98 | `n` steps back. `Dates.SubDaysValid`, `Dates.SubDaysOrdinal`, `Dates.SubDaysInMonth` and `Dates.AddSubDays` specify it. |
| `Dates.DaysBeforeNextYear` | app.py:88 | CPython's closed-form days-before-year grows by exactly the length of each year, 365 or 366 by the leap rule. |
| `Dates.PlusOneDay` | app.py:108 | `d += timedelta(days=1)` is the next calendar day, or `OverflowError` exactly when that day leaves 1..9999. |
| `Dates.AddDaysValid` | app.py:108 | Stepping forward from a real calendar date always gives a real calendar date. |
| `Dates.SubDaysValid` | app.py:98 | Stepping back from a real calendar date always gives a real calendar date. |
| `Dates.AddDaysInMonth` | app.py:102-108 | Moving forward within a month only increases the day number. |
| `Dates.SubDaysInMonth` | app.py:98 | Moving back within a month only decreases the day number. |
| `Dates.SuccOrdinal` | app.py:108 | On a valid date, the next day has ordinal one higher, including across month and year ends. |
| `Dates.PredOrdinal` | app.py:98 | On a valid date, the previous day has ordinal one lower. |
| `Dates.AddDaysOrdinal` | app.py:108 | Moving `n` days forward adds exactly `n` to the ordinal. |
| `Dates.SubDaysOrdinal` | app.py:98 | Moving `n` days back subtracts exactly `n` from the ordinal. |
| `Dates.AddDaysWeekday` | app.py:88-90 | Moving `n` days forward moves `weekday()` by `n`, modulo 7. |
| `Dates.FromMonday` | app.py:106 | `n` days after a Monday is weekday `n % 7`. |
| `Dates.EraStartsOnMonday` | app.py:98 | 0001-01-01, the first representable date, is a Monday. |
| `Dates.EraStartOrdinal` | app.py:98 | 0001-01-01 is day 1 of the ordinal count. |
| `Dates.AddDaysIncreasing` | app.py:99-108 | Later steps have strictly larger ordinals, so no date repeats in a run of steps. |
| `Dates.AddDaysCompose` | app.py:108 | Moving `a` then `b` days is moving `a + b` days. |
| `Dates.SubDaysCompose` | app.py:98 | Moving back `a` then `b` days is moving back `a + b` days. |
| `Dates.AddSubDays` | app.py:98-108 | Going back `n` days and forward `k <= n` days is going back `n - k` days. |
| `Dates.SuccPred` | app.py:111 | The day after the day before a valid date is that date. |
| `Dates.OverflowPersists` | app.py:108 | Once a forward step from a representable date leaves the years 1..9999, every further step stays out. |
| `Dates.AddDaysYearMonotone` | app.py:108 | Stepping further forward never lowers the year. |
| `Calendar.AddFourToDay28` | app.py:58 | Day 28 plus four days is always day `32 - days_in_month` (1 to 4) of the next month, with December rolling into January of the next year. |
| `Calendar.Bounds` | app.py:55-59 | `ValueError` exactly for an invalid month whose year and month fit a C `int`. `OverflowError` exactly for a year or month beyond a C `int`, or for December 9999. Otherwise `first_day` is the 1st, `next_month` the 1st of the following month, and `last_day` the month's last day, whose successor is `next_month`. |
| `Calendar.DayPlMap` | app.py:82 | The `day_pl_map` comprehension, with later rows overwriting earlier ones. `Calendar.DayPlMapSpec` specifies it. |
| `Calendar.DayPlMapSpec` | app.py:82 | The day map has a key for exactly the dates of the day rows, and the last row for a date gives its value. |
| `Wrappers.Get` | app.py:105 | `dict.get(key)`, used for the day and weekend maps and for `request.form.get`, is the stored value when the key is present and `None` otherwise. |
| `Calendar.DaysToSaturday` | app.py:89 | The forward distance to the display Saturday is less than a week. |
| `Calendar.DisplaySaturdayIsSaturday` | app.py:88-90 | A week's display date has weekday 5 and lies 0 to 6 days on or after `start_date`. |
| `Calendar.DisplaySaturdayIsFirst` | app.py:88-90 | No day strictly between `start_date` and its display date is a Saturday. |
| `Calendar.DisplaySaturday` | app.py:88-90 | `start_date + timedelta(days=(5 - weekday) % 7)`, without the overflow check. `Calendar.DisplaySaturdayIsSaturday` and `Calendar.DisplaySaturdayIsFirst` specify it. |
| `Calendar.WeekendMapSpec` | app.py:84-94 | The map the week loop builds, one row at a time. `Calendar.WeekendMapSpecKeys`, `Calendar.WeekendMapSpecLastWins` and `Calendar.WeekendMapKeys` specify it, and `Calendar.WeekendPlMap` is proved equal to it. |
| `Calendar.WeekendMapSpecKeys` | app.py:84-94 | The weekend map has a key for exactly the display Saturdays, of some week row, whose month number is the requested month. |
| `Calendar.WeekendMapSpecLastWins` | app.py:93-94 | For a display Saturday in the month, the last week row with that Saturday gives its value. |
| `Calendar.WeekendMapKeys` | app.py:93-94 | Every key of the weekend map is a Saturday with the requested month number. |
| `Calendar.WeekendPlMap` | app.py:84-94 | The week loop succeeds exactly when no week's display Saturday is past 9999-12-31. On success it yields the weekend map; otherwise `OverflowError`. |
| `Calendar.Grid` | app.py:101 | The grid has exactly 6 × 7 = 42 cells. |
| `Calendar.GridStart` | app.py:98 | `start_grid`, `first_day` moved back `weekday()` days. `Calendar.GridStartIsMonday` and `Calendar.GridStartInRange` specify it. |
| `Calendar.MakeCell` | app.py:102-107 | One cell: its date, `in_month` by month number, `day_pl` from the day map, and `week_pl` from the weekend map only on weekday 5 or 6. `Calendar.GridAt`, `Calendar.GridDayPl` and `Calendar.GridWeekPl` specify the cells it builds. |
| `Calendar.MonthGrid` | app.py:98-108 | The 42 cells of month (y, m) built from the query rows. `Calendar.MonthGridAt` and the `Calendar.Grid…` lemmas below specify it, and `Calendar.CalendarView` yields it. |
| `Calendar.GridPrefixAt` | app.py:99-107 | After `n` appends there are `n` cells, and cell `i` is built from the date `i` days after the start. |
| `Calendar.GridAt` | app.py:102-107 | Cell `i` of the grid holds the date `i` days after the start. Its `in_month` compares the month number. Its `day_pl` is the day-map lookup. Its `week_pl` is the weekend-map lookup on weekday ≥ 5 and `None` otherwise. |
| `Calendar.BuildGrid` | app.py:99-108 | The grid loop yields exactly `Grid(start, ...)`. It raises `OverflowError` exactly when the date after the 42nd cell is past 9999-12-31. |
| `Calendar.GridStartIsMonday` | app.py:98 | `start_grid` is a Monday, `weekday(first_day)` days and so 0 to 6 days before the 1st. |
| `Calendar.GridDateAt` | app.py:98-108 | Cell `i`'s date is, in calendar terms, the tail of the previous month, then the days of the month, then the head of the next month. |
| `Calendar.MonthGridAt` | app.py:98-108 | Cell `i` of the month's grid is built from that calendar date. |
| `Calendar.DaysBeforeFirst` | app.py:98 | The `n` days before the 1st (1 <= n <= 28) are the last `n` days of the previous month, across a year boundary too. |
| `Calendar.DaysAfterMonth` | app.py:99-108 | Stepping from the 1st past the month's last day lands in the next month, on the corresponding day. |
| `Calendar.GridFirstCell` | app.py:98-100 | The first cell is `start_grid`: a Monday at most six days before the 1st. |
| `Calendar.GridConsecutive` | app.py:99-108 | Each cell's date is the successor of the previous cell's, one ordinal higher. |
| `Calendar.GridWeekday` | app.py:99-108 | Cell `i` falls on weekday `i % 7`, so each row of seven runs Monday to Sunday. |
| `Calendar.GridInMonth` | app.py:104 | `in_month` holds exactly when the cell's date is in the requested year and month. |
| `Calendar.GridCoversMonth` | app.py:98-108 | Every day `k` of the month appears, in cell `weekday(first_day) + k - 1`, which is below 42. |
| `Calendar.GridDayPl` | app.py:105 | A cell's `day_pl` is null exactly when no day row has its date. Otherwise it is the last such row's value. |
| `Calendar.GridDayPlOutsideMonth` | app.py:104-105 | When all day rows lie in the month, as the query's date range makes them, cells outside the month carry no `day_pl`. |
| `Calendar.GridWeekPl` | app.py:106 | `week_pl` is null on every Monday to Friday and every Sunday cell. When present, the cell is in the requested month and is some week's display Saturday. |
| `Calendar.GridWeekPlShown` | app.py:93-106 | A Saturday cell of the month that is a week's display Saturday shows that week's P/L, the last such week's when several share it. |
| `Calendar.GridStartInRange` | app.py:98 | For a representable month `start_grid` is representable, January of year 1 included. |
| `Calendar.GridEndYear` | app.py:108 | The date after the last cell is in the year of the next month, so the loop cannot overflow before December 9999. |
| `Calendar.AdjacentMonths` | app.py:111-112 | The links are the (year, month) of the day before `first_day` and the day after `last_day`, or `OverflowError` when either leaves 1..9999. |
| `Calendar.AdjacentMonthsOfMonth` | app.py:111-112 | For a month other than December 9999, the links are the previous and next calendar months, the year changing at January and December. They fail only for January of year 1. |
| `Calendar.CalendarView` | app.py:55-112 | `ValueError` exactly for an invalid month whose year and month fit a C `int`. `OverflowError` exactly for a year or month beyond a C `int`, December 9999, January of year 1, or a week whose display Saturday is past 9999-12-31. Otherwise it yields the 1st, the month's 42-cell grid, and the previous and next months. |
| `TradeForm.TrimStartSpec` | app.py:124 | `lstrip` removes a whitespace prefix and leaves a string that is empty or starts with a non-whitespace character. |
| `TradeForm.TrimEndSpec` | app.py:124 | `rstrip` removes a whitespace suffix and leaves a string that is empty or ends with a non-whitespace character. |
| `TradeForm.StripSpec` | app.py:124 | `strip` splits its input into whitespace, the result and whitespace, and the result neither starts nor ends with whitespace. |
| `TradeForm.StripIdempotent` | app.py:124 | Stripping twice is stripping once. |
| `TradeForm.StripEmpty` | app.py:124 | The stripped symbol is empty exactly when the raw symbol is all whitespace. |
| `TradeForm.UpperSpec` | app.py:124 | `upper` keeps the length and changes only ASCII `a`..`z`. It leaves no lower-case ASCII letter, and it is idempotent. |
| `TradeForm.UpperKeepsStripped` | app.py:124 | Upper-casing a stripped string leaves it without surrounding whitespace. |
| `TradeForm.CheckTradeSpec` | app.py:124-131 | A submission is refused exactly when the symbol is absent or all whitespace, or any other field is absent or empty. An accepted one passes the four fields on unchanged and the symbol stripped and upper-cased. |
| `TradeForm.AcceptedSymbol` | app.py:124-130 | An accepted symbol is non-empty, has no surrounding whitespace and no lower-case ASCII letter. |
| `TradeForm.NormalizedSymbolIdempotent` | app.py:124 | Normalizing an already normalized symbol changes nothing. |
| `TradeForm.TrimStart` | app.py:124 | `lstrip()`. `TradeForm.TrimStartSpec` specifies it. |
| `TradeForm.TrimEnd` | app.py:124 | `rstrip()`. `TradeForm.TrimEndSpec` specifies it. |
| `TradeForm.Strip` | app.py:124 | `strip()`. `TradeForm.StripSpec`, `TradeForm.StripIdempotent` and `TradeForm.StripEmpty` specify it. |
| `TradeForm.Upper` | app.py:124 | `upper()` on ASCII letters. `TradeForm.UpperSpec` specifies it. |
| `TradeForm.NormalizedSymbol` | app.py:124 | `request.form.get("symbol", "").strip().upper()`. `TradeForm.AcceptedSymbol` and `TradeForm.NormalizedSymbolIdempotent` specify it. |
| `TradeForm.CheckTrade` | app.py:124-131 | The check in `create_trade`: the five values for the insert, or the "All fields are required." refusal. `TradeForm.CheckTradeSpec` specifies it against `MissingAny`. |

## Left out

- Database access: the connection set-up, `init_db`, and the two `SELECT`s with their date-range and week-overlap filters are I/O. Their results are the `dayRows`/`weeks` inputs, which may be any sequences.
- The balance recompute cascade: the database triggers perform it, and their SQL file is not part of this model.
- Flask glue:
  - request argument parsing (`int(request.args.get(...))`), `flash`, `redirect` and `render_template`;
  - the `trade_date[:4]` / `trade_date[5:7]` redirect parsing;
  - the `INSERT` and its "DB error" message. `CheckTrade` ends with the values the insert would receive.
- The clock: the default year and month come from `datetime.now` in a time zone. The model takes year and month as parameters.
- `float(...)` conversions: P/L values are integers carried unchanged. Prices and sizes stay strings, so a non-numeric value that `float` rejects inside the insert is not modelled.
- `TradeForm.Upper` (and `TradeForm.UpperSpec`): only ASCII `a`..`z` are upper-cased, because Python's full Unicode case mapping (for example `ß` → `SS`) is not modelled. Python's `upper()` never turns a non-empty string into an empty one, so the accept/refuse decision is the same.
- `TradeForm.Form`: the form is a map from field name to one value. A repeated field, where `form.get` returns the first value, is not modelled.
- Python `date` objects are modelled by `Dates.Date` values. The integer year is unbounded. Years 1..9999, and the C `int` range of the constructor's arguments, are checked exactly where Python raises.
