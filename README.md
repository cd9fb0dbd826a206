# Monthly attendance tracker — a Dafny model

The tracker is a one-page Streamlit application (`attendance.py`). The user picks a month
and an employee. The page offers that month's working days as `YYYY-MM-DD` labels, plus
"N/A" for an exempt month. The employee's picks are stored in a table of `Employee` /
`Dates` rows, where `Dates` holds the picks joined with `", "`. From that table the page
derives three things:

- a presence matrix: "Office" or "-" per working day and per table row;
- a per-employee summary: office days, and attendance as a percentage of a fixed quota of
  8 days, capped at 100. A stored "N/A" counts as 100 in the run that stores it; once the
  CSV file is reloaded it no longer does (see "Left out");
- a company figure: the mean of the rendered percentages over the roster employees that
  have a row.

The model covers the computational core of the page.

- `Calendar` (`calendar.dfy`) covers the calendar and `get_working_days`.
  - The proleptic Gregorian calendar is written out: day ordinals and weekdays as Python's
    `date.toordinal()` and `date.weekday()` compute them. `date + timedelta(days=n)` is
    modelled as `n` steps of one day.
  - `WorkingDays` is the page's own construction: 31 days from the 1st, filtered to weekdays
    of the month.
  - It is proved equal to an independent definition, every weekday of the month in calendar
    order. From that equality the lemmas derive membership, ascending order and the
    distinctness of the date labels.
- `Selection` (`selection.dfy`) covers Python's `str.split(", ")` and `", ".join`, the
  round trip between them, and the "N/A" override.
- `Table` (`table.dfy`) covers the stored table and the page's update.
  - `AttendanceTable` is a class whose `rows` field the "Update Attendance" action
    reassigns.
  - `Upserted` is the specification of that update. Its lemmas state what later reads see.
- `Matrix` (`matrix.dfy`) covers `transform_attendance_data` as two nested loops.
- `Summary` (`summary.dfy`) covers the summary loop, the `"%.2f%%"` rendering and its
  `float(... .strip('%'))` read-back, and the company figure.
- `Decimal` (`decimal.dfy`) holds the decimal rendering and parsing that `str`,
  `"%.2f"`, `float` and the date labels rely on.
- `Options` (`options.dfy`) holds the `Option` type.

Percentages are held exactly in hundredths: `min(n * 1250, 10000)`, or 10000 for "N/A".
Every value the page can compute is a multiple of 12.5, so `"%.2f"` renders it without
rounding. The model proves that the read-back recovers the value exactly, and computes
the company figure over exact reals.

Three behaviours of the code are worth knowing, and the model keeps each as written.

- The presence matrix has one line per stored table row (line 83), not one per roster
  employee. A roster employee without a row has no line. A row whose `Dates` is not a
  string gets "-" everywhere.
- The 31-day window of `get_working_days` (lines 30-32) covers the whole month and, for a
  month shorter than 31 days, the first days of the following month of the same year. The
  filter on the month removes those. For December the window ends on 31 December.
  `Calendar.WindowSplit` states this.
- An empty selection is stored as the empty text (line 73). `"".split(", ")` is `[""]`, so
  until the CSV file is reloaded, the employee reads back as one office day at 12.50%
  (`Summary.EntryAfterUpdate`).

## Model

| member | source | states |
|---|---|---|
| Calendar.DaysInMonth | attendance.py:31 | a month has 28 to 31 days, and exactly the months 1, 3, 5, 7, 8, 10 and 12 have 31 |
| Calendar.Weekday | attendance.py:32 | `date.weekday()` is a value from 0 (Monday) to 6 (Sunday) |
| Calendar.NextDay | attendance.py:31 | the day after a valid date is a valid date |
| Calendar.NextDayOrdinal | attendance.py:31 | one day later has ordinal + 1 and the next weekday, across month and year ends |
| Calendar.AddDaysOrdinal | attendance.py:31 | `(d + timedelta(days=n)).toordinal() == d.toordinal() + n` |
| Calendar.AddDaysWeekday | attendance.py:31-32 | `n` days later the weekday has advanced by `n` modulo 7 |
| Calendar.AddDaysWithinMonth | attendance.py:31 | adding days that stay in the month only advances the day number |
| Calendar.AddDaysSplit | attendance.py:31 | adding `a` days and then `b` days is adding `a + b` days |
| Calendar.Span | attendance.py:31 | `[start + timedelta(days=i) for i in range(count)]` has `count` elements; the `i`-th is a valid date whose ordinal is `start.toordinal() + i` |
| Calendar.KeepWorking | attendance.py:32 | every kept date comes from the input, is Monday to Friday, and is in the month |
| Calendar.WeekdaysFrom | attendance.py:29-32 | reference definition: the weekdays of the month from a given day on, valid, in the month, strictly ascending |
| Calendar.WindowSplit | attendance.py:30-31 | the 31-day window is the month's own days 1 to the month's length, followed by days 1, 2, … of the next month of the same year |
| Calendar.WorkingDaysAreMonthWeekdays | attendance.py:29-32 | `get_working_days` equals the reference list of all weekdays of the month in calendar order |
| Calendar.WorkingDaysSpec | attendance.py:29-32 | a date is a working day iff it is a valid weekday date of that month and year; the list is strictly ascending; every date has a four-digit year |
| Calendar.Label | attendance.py:64 | `str(day)` is ten characters `YYYY-MM-DD`, digits with dashes at positions 4 and 7 |
| Calendar.LabelRoundTrip | attendance.py:64 | reading a label back as year, month and day gives the date again |
| Calendar.LabelInjective | attendance.py:81 | two dates have the same label iff they are the same date |
| Calendar.Labels | attendance.py:81 | one column label per working day, in order, and each label reads back as its day |
| Calendar.WorkingDayLabelsDistinct | attendance.py:81-82 | the matrix's date columns are pairwise distinct |
| Calendar.March2025Starts | attendance.py:30-32 | 1 March 2025 is a Saturday and 3 March 2025 a Monday |
| Calendar.March2025 | attendance.py:40-41 | March 2025 has 21 working days |
| Selection.Split | attendance.py:61 | `str.split(", ")` always returns at least one piece |
| Selection.Override | attendance.py:68-69 | the result contains "N/A" iff the selection does; it is then exactly `["N/A"]`, and otherwise the selection unchanged |
| Selection.OverrideIdempotent | attendance.py:68-69 | applying the override twice is applying it once |
| Selection.SplitNoSeparator | attendance.py:61 | a text without `", "` splits into itself alone |
| Selection.SplitPiece | attendance.py:61 | splitting `x + ", " + rest` gives `x` followed by the pieces of `rest` |
| Selection.SplitJoin | attendance.py:73 | splitting a non-empty list joined with `", "` gives the list back when no element contains `", "` |
| Selection.SplitJoinEmpty | attendance.py:73 | an empty selection is stored as `""` and reads back as `[""]` |
| Selection.StoredMembership | attendance.py:85-88 | a non-empty text is among the stored pieces iff it was among the joined entries |
| Selection.NoSeparatorWithoutComma | attendance.py:64 | a text without a comma contains no `", "` |
| Table.FirstRow | attendance.py:60-61 | finds the first row of the employee, and nothing iff the employee has no row |
| Table.Entries | attendance.py:85 | a string `Dates` gives at least one entry |
| Table.StoredEntries | attendance.py:60-61 | an employee with stored entries has a row |
| Table.Upserted | attendance.py:72-75 | the update appends one row iff the employee had none; afterwards every row of the employee holds the new value, other rows and the employee column are unchanged, and a new row goes last |
| Table.UpsertedReadsNew | attendance.py:72-75 | after the update, the employee's stored entries are the new value split on `", "` |
| Table.UpsertedKeepsOthers | attendance.py:75 | the update does not change what any other employee reads |
| Table.UpsertedTwice | attendance.py:72-75 | updating the same employee twice is updating with the last value |
| Table.AttendanceTable.constructor | attendance.py:53 | the table holds the loaded rows |
| Table.AttendanceTable.Update | attendance.py:59-75 | nothing changes for the placeholder; otherwise the rows become the upsert of the overridden picks joined with `", "` |
| Table.UpdateThenRead | attendance.py:61-75 | after an update, the employee reads back the overridden picks, or `[""]` for an empty pick |
| Table.OfferedEntriesStorable | attendance.py:64 | every offered entry (working-day labels and "N/A") is non-empty and free of `", "`, so it survives storage |
| Table.LabelNoSeparator | attendance.py:64 | a date label is non-empty and contains no `", "` |
| Matrix.MarkText | attendance.py:88 | a cell shows "Office" or "-" |
| Matrix.MarkRow | attendance.py:87-88 | one mark per column, "Office" exactly at the columns among the attended dates |
| Matrix.Transform | attendance.py:80-90 | one line per table row with its employee and one mark per working day; "Office" iff the day's label is among that row's entries; all "-" when `Dates` is not a string |
| Matrix.UpdatedRowMarks | attendance.py:68-88 | after an update, a row of the employee marks a working day iff its label was picked (after the "N/A" override) |
| Matrix.NotApplicableMarksNothing | attendance.py:68-88 | an "N/A" month marks no working day as "Office" |
| Summary.PercentHundredths | attendance.py:106 | at most 100%; "N/A" gives 100%; otherwise `min(n / Quota, 1) * 100` with `Quota == 8` |
| Summary.EntryFor | attendance.py:102-114 | the summary entry names its employee, and its office-days text is the decimal number of that employee's stored entries |
| Summary.EntryOf | attendance.py:104-114 | the entry names the employee and shows the number of entries in decimal |
| Summary.SummaryOf | attendance.py:100-114 | one entry per roster name, naming it, in roster order |
| Summary.BuildSummary | attendance.py:100-114 | the loop builds exactly the entries of the roster names after the placeholder, in order |
| Summary.NamesSkipPlaceholder | attendance.py:18-23 | with the placeholder first and only there, the summary names are exactly the real employees |
| Summary.EntryWithoutDates | attendance.py:107-114 | no row, or a non-string `Dates`, shows `"0"` office days and `"0.00%"` |
| Summary.NotApplicableShowsFull | attendance.py:106-113 | "N/A" among the entries shows `"100.00%"` |
| Summary.EntryAfterUpdate | attendance.py:68-106 | after an update: "N/A" gives 1 office day at 100%; an empty pick 1 office day at 12.5%; otherwise the number of picks at 12.5% each, capped at 100% |
| Summary.PercentExamples | attendance.py:106 | 2, 4 and 10 entries give 25%, 50% and 100% |
| Summary.MarchExample | attendance.py:104-114 | `"2025-03-03, 2025-03-04"` reads back as those two dates, and the summary line shows `"2"` office days at `"25.00%"` |
| Summary.PresentCount | attendance.py:99 | the number of roster employees with a row is at most the roster size |
| Summary.PresentZero | attendance.py:99 | the head count is 0 exactly when none of the roster employees has a row |
| Summary.CompanyAverage | attendance.py:117 | the figure is 0 when the head count is 0 |
| Summary.Mean | attendance.py:117 | the mean over no one is 0 |
| Summary.Percents | attendance.py:103-109 | one percentage per name, each at most 100%, and 0 for an employee without a row |
| Summary.TotalBound | attendance.py:103-109 | the percentages sum to at most 100% per roster employee with a row |
| Summary.SummaryReadsBack | attendance.py:113-117 | every rendered `"%.2f%%"` percentage reads back through `strip('%')` and `float` as exactly the computed value |
| Summary.ReadingsArePercents | attendance.py:117 | a summary whose attendance texts are rendered percentages reads back as those percentages |
| Summary.TotalOfPercents | attendance.py:117 | the sum of the read-back values is the sum of the percentages |
| Summary.CompanyAverageBound | attendance.py:117 | for readings that are percentages within the bound: the figure exists, lies between 0 and 100, is 0 for no one present, and is otherwise the sum over the head count |
| Summary.CompanyAverageOfSummary | attendance.py:99-117 | the page's company figure exists, lies between 0 and 100, is 0 when the head count is 0 (by `Summary.PresentZero`, when no roster employee has a row), and is otherwise the sum of the roster percentages over the number with a row |
| Summary.MeanOfPercents | attendance.py:117 | the mean of percentages summing to at most 100 per head lies between 0 and 100, and is their sum over the head count |
| Decimal.NatText | attendance.py:112 | `str(n)`: digits only, value `n`, a single digit exactly for `n < 10`, and no leading zero (so `"0"` alone for 0) |
| Decimal.Padded | attendance.py:64 | a zero-padded field of the given width with value `n` |
| Decimal.ParseDecimal | attendance.py:117 | `float` of an unsigned decimal text is non-negative |
| Decimal.FixedTwo | attendance.py:113 | `"%.2f"` of a value in hundredths is the whole part's digits without a leading zero, a point, and two digits, with the values `h / 100` and `h % 100` |
| Decimal.FixedTwoEnds | attendance.py:113 | the `"%.2f"` text begins and ends with a digit |
| Decimal.PercentText | attendance.py:113 | the rendered percentage has at least five characters and ends with `%` |
| Decimal.ParseFixedTwo | attendance.py:113-117 | `float("%.2f" % (h / 100)) == h / 100` for every `h` in hundredths |
| Decimal.ParsePercentText | attendance.py:113-117 | `float(("%.2f%%" % (h / 100)).strip('%')) == h / 100` |

## Left out

- The Streamlit user interface is left out: page setup, logo, select boxes, multiselect,
  button, success message, tables and the download button. The chosen month, the employee
  and the picked entries become parameters.
- Reading and writing `attendance.csv` is left out, including the added `Dates` column of
  `load_data`. The table is a parameter, and a cell pandas holds as a non-string (NaN) is
  `None`. On reload, pandas turns a stored `""` back into NaN; that is not modelled.
- Reloading a stored "N/A" is left out. `pd.read_csv` counts "N/A" among its default
  missing-value markers, so after a reload an exempt month's `Dates` is NaN: the employee
  shows 0 office days at 0.00% and still counts in the company head count (line 99). The
  model's "N/A counts as 100" holds for the run that stores it, before any reload.
- `datetime.date.today()`, `strftime("%B %Y")` and `strptime` are left out. The month and
  year reach `get_working_days` as parameters.
- The roster literal is left out. The roster is a parameter, and
  `Summary.NamesSkipPlaceholder` states what the literal's shape gives.
- The multiselect's check that the stored defaults are among the offered options is left
  out. It belongs to the UI library.
- Summary.CompanyAverage: computed over exact reals. Python's floating-point sum and
  division may differ from the exact value in the last bits, and that rounding is not
  modelled.
- The overall summary row and its `"%.2f"` rendering of the company figure (lines 118-124)
  are left out.
- Decimal.ParseDecimal: models `float` only on unsigned `digits[.digits]` texts. Signs,
  exponents, whitespace, `inf` and `nan` are outside the model, and such texts are `None`.
  Every text the page feeds to `float` is of the modelled form.
- Python's `OverflowError` for dates past year 9999 is left out. The working days carry a
  four-digit year (`InRange`), and `Matrix.Transform` requires this of its date list.
