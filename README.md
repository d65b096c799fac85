# Task tracker core, in Dafny

A model of the logic inside `QuanLyNhiemVu/app.py`, a one-handler Flask
application that tracks document-handling tasks ("nhiệm vụ"). Under the web
and ORM wiring the handler does four things, and each has a module here:

- **Calendar** (`calendar.dfy`): dates as Python's `date` holds them, the day
  count behind `(han_xu_ly - today).days` (`DayNumber`, Python's `toordinal`),
  `strptime(s, '%d/%m/%Y')` (`ParseDate`) and `strftime('%d/%m/%Y')`
  (`FormatDate`), with the round trip and the calendar order proved.
- **Tasks** (`tasks.dfy`): the `Task` record, the due-date form field, and the
  per-record transitions of add, edit, complete and undo.
- **Status** (`status.dfy`): the ordered case split that labels each listed task
  Completed, NoDeadline, Overdue, DueSoon(days) or Upcoming(days), and the loop
  that applies it to the list.
- **Search** and **ListFilter** (`search.dfy`, `filter.dfy`): the list query.
  The search is SQLAlchemy's `ilike` on SQLite, so `%` and `_` in the term are
  wildcards; for a term without them it is proved to be an ASCII
  case-insensitive substring test. The month window compares the stored
  `ngay_van_ban` text with bounds printed as dd/mm/yyyy, as text: it is proved
  to order day first, then month, then year, and "20/12/2025" passes the upper
  bound of a window ending in November 2025.
- **Statistics** (`statistics.dfy`): the six report counts, including the
  month scope that selects the total by `coalesce(ngay_hoan_thanh, han_xu_ly)`
  but the completed and overdue counts by `ngay_hoan_thanh` alone.
- **TaskStore** (`store.dfy`): the table as a class holding a map from id to
  task and the next id; the five POST actions as methods that keep the table
  invariant (ids below the next id, "completion date set iff completed"); the
  GET path as `Select` (a loop over ids from newest to oldest) and `Index`.

`today` (hard-coded at line 138) and `datetime.now()` (line 108) are
parameters. `wrappers.dfy` holds the `Option` type used for Python's `None`.

Where the code and the intent described for it differ, the model follows the
code:

- Ids are SQLite rowids of an `INTEGER PRIMARY KEY` without `AUTOINCREMENT`: a
  new task gets one more than the largest id present, so deleting the newest
  task makes its id available again (`TaskStore.Store.Delete`).
- The month window is a text comparison. For the window April–November 2025
  and documents dated 01/03/2025, 15/06/2025 and 20/12/2025 it keeps both the
  June and the December document (`ListFilter.ThreeDocumentWindow`).
- `strptime` also accepts one-digit days and months (`Calendar.ParseUnpadded`)
  and a day written as a space and a digit (`Calendar.ParseSpacePadded`).
- `to_month = 12` asks Python for month 13 and the request fails; `to_month = 0`
  gives 31 December of the previous year (`ListFilter.LastDayBound`).

## Model

| member | source | states |
|---|---|---|
| `Calendar.DayNumberOrder` | QuanLyNhiemVu/app.py:150 | the day count behind date subtraction orders dates exactly as the calendar does, and equal counts mean equal dates |
| `Calendar.PreviousDay` | QuanLyNhiemVu/app.py:134 | subtracting one day gives a date whose day count is one less; only 0001-01-01 has no previous day (OverflowError) |
| `Calendar.IsLeapYear` | QuanLyNhiemVu/app.py:64-65 | (definition) the Gregorian leap rule Python's `date` uses: divisible by 4, and not by 100 unless by 400 |
| `Calendar.DaysInMonth` | QuanLyNhiemVu/app.py:64-65 | a month has 28 to 31 days, and exactly 29 only in February of a leap year |
| `Calendar.IsValidDate` | QuanLyNhiemVu/app.py:64-65 | (definition) the dates `date(y, m, d)` (here and in `datetime(...)` at app.py:131 and 134) accept: year 1..9999, month 1..12, day within the month; any other triple raises ValueError |
| `Calendar.FormatDate` | QuanLyNhiemVu/app.py:132 | a printed date is ten characters: two-digit day, '/', two-digit month, '/', four-digit year |
| `Calendar.IndexOf` | QuanLyNhiemVu/app.py:64 | the field splitter finds the first occurrence of the separator, or reports that there is none |
| `Calendar.DayNumber` | QuanLyNhiemVu/app.py:150 | (definition) the day count behind `date - date`: Python's `toordinal`, with 0001-01-01 as day 1; what it means is stated by `DayNumberOrder` and `PreviousDay` |
| `Calendar.DayField` | QuanLyNhiemVu/app.py:64 | the `%d` field is accepted exactly when it is one or two digits spelling 1 to 31, or a space and a digit 1 to 9, and the day read is the number the digits spell |
| `Calendar.MonthField` | QuanLyNhiemVu/app.py:64 | the `%m` field is accepted exactly when it is one or two digits spelling 1 to 12, and the month read is the number they spell |
| `Calendar.YearField` | QuanLyNhiemVu/app.py:64 | the `%Y` field is accepted exactly when it is four digits, and the year read is the number they spell |
| `Calendar.ParseDate` | QuanLyNhiemVu/app.py:64-67 | an accepted due date is 8 to 10 characters, ends with '/' and the four digits of its year, and is a date Python can hold |
| `Calendar.Spells` | QuanLyNhiemVu/app.py:64 | (definition) what the regular expression strptime builds from '%d/%m/%Y' accepts: a day field, '/', a month field, '/', a year field and nothing after it, the fields spelling the date |
| `Calendar.ParseDateIsMatch` | QuanLyNhiemVu/app.py:64-67 | strptime returns a date exactly when the text is a day field, '/', a month field, '/' and a year field spelling that date, and the date exists |
| `Calendar.ParseFormat` | QuanLyNhiemVu/app.py:64 | reading a printed dd/mm/yyyy date back with strptime returns that same date |
| `Calendar.FormatParse` | QuanLyNhiemVu/app.py:64 | a ten-character text strptime accepts, not starting with a space, is exactly how strftime prints the date read |
| `Calendar.ParseExample` | QuanLyNhiemVu/app.py:64 | the form input "25/12/2025" is read as 25 December 2025 |
| `Calendar.ParseUnpadded` | QuanLyNhiemVu/app.py:64 | strptime also reads "1/2/2025", as 1 February 2025 |
| `Calendar.ParseSpacePadded` | QuanLyNhiemVu/app.py:64 | strptime also reads " 1/02/2025", with the day written as a space and a digit, as 1 February 2025 |
| `Calendar.ParseRejectsOutOfRange` | QuanLyNhiemVu/app.py:64-67 | "32/13/2025" is refused (ValueError) |
| `Calendar.ParseRejectsMissingDay` | QuanLyNhiemVu/app.py:64-67 | "31/04/2025" is refused: the fields match but April has no 31st |
| `Tasks.ReadDue` | QuanLyNhiemVu/app.py:63-67 | an empty due field means no deadline; a non-empty one is a deadline exactly when strptime accepts it, and malformed otherwise |
| `Tasks.NewTask` | QuanLyNhiemVu/app.py:70-78 | an added task carries its id and due date, is not completed and has no completion date |
| `Tasks.Edited` | QuanLyNhiemVu/app.py:93-98 | editing keeps the id, the completed flag and the completion date, so it keeps the completion invariant |
| `Tasks.MarkCompleted` | QuanLyNhiemVu/app.py:106-108 | completing sets the flag and the completion date together and changes nothing else |
| `Tasks.Reopened` | QuanLyNhiemVu/app.py:110-112 | undoing clears the flag and the completion date together and changes nothing else |
| `Tasks.CompleteTwice` | QuanLyNhiemVu/app.py:106-108 | completing an already completed task re-dates it; completing twice on the same day equals completing once |
| `Tasks.UndoAfterComplete` | QuanLyNhiemVu/app.py:106-112 | undo after complete restores the open task exactly |
| `Status.DaysLeft` | QuanLyNhiemVu/app.py:150 | (definition) `(han_xu_ly - today).days` is the due date's day count minus today's |
| `Status.Classify` | QuanLyNhiemVu/app.py:140-162 | Completed iff completed; NoDeadline iff open without due date; for an open task with a due date, Overdue iff days left < 0, DueSoon iff 0 <= days left <= 2, Upcoming iff days left > 2, with the days left carried |
| `Status.CompletedIgnoresDeadline` | QuanLyNhiemVu/app.py:141-144 | a completed task is Completed whatever its due date and whatever the day |
| `Status.OverdueIsBeforeToday` | QuanLyNhiemVu/app.py:150-154 | an open task is Overdue exactly when its due date is strictly before today on the calendar |
| `Status.DueTodayIsDueSoon` | QuanLyNhiemVu/app.py:155-158 | an open task due today is DueSoon with 0 days left |
| `Status.UrgencyGrowsWithTime` | QuanLyNhiemVu/app.py:150-162 | as today advances a task only moves from Upcoming to DueSoon to Overdue, never back |
| `Status.Annotate` | QuanLyNhiemVu/app.py:140-162 | the status loop gives every listed task, in list order, the status the case split assigns it |
| `Search.Lower` | QuanLyNhiemVu/app.py:125-127 | lower-casing keeps the length and folds each character on its own (ASCII letters only, as SQLite's `lower`) |
| `Search.Like` | QuanLyNhiemVu/app.py:125-127 | (definition) SQLite's LIKE with no ESCAPE clause: `%` matches any run of characters, `_` any one character, every other character itself; what it means is stated by the three lemmas below |
| `Search.ILikeContains` | QuanLyNhiemVu/app.py:125-127 | (definition) `column.ilike('%' + term + '%')` is LIKE between the lower-cased column and the lower-cased pattern; `ILikeIsSubstring` states what it means |
| `Search.LikeAnyRest` | QuanLyNhiemVu/app.py:125-127 | the LIKE pattern "%" matches every text |
| `Search.LikePrefix` | QuanLyNhiemVu/app.py:125-127 | a wildcard-free pattern followed by "%" matches exactly the texts starting with it |
| `Search.LikeLeadingPercent` | QuanLyNhiemVu/app.py:125-127 | a leading "%" matches when the rest of the pattern matches some suffix of the text |
| `Search.ILikeIsSubstring` | QuanLyNhiemVu/app.py:122-129 | for a term without `%` or `_`, `ilike('%term%')` holds iff the lower-cased term occurs in the lower-cased column |
| `Search.WildcardTerms` | QuanLyNhiemVu/app.py:122-129 | the empty term matches every column, and the term "_" matches every non-empty column |
| `ListFilter.LexLe` | QuanLyNhiemVu/app.py:130-135 | (definition) SQLite's `<=` on TEXT under the BINARY collation: character by character, a proper prefix first; `LexLeConcat`, `Pad2Order`, `Pad4Order` and `FormattedOrderIsDayFirst` state what it means for printed dates |
| `ListFilter.SearchMatches` | QuanLyNhiemVu/app.py:122-129 | (definition) an empty search keeps every row; otherwise the summary, the note or the hashtag must match `ilike('%search%')` |
| `ListFilter.InWindow` | QuanLyNhiemVu/app.py:130-135 | (definition) the stored `ngay_van_ban` text is `>=` the lower bound and `<=` the upper bound, each only where requested |
| `ListFilter.Keep` | QuanLyNhiemVu/app.py:121-135 | (definition) a row is listed when it passes both the search and the window |
| `ListFilter.Listing` | QuanLyNhiemVu/app.py:121-137 | (definition) the request fails when a bound cannot be built, and otherwise lists the kept rows in the order given; `ListingIsOrderedSelection` states what it lists for the table |
| `ListFilter.FirstDayBound` | QuanLyNhiemVu/app.py:130-132 | the lower bound exists iff the month and year form a date, and is the first of that month printed dd/mm/yyyy |
| `ListFilter.EndOfMonth` | QuanLyNhiemVu/app.py:134 | the day before the first of month `to_month + 1` exists iff that first day is a date and is not 0001-01-01; it is the last day of `to_month`, or 31/12 of the previous year for month 0 |
| `ListFilter.LastDayBound` | QuanLyNhiemVu/app.py:133-135 | the upper bound exists iff month + 1 forms a date and the day before it exists; it is the month's last day, or 31/12 of the previous year for month 0 |
| `ListFilter.WindowOf` | QuanLyNhiemVu/app.py:130-135 | the request fails exactly when a requested bound cannot be built; otherwise each side is bounded iff it was requested, the lower bound is `FirstDayBound` of the from-month and the upper bound is `LastDayBound` of the to-month |
| `ListFilter.Filter` | QuanLyNhiemVu/app.py:121-137 | the query result is never longer than the rows it selects from |
| `ListFilter.FilterSound` | QuanLyNhiemVu/app.py:121-137 | every listed row comes from the input and passes the search and the window |
| `ListFilter.FilterComplete` | QuanLyNhiemVu/app.py:121-137 | every input row that passes the search and the window is listed |
| `ListFilter.FilterDescending` | QuanLyNhiemVu/app.py:137 | filtering keeps the descending-id order |
| `ListFilter.FilterConcat` | QuanLyNhiemVu/app.py:121-137 | the query distributes over concatenated row lists, so the rows can be visited one id at a time |
| `ListFilter.FilterKeepsAll` | QuanLyNhiemVu/app.py:121-137 | with no search term and no bounds every row is listed |
| `ListFilter.LexLeConcat` | QuanLyNhiemVu/app.py:132-135 | text comparison of equal-length prefixes decides unless the prefixes are equal |
| `ListFilter.Pad2Order` | QuanLyNhiemVu/app.py:132-135 | two-digit fields compare as text exactly as their numbers compare |
| `ListFilter.Pad4Order` | QuanLyNhiemVu/app.py:132-135 | four-digit years compare as text exactly as their numbers compare |
| `ListFilter.FormattedOrderIsDayFirst` | QuanLyNhiemVu/app.py:130-135 | comparing two dd/mm/yyyy dates as text orders them by day, then month, then year |
| `ListFilter.WindowIsNotChronological` | QuanLyNhiemVu/app.py:130-135 | the window April–November 2025 is the text range "01/04/2025".."30/11/2025", and "20/12/2025" lies inside it although it is after November |
| `ListFilter.ThreeDocumentWindow` | QuanLyNhiemVu/app.py:130-137 | of documents dated 01/03, 15/06 and 20/12/2025 that window keeps the December and June ones, newest first |
| `Statistics.IsOverdue` | QuanLyNhiemVu/app.py:167 | (definition) the overdue test of both list comprehensions: open, with a due date, and a negative day difference; `OverdueCountMatchesStatus` relates it to `Classify` |
| `Statistics.InMonth` | QuanLyNhiemVu/app.py:171-178 | (definition) `extract('month', d) == month and extract('year', d) == year`, false for NULL |
| `Statistics.EffectiveDate` | QuanLyNhiemVu/app.py:176-177 | `coalesce(ngay_hoan_thanh, han_xu_ly)`: the completion date when there is one, else the due date, NULL only when both are |
| `Statistics.Count` | QuanLyNhiemVu/app.py:165-183 | a count never exceeds the number of rows |
| `Statistics.Compute` | QuanLyNhiemVu/app.py:165-183 | the total is the number of tasks; with no month scope the scoped counts equal the all-scope counts |
| `Statistics.CountDisjoint` | QuanLyNhiemVu/app.py:166-167 | counts of two exclusive conditions add up to at most the number of rows |
| `Statistics.CountMonotone` | QuanLyNhiemVu/app.py:169-183 | a stricter condition never counts more |
| `Statistics.CountSame` | QuanLyNhiemVu/app.py:167-183 | conditions that agree on every row count the same |
| `Statistics.CountNone` | QuanLyNhiemVu/app.py:183 | a condition no row meets counts 0 |
| `Statistics.CompletedAndOverdueFit` | QuanLyNhiemVu/app.py:165-167 | completed_all + overdue_all <= total_all |
| `Statistics.OverdueCountMatchesStatus` | QuanLyNhiemVu/app.py:150-167 | overdue_all is the number of rows `Classify` labels Overdue (over the same rows; the status loop itself only visits the listing) |
| `Statistics.ScopedCountsBounded` | QuanLyNhiemVu/app.py:169-183 | in a month scope, completed_stat <= total_stat, completed_stat <= completed_all and overdue_stat <= overdue_all |
| `Statistics.ScopedOverdueIsZero` | QuanLyNhiemVu/app.py:169-183 | when every completion date is consistent, the scoped overdue count is 0 and the scoped completed count is the tasks completed in that month |
| `Statistics.ThreeTaskScenario` | QuanLyNhiemVu/app.py:140-167 | tasks due tomorrow, due three days ago and completed are DueSoon(1), Overdue and Completed, and the report counts 3, 1 and 1 |
| `TaskStore.TableInvariant` | QuanLyNhiemVu/app.py:13-23 | (definition) the table's invariant: ids are positive and below the next id, each row carries its own id, the next id is one past the largest id (SQLite's rowid rule for `id` as integer primary key), and a completion date is set exactly when the row is completed (app.py:107-112) |
| `TaskStore.RowsBelow` | QuanLyNhiemVu/app.py:137 | (definition) the stored rows with ids n down to 1, the `order_by(Task.id.desc())` order; the four lemmas below state what it holds |
| `TaskStore.RowsBelowMembers` | QuanLyNhiemVu/app.py:137 | the newest-first row list holds exactly the stored tasks with ids in range |
| `TaskStore.RowsBelowDescending` | QuanLyNhiemVu/app.py:137 | the row list is in strictly descending id order |
| `TaskStore.RowsBelowIgnoresAbove` | QuanLyNhiemVu/app.py:137 | removing an id above the range leaves the row list unchanged |
| `TaskStore.RowsBelowLength` | QuanLyNhiemVu/app.py:165 | the row list has one entry per stored task |
| `TaskStore.CollectStep` | QuanLyNhiemVu/app.py:121-137 | one step of the query loop: the rows kept so far followed by the listing of ids up to k equal the rows kept after deciding row k followed by the listing of the ids below it |
| `TaskStore.RowsAreTheTable` | QuanLyNhiemVu/app.py:137 | for a valid table the row list holds every stored task once, newest first, each with a consistent completion date |
| `TaskStore.FilterRowsStep` | QuanLyNhiemVu/app.py:121-137 | listing ids up to k is deciding row k, then listing the ids below it |
| `TaskStore.ListingIsOrderedSelection` | QuanLyNhiemVu/app.py:121-137 | the list view is a newest-first selection of the table: exactly the stored tasks that have an empty search or a match in summary, note or hashtag and lie in the text window |
| `TaskStore.TableScopedOverdueIsZero` | QuanLyNhiemVu/app.py:169-183 | for any table the handlers can build, the month-scoped overdue count is 0 |
| `TaskStore.Store.constructor` | QuanLyNhiemVu/app.py:26-27 | a new table is empty and valid and hands out id 1 first |
| `TaskStore.Store.Add` | QuanLyNhiemVu/app.py:58-81 | a malformed due date aborts with an error and no change; otherwise a new open task under an id larger than every stored id, all other rows unchanged |
| `TaskStore.Store.Edit` | QuanLyNhiemVu/app.py:83-100 | a missing id changes nothing and says nothing; a malformed due date aborts with no change; otherwise only that row's editable fields change |
| `TaskStore.Store.Complete` | QuanLyNhiemVu/app.py:102-117 | only the given row becomes completed, dated `now`; a missing id changes nothing; the completion invariant is kept |
| `TaskStore.Store.UndoComplete` | QuanLyNhiemVu/app.py:102-117 | only the given row becomes open with no completion date; a missing id changes nothing |
| `TaskStore.Store.Delete` | QuanLyNhiemVu/app.py:102-117 | only the given row is removed; a missing id changes nothing; the next id drops to one past the largest id left |
| `TaskStore.Store.Handle` | QuanLyNhiemVu/app.py:56-118 | each action has the outcome and the new table of its operation: add, edit, complete, undo and delete as stated for `Add`, `Edit`, `Complete`, `UndoComplete` and `Delete`; every POST keeps the table valid, only a success changes it, and an unknown action does nothing |
| `TaskStore.Store.Select` | QuanLyNhiemVu/app.py:121-137 | the query loop returns exactly the filtered newest-first listing, or fails when a bound cannot be built |
| `TaskStore.Store.Index` | QuanLyNhiemVu/app.py:121-183 | the page lists the query result, gives each listed task its status, and reports the counts over the whole table |

## Left out

- HTTP plumbing: routing, `request.args`/`request.form`, `flash` texts,
  `redirect` and `render_template`; the flash message is kept only as its kind
  (success, date error, nothing).
- Persistence: SQLAlchemy sessions, `commit` and the sqlite file become the
  store's in-memory map; requests run one at a time.
- `extract_data`: its regular expressions over Vietnamese markers are not
  modelled; `add` takes the four strings it produces as a parameter.
- `int(...)` on query and form values: month, year and id arrive as integers;
  a non-numeric value (an HTTP 500 in the source) is not modelled.
- Display strings, colours and icons of the status loop: only the category and
  the day count are kept, in a separate list rather than written onto records.
- Form fields that are absent (`request.form.get` returning None and NULL
  columns): every text field is a string.
- Calendar.ParseDate: Python's `\d` also accepts non-ASCII decimal digits; the
  model accepts ASCII digits only.
- Calendar.FormatDate: prints years below 1000 with four digits; the C library
  behind `strftime` may print them without padding.
- Search.Lower: characters outside ASCII are not folded, as SQLite's `lower` and
  `LIKE` do without the ICU extension; other SQLite builds may fold more.
