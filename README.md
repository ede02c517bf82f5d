# Azure Functions invocation trace analysis — Dafny model

The analysed script reads a trace of Azure Functions invocations. Each row holds an
application, a function, an end timestamp in epoch seconds and a duration in seconds.
The script prepares the table in place:

- it moves every timestamp by one offset so that the trace starts on 2021-01-31 00:00:00;
- it derives hour, weekday and date columns;
- it renames the applications `app_1, app_2, …` in order of first occurrence;
- it merges in each application's number of distinct functions.

From that table it computes the data behind its charts:

- invocations per date, with one bar colour per date taken from the date's weekday;
- the mean daily invocations per hour of the day;
- the distinct functions per application;
- the mean invocations per active day of each application, ranked highest first;
- the mean durations per application and per (application, function) pair;
- for one chosen application, a pattern view in which that application's functions are
  renamed `fun_1, fun_2, …` and each invocation's start time is reconstructed from its
  end time and duration.

Finally it works out which applications the selector offers: those with more than one
function.

The model keeps the table column by column, the way the script's DataFrame holds it.
`Trace.InvocationTable` has one `seq` field per column. Its methods are the in-place
column assignments of the script, and the aggregations are pure functions over the
columns. The modules are:

- `Calendar` — the calendar fields;
- `TimeShift` — the shift;
- `Grouping` — the pandas grouping primitives the script uses (`unique`, `value_counts`,
  `groupby` with `size`, `count`, `nunique` and `mean`), each modelled once;
- `Renaming` — first-seen renaming;
- `Decimal` — the decimal labels;
- `Temporal` — the date and hour views;
- `Applications` — the per-application views;
- `Trace` — the table itself.

Timestamps are whole epoch seconds (`int`) and durations are `real`. A date is a day
index, floor(t / 86400), and weekdays run from Monday = 0 to Sunday = 6. 1970-01-01 was
a Thursday, so it is weekday 3. Python's `//` floors, and so does Dafny's `/` by a
positive divisor, so the conversion back to whole seconds at line 208 is the same
operation in both.

On an empty table the script does not stop. The minimum of the empty column is NaT, the
shift is NaT, and every derived column stays empty. The model follows the code:
`TimeShift.ReferenceShift` returns `None` and the column is left as it is.

## Model

| member | source | states |
|---|---|---|
| Calendar.Date | AzureFunctionInvocationTrace/main.py:31 | the date of t is the day whose 86400-second span contains t |
| Calendar.Hour | AzureFunctionInvocationTrace/main.py:29 | the hour is in 0..23 and its 3600-second slot within t's day contains t |
| Calendar.DayOfWeek | AzureFunctionInvocationTrace/main.py:30 | the weekday is in 0..6 |
| Calendar.ReferenceIsSundayMidnight | AzureFunctionInvocationTrace/main.py:26 | 2021-01-31 is day 18658, timestamp 1612051200, a Sunday (6), and starts in hour 0 |
| Calendar.WeekdayFollowsDate | AzureFunctionInvocationTrace/main.py:30-31 | timestamps on the same date share a weekday; the next date has the next weekday modulo 7 |
| TimeShift.Min | AzureFunctionInvocationTrace/main.py:27 | the minimum is an element of the column and no element is smaller |
| TimeShift.ReferenceShift | AzureFunctionInvocationTrace/main.py:27 | there is no shift exactly when the column is empty; otherwise the shift moves every row to the reference timestamp or later and some row exactly onto it |
| TimeShift.ShiftToReference | AzureFunctionInvocationTrace/main.py:28 | the shifted column has one entry per row, every entry at or after the reference timestamp, and an empty column stays empty |
| TimeShift.ShiftIsUniform | AzureFunctionInvocationTrace/main.py:27-28 | every row moves by the same offset; the row count, the order and the differences between rows are preserved |
| TimeShift.ShiftedMinimumIsReference | AzureFunctionInvocationTrace/main.py:26-28 | after the shift the earliest timestamp is exactly 2021-01-31 00:00:00 |
| TimeShift.ShiftedCalendarStart | AzureFunctionInvocationTrace/main.py:28-31 | no shifted date is before 2021-01-31, and some row falls at its midnight with hour 0 and weekday 6 |
| Grouping.Unique | AzureFunctionInvocationTrace/main.py:142 | `unique()`: the same elements as the column, without duplicates, no longer than it |
| Grouping.UniqueOfPrefix | AzureFunctionInvocationTrace/main.py:142 | the distinct values of a prefix of the rows are a prefix of the distinct values of all rows (first-occurrence order) |
| Grouping.Count | AzureFunctionInvocationTrace/main.py:56 | a group's row count is at most the row count, and zero exactly when the key is absent |
| Grouping.Select | AzureFunctionInvocationTrace/main.py:57 | the rows selected for a key are as many as the rows carrying that key |
| Grouping.InSelect | AzureFunctionInvocationTrace/main.py:57 | a value is among a key's selected rows exactly when some row pairs the key with that value |
| Grouping.SortedKeys | AzureFunctionInvocationTrace/main.py:56 | `sort_index()` group keys: strictly ascending, and exactly the values that occur |
| Grouping.CountsPartition | AzureFunctionInvocationTrace/main.py:56 | the group sizes over a duplicate-free key list that covers every row add up to the row count |
| Grouping.KeyCounts | AzureFunctionInvocationTrace/main.py:56 | one entry per listed key, in the listed order, each with the number of rows carrying that key |
| Grouping.KeyCountsCoverRows | AzureFunctionInvocationTrace/main.py:56 | a `value_counts()` table over all distinct values sums to the row count and has no empty group |
| Grouping.BoundedKeys | AzureFunctionInvocationTrace/main.py:104 | ascending distinct keys from [lo, hi) number at most hi - lo |
| Grouping.SameElementsSameSize | AzureFunctionInvocationTrace/main.py:56 | two duplicate-free lists with the same elements have the same length |
| Grouping.GroupMean | AzureFunctionInvocationTrace/main.py:68 | `groupby(k)[v].mean()` has an entry for exactly the keys present, each over a non-empty group |
| Grouping.GroupMeanWithinGroup | AzureFunctionInvocationTrace/main.py:112 | each group mean lies within any bounds that hold every value of its group |
| Grouping.MeanBounds | AzureFunctionInvocationTrace/main.py:174 | a mean lies within any bounds of its values |
| Decimal.NatToString | AzureFunctionInvocationTrace/main.py:143 | the decimal form is a non-empty digit string without a leading zero |
| Decimal.ParseNatToString | AzureFunctionInvocationTrace/main.py:143 | reading back the decimal form of n gives n |
| Decimal.LabelInjective | AzureFunctionInvocationTrace/main.py:143 | `prefix + str(a)` equals `prefix + str(b)` only when a == b |
| Renaming.Replace | AzureFunctionInvocationTrace/main.py:144 | every value that is a key of the map is replaced by its image, every other value is kept, and the row count is unchanged |
| Renaming.RenameMap | AzureFunctionInvocationTrace/main.py:143 | the dict has exactly the listed names as keys; on distinct names the i-th maps to newName(i + 1) |
| Renaming.FirstSeenRank | AzureFunctionInvocationTrace/main.py:142 | the rank is the value's position among the distinct values in first-occurrence order |
| Renaming.RenameFirstSeen | AzureFunctionInvocationTrace/main.py:142-144 | `replace` keeps the row count and sends each value to newName(its first-seen rank + 1) |
| Renaming.RenamePreservesEquality | AzureFunctionInvocationTrace/main.py:142-144 | two rows carry equal new names exactly when they carried equal old names |
| Renaming.RenameFirstSeenLabels | AzureFunctionInvocationTrace/main.py:142-146 | the distinct new names are newName(1) .. newName(n) in order, n being the number of distinct old names |
| Renaming.RenameIdempotent | AzureFunctionInvocationTrace/main.py:142-144 | renaming an already renamed column changes nothing |
| Temporal.DayColorsDistinct | AzureFunctionInvocationTrace/main.py:45-53 | the palette has seven colours, all different, one per weekday |
| Temporal.DateCounts | AzureFunctionInvocationTrace/main.py:56 | one (date, count) entry per sorted distinct date |
| Temporal.DateCountsCoverDates | AzureFunctionInvocationTrace/main.py:56 | one bar per distinct date, dates strictly ascending, every count at least one, counts summing to the row count |
| Temporal.RowsByDate | AzureFunctionInvocationTrace/main.py:57 | `set_index('date').loc[dates]` yields only rows of the listed dates |
| Temporal.DropDuplicateKeys | AzureFunctionInvocationTrace/main.py:59-60 | `drop_duplicates` keeps rows of the input, every key still has a row, and no key occurs twice |
| Temporal.DropBlock | AzureFunctionInvocationTrace/main.py:60 | a block of rows sharing a new key contributes exactly its first row |
| Temporal.FirstRowPerDate | AzureFunctionInvocationTrace/main.py:57-60 | the first row kept for each listed date carries that date's weekday |
| Temporal.BarColors | AzureFunctionInvocationTrace/main.py:57-61 | every bar colour is one of the seven weekday colours |
| Temporal.BarColorsFollowWeekdays | AzureFunctionInvocationTrace/main.py:56-61 | as many colours as bars, and bar k gets `color_day` of the weekday of date k |
| Temporal.HourlyMean | AzureFunctionInvocationTrace/main.py:104 | each hour's value is its invocations divided by the number of distinct dates |
| Temporal.HourlyMeanHours | AzureFunctionInvocationTrace/main.py:104 | at most 24 entries, hours ascending in 0..23, an entry for exactly the hours that occur |
| Temporal.HourlyMeanTotal | AzureFunctionInvocationTrace/main.py:104 | on a non-empty table the hourly values sum to rows divided by distinct dates |
| Temporal.Scale | AzureFunctionInvocationTrace/main.py:104 | each key is kept and its count is divided by the number of distinct dates |
| Temporal.SumOfScaled | AzureFunctionInvocationTrace/main.py:104 | dividing every count by n divides their sum by n |
| Applications.AppName | AzureFunctionInvocationTrace/main.py:143 | the name is `app_` followed by digits that read back as n |
| Applications.FunName | AzureFunctionInvocationTrace/main.py:206 | the name is `fun_` followed by digits that read back as n |
| Applications.AppNameInjective | AzureFunctionInvocationTrace/main.py:143 | different ranks give different `app_<n>` names |
| Applications.FunNameInjective | AzureFunctionInvocationTrace/main.py:206 | different ranks give different `fun_<n>` names |
| Applications.FunctionCount | AzureFunctionInvocationTrace/main.py:151 | an application's distinct functions number at most its rows, and none exactly when it has no rows |
| Applications.FunctionsPerApp | AzureFunctionInvocationTrace/main.py:151-152 | one entry per application, each between 1 and the application's row count |
| Applications.FunctionCountMembers | AzureFunctionInvocationTrace/main.py:151 | a function is counted for an application exactly when some row pairs them |
| Applications.PairInZip | AzureFunctionInvocationTrace/main.py:147 | (a, f) is a pair of the table exactly when f is among a's functions |
| Applications.FunctionCountAddRow | AzureFunctionInvocationTrace/main.py:151 | a new row adds one function to its own application when the function is new there, and changes no other count |
| Applications.FunctionsAddUp | AzureFunctionInvocationTrace/main.py:147-152 | the per-application function counts sum to the number of distinct (app, func) pairs |
| Applications.NumFunctionsColumn | AzureFunctionInvocationTrace/main.py:153 | the left merge keeps every row in place and gives it its own application's count |
| Applications.NumFunctionsPerRow | AzureFunctionInvocationTrace/main.py:153 | each merged count is between 1 and the application's row count; rows of one application agree |
| Applications.SeveralMask | AzureFunctionInvocationTrace/main.py:247 | the mask is true exactly on the rows whose function count exceeds one |
| Applications.KeepSeveral | AzureFunctionInvocationTrace/main.py:247 | keeps exactly the listed applications whose count exceeds one |
| Applications.AppsWithSeveralFunctions | AzureFunctionInvocationTrace/main.py:247 | the offered applications contain no duplicate |
| Applications.OfferedApps | AzureFunctionInvocationTrace/main.py:247 | the offered applications are exactly those with more than one function, in first-seen order |
| Applications.MaskedRows | AzureFunctionInvocationTrace/main.py:247 | the boolean mask `num_functions > 1` selects exactly the rows of applications with several functions |
| Applications.UniqueOfKept | AzureFunctionInvocationTrace/main.py:247 | filtering rows and then taking distinct values equals taking distinct values and then filtering |
| Applications.DailyCounts | AzureFunctionInvocationTrace/main.py:162 | one entry per date on which the application was invoked, in first-seen order, each with the number of the application's rows on that date |
| Applications.CountPairInGroup | AzureFunctionInvocationTrace/main.py:162 | the size of group (a, d) is the number of a's rows on date d |
| Applications.DailyCountsCoverApp | AzureFunctionInvocationTrace/main.py:162 | an application's daily sizes are positive and sum to its invocation count |
| Applications.MeanDailyInvocationsValue | AzureFunctionInvocationTrace/main.py:163 | the daily mean is the application's invocations divided by its active dates, and at least 1 |
| Applications.MeanDailyPerApp | AzureFunctionInvocationTrace/main.py:163 | one entry per application, each with its own daily mean |
| Applications.InsertDescending | AzureFunctionInvocationTrace/main.py:164 | insertion keeps the list non-increasing and adds exactly the new entry |
| Applications.MeanDailyInvocations | AzureFunctionInvocationTrace/main.py:163 | an application's mean daily invocations is at least one |
| Applications.SortDescending | AzureFunctionInvocationTrace/main.py:164 | `sort_values(ascending=False)` gives a non-increasing permutation of its input |
| Applications.RankByDailyMean | AzureFunctionInvocationTrace/main.py:164 | the ranking holds exactly the per-application daily means, in non-increasing order |
| Applications.RankingEntries | AzureFunctionInvocationTrace/main.py:164 | the ranking is non-increasing and pairs each application with its own daily mean |
| Applications.RankingCoversApps | AzureFunctionInvocationTrace/main.py:163-164 | the ranking has one entry per application and lists every application |
| Applications.AppAnalysis | AzureFunctionInvocationTrace/main.py:175 | the inner merge keeps exactly the applications, each with its mean duration and its own number of distinct functions |
| Applications.AppDurationWithinRows | AzureFunctionInvocationTrace/main.py:174 | an application's mean duration lies within the durations of its invocations |
| Applications.FunctionDurations | AzureFunctionInvocationTrace/main.py:189 | one entry for exactly the (app, func) pairs of the table |
| Applications.FunctionDurationWithinRows | AzureFunctionInvocationTrace/main.py:189 | a function's mean duration lies within the durations of its invocations |
| Trace.NanosToSeconds | AzureFunctionInvocationTrace/main.py:208 | `// 10 ** 9` gives the whole second that contains the nanosecond instant |
| Trace.SecondsRoundTrip | AzureFunctionInvocationTrace/main.py:208 | converting whole seconds to nanoseconds and back gives the same seconds |
| Trace.WholeSeconds | AzureFunctionInvocationTrace/main.py:208 | the `end_timestamp_sec` column equals the end timestamps |
| Trace.InvocationTable.Load | AzureFunctionInvocationTrace/main.py:17 | the four read columns hold the rows' fields, row by row; no derived column yet |
| Trace.InvocationTable.ShiftTimestamps | AzureFunctionInvocationTrace/main.py:25-28 | the timestamp column becomes the shifted column, the offset is returned, every other column is unchanged |
| Trace.InvocationTable.DeriveCalendarFields | AzureFunctionInvocationTrace/main.py:29-31 | hour, weekday and date of every row come from that row's timestamp; the other columns are unchanged |
| Trace.InvocationTable.CalendarColumnsAgree | AzureFunctionInvocationTrace/main.py:29-31 | derived weekdays are the weekdays of the derived dates, and hours lie in 0..23 |
| Trace.InvocationTable.RenameApps | AzureFunctionInvocationTrace/main.py:142-144 | the app column becomes its first-seen renaming to `app_<n>`; the other columns are unchanged |
| Trace.InvocationTable.MergeFunctionCounts | AzureFunctionInvocationTrace/main.py:151-153 | adds the merged count column; the other columns are unchanged |
| Trace.InvocationTable.PatternView | AzureFunctionInvocationTrace/main.py:204-210 | one row per invocation of the target, all with app == target, whole-second end times, and start + duration == end; the table is only read |
| Trace.InvocationTable.ViewFunctions | AzureFunctionInvocationTrace/main.py:207 | one function name per row of the target |
| Trace.InvocationTable.PatternViewFunctions | AzureFunctionInvocationTrace/main.py:205-207 | the functions are named `fun_1 .. fun_k` in first-seen order, k being the application's function count, and two rows share a name exactly when they share a function |
| Trace.Prepare | AzureFunctionInvocationTrace/main.py:25-153 | the prepared table keeps the loaded functions and durations, and has consistent calendar columns, shifted timestamps, renamed applications and the merged function counts |

## Left out

- Reading the CSV file, the schema and head printing, and the missing-file and missing-column errors. These are file I/O. `Trace.InvocationTable.Load` takes the rows as a parameter.
- All chart drawing, titles, axes, ticks and legends, and the tkinter window, combobox and event loop. The only part of the window that is modelled is the eligibility filter at line 247.
- The `describe()` statistics (standard deviation, quartiles) and the Pearson correlation. These are floating-point numerics. Means are modelled over `real`.
- Sub-second timestamps. The input column is whole epoch seconds. pandas datetime values are nanosecond `int64`, and the model does not model their overflow.
- The key order of `groupby` results that are keyed by application or by (application, function). For these keys the model uses maps or first-seen order: the script only looks them up, merges them or sorts them again.
- Applications.SortDescending: the order among applications with equal daily means is not specified, because pandas' default sort is not stable.
- The sort of the pattern view by start time at line 217. It only orders the scatter plot.
- Calendar: the conversion of a day index to a year-month-day date is not modelled, beyond the reference date 2021-01-31 computed by `Calendar.DaysFromCivil`.
