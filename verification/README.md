# go-todo-list date rules in Dafny

This project models the scheduling core of the go-todo-list server, which lives in `pkg/api/app.go`:

- **`NextDate(now, dateStr, repeat)`** computes the next date of a repeating task. It starts from an anchor date and follows a repeat rule:
  - `y` repeats yearly.
  - `d <n>` repeats every n days.
  - `w <weekdays>` repeats on the listed weekdays.
  - `m <days> [<months>]` repeats on the listed days of the month, optionally in listed months only.
- **`checkDate`** normalises a task's date before it is stored.
- **`isLastDayOfMonth`** and **`isSecondToLastDayOfMonth`** are the helpers for the monthly rule.
- **The date layout** is `"20060102"`: YYYYMMDD.

## Modules

- `Results`: `Option` and `Result`.
- `Decimal`: decimal digits and `strconv.Atoi`.
- `Strings`: `strings.Split` on a one-character separator.
- `Calendar`: the Go `time` arithmetic the code relies on, on whole days:
  - `AddDate` by days and by one year;
  - `Weekday`;
  - `After` and `Before`.
- `DateText`: `time.Parse` and `Format` with the `"20060102"` layout.
- `Rules`: the repeat-rule grammar and its error messages.
- `Recurrence`: `NextDate` and the month-end helpers.
- `Tasks`: `checkDate`.
- `Examples`: worked cases on concrete dates.

## How the model differs from the Go code

**Dates.** A date is a `Date(year, month, day)` at midnight, and chronological order is the order of a day count. The clock reading is a parameter:
- `now` for `NextDate`;
- `today` for `checkDate`, already truncated to midnight as the code does.

**NextDate.** The function is split into two layers:
- **Validation.** `ParseRule` mirrors the checks in the switch. Each distinct error message becomes one constructor of `Rules.Error`.
- **The walk.** `Occurrence` performs the walk for a validated rule.

**Quirks of the code that the model keeps:**
- `y` ignores any tokens after the kind.
- An unknown kind gives an empty result and no error.
- The weekly walk gives up after 3650 days with an empty result and no error. The monthly walk gives up after 3650 days with the error "wrong repeat rule".
- Both walks start on the day after the anchor.
- `isSecondToLastDayOfMonth` also holds on the last day of a month.
- Day 31 is never selected in a 30-day month.

**The walk only moves forward.** Both walks start on the day after the anchor, so `m -2` from 20240301 can never return an earlier date such as 20240228:
- with `now` = 20240301, the result is 20240330;
- with `now` = 20240330, the result is 20240331.

`Examples.SecondToLastDayExample` and `Examples.SecondToLastDayLateExample` prove both results.

## Model

| member | source | states |
|---|---|---|
| DateText.FormatDate | pkg/api/app.go:19 | The layout prints only digits: the last two read as the day, the two before them as the month, and the rest as the year. That is eight digits for years up to 9999; a later year prints without a leading zero. |
| DateText.ParseDate | pkg/api/app.go:30-33 | Whatever the layout accepts is a real calendar day with a year of at most 9999. Formatting that day gives back exactly the input text, so the first four digits are the year, the next two the month and the last two the day. |
| DateText.ParseFormat | pkg/api/app.go:19 | Every valid date up to year 9999 is read back as itself after formatting. |
| DateText.FormatBeyondLayout | pkg/api/app.go:19 | A date after year 9999 formats to text the layout rejects. |
| Decimal.Digits | pkg/api/app.go:47 | Zero-padded decimal text has at least the requested width, holds only digits and reads back as the number. Text wider than the width has no leading zero, as `appendInt` prints it. |
| Decimal.DigitsBeyondWidth | pkg/api/app.go:19 | A number of at least 10^width prints in more than `width` digits and starts with a nonzero digit, so a year past 9999 gets no padding. |
| Decimal.DigitsWidth | pkg/api/app.go:47 | A number below 10^width prints in exactly `width` digits. |
| Decimal.DigitsOfValue | pkg/api/app.go:30 | A digit string of length w is the zero-padded width-w printing of its value, so parse and format agree. |
| Decimal.ValueBound | pkg/api/app.go:30 | The value of w digits is below 10^w. |
| Decimal.Atoi | pkg/api/app.go:57 | `strconv.Atoi` succeeds only on an optional sign followed by digits, and only for values within int64. Unsigned text reads as a non-negative value. AtoiDigits states the converse, including the range error. |
| Decimal.AtoiDigits | pkg/api/app.go:57 | Digit text, bare or after `+` or `-` and leading zeros included, reads as its value (negated after `-`) exactly when that value fits in int64, and fails otherwise, so `-9223372036854775808` is accepted and `9223372036854775808` is not. |
| Decimal.AtoiIntText | pkg/api/app.go:83 | Every int64 value's canonical text is read back as that value. |
| Strings.Split | pkg/api/app.go:36-37 | `strings.Split` returns at least one piece, so `parts[0]` always exists. No piece contains the separator, and joining the pieces restores the input. |
| Strings.SplitJoin | pkg/api/app.go:77 | Splitting the join of separator-free pieces returns those pieces. |
| Calendar.Next | pkg/api/app.go:97 | The next calendar day of a valid date is valid. |
| Calendar.NextNumber | pkg/api/app.go:97 | The next day is exactly one day later in the day count. |
| Calendar.AddDaysNumber | pkg/api/app.go:65 | `AddDate(0, 0, n)` moves exactly n days forward in the day count. |
| Calendar.AddDays | pkg/api/app.go:65 | `AddDate(0, 0, n)` for n >= 0 is n steps of Next and lands on a valid date. |
| Calendar.AddDaysAdd | pkg/api/app.go:65 | Adding a days and then b days is adding a + b days. |
| Calendar.AddDaysWithinMonth | pkg/api/app.go:153 | Adding days that stay inside the month only raises the day of the month. |
| Calendar.AddYear | pkg/api/app.go:45 | `AddDate(1, 0, 0)` lands at the same month and day of the next year, normalised as `time.Date` does, and so strictly later. |
| Calendar.DaysBeforeYearFormula | pkg/api/app.go:99 | The day count of the years before year y is 365 per year plus the Gregorian leap days: every fourth year, less the centuries, plus every fourth century. |
| Calendar.Weekday | pkg/api/app.go:99 | `Weekday()` is a number in 0..6. |
| Calendar.WeekdayNext | pkg/api/app.go:97-99 | Consecutive days have consecutive weekdays modulo 7. |
| Calendar.WeekdayPinned | pkg/api/app.go:99 | January 1, 2024 is a Monday (1), as in Go. |
| Calendar.Before | pkg/api/app.go:190 | `Before` on midnight dates is exactly year-month-day order. |
| Calendar.After | pkg/api/app.go:46 | `t.After(u)` is `u.Before(t)`, so on real dates it is the reverse of calendar order. |
| Calendar.DayNumberOrder | pkg/api/app.go:99 | The day count orders valid dates exactly as year, month and day do. |
| Calendar.DayNumberInjective | pkg/api/app.go:46 | Two valid dates at the same instant are the same date. |
| Rules.Values | pkg/api/app.go:81-83 | The values of a list of integer texts match the list entry by entry. |
| Rules.WeekdaysListed | pkg/api/app.go:81-92 | The weekday set holds Go weekday `iso % 7` exactly when ISO day `iso` is listed, with 7 becoming Sunday (0). |
| Rules.DaysListed | pkg/api/app.go:116-129 | Listed day x in 1..31 is in the day set exactly when written, and -1 and -2 are recorded exactly when written. |
| Rules.MonthsListed | pkg/api/app.go:141-147 | A month is selected exactly when it is listed. |
| Rules.ParseDaily | pkg/api/app.go:51-60 | `d` succeeds exactly with one argument that is an integer in 1..400, and yields that step. Every failure is "wrong format repeat for days". |
| Rules.ParseWeekly | pkg/api/app.go:71-92 | `w` succeeds exactly with one argument whose comma-separated entries are all integers in 1..7, and selects exactly the listed weekdays. It fails with "wrong format repeat for weeks" on a wrong argument count and with "invalid weekday format" otherwise. |
| Rules.ParseMonthly | pkg/api/app.go:105-148 | `m` succeeds exactly with one or two arguments, where the days are nonzero integers in -2..31 and the months are integers in 1..12. It selects exactly the listed days, the -1 and -2 flags, and the listed months (every month when none are given). Errors are reported in the code's order: format, then days, then months. |
| Rules.ParseRule | pkg/api/app.go:36-41 | The kind is the first space-separated token. `y` always succeeds, and any other unknown kind is accepted as unsupported. `d`, `w` and `m` give exactly what their validators give on the split tokens, so only those three kinds can fail. |
| Recurrence.IsLastDayOfMonth | pkg/api/app.go:206-208 | `isLastDayOfMonth` holds exactly on the month's last day. |
| Recurrence.IsSecondToLastDayOfMonth | pkg/api/app.go:210-213 | `isSecondToLastDayOfMonth` holds exactly on the month's last two days. |
| Recurrence.Qualifies | pkg/api/app.go:155-163 | A weekly candidate must be on a listed weekday and after `now`. A monthly candidate must be after `now` and in a selected month. It must also be a listed day, or the last day when -1 is given, or one of the last two days when -2 is given. No other kind has candidates. |
| Recurrence.Search | pkg/api/app.go:95-103 | The bounded day-by-day walk finds nothing exactly when no day of the window qualifies. Otherwise it returns the first qualifying day, which is strictly after the start. |
| Recurrence.SearchFinds | pkg/api/app.go:151-165 | When the first qualifying day lies within the window, the walk returns that day. |
| Recurrence.FirstUnique | pkg/api/app.go:95-101 | There is only one first qualifying day. |
| Recurrence.AddYears | pkg/api/app.go:44-45 | Repeated yearly steps stay on valid dates. |
| Recurrence.YearlyFrom | pkg/api/app.go:41-49 | The `y` loop ends at the first k ≥ 1 with the anchor plus k years after `now`, which is also after the anchor. |
| Recurrence.AddSteps | pkg/api/app.go:64-65 | Repeated `AddDate(0, 0, step)` stays on valid dates. |
| Recurrence.AddStepsIsMultiple | pkg/api/app.go:64-65 | k steps of n days are k·n days. |
| Recurrence.DailyFrom | pkg/api/app.go:62-69 | The `d` loop ends at the first k ≥ 1 with the anchor plus k steps after `now`. |
| Recurrence.DailySteps | pkg/api/app.go:62-69 | The `d` result is the anchor plus k·n days, after `now`. With k > 1, the date n days earlier is not after `now`. |
| Recurrence.Occurrence | pkg/api/app.go:41-170 | For a validated rule, the result is after both `now` and the anchor. It is an error exactly for a monthly rule with no match in the window, and empty exactly for an unsupported kind or a weekly rule with no match. |
| Recurrence.NextDate | pkg/api/app.go:22-171 | An empty rule gives "repeat is empty". An unreadable anchor then gives "error parse dstart". Rule errors come from rule validation. A non-empty result is digit text. |
| Recurrence.NextDateAfter | pkg/api/app.go:46-47 | Any date `NextDate` prints formats a valid date strictly after both `now` and the anchor. |
| Recurrence.NextDateYearly | pkg/api/app.go:41-49 | `y` prints the anchor plus the first number of whole years that lands after `now`. |
| Recurrence.NextDateDaily | pkg/api/app.go:51-69 | `d n` prints the anchor plus k·n days, after `now`, with k minimal. |
| Recurrence.SearchWitness | pkg/api/app.go:95-101 | A successful walk stops at an offset within the window, at the first qualifying day. |
| Recurrence.Walk | pkg/api/app.go:93-103 | When the window holds a qualifying day, the walk yields the first one. When it holds none, the weekly rule yields the empty result and the monthly rule yields an error. |
| Recurrence.IsoWeekday | pkg/api/app.go:87-91 | ISO weekday numbering (Monday 1 … Sunday 7) agrees with Go's weekday modulo 7. |
| Recurrence.NextDateWeekly | pkg/api/app.go:71-103 | `w` prints "" exactly when no day of the 3650-day window is after `now` on a listed weekday. Otherwise it prints the first such day. |
| Recurrence.WeeklyDayListed | pkg/api/app.go:81-99 | A day the weekly rule selects has its ISO weekday number written in the rule. |
| Recurrence.NextDateMonthly | pkg/api/app.go:105-167 | `m` fails with "wrong repeat rule" exactly when no day of the window qualifies. Otherwise it prints the first qualifying day. |
| Recurrence.NextDateUnsupported | pkg/api/app.go:168-169 | An unknown kind yields "" with no error. |
| Tasks.CheckDate | pkg/api/app.go:174-203 | `checkDate` changes nothing but the date. An empty date becomes today. An unreadable date gives "invalid date format". A date not before today is kept. An overdue task without a rule moves to today. An overdue repeating task moves to `NextDate`'s output, and "invalid repeat rule" is reported exactly when that fails or is "". |
| Tasks.CheckDateNotBeforeToday | pkg/api/app.go:189-201 | A checked date is a valid date, never before today. A repeating task that is moved lands strictly after today. |
| Tasks.CheckDateIdempotent | pkg/api/app.go:174-203 | Checking an already checked task changes nothing. |
| Examples.Composed | pkg/api/app.go:22-39 | `NextDate` on a formatted anchor prints the parsed rule's occurrence. |
| Examples.ComposedError | pkg/api/app.go:35-39 | `NextDate` on a formatted anchor reports the rule's validation error. |
| Examples.LayoutExample | pkg/api/app.go:19 | March 15, 2023 prints as 20230315: year, then month, then day. |
| Examples.YearlyExample | pkg/api/app.go:41-49 | `y` from 20230101 with today 20230115 gives 20240101. |
| Examples.DailyExample | pkg/api/app.go:51-69 | `d 3` from 20230101 with today 20230105 gives 20230107. |
| Examples.DailyTooLongExample | pkg/api/app.go:58-59 | `d 401` is rejected. |
| Examples.WeekdayOutOfRangeExample | pkg/api/app.go:84-85 | `w 8` is rejected as an invalid weekday. |
| Examples.WeeklyExample | pkg/api/app.go:71-103 | `w 1,3` from 20240101, a Monday, with today 20240101 gives the Wednesday 20240103. |
| Examples.LastDayExample | pkg/api/app.go:105-167 | `m -1` from 20240301 with today 20240301 gives 20240331. |
| Examples.SecondToLastDayExample | pkg/api/app.go:210-213 | `m -2` from 20240301 with today 20240301 gives 20240330. |
| Examples.SecondToLastDayLateExample | pkg/api/app.go:210-213 | With today 20240330, `m -2` gives 20240331 because the last day also qualifies. |
| Examples.Day31Example | pkg/api/app.go:151-165 | `m 31` from 20240401 skips April and gives 20240531. |
| Examples.CheckOverdueOnce | pkg/api/app.go:191-192 | An overdue task without a rule moves to today. |
| Examples.CheckOverdueDaily | pkg/api/app.go:193-199 | An overdue `d 3` task moves to its next date after today. |
| Examples.CheckUndated | pkg/api/app.go:179-181 | A task without a date gets today's date. |
| Examples.EmptyRuleExample | pkg/api/app.go:25-27 | An empty rule is rejected before the date is read. |

## Left out

- **HTTP handlers, the database package, `writeJson` and logging.** They are input and output around the core, not date logic.
- **`time.Now()`, time zones and times of day.** The clock is a parameter (`now`, `today`). Every date is a midnight, and `After`/`Before` compare whole days. The model therefore matches Go only when the local zone is UTC. `checkDate` compares a local-midnight `today` with parsed dates at UTC midnight. East of UTC, a candidate dated today already counts as after `today`. West of UTC, a task dated today counts as overdue.
- **Dates before year 0 and negative day steps.** No layout string can name them, and `d` rejects non-positive steps.
- **The "invalid number of months" branch (app.go:138-140).** It is unreachable, because `strings.Split` never returns an empty slice.
- **Go's fixed-size arrays (`weekDays`, `monthDays`, `months`).** They are modelled as sets of the accepted indices. Validation rejects every out-of-range index first, so nothing is lost.
- **Integer overflow.** Only `strconv.Atoi`'s 64-bit range matters. Every stored number is bounded by validation. Results stay near year 10000 at most, because the anchor is read through the four-digit layout, and `now` is either read the same way or taken from the clock. The yearly and daily walks stop just after `now`, and the weekly and monthly walks stop within ten years of the anchor. Go's `Time` covers a far wider range.
- Tasks.CheckDateIdempotent: holds only when the stored date still fits the four-digit-year layout. A year past 9999 prints five digits, which `time.Parse` with the same layout rejects.
- Recurrence.NextDate: the contract states the error order and the text shape. The meaning of each rule's result is stated by NextDateYearly, NextDateDaily, NextDateWeekly, NextDateMonthly and NextDateUnsupported.
