# rdate in Dafny

A model of `rdate`, a small Python library of calendar values that stands in
for the standard `datetime` module. The model covers the following:

- **Periods and weekdays.** `Period` (day < week < month < year) and `Weekday`.
  Weekday arithmetic is modelled as the library writes it. The module-wide week
  order, which `set_first_day_of_week` rotates, is a class `WeekOrder` whose
  `order` field the setter rewrites.
- **`Time`.** A time of day with second precision: validated construction,
  parsing of `hh:mm[:ss]`, text form, difference in seconds and order.
- **`Date`.** A date restricted to years 1500 to 2500: validated construction
  and parsing of `YYYY-M-D`, weekday, weekend, leap year, and `move`, `next`,
  `prev`, `envelope`, `diff`, `length`, `range` and the order.
- **`Date.find_day`.** A `method` whose loops step one day at a time, as the
  library does. It is proved equal to a closed-form specification that is
  itself proved sound and complete.
- **`Timezone.offset`.** The EST5EDT offset: 4 hours from the second Sunday of
  March to the first Sunday of November, both included, and 5 hours otherwise.
- **`DateTime`.** A date and a time: construction from a date, a pair, a string
  or another DateTime; `diff` and `to` in seconds; the order; `isostr` and
  `str`.

Python's `calendar` and `datetime` modules appear only through what rdate uses
from them. These are leap years, month lengths, day numbers counted from
0001-01-01, the weekday of a day number, date plus days, and date-time
differences. Module `Calendar` defines them from the Gregorian rules.
Host arithmetic outside years 1 to 9999 raises in Python. In the model it gives
the error `Overflow`.

Modules and files:

- `errors.dfy`: `Errors`. The error kinds and `Result`/`Option`.
- `calendar.dfy`: `Calendar`. Gregorian primitives, the day number and its inverse.
- `text.dfy`: `Text`. ASCII digit runs, zero padding and the regex groups.
- `weekdays.dfy`: `Weekdays`. `Period`, `Weekday`, `set_first_day_of_week`.
- `times.dfy`: `Times`. `Time`.
- `dates.dfy`: `Dates`. `Date` construction, parsing, weekday and order.
- `date_arith.dfy`: `DateArith`. `move`, `next`/`prev`, `envelope`, `diff`, `length`, `range`.
- `day_search.dfy`: `DaySearch`. `find_day`.
- `datetimes.dfy`: `DateTimes`. `Timezone.offset` and `DateTime`.

Where a docstring and the code disagree, the model follows the code:

- The docstrings of `Period.__lt__` and `Weekday.__lt__` say "True if *other*
  is shorter / before self". The code returns True when *self* comes first.
- The week envelope always runs Monday to Sunday. The code moves back by
  `weekday.value`, so the week it uses ignores the configured first day of the
  week.

## Model

| member | source | states |
|---|---|---|
| Calendar.DaysInMonth | rdate/__init__.py:200 | a month has 28 to 31 days; 29 exactly for February of a leap year, 28 exactly for February of a common year |
| Calendar.IsLeap | rdate/__init__.py:247-250 | the Gregorian rule (divisible by 4, not by 100 unless by 400); DateArith.IsLeapDateIff ties it to `isleap` |
| Calendar.ToOrdinal | rdate/__init__.py:299 | `toordinal()`: days before the year, plus days before the month, plus the day; Calendar.FromToOrdinal and Calendar.OrdinalOrder prove it invertible and order-preserving |
| Calendar.DaysBeforeNextYear | rdate/__init__.py:299 | day numbers of consecutive years differ by the length of the earlier year |
| Calendar.DaysBeforeYearMonotone | rdate/__init__.py:299 | a later year starts after the whole of every earlier year |
| Calendar.DaysBeforeMonthBounds | rdate/__init__.py:200 | every month lies inside its year |
| Calendar.OrdinalInYear | rdate/__init__.py:299 | the day number of a date lies within its year's range of day numbers |
| Calendar.MonthSearch | rdate/__init__.py:255-256 | finds the month that contains a given day of the year |
| Calendar.SearchFromYear | rdate/__init__.py:255-256 | a valid date whose day number is the one asked for |
| Calendar.FromOrdinal | rdate/__init__.py:255-256 | the date of a day number: a valid calendar date whose day number is the input |
| Calendar.OrdinalOrder | rdate/__init__.py:299 | the day number is strictly monotone in (year, month, day) order, and equal exactly for equal dates |
| Calendar.FromToOrdinal | rdate/__init__.py:255-256 | reading a date's day number back gives the date |
| Calendar.FromOrdinalOf | rdate/__init__.py:255-256 | any date with day number n is what FromOrdinal(n) gives |
| Calendar.SuccessorOrdinal | rdate/__init__.py:272-274 | the next calendar day is valid and has the next day number |
| Calendar.OrdinalLimits | rdate/__init__.py:255 | 0001-01-01 is day 1 and 9999-12-31 is the host's last day |
| Calendar.OrdinalRange | rdate/__init__.py:255 | every date of years 1 to 9999 has a day number within the host's range |
| Calendar.WeekdayValue | rdate/__init__.py:233 | the weekday number is 0 to 6 |
| Calendar.WeekdayStep | rdate/__init__.py:233 | 0001-01-01 has weekday number 0 (Monday), and the weekday number advances by one, cyclically, from each calendar day to the next |
| Text.Digit | rdate/__init__.py:152 | the digit character whose value is n |
| Text.NumberValueDigits | rdate/__init__.py:101 | the value of one, two or four digit characters, place by place |
| Text.Pad2 | rdate/__init__.py:152 | two digit characters whose value is n (format `02`) |
| Text.Pad4 | rdate/__init__.py:447 | four digit characters whose value is n (format `04`) |
| Text.NumberValueAppend2 | rdate/__init__.py:447 | appending two digits multiplies the value by 100 and adds theirs |
| Text.DigitRun | rdate/__init__.py:117 | a greedy `\d{1,cap}`: the digits taken and why it stopped |
| Text.DigitRunOf | rdate/__init__.py:117 | a maximal run of digits is what DigitRun takes |
| Text.Span | rdate/__init__.py:385 | a greedy character-class run `[...]*`: every character taken is in the class, the next one is not |
| Text.SpanOf | rdate/__init__.py:385 | a maximal run of the class is what Span takes |
| Text.Field | rdate/__init__.py:117 | one regex group and its separator: the group has lo to hi digits and the text splits as group + separator + rest |
| Text.FieldOf | rdate/__init__.py:117 | a digit group followed by its separator is matched as that group |
| Weekdays.PeriodOrder | rdate/__init__.py:22-25 | day < week < month < year; the order is irreflexive, total on distinct periods and transitive |
| Weekdays.Period.Less | rdate/__init__.py:22-25 | `p < q` compares the ranks day 0, week 1, month 2, year 3; Weekdays.PeriodOrder proves it a strict total order |
| Weekdays.At | rdate/__init__.py:31-37 | the weekday with a given number |
| Weekdays.ValueInjective | rdate/__init__.py:31-37 | distinct weekdays have distinct numbers |
| Weekdays.FromValue | rdate/__init__.py:41 | `Weekday(v)` succeeds exactly for 0 to 6, with number v, and raises otherwise |
| Weekdays.Plus | rdate/__init__.py:39-41 | `w + n` succeeds exactly when `w.value + n mod 7` is at most 6, and then equals the cyclic Add |
| Weekdays.Minus | rdate/__init__.py:43-50 | `w - n` succeeds exactly when `w.value + (7 - n) mod 7` is at most 6, and then equals the cyclic Sub |
| Weekdays.Difference | rdate/__init__.py:47-48 | `w - other` lies in -6 to 6, adding it to other gives w, and it is 0 exactly for equal days |
| Weekdays.AddIsCyclic | rdate/__init__.py:39-50 | the corrected cyclic Add and Sub: Add by 0 or 7 is the identity; adds compose; Sub is Add of the negation and undoes Add |
| Weekdays.PlusMinusDoNotWrap | rdate/__init__.py:39-50 | Sunday + 1 and Sunday - 1 raise (values 7 and 12), where the cyclic versions give Monday and Saturday |
| Weekdays.PlusMinusFromMonday | rdate/__init__.py:39-50 | from Monday, `+` and `-` never raise and agree with the cyclic versions |
| Weekdays.PlusExamples | tests/test_date.py:28-30 | Monday + 1, + 7 and + 8 |
| Weekdays.MinusExamples | tests/test_date.py:33-40 | Monday - 1, - 7 and - 8, and the three weekday differences |
| Weekdays.RotationAt | rdate/__init__.py:74 | the i-th day of the week that starts on `first` is `first` moved i days |
| Weekdays.WeekOrder.constructor | rdate/__init__.py:76 | the week starts on Monday at start-up |
| Weekdays.WeekOrder.SetFirstDayOfWeek | rdate/__init__.py:72-74 | after the call the week order is the rotation from w; w is the first day and w + 6 the last |
| Weekdays.WeekOrder.Position | rdate/__init__.py:52-54 | `_order[w]`: the position of w, below 7, at which w stands in the order |
| Weekdays.WeekOrder.Range | rdate/__init__.py:66-69 | `Weekday.range()`: seven days, every weekday among them, the i-th is the first day moved i days, and strictly increasing in `<` |
| Weekdays.WeekOrder.PositionOfIndex | rdate/__init__.py:52-54 | the day at index i has position i |
| Weekdays.WeekOrder.Less | rdate/__init__.py:52-54 | `a < b` compares positions in the current week order; Weekdays.WeekOrder.Range proves the week increasing in it |
| Weekdays.WeekOrder.FirstDayOfWeek | rdate/__init__.py:56-59 | the first day is before every other weekday |
| Weekdays.WeekOrder.LastDayOfWeek | rdate/__init__.py:61-64 | every other weekday is before the last day |
| Weekdays.RotationExamples | tests/test_date.py:42-53 | with Monday first, `<` is the order of the weekday numbers; with Sunday first, Sunday < Monday < Friday |
| Times.MakeTime | rdate/__init__.py:98-109 | succeeds exactly for a valid time; otherwise reports the hour, else the minute, else the second, whichever is first out of range |
| Times.CopyTime | rdate/__init__.py:121-122 | `Time(t)` of a valid time is t |
| Times.MatchTime | rdate/__init__.py:117 | a match yields three groups of one or two digits |
| Times.MatchTimeSound | rdate/__init__.py:117 | a matched text starts with the groups joined by colons |
| Times.MatchTimeOf | rdate/__init__.py:117 | a text of three one- or two-digit groups joined by colons is matched as those groups |
| Times.ParseTime | rdate/__init__.py:111-124 | `Time(s)`: a parsed time is valid; failures are an invalid text or an hour, minute or second out of range; Times.ParseFormat gives the round trip |
| Times.Format | rdate/__init__.py:151-152 | `str(t)` always has 8 characters |
| Times.ParseFormat | rdate/__init__.py:111-124 | parsing `str(t)` gives t back |
| Times.ParseHourMinute | rdate/__init__.py:117 | `hh:mm` reads as hours and minutes with second 0, since `:00` is appended |
| Times.ParseTimeRejects | tests/test_date.py:69-73 | `invalid` and `123:10:00` are rejected as invalid times |
| Times.ParseTimeAccepts | tests/test_date.py:345-346 | `15:33:26` reads as 15:33:26 |
| Times.ParseTimeChecksHour | rdate/__init__.py:117-120 | `33:26` matches but is rejected for hour 33 |
| Times.FromSeconds | rdate/__init__.py:431-432 | a second of the day gives a valid time |
| Times.SecondsOfDayInverse | rdate/__init__.py:420-422 | a valid time lies within the day's 86400 seconds and is recovered from its second |
| Times.FromSecondsInverse | rdate/__init__.py:431-432 | the time at a second of the day has that second |
| Times.Diff | rdate/__init__.py:138-140 | `t.diff(o)` in seconds; Times.DiffProperties states its meaning |
| Times.Less | rdate/__init__.py:145-146 | `t < o` when the difference is positive; Times.LessIsLexicographic characterises it |
| Times.LessEq | rdate/__init__.py:148-149 | `t <= o`: equal or less |
| Times.DiffProperties | rdate/__init__.py:138-140 | `t.diff(o)` is o's second of the day minus t's, antisymmetric, within ±86399, and 0 exactly for equal times |
| Times.LessIsLexicographic | rdate/__init__.py:145-146 | `t < o` (a positive difference) is the lexicographic order of (hour, minute, second) |
| Times.TimeExamples | tests/test_date.py:87-107 | the differences, comparisons and text forms from the library's tests |
| Dates.MakeDate | rdate/__init__.py:190-202 | succeeds exactly for a valid date of years 1500 to 2500; otherwise reports the year, else the month, else the day with the month's last day |
| Dates.CopyDate | rdate/__init__.py:214-215 | `Date(d)` of a valid date is d |
| Dates.DateLimits | rdate/__init__.py:187-202 | the first and last valid dates, the years just outside, 29 February in common and leap years, and month 13 |
| Dates.MatchDate | rdate/__init__.py:210 | a match yields a four-digit group and two groups of one or two digits |
| Dates.MatchDateSound | rdate/__init__.py:210 | a matched text starts with the groups joined by dashes |
| Dates.MatchDateOf | rdate/__init__.py:210 | such groups joined by dashes are matched as those groups |
| Dates.ParseDate | rdate/__init__.py:204-213 | `Date(s)`: a parsed date is valid; failures are an invalid text or a year, month or day out of range; Dates.ParseFormatDate gives the round trip |
| Dates.FormatDate | rdate/__init__.py:335-336 | the corrected `str(d)` has 10 characters |
| Dates.ParsePadded | rdate/__init__.py:204-213 | zero-padded numbers, dash-separated, parse as the date of those numbers, whatever non-digit text follows |
| Dates.ParseFormatDate | rdate/__init__.py:204-213 | parsing the corrected `str(d)` gives d back |
| Dates.FormatDateInjective | rdate/__init__.py:335-336 | distinct dates have distinct corrected texts |
| Dates.DateStrAsWritten | rdate/__init__.py:335-336 | `str(d)` as written: the literal text; Dates.DateStrIsConstant states its effect |
| Dates.DateStrIsConstant | rdate/__init__.py:335-336 | `str(d)` as written is the same text for every date and does not parse as a date |
| Dates.ParseDateRejects | tests/test_date.py:120-121 | `invalid` is rejected as an invalid date |
| Dates.ParseDateShortYear | tests/test_date.py:307-308 | the date part `15-05-17` of a date-time text is rejected as an invalid date |
| Dates.ParseDateTwoDigitYear | tests/test_date.py:123-124 | `10-01-01`, a two-digit year, is rejected as an invalid date |
| Dates.ParseDateUnpadded | tests/test_date.py:133-134 | `2010-1-1`, with unpadded month and day, reads as 2010-01-01 |
| Dates.ParseDateAccepts | tests/test_date.py:275-278 | `2015-05-17` reads as 2015-05-17 |
| Dates.ParseDateIgnoresRest | rdate/__init__.py:210 | `2015-05-17-15` reads as 2015-05-17 |
| Dates.ParseDateChecksDay | rdate/__init__.py:199-202 | `2015-02-29` matches but is rejected for day 29 of 28 |
| Dates.FormatDateExamples | tests/test_date.py:324-326 | the date halves of the texts in the library's tests |
| Dates.Ordinal | rdate/__init__.py:299 | a valid date's day number lies within the host's range |
| Dates.OrdinalInjective | rdate/__init__.py:299 | equal day numbers exactly for equal dates |
| Dates.WeekdayNumber | rdate/__init__.py:231-233 | the weekday number is 0 to 6 |
| Dates.WeekdayOf | rdate/__init__.py:231-233 | `d.weekday` has the weekday number (day number + 6) mod 7 |
| Dates.IsWeekend | rdate/__init__.py:240-245 | `isweekend`: Saturday or Sunday; Dates.IsWeekendValue characterises it by day number |
| Dates.IsWeekendValue | rdate/__init__.py:240-245 | `isweekend` holds exactly for weekday numbers 5 and 6 |
| Dates.LessIsOrdinalOrder | rdate/__init__.py:324-333 | `<` and `<=` on dates are the order of day numbers, and any two dates are comparable |
| Dates.Less | rdate/__init__.py:327-330 | `a < b` lexicographic on (year, month, day); Dates.LessIsOrdinalOrder proves it the order of day numbers |
| Dates.LessEq | rdate/__init__.py:332-333 | `a <= b`: equal or less |
| Dates.DateExamples | tests/test_date.py:253-258 | 2015-06-02 is a Tuesday; 2015-05-17 is before 2015-05-18 and not after it |
| Dates.WeekendExamples | tests/test_date.py:265-269 | 2015-06-05 and 2015-06-08 are not weekend days; 2015-06-06 and 2015-06-07 are |
| DateArith.TruncDiv | rdate/__init__.py:261-263 | Python's `int(a / b)` rounds toward zero: the remainder `a - q·b` lies in 0 to b-1 for a >= 0 and in -(b-1) to 0 for a < 0 |
| DateArith.MoveDays | rdate/__init__.py:254-256 | a successful day move is a valid date exactly n day numbers away |
| DateArith.MoveDaysOk | rdate/__init__.py:254-256 | a day move succeeds exactly when the target lies within 1500-01-01 to 2500-12-31 |
| DateArith.MoveDaysTo | rdate/__init__.py:254-256 | the move reaches any valid date n days away |
| DateArith.MoveDaysRoundTrip | tests/test_date.py:140-149 | moving by n and then by -n returns to the start |
| DateArith.NextIsSuccessor | rdate/__init__.py:272-274 | moving one day gives the calendar successor, validated |
| DateArith.DayLimits | rdate/__init__.py:187-188 | day numbers of 1500-01-01 and 2500-12-31, a Monday and a Friday |
| DateArith.OrdinalBounds | rdate/__init__.py:187-188 | every valid date lies between them |
| DateArith.MoveDaysPastEnd | rdate/__init__.py:254-256 | a move to at most a year past 2500-12-31 raises on year 2501 |
| DateArith.MoveDaysBeforeStart | rdate/__init__.py:254-256 | a move to at most a year before 1500-01-01 raises on year 1499 |
| DateArith.MoveMonthsFormula | rdate/__init__.py:259-268 | the month move lands on month number 12·year + month - 1 + n, with the day clamped to the month's length |
| DateArith.MonthNumber | rdate/__init__.py:260-266 | the truncating year and month arithmetic of the code equals floor division of the month number |
| DateArith.MoveMonths | rdate/__init__.py:259-268 | `move(n, Period.Month)`: a successful result is valid and its day is at most d's day; DateArith.MoveMonthsProperties states the move |
| DateArith.MoveMonthsProperties | rdate/__init__.py:259-268 | succeeds exactly when the target year is valid; moves exactly n months; clamps the day and keeps it when it exists |
| DateArith.MoveMonthsRoundTrip | tests/test_date.py:145 | moving n months and back returns to the start when the day was not clamped |
| DateArith.MoveMonthsClamps | tests/test_date.py:172-176 | the month moves back of the library's tests, one of them clamped to 30 November; and 2015-01-31 plus one month clamped to 28 February |
| DateArith.MoveYears | rdate/__init__.py:269-270 | `move(n, Period.Year)`; DateArith.MoveYearsProperties states when it succeeds and what it gives |
| DateArith.MoveYearsProperties | rdate/__init__.py:269-270 | succeeds exactly for a valid target year, unless 29 February lands in a common year; moves n years and can be undone |
| DateArith.Move | rdate/__init__.py:252-270 | a successful move is valid and moves exactly n of the period; a week move moves 7n days and keeps the weekday |
| DateArith.SameWeekday | rdate/__init__.py:257-258 | dates a whole number of weeks apart share their weekday |
| DateArith.Next | rdate/__init__.py:272-274 | `next(n, p)` is a move by n; DateArith.NextPrevRoundTrip relates it to prev |
| DateArith.Prev | rdate/__init__.py:276-278 | `prev(n, p)` is a move by -n |
| DateArith.WeekRoundTrip | tests/test_date.py:144 | n weeks forward and n weeks back returns to the start |
| DateArith.NextPrevRoundTrip | tests/test_date.py:140-149 | `d.next(n, p).prev(n, p) == d` for every period, months when the day was not clamped |
| DateArith.Both | rdate/__init__.py:289 | the pair of two results fails exactly when one does, with the first failure |
| DateArith.Envelope | rdate/__init__.py:280-294 | a successful envelope holds two valid dates |
| DateArith.WeekStart | rdate/__init__.py:289 | moving back by the weekday number always succeeds and lands on the Monday of d's week |
| DateArith.WeekEnd | rdate/__init__.py:289 | moving ahead to Sunday succeeds exactly when that Sunday is at most 2500-12-31, else raises on year 2501 |
| DateArith.EnvelopeWeek | rdate/__init__.py:288-289 | the week envelope runs from the Monday of d's week to the Sunday of to's week, and fails only past 2500-12-31 |
| DateArith.EnvelopeCovers | rdate/__init__.py:280-294 | the day envelope succeeds exactly when d <= to; month and year envelopes never fail; every envelope contains d and to |
| DateArith.EnvelopeAligned | rdate/__init__.py:290-294 | month and year envelopes never fail; they start on a date of d's month (year) that is on or before every valid date of it, and end on a date of to's month (year) on or after every valid date of it |
| DateArith.DiffDays | rdate/__init__.py:298-299 | `diff(other, Period.Day)`: the difference of day numbers |
| DateArith.DiffMonths | rdate/__init__.py:306-307 | `diff(other, Period.Month)`: the difference of month numbers; DateArith.MoveMonthsProperties shows a move by n has difference n |
| DateArith.DiffYears | rdate/__init__.py:308-309 | `diff(other, Period.Year)`: the difference of years |
| DateArith.DiffWeeks | rdate/__init__.py:300-305 | `diff(other, Period.Week)`; DateArith.DiffWeeksFormula states its meaning |
| DateArith.Diff | rdate/__init__.py:296-309 | `diff(other, period)` by period; DateArith.DiffAntisymmetric states its symmetry |
| DateArith.DiffWeeksFormula | rdate/__init__.py:300-305 | the week difference is the difference of week numbers, defined unless a week ends past 2500 |
| DateArith.DiffWeeksAntisymmetric | rdate/__init__.py:300-305 | swapping the dates negates the week difference |
| DateArith.DiffAntisymmetric | rdate/__init__.py:296-309 | for every period, swapping the dates negates the difference, and a date's difference to itself is 0 |
| DateArith.Length | rdate/__init__.py:311-314 | `length(period)`: days of the envelope of d; DateArith.LengthDay, LengthWeek and LengthMonthYear state its values |
| DateArith.LengthDay | rdate/__init__.py:311-314 | a day lasts one day |
| DateArith.LengthWeek | rdate/__init__.py:311-314 | a week lasts 7 days unless its Sunday is past 2500-12-31 |
| DateArith.LengthMonthYear | rdate/__init__.py:311-314 | a month lasts its number of days, a year 365 or 366 |
| DateArith.IsLeapDate | rdate/__init__.py:247-250 | `isleap`: the year envelope has 366 days |
| DateArith.IsLeapDateIff | rdate/__init__.py:247-250 | `isleap` holds exactly in Gregorian leap years |
| DateArith.Collect | rdate/__init__.py:322 | the collected list has one date per remaining offset |
| DateArith.CollectDays | rdate/__init__.py:322 | element k of the list is valid and lies its offset away from the start |
| DateArith.CollectOk | rdate/__init__.py:322 | the list is built whenever its first and last targets are valid |
| DateArith.RangeOk | rdate/__init__.py:316-322 | `range(n=n)` succeeds exactly when d + n lies within 1500-01-01 to 2500-12-31 |
| DateArith.Range | rdate/__init__.py:316-322 | `range(n=n)`; DateArith.RangeOk and DateArith.RangeShape state when it succeeds and what it holds |
| DateArith.RangeTo | rdate/__init__.py:316-322 | `range(to_date)`; DateArith.RangeToProperties states what it holds |
| DateArith.RangeShape | rdate/__init__.py:316-322 | the range has abs(n)+1 valid dates, from d to d + n, consecutive ones one day apart in the direction of n |
| DateArith.RangeToProperties | rdate/__init__.py:316-322 | `range(to_date)` always succeeds and runs day by day from d to to_date, in either direction |
| DaySearch.TargetDay | rdate/__init__.py:177-182 | the j-th occurrence of a weekday falls in the j-th block of seven days |
| DaySearch.FindDaySpec | rdate/__init__.py:170-185 | what `find_day` returns: a found date is valid and lies in the requested year and month; DaySearch.FindDaySpecSound, FindDaySpecComplete and FindDaySpecMissing characterise it |
| DaySearch.PositionOrdinal | rdate/__init__.py:177-182 | the day at position pos from the first of the month is valid and pos - 1 days after it |
| DaySearch.StepPosition | rdate/__init__.py:179 | `next()` from a position reaches the next one, or raises on year 2501 after 2500-12-31 |
| DaySearch.WeekdayAtPosition | rdate/__init__.py:178 | within the j-th block, only the target position has the wanted weekday |
| DaySearch.FindDaySpecSound | rdate/__init__.py:170-185 | a found day lies in the month, has the weekday, and is in the n-th block of seven days |
| DaySearch.FindDaySpecComplete | rdate/__init__.py:170-185 | the n-th occurrence, when it exists, is found |
| DaySearch.FindDaySpecMissing | rdate/__init__.py:174-185 | when the month has no n-th occurrence, the search fails with "cannot find day", or on year 2501 in December 2500 |
| DaySearch.NextDay | rdate/__init__.py:179 | one `next()` of the search, as StepPosition states |
| DaySearch.SkipToWeekday | rdate/__init__.py:178-179 | the inner loop stops at the next occurrence of the weekday, or fails past 2500-12-31 |
| DaySearch.FindDay | rdate/__init__.py:170-185 | the stepping loops return exactly what the specification of find_day gives |
| DaySearch.FindDayExamples | tests/test_date.py:281-290 | the results of the library's find_day tests, and the 2015 daylight-saving bounds |
| DateTimes.FromDate | rdate/__init__.py:378-380 | `DateTime(d)` is on d and comes no later than any time of that day |
| DateTimes.CopyDateTime | rdate/__init__.py:394-396 | `DateTime(dt)` of a valid date-time is dt |
| DateTimes.ParseDateTime | rdate/__init__.py:383-389 | a parsed date-time is valid, and every failure is "invalid date/time" for the whole text |
| DateTimes.ParseParts | rdate/__init__.py:385-387 | a date group, a separator and a time group are read as Date of the first and Time of the second |
| DateTimes.ParseFormatted | rdate/__init__.py:385-387 | the date and time text of dt, with any of the separators and a tail, reads as dt |
| DateTimes.ToString | rdate/__init__.py:449-450 | `str(dt)` has 23 characters and reads back as dt |
| DateTimes.IsoStr | rdate/__init__.py:445-447 | `isostr()` has 32 characters and reads back as dt |
| DateTimes.ParseCommaExample | tests/test_date.py:315-317 | `2015-05-17,15:33:26` reads as that date and time |
| DateTimes.ParseDashExample | tests/test_date.py:304-305 | `2015-05-17-15:33:26` is rejected |
| DateTimes.ParseShortYearExample | tests/test_date.py:307-308 | `15-05-17 15:33:26` is rejected |
| DateTimes.DstBounds | rdate/__init__.py:361-362 | in every valid year the second Sunday of March and the first Sunday of November exist, in their weeks |
| DateTimes.Offset | rdate/__init__.py:357-363 | the offset is 4 or 5 hours |
| DateTimes.OffsetByMonth | rdate/__init__.py:357-363 | the offset is 4 exactly from April to October, in March from the second Sunday and in November up to the first Sunday |
| DateTimes.OffsetMarchExamples | tests/test_date.py:325-326 | 5 on 2015-03-05, 4 from 2015-03-08 and on 2015-03-15 |
| DateTimes.OffsetNovemberExamples | rdate/__init__.py:362-363 | 4 through 2015-11-01, 5 from 2015-11-02 |
| DateTimes.ToStringExample | tests/test_date.py:324 | `2015-03-05 14:22:00 EST` |
| DateTimes.IsoStrWinterExample | tests/test_date.py:325 | `2015-03-05T14:22:00.000000-05:00` |
| DateTimes.IsoStrSummerExample | tests/test_date.py:326 | `2015-03-15T14:22:00.000000-04:00` |
| DateTimes.SecondsInjective | rdate/__init__.py:420-422 | the seconds since 0001-01-01 identify a date-time |
| DateTimes.Seconds | rdate/__init__.py:420-422 | seconds from 0001-01-01 00:00:00, the host's datetime difference; DateTimes.SecondsInjective and SecondsBounds state its properties |
| DateTimes.Diff | rdate/__init__.py:417-422 | `dt.diff(o)` is o's second count minus dt's |
| DateTimes.AtSecond | rdate/__init__.py:430-432 | a successful result is valid and at that second; failures are overflow or an invalid year |
| DateTimes.AtSecondOf | rdate/__init__.py:430-432 | every valid date-time is found at its own second |
| DateTimes.To | rdate/__init__.py:428-432 | `dt.to(s)` is valid and s seconds after dt, or fails with overflow or an invalid year |
| DateTimes.ToDiff | rdate/__init__.py:417-432 | moving by the difference reaches the other date-time |
| DateTimes.DiffTo | rdate/__init__.py:417-432 | the difference to a moved date-time is the move |
| DateTimes.SecondsBounds | rdate/__init__.py:187-188 | every valid date-time lies between 1500-01-01 00:00:00 and 2500-12-31 23:59:59 |
| DateTimes.ToOk | rdate/__init__.py:428-432 | `to` succeeds exactly when the target lies within those bounds |
| DateTimes.LessIsDiffOrder | rdate/__init__.py:434-443 | `<` holds exactly for a positive difference and `<=` for a non-negative one; any two date-times are comparable |
| DateTimes.Less | rdate/__init__.py:438-440 | `dt < o`: by date, then by time; DateTimes.LessIsDiffOrder proves it the sign of diff |
| DateTimes.LessEq | rdate/__init__.py:442-443 | `dt <= o`: equal or less |
| DateTimes.ToExample | tests/test_date.py:335 | 36001 seconds after 2015-05-17 15:33:26 is 2015-05-18 01:33:27 |
| DateTimes.ToBackExample | tests/test_date.py:336 | 36001 seconds before is 2015-05-17 05:33:25 |
| DateTimes.DiffExample | tests/test_date.py:328-329 | the same time on consecutive days is 86400 seconds apart |
| DateTimes.LessExample | tests/test_date.py:344-351 | one second later is later and not equal |

## Left out

- `Time.now`, `Date.today`, `Date.istoday`, `DateTime.now` and `DateTime.since` read the clock, so they are not modelled.
- `timestamp` and `DateTime(int)` depend on the host's clock and time zone database, so they are not modelled.
- `__repr__` and `__hash__` only format text and hash it.
- `\d` in the patterns matches only ASCII digits in the model. Python also accepts other Unicode decimal digits.
- Constructor arguments that are neither int, str nor the class itself (`Time(2.0)`, `Date(1.0)`, `DateTime(1.0)`) are not modelled. Neither are the `int(...)` conversions of such values.
- Time zones: only EST5EDT exists. A DateTime carries no zone field, so the asserts that two zones are equal always hold and are omitted.
- `DateTime((d, t))` stores the pair unchecked. The model's `DateTimes.DateTime(d, t)` does the same, and operations require validity.
- Python's `OverflowError` from `datetime` arithmetic outside years 1 to 9999 is the error `Overflow`.
- Only the `timedelta` arguments that are whole numbers of days or seconds are modelled: `move` and `to` take ints.
- DateTimes.FromDate: does not state that the result's time is 00:00:00 through its seconds, only that it is the earliest time of the day.
- Weekdays.WeekOrder.Position: defined only for a valid order, which every operation on WeekOrder keeps.
- DateArith.MoveMonthsRoundTrip: proved only when the first move did not clamp the day. With clamping, the library does not return to the start either.
- DateArith.MoveDaysPastEnd: states the error only for targets up to a year past 2500-12-31. Further out, the error is the year of the host's result, and beyond 9999 it is `Overflow`.
- DateArith.MoveDaysBeforeStart: states the error only for targets up to a year before 1500-01-01. Further out, the error is likewise the year of the host's result or `Overflow`.
- Default arguments are explicit in every signature: `move(n=0, Period.Day)`, `next`/`prev(n=1, Period.Day)`, `envelope(Period.Week, to_date=self)`, `length(Period.Month)`, `find_day(n=1)`, and the default minute, second, month and day of `Time(...)` and `Date(...)`. A caller states each one.
- `Date.range()` with neither `to_date` nor `n` raises TypeError on `None >= 0`; it is not modelled, and Range and RangeTo each take their argument.
- `setup.py` is packaging only.

## Findings

| source | as written | input that shows it | evidently intended | confidence | as-written member | corrected member |
|---|---|---|---|---|---|---|
| rdate/__init__.py:335-336 | `str(d)` returns the literal text `f{self.year:04}-{self.month:02}-{self.day:02}`: the `f` prefix sits inside the quotes | `str(Date(2015, 6, 2))` | `2015-06-02`, the zero-padded date that `Date(str)` reads back | high (not executed) | Dates.DateStrIsConstant | Dates.ParseFormatDate |
| rdate/__init__.py:39-50 | `w + n` builds `Weekday(w.value + n % 7)` and `w - n` builds `Weekday(w.value + (7 - n) % 7)`, neither reduced mod 7 | `Weekday.Sunday + 1` (value 7) and `Weekday.Sunday - 1` (value 12) raise ValueError | Monday and Saturday: the weekday n days after or before | high (not executed) | Weekdays.PlusMinusDoNotWrap | Weekdays.AddIsCyclic |
