# Daily WHS tip rotation

A Dafny model of the tip rotation in `post_daily_slack.py`, the script that posts one
workplace health-and-safety tip to a Slack channel each day. The script keeps six fixed
tips and picks one from the calendar date alone: it counts the days from 2020-01-01 to
today and takes that count modulo six. No state file is kept, so the same date always
gives the same tip.

The model has two modules.

- `Calendar` (`calendar.dfy`) is the part of Python's `datetime.date` that the script
  relies on. It covers the proleptic Gregorian calendar for years 1 to 9999:
  `Valid` is the range of dates that Python's `date` constructor accepts, and
  `IsLeapYear` is the Gregorian leap-year rule (every fourth year, except centuries not
  divisible by 400). Each date
  has an ordinal day number, with 0001-01-01 as day 1, computed in closed form from
  the year, a table of month offsets and the day. `DaysBetween(a, b)` is `(a - b).days`.
  The closed form is checked against an independent definition, the calendar step
  `NextDay` and its iteration `AddDays`. Stepping one day adds exactly one to the
  ordinal, stepping `k` days adds `k`, every later date is reached by stepping
  `DaysBetween` days, and ordinal order is chronological order.
- `Rotation` (`rotation.dfy`) holds the six tips (`Messages`), the anchor 2020-01-01
  (`Anchor`) and Python's floor modulo (`FloorMod`). It defines `PickIndex` and
  `PickMessage` from these and proves the properties of the rotation: the index is
  always in range, the anchor day gets the first tip, the day before the anchor gets
  the last tip, and two days get the same tip exactly when they are a multiple of six
  days apart. Each new day moves to the next tip, and the sixth tip wraps to the
  first. The leap day of 2020 is counted.

The script reads today's date from the wall clock. In the model, "today" is a parameter
of `PickIndex` and `PickMessage`. Both are functions, so equal dates give equal tips by
construction.

Dafny's `%` is Euclidean; Python's rounds toward negative infinity. The two agree for
the positive divisor used here, but `FloorMod` writes out Python's definition for every
non-zero divisor. `FloorMod` excludes a zero divisor, where Python raises
ZeroDivisionError. The divisor is the length of the constant six-element tip list, so
that path cannot be reached.

The script has a single rotation: one list of tips, one anchor date and one daily step.
It posts the chosen tip unchanged to one channel.

## Model

| member | source | states |
|---|---|---|
| `Calendar.DaysInMonth` | post_daily_slack.py:23 | Gregorian month lengths: February has 29 days in a leap year and 28 otherwise; April, June, September and November have 30; the other months have 31 |
| `Calendar.Ordinal` | post_daily_slack.py:23 | the day number of a valid date falls inside its own year's range of day numbers and within 1..3652059, the range of Python's `date` |
| `Calendar.DaysBetween` | post_daily_slack.py:23 | the day difference `(a - b).days` is zero exactly when the dates are equal, positive exactly when `b` comes before `a`, and negative exactly when `a` comes before `b` |
| `Calendar.NextDay` | post_daily_slack.py:23 | the next calendar day is a valid date later than the given one; it is missing only after 9999-12-31, where Python overflows |
| `Calendar.DaysBeforeNextYear` | post_daily_slack.py:23 | the closed-form count of days before a year grows by exactly that year's length, 366 in a Gregorian leap year and 365 otherwise |
| `Calendar.OrdinalOrder` | post_daily_slack.py:23 | one ordinal is smaller than another exactly when its date is earlier, and two ordinals are equal exactly when their dates are |
| `Calendar.NextDayOrdinal` | post_daily_slack.py:23 | stepping to the next calendar day, over month and year ends, adds exactly one to the ordinal and to the day difference |
| `Calendar.AddDays` | post_daily_slack.py:23 | stepping `k` days forward one calendar day at a time gives a valid date, later than the start when `k` is positive |
| `Calendar.AddDaysDefined` | post_daily_slack.py:23 | stepping `k` days from a date gives a date exactly when its ordinal plus `k` does not pass that of 9999-12-31 |
| `Calendar.Reached` | post_daily_slack.py:23 | a date on or after `b` is exactly the date reached from `b` by stepping `DaysBetween(a, b)` calendar days, so the day difference counts calendar days in both directions |
| `Calendar.AddDaysOrdinal` | post_daily_slack.py:23 | the date reached by stepping `k` days has an ordinal exactly `k` above the start, so the day difference counts calendar days |
| `Rotation.FloorMod` | post_daily_slack.py:24 | Python's `%`: the remainder lies in `[0, n)` for a positive divisor and in `(n, 0]` for a negative one, and quotient times divisor plus remainder gives back the dividend |
| `Rotation.PickIndex` | post_daily_slack.py:23-24 | the index is a natural number below the number of tips, and it is the floor remainder of the day count from 2020-01-01, even for dates before the anchor |
| `Rotation.PickMessage` | post_daily_slack.py:20-25 | the tip chosen for any valid date is one of the six tips |
| `Rotation.MessagesLength` | post_daily_slack.py:11-18 | the tip list has exactly six entries, so the modulo at line 24 never divides by zero |
| `Rotation.PickIndexIsRemainder` | post_daily_slack.py:24 | for the positive divisor `len(MESSAGES)`, Python's floor `%` gives the same index as the Euclidean remainder, even for negative day counts |
| `Rotation.MessagesDistinct` | post_daily_slack.py:11-18 | the six tips are pairwise different, so a tip identifies its position in the rotation |
| `Rotation.AnchorPicksFirst` | post_daily_slack.py:23-25 | on 2020-01-01 the index is 0 and the first tip ("Report hazards early") is chosen |
| `Rotation.DaysBetweenViaAnchor` | post_daily_slack.py:23 | the day difference between two dates is the difference of their day counts from the anchor |
| `Rotation.SameMessageIff` | post_daily_slack.py:23-24 | two dates get the same tip if and only if the number of days between them is a multiple of six |
| `Rotation.PeriodSix` | post_daily_slack.py:23-24 | dates exactly six days apart get the same tip |
| `Rotation.NextDayAdvances` | post_daily_slack.py:23-24 | from one day to the next the index advances by one modulo six, so index 5 is followed by index 0 |
| `Rotation.AddDaysAdvances` | post_daily_slack.py:23-24 | `k` calendar days later the index has advanced by `k` modulo six |
| `Rotation.DayBeforeAnchorPicksLast` | post_daily_slack.py:23-25 | 2019-12-31 is day -1, which floor modulo maps to index 5, the last tip ("Stop work if it's unsafe"), not to a negative index |
| `Rotation.LeapYearBackToFirst` | post_daily_slack.py:23-25 | 2021-01-01 is 366 days after 2020-01-01 because 2020 is a leap year; 366 is a multiple of six, so the first tip is chosen again |

## Left out

- `post_to_slack` (post_daily_slack.py:27-34) is not modelled. It is network I/O through the Slack client library, and its mapping of Slack errors to `SystemExit` depends on that library.
- The reading of `SLACK_BOT_TOKEN` and `SLACK_CHANNEL_ID` from the environment (post_daily_slack.py:7-8) is not modelled. Nor is the check that they are present (post_daily_slack.py:28-29). Both are process configuration.
- `main` and the script entry point (post_daily_slack.py:36-41) only connect the tip choice to the posting, so they are not modelled.
- `date.today()` (post_daily_slack.py:22) reads the wall clock. It becomes the `today` parameter, which must be a valid date.
- The tip texts are copied as they are, but only their number, order and distinctness play a part in the proofs.
- Python's `datetime` module is not part of this model. Date subtraction is modelled from the Gregorian calendar rules and from the ordinal scheme that `date` documents. Years outside 1..9999 cannot be built, as in Python.
