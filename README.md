# honkbot, modelled in Dafny

honkbot is a Discord bot for a community of rhythm-game players. This
project models the parts of the bot that decide what to say:

- **e-amusement maintenance.** Konami's e-amusement network goes down on a
  fixed schedule. There are two implementations.
  - The legacy client (`honkbot.py`) answers `!eamuse`. On the third Monday
    of the UTC month it reports the US DDR window and the extended window for
    the other games. On other days it reports only the normal window, and
    nothing on Friday and Saturday. Each line says whether the current
    Eastern time falls in the window.
  - The cog (`bots/honkbot.py`) answers `/eamuse`. It shows the daily or
    extended window in 12-hour Eastern time and says whether the Japanese
    servers are down. The extended window applies on the Monday (Eastern)
    before the third Tuesday (Japan).
- **Message dispatch of the legacy client.** This covers the command
  prefixes, in the order they are tried, the `!insult` target, the `!join`
  role check, the honk reply and the command list.
- **Custom roles of the cog.** A case-insensitive lookup returns the
  canonical role name, or an error that lists the allowed roles.
- **Rival codes (`bots/codes.py`).** This covers `!ddrrival` and
  `!iidxrival`: the action parsing, the validation of `create` (name length,
  the `####-####` code, the dan or kyu rank), the `key=value` filters of
  `search` and `update`, and the tab-separated search listing. The store
  behind them is a parameter.
- **StepManiaX jacket lookup (`bots/smxbot.py`).** The song title becomes
  the slug of the jacket URL, and the site's reply is classified by its
  content type.

Time is an integer count of seconds since the Unix epoch, in UTC. The
Eastern offset in force, EST or EDT, is an input (`Calendar.Eastern`)
because the time-zone database is not part of this model. The Gregorian
calendar is computed from day numbers (`Calendar.CivilFromDays` and
`Calendar.DaysFromCivil`). Weekdays count from Monday = 0, as Python's
`weekday()` does.

Modules:

| file | module | models |
|---|---|---|
| wrappers.dfy | Wrappers | `Option` and `Result` |
| calendar.dfy | Calendar | the calendar, `calendar.monthrange`, local days and clocks |
| text.dfy | Text | `str.split`, `str.join`, `lower`, `upper`, `capitalize`, `int` on digits, `zfill`-style padding |
| client.dfy | HonkbotClient | `honkbot.py` |
| cog.dfy | HonkbotCog | `bots/honkbot.py` |
| codes.dfy | RivalCodes | `bots/codes.py` |
| smx.dfy | StepManiaX | `bots/smxbot.py` |

`HonkbotClient.GetEamuseMaintenance` is imperative, like the source. It
fills the maintenance dictionary step by step and appends one message per
branch taken. Its result is proved equal to `HonkbotClient.DdrStatus` and
`HonkbotClient.OtherStatus`. These two are defined directly from the
window hours and the minute of the day (`HonkbotClient.MinuteIn`), not from
the steps of the method. `RivalCodes.ParseFilters`
is the source's filter loop, with its early exits. It is proved equal to
the fold `RivalCodes.Filters`.

## Behaviour taken from the code

Where the code and its documentation differ, or the code does something
easy to miss, the model follows the code.

- **End of a window.** The legacy client builds each bound with
  `replace(hour=h, minute=0)`, which keeps the current seconds and
  microseconds. The comparison `begin <= now <= end` therefore holds through
  the whole minute `hh:00` of the end hour, not only at the instant
  hh:00:00. `HonkbotClient.InWindowByMinute` and
  `HonkbotClient.WindowEndsAfterFirstMinute` state this.
- **The empty rank.** An empty third argument of `create` skips rank
  validation, because `if rank:` is false, and is passed to the store as the
  empty text. `RivalCodes.ValidateCreateEntry` keeps it as `Some("")`, as the
  code does.
- **A trailing newline.** Python's `$` also matches before a final
  newline, so `re.search("^[0-9]{4}-[0-9]{4}$", code)` accepts
  "1234-5678" followed by a newline. `RivalCodes.Anchored` models this, and
  the rank pattern in the same way.
- **`success`.** `get_image` compares `success` with the string "false". A
  JSON `false`, which is not a string, therefore reports a missing song.
- **Spelling.** The IIDX confirmation reads "Created IIDx Rival", as in the
  code.
- **Friday and Saturday.** The docstring of `get_eamuse_maintenance`
  (honkbot.py:121) gives the daily window as Sun-Thurs. The code applies
  this on every day except the third Monday of the UTC month, which gets the
  extended window with no weekday test. On the other days, a Friday or
  Saturday in New York reports no maintenance for the other games.
- **Store failures.** After each "Send help!" reply to a failed store call,
  `ddrrival` and `iidxrival` raise the exception again (`raise e`). The
  `raise e` after the "currently unavailable" reply follows a `return`
  and never runs. `RivalCodes.Reply` records whether the exception is
  raised again.

## Model

| member | source | states |
|---|---|---|
| Calendar.DaysInMonth | honkbot.py:130 | every month of the Gregorian calendar has 28 to 31 days |
| Calendar.DaysFromCivil | bots/honkbot.py:194-201 | no contract of its own: the day number of a date; `Calendar.CivilOfDays` and `Calendar.CivilFromDays` state that it and `CivilFromDays` invert each other |
| Calendar.CivilFromDays | bots/honkbot.py:194-201 | the civil date of a day number is a valid date, and converting it back gives the same day number |
| Calendar.CivilOfDays | bots/honkbot.py:194-201 | converting a valid date to its day number and back gives the same date |
| Calendar.NextDay | bots/honkbot.py:195 | day numbers count consecutive days: the calendar day after a valid date has the next day number, and the next day number converts back to that date |
| Calendar.NextMonth | bots/honkbot.py:195 | the day number after the last day of a month is that of the 1st of the next month, in the next year after December |
| Calendar.FebruaryEnd | bots/honkbot.py:195 | the day after the last of February, 28th or 29th, is 1 March |
| Calendar.MonthRange | honkbot.py:130 | `calendar.monthrange`: the weekday of the 1st, 0 to 6, and the number of days, 28 to 31, which is the last valid day of the month; day d falls on the weekday d - 1 places after the 1st |
| Calendar.MonthWeekdays | honkbot.py:130-131 | day d of a month falls d - 1 weekdays after the 1st of the month |
| Calendar.Weekday | bots/honkbot.py:199-201 | `weekday()` of a day number is between 0 and 6; `Calendar.WeekdayShift` states that k days later it is k places further round the week |
| Calendar.WeekdayShift | bots/honkbot.py:199-201 | k days after a day, the weekday has moved k places round the week |
| Calendar.NthWeekdayIff | bots/honkbot.py:183-202 | a day is the n-th of its weekday in its month exactly when its day of month is between 7(n-1)+1 and 7n |
| Calendar.CivilWeekday | bots/honkbot.py:199 | the weekday of a day number is the weekday of its civil date |
| Calendar.LocalClock | bots/honkbot.py:166-174 | the instant at second s of local day d lies on local day d, at second s of that day |
| Calendar.NextLocalDay | bots/honkbot.py:195 | adding one day to an instant moves it to the next local day, whatever the offset |
| Calendar.LocalDay | bots/honkbot.py:194-196 | no contract of its own: the local date of an instant in a zone at a fixed offset; `Calendar.LocalClock` and `Calendar.NextLocalDay` state what it means |
| Calendar.LocalDate | honkbot.py:127-133 | the civil date of the local day of an instant is a valid date |
| Text.Split | bots/codes.py:80 | `str.split(sep)` gives one piece more than the separator has occurrences; `Text.JoinSplit` and `Text.SplitJoin` tie it to `Text.Join` |
| Text.Join | bots/honkbot.py:156 | no contract of its own: `sep.join(parts)`, as in the role list here and at bots/codes.py:95, honkbot.py:84 and honkbot.py:385; `Text.JoinSplit` and `Text.SplitJoin` state that it undoes `Text.Split` |
| Text.Words | bots/smxbot.py:18 | no contract of its own: `str.split()`; `Text.WordsJoin` and `Text.ConcatWords` state what the words are |
| Text.Lower | bots/honkbot.py:151 | `s.lower()` keeps the length and leaves no upper-case letter; `Text.LowerUpper` and `Text.LowerCapitalize` relate it to the other case maps |
| Text.Upper | bots/codes.py:46-50 | `s.upper()` keeps the length and leaves no lower-case letter |
| Text.Capitalize | bots/smxbot.py:18 | `s.capitalize()` keeps the length, leaves no lower-case first letter and no upper-case letter after it |
| Text.LowerUpper | bots/codes.py:46-50 | upper-casing a text leaves its lower-case form unchanged |
| Text.RemoveChar | bots/smxbot.py:20 | `s.replace(c, "")` is no longer than the text; `Text.RemoveCharFree` states what is removed |
| Text.RemoveCharFree | bots/smxbot.py:20 | after the removal c does not occur, the text is shorter by the number of occurrences of c, and every character left comes from the text |
| Text.Decimal | bots/honkbot.py:173-174 | `str(n)` is a non-empty run of digits that starts with 0 only for n = 0 |
| Text.ParseInt | honkbot.py:141-142 | no contract of its own: `int` on a run of digits, an error otherwise; `Text.ParsePad2` and `HonkbotClient.HourOfClock` state what it reads |
| Text.Pad2 | bots/honkbot.py:173-174 | no contract of its own: the two-digit zero padding of `%H`, `%M` and `%I` for a number below 100; `Text.ParsePad2` and `Text.StripPad2` state what it writes |
| Text.ParsePad2 | honkbot.py:141-142 | `int` of the two-digit text of a number below 100 is that number |
| Text.LStrip | bots/honkbot.py:173-174 | no contract of its own: `lstrip(c)`, here `lstrip('0')` of the `%I` hour; `Text.LStripSuffix` and `Text.StripPad2` state what it leaves |
| Text.LStripSuffix | bots/honkbot.py:173-174 | `s.lstrip(c)` is an end of the text that does not start with c, and everything before it is c |
| Text.JoinSplit | bots/codes.py:80 | joining the pieces of a split with the separator gives the text back |
| Text.SplitJoin | bots/codes.py:95-96 | splitting a join on a separator that no piece holds gives the pieces back; `RivalCodes.SearchTextLines` applies it to the newline-joined listing, `HonkbotCog.ThreeLines` to the reply of bots/honkbot.py:235 |
| Text.WordsJoin | bots/smxbot.py:18 | `str.split()` on words joined by single spaces gives the words back |
| Text.ConcatWords | bots/smxbot.py:18 | running the words of a text together gives the text without its white space |
| Text.StripPad2 | bots/honkbot.py:173-174 | stripping the leading zeros of a two-digit hour from 1 to 99 gives its plain decimal text |
| HonkbotCog.FindRole | bots/honkbot.py:151 | the first role equal to the input ignoring case: a found role is in the list and matches the input ignoring case; nothing is found exactly when no role matches |
| HonkbotCog.GetRoleFromInput | bots/honkbot.py:143-156 | Ok exactly when the input matches a custom role ignoring case; the result is the role's own spelling; otherwise the error lists every allowed role |
| HonkbotCog.CustomRolesCaseDistinct | bots/honkbot.py:14-29 | no two custom roles are equal ignoring case, so the first match is the only one |
| HonkbotCog.RoleLookupCanonical | bots/honkbot.py:151-154 | looking up a role by any casing of its name gives that role |
| HonkbotCog.MaintenanceHours | bots/honkbot.py:33-42 | no contract of its own: the hours of the daily and extended windows in UTC; `HonkbotCog.ScheduleShape` states their shape |
| HonkbotCog.ScheduleShape | bots/honkbot.py:33-42 | each window begins before it ends; both end at the same hour; the extended window begins earlier than the daily one |
| HonkbotCog.Hour12 | bots/honkbot.py:173-174 | the 12-hour clock hour is between 1 and 12 and agrees with the hour modulo 12 |
| HonkbotCog.LocalHourOfHour | bots/honkbot.py:167-174 | hour h of a UTC day, seen k hours away from UTC, is local hour h + k when that stays within the day |
| HonkbotCog.GetDisplayTime | bots/honkbot.py:158-175 | the text is the 12-hour Eastern begin and end hours, each followed by "PM", and then "ET" |
| HonkbotCog.DailySummerDisplay | bots/honkbot.py:158-175 | the daily window shows as "4PM-6PM ET" in EDT |
| HonkbotCog.ExtendedSummerDisplay | bots/honkbot.py:158-175 | the extended window shows as "1PM-6PM ET" in EDT |
| HonkbotCog.DailyWinterDisplay | bots/honkbot.py:158-175 | the daily window shows as "3PM-5PM ET" in EST |
| HonkbotCog.ExtendedWinterDisplay | bots/honkbot.py:158-175 | the extended window shows as "12PM-5PM ET" in EST |
| HonkbotCog.IsExtendedMaintenanceTime | bots/honkbot.py:177-204 | no contract of its own: the test as the code writes it; `HonkbotCog.ExtendedIsMondayBeforeThirdTuesday` and `HonkbotCog.ExtendedIffThirdTuesday` state what it decides |
| HonkbotCog.ThirdTuesdayOfDay | bots/honkbot.py:198-202 | the Japanese day is the third Tuesday exactly when it is a Tuesday with day of month 15 to 21 |
| HonkbotCog.NotMondayNotExtended | bots/honkbot.py:199 | no extended maintenance on a day that is not a Monday in Eastern time |
| HonkbotCog.ExtendedIffThirdTuesday | bots/honkbot.py:194-204 | the extended window applies exactly on an Eastern Monday on which Japan's today or tomorrow is the third Tuesday of its month |
| HonkbotCog.JapanDayAhead | bots/honkbot.py:194-196 | the Japanese date is the Eastern date or the day after it |
| HonkbotCog.ExtendedIsMondayBeforeThirdTuesday | bots/honkbot.py:177-204 | the extended window applies exactly on an Eastern Monday whose next day is the third Tuesday of its month |
| HonkbotCog.ExtendedByDays | bots/honkbot.py:194-202 | the extended test is the same test stated on the Eastern and Japanese day numbers |
| HonkbotCog.MondayBeforeByDays | bots/honkbot.py:180-183 | "Monday before the third Tuesday" is a test on the Eastern day number and the day after it |
| HonkbotCog.JapanDaysCollapse | bots/honkbot.py:198-202 | when the Japanese day is the Eastern day or the one after, testing Japan's today and tomorrow is testing the Eastern day after |
| HonkbotCog.JapanTuesdayExtended | bots/honkbot.py:199-200 | an Eastern Monday on which Japan is on its third Tuesday is extended |
| HonkbotCog.JapanMondayExtended | bots/honkbot.py:189-201 | an Eastern Monday on which Japan is still on Monday, the day before its third Tuesday, is extended |
| HonkbotCog.OtherJapanTuesdayNotExtended | bots/honkbot.py:186-201 | while Japan is on a Tuesday that is not the third of its month, the extended window does not apply |
| HonkbotCog.LinesAreSingle | bots/honkbot.py:215-233 | when the hours shown hold no newline, no line of the reply does |
| HonkbotCog.Eamuse | bots/honkbot.py:206-235 | split into lines, the reply is the extended notice with the extended hours alone when the extended window applies; otherwise three lines: no US maintenance, the Japanese servers down in the daily hours when the server's weekday is Sunday to Thursday (up otherwise), and the website down in the daily hours |
| HonkbotCog.ThreeLines | bots/honkbot.py:235 | three lines free of newlines, joined by newlines, split back into the same three lines |
| HonkbotCog.DisplayTimeOneLine | bots/honkbot.py:175 | the displayed time holds no newline |
| HonkbotClient.HourOf | honkbot.py:141-142 | no contract of its own: `int(t.split(":")[0])`; `HonkbotClient.HourOfClock` states what it reads from an "HH:00" text |
| HonkbotClient.HourOfClock | honkbot.py:141-142 | the hour parsed from an "HH:00" text is the hour it was written from |
| HonkbotClient.ScheduleHours | honkbot.py:49-53 | the hours of the three windows: normal 20-22, extended 17-22, US 12-17 |
| HonkbotClient.FirstMonday | honkbot.py:131 | the first Monday is one of the days 1 to 7, and it lies a whole number of weeks after the weekday of the 1st |
| HonkbotClient.Range | honkbot.py:132 | `range(start, stop, step)`: empty exactly when start >= stop; element k is start + k * step and below stop; the next step after the last reaches stop |
| HonkbotClient.FirstMondayIsMonday | honkbot.py:130-131 | the computed first Monday is a Monday and the first of its weekday in the month |
| HonkbotClient.MondaysHaveThird | honkbot.py:132 | a month of at least 28 days has at least three Mondays, and the third is two weeks after the first |
| HonkbotClient.FirstMondayPlusTwoWeeks | honkbot.py:130-132 | two weeks after the first Monday is the month's third Monday |
| HonkbotClient.ThirdMonday | honkbot.py:130-132 | the computed day is a Monday between the 15th and the 21st of the month |
| HonkbotClient.OneWeekdayPerWeek | honkbot.py:130-133 | two days of one month with the same weekday and the same week number of the month are the same day |
| HonkbotClient.ThirdMondayIff | honkbot.py:130-133 | a day equals the computed third Monday exactly when it is a Monday between the 15th and the 21st |
| HonkbotClient.ReplaceHour | honkbot.py:141-142 | replacing the hour and minute keeps the local day and the seconds and sets the clock to h:00 |
| HonkbotClient.InWindow | honkbot.py:141-143 | no contract of its own: `begin_time <= now <= end_time`; `HonkbotClient.InWindowByMinute` states which minutes it accepts |
| HonkbotClient.InWindowByMinute | honkbot.py:141-143 | the instant lies between the replaced bounds exactly when its minute of the day lies between the begin hour and the first minute of the end hour |
| HonkbotClient.WindowEndsAfterFirstMinute | honkbot.py:141-143 | the window is still active at the first minute of its end hour and inactive one minute later |
| HonkbotClient.ClockText | honkbot.py:161-168 | no contract of its own: `strftime("%H:%M")` on the clock at an offset; `HonkbotClient.ClockOnTheHour` states its text on the hour |
| HonkbotClient.ClockOfUtcHour | honkbot.py:152-168 | today's UTC hour h, shown on the Eastern clock with `%H:%M`, is h plus the offset modulo 24, followed by ":00" |
| HonkbotClient.ClockOnTheHour | honkbot.py:161-168 | within the first minute of local hour hh, the clock text is hh in two digits followed by ":00" |
| HonkbotClient.DdrStatus | honkbot.py:133-150 | no contract of its own: the DDR line, defined from the US window hours and the Eastern minute of the day; `HonkbotClient.GetEamuseMaintenance` is proved to send it |
| HonkbotClient.OtherStatus | honkbot.py:152-193 | no contract of its own: the other-games line, defined from the window hours, the UTC minute and the weekday in New York; `HonkbotClient.GetEamuseMaintenance` is proved to send it |
| HonkbotClient.EamuseLines | honkbot.py:116-193 | no contract of its own: the two lines `!eamuse` sends, the DDR status then the other games' status; `HonkbotClient.GetEamuseMaintenance` is proved to send exactly these |
| HonkbotClient.DdrReport | honkbot.py:141-150 | the DDR line is the down mark when the Eastern minute lies between the window's hours and the up mark otherwise, with the window's texts |
| HonkbotClient.OtherReport | honkbot.py:152-168 | the other-games line is the down mark when the UTC minute lies between the window's hours, with the bounds shown on the Eastern clock |
| HonkbotClient.CompareThirdMonday | honkbot.py:130-133 | the comparison of the UTC day with the computed third Monday agrees with `IsThirdMonday` |
| HonkbotClient.ChooseWindows | honkbot.py:126-139 | the third Monday gets the US window for DDR and the extended window for the rest; any other day gets no DDR window and the normal one |
| HonkbotClient.ReportWindows | honkbot.py:140-193 | for the chosen windows, the messages are the DDR status and the other-games status of the day they were chosen for |
| HonkbotClient.ReportThirdMonday | honkbot.py:140-168 | on the third Monday, the lines are the DDR status and then the other games' status, for that day |
| HonkbotClient.UsReport | honkbot.py:140-150 | on the third Monday, the DDR line is the US window's status |
| HonkbotClient.ExtendedReport | honkbot.py:152-168 | on the third Monday, the other-games line is the extended window's status |
| HonkbotClient.ReportOrdinaryDay | honkbot.py:169-193 | on any other day, the "no maintenance today" DDR line, then the other-games status |
| HonkbotClient.OrdinaryReport | honkbot.py:172-193 | no maintenance on Friday and Saturday (Eastern); otherwise the normal window's mark |
| HonkbotClient.GetEamuseMaintenance | honkbot.py:116-193 | the two messages are the DDR status (the US window 12-17 Eastern on the third Monday of the UTC month, none otherwise) and the other games' status (extended 17-22 UTC on that day; none on a Friday or Saturday in New York; otherwise normal 20-22 UTC) |
| HonkbotClient.CommandOf | honkbot.py:76-103 | no contract of its own: the `if`/`elif` chain of prefixes; `HonkbotClient.CommandOfIff` states which command it picks |
| HonkbotClient.PrefixHead | honkbot.py:76-103 | a prefix matches only if the text's first three characters match the prefix's |
| HonkbotClient.PrefixesExclusive | honkbot.py:76-103 | no text starts with two different command prefixes |
| HonkbotClient.CommandOfIff | honkbot.py:76-103 | the command chosen is c exactly when the text starts with c's prefix; no command exactly when no prefix matches |
| HonkbotClient.InsultTarget | honkbot.py:91-97 | no contract of its own: the second piece of the lowered text; `HonkbotClient.InsultTargetIff` states when it exists and what it is |
| HonkbotClient.InsultTargetIff | honkbot.py:91-97 | a target exists exactly when the text holds a space; it is the lower-cased second space-separated piece and holds no space |
| HonkbotClient.ChannelRole | honkbot.py:383-390 | no contract of its own: the checks of `set_channel_role`; `HonkbotClient.ChannelRoleIff` and `HonkbotClient.ChannelRoleUsage` state what they accept |
| HonkbotClient.ChannelRoleUsage | honkbot.py:384-386 | the usage text is the answer exactly when the text does not split into two pieces on a space |
| HonkbotClient.JoinAllowedNotUsage | honkbot.py:383-390 | the usage text and the allowed-roles text differ |
| HonkbotClient.ChannelRoleIff | honkbot.py:383-398 | a role is accepted exactly when the text is one space-free word, one space and an allowed role |
| HonkbotClient.RolesHaveNoSpace | honkbot.py:383 | no allowed role holds a space |
| HonkbotClient.JoinReply | honkbot.py:383-398 | no contract of its own: the role granted or the refusal text of `HonkbotClient.ChannelRole` |
| HonkbotClient.Handle | honkbot.py:76-103 | no contract of its own: the action of each command; `HonkbotClient.OnMessageAnswers` states when a message gets a reply |
| HonkbotClient.OnMessage | honkbot.py:75-114 | no contract of its own: `on_message`; `HonkbotClient.OnMessageAnswers` and `HonkbotClient.NoSelfHonk` state its properties |
| HonkbotClient.OnMessageAnswers | honkbot.py:75-114 | the bot stays silent exactly when the text does not start with "!" and is not a honk from someone other than the bot |
| HonkbotClient.NoSelfHonk | honkbot.py:105-110 | the bot never honks at its own message |
| RivalCodes.ParseAction | bots/codes.py:30-32 | an action is recognised exactly when it is one of "create", "search", "update" and "delete" |
| RivalCodes.CodeMatchesIff | bots/codes.py:56-57 | `^[0-9]{4}-[0-9]{4}$` accepts exactly four digits, a dash and four digits, optionally followed by one newline |
| RivalCodes.RankBodyIff | bots/codes.py:58-60 | the rank pattern accepts exactly CHUU, KAI, and 1 to 10 followed by DAN or KYU |
| RivalCodes.ValidateCreate | bots/codes.py:40-60 | no contract of its own: the checks of `create` in the code's order; `RivalCodes.ValidateCreateOrder` and `RivalCodes.ValidateCreateEntry` state what it accepts and returns |
| RivalCodes.ValidateCreateOrder | bots/codes.py:43-60 | each error is reported exactly when the earlier checks pass and its own check fails; Ok exactly when every check passes |
| RivalCodes.ValidateCreateEntry | bots/codes.py:45-51 | a valid entry's name is within the game's limit, has no lower-case letter and equals the first argument up to case; its code is the second argument as given, holding the `####-####` body; it has a rank exactly when a third argument is given, and that rank has no lower-case letter and equals the argument up to case |
| RivalCodes.CollectFilters | bots/codes.py:79-85 | no contract of its own: the loop over the arguments as a recursion; `RivalCodes.CollectFiltersOk`, `RivalCodes.CollectFiltersFirstBad` and `RivalCodes.CollectFiltersLastWins` state what it returns |
| RivalCodes.Filters | bots/codes.py:75-85 | no contract of its own: no arguments is an error, otherwise the loop from no filters; `RivalCodes.FiltersLastWins` states what it returns |
| RivalCodes.ParseFilters | bots/codes.py:75-85 | the loop's answer is the fold `Filters` over the arguments |
| RivalCodes.LastValueIsLast | bots/codes.py:85 | a key's value is the value of its last occurrence among the arguments |
| RivalCodes.CollectFiltersOk | bots/codes.py:79-85 | the filters are accepted exactly when every argument is one known key, "=", and a value |
| RivalCodes.CollectFiltersFirstBad | bots/codes.py:79-84 | a refusal reports the error of the first argument that is malformed or names an unknown key |
| RivalCodes.CollectFiltersLastWins | bots/codes.py:85 | over well-formed arguments the fold succeeds, and each key maps to its last value among the arguments, or keeps its earlier value when no argument names it |
| RivalCodes.FiltersLastWins | bots/codes.py:75-85 | accepted filters come from at least one argument, all well formed; a key is present exactly when some argument names it, with the value of the last such argument |
| RivalCodes.RowText | bots/codes.py:95 | no contract of its own: the tab-separated listing line of a row; `RivalCodes.RowTextFields` and `RivalCodes.RowTextOneLine` state its shape |
| RivalCodes.SearchText | bots/codes.py:95-96 | no contract of its own: the rows between two fences; `RivalCodes.SearchTextLines` states its lines |
| RivalCodes.RowTextFields | bots/codes.py:95 | when no field holds a tab, splitting a listing line on tabs gives back its four fields |
| RivalCodes.RowTextOneLine | bots/codes.py:95 | when no field holds a newline, neither does the listing line |
| RivalCodes.SearchTextLines | bots/codes.py:95-96 | for one or more rows free of newlines, the search reply's lines are the opening fence, one line per row and the closing fence |
| RivalCodes.FilterErrorText | bots/codes.py:75-84 | no contract of its own: the reply to each refusal of the filters; `RivalCodes.FiltersRefused` states that it is sent |
| RivalCodes.Failure | bots/codes.py:68-69 | no contract of its own: a failure reported with "Send help!" and raised again; `RivalCodes.FailureAsksForHelp` states that its text ends in "Send help!" |
| RivalCodes.FailureAsksForHelp | bots/codes.py:68-69 | the text of a reported failure ends in "Send help!" |
| RivalCodes.CreateReply | bots/codes.py:40-71 | no contract of its own: the `create` branch; `RivalCodes.CreateOnlyValid` and `RivalCodes.CreateFailure` state its cases |
| RivalCodes.SearchReply | bots/codes.py:73-96 | no contract of its own: the `search` branch; `RivalCodes.FiltersRefused`, `RivalCodes.SearchDone` and `RivalCodes.SearchFailureRaises` state its cases |
| RivalCodes.UpdateReply | bots/codes.py:98-120 | no contract of its own: the `update` branch; `RivalCodes.FiltersRefused`, `RivalCodes.UpdateDone` and `RivalCodes.UpdateFailure` state its cases |
| RivalCodes.DeleteReply | bots/codes.py:122-131 | no contract of its own: the `delete` branch; `RivalCodes.DeleteDone` and `RivalCodes.DeleteFailure` state its cases |
| RivalCodes.RivalReply | bots/codes.py:12-251 | no contract of its own: the text `ddrrival` or `iidxrival` sends and whether it raises the store's exception again; every case is stated by a lemma: `BadActionRefused`, `StoreUnavailable`, `CreateOnlyValid`, `CreateFailure`, `FiltersRefused`, `SearchDone`, `SearchFailureRaises`, `UpdateDone`, `UpdateFailure`, `DeleteDone` and `DeleteFailure`, with `RaisesOnlyAfterHelp` over all of them |
| RivalCodes.BadActionRefused | bots/codes.py:30-32 | an unknown action is refused with the help hint and raises nothing |
| RivalCodes.StoreUnavailable | bots/codes.py:34-38 | a known action with a store that cannot be opened gets the "currently unavailable" reply and raises nothing, since the `raise` follows a `return` |
| RivalCodes.CreateOnlyValid | bots/codes.py:40-71 | an invalid entry is reported and never stored; a stored entry is confirmed with its upper-cased name; neither raises |
| RivalCodes.RaisesOnlyAfterHelp | bots/codes.py:34-131 | an exception is raised again only when the store was opened, the action is known, and the reply ends in "Send help!" |
| RivalCodes.CreateFailure | bots/codes.py:62-71 | a failed create sends the store's message without raising when it says the entry exists; otherwise it reports the name, ends in "Send help!" and raises |
| RivalCodes.FiltersRefused | bots/codes.py:75-84 | refused filters of `search` and `update` are answered with their error text before the store is called, and raise nothing |
| RivalCodes.SearchDone | bots/codes.py:93-96 | a search the store answers replies "No rivals found with that filter!" for no rows and otherwise the fenced listing, and raises nothing |
| RivalCodes.SearchFailureRaises | bots/codes.py:87-91 | a failed search is reported with "Send help!" and raised again |
| RivalCodes.UpdateDone | bots/codes.py:108-120 | an update the store accepts is confirmed with "Entry has been updated!" and raises nothing |
| RivalCodes.UpdateFailure | bots/codes.py:111-119 | a failed update sends the help hint without raising when the entry was never created; otherwise it ends in "Send help!" and raises |
| RivalCodes.DeleteDone | bots/codes.py:122-131 | a delete the store accepts is confirmed with "Entry has been deleted!" and raises nothing |
| RivalCodes.DeleteFailure | bots/codes.py:122-131 | a failed delete sends the help hint without raising when the entry was never created; otherwise it ends in "Send help!" and raises |
| StepManiaX.CapitalizeAll | bots/smxbot.py:18 | `word.capitalize()` for each word: as many results as words, each the capitalised word |
| StepManiaX.Titled | bots/smxbot.py:18 | no contract of its own: the capitalised words run together; `StepManiaX.SlugLetters` and `StepManiaX.SlugFree` state what it keeps |
| StepManiaX.Slug | bots/smxbot.py:18-23 | no contract of its own: the title, with "&" removed and the "Stop!Go" case in capitals; the next lemmas state what it is |
| StepManiaX.JacketUrl | bots/smxbot.py:24 | no contract of its own: the jacket address; `StepManiaX.JacketUrlSlug` states its parts |
| StepManiaX.SlugLetters | bots/smxbot.py:18-23 | ignoring case, the slug is the title without white space and without "&" |
| StepManiaX.SlugFree | bots/smxbot.py:18-23 | the slug holds no "&" and no white space |
| StepManiaX.SlugSpecialCase | bots/smxbot.py:22-23 | only a title that runs together as "Stop!Go" is turned to capitals |
| StepManiaX.StopAndGo | bots/smxbot.py:18-23 | "Stop! & Go" becomes "STOP!GO" |
| StepManiaX.JacketUrlSlug | bots/smxbot.py:24 | the URL is the songs folder, the slug and "/cover.png" |
| StepManiaX.GetImage | bots/smxbot.py:15-37 | no contract of its own: the outcome for the reply's type and body; `StepManiaX.GetImageUrlIff`, `StepManiaX.GetImageUnreachable` and `StepManiaX.GetImageJson` state each case |
| StepManiaX.GetImageUrlIff | bots/smxbot.py:28-29 | the jacket URL is returned exactly for a PNG reply |
| StepManiaX.GetImageUnreachable | bots/smxbot.py:36-37 | the site is reported unreachable exactly when the reply is neither PNG nor JSON |
| StepManiaX.GetImageJson | bots/smxbot.py:31-34 | a JSON reply reports a missing song unless `success` is the string "false" |

## Left out

- The Discord side is left out; a reply is a value and is not sent. This
  covers the client, the cog machinery, slash-command registration, sending
  messages, and adding or removing roles, including the `Forbidden` path of
  `set_channel_role`.
- The HTTP handlers are network I/O whose only logic is picking JSON
  fields. This covers insult, record, image and YouTube in both
  `bots/honkbot.py` and `honkbot.py`, the speedrun pagination and
  `bots/google.py`. In `HonkbotClient.OnMessage` they appear only as a
  `Search` or `Insult` reply. The StepManiaX request itself is replaced by
  its reply, which is an input.
- `models.py` is the database behind the rival codes. It is replaced by
  `RivalCodes.Store`, whose operations answer or raise a message. Its SQL is
  not part of this model. Its `_get_entry` never returns a false value, so
  the "must be created first" answers may never occur; the model keeps them
  as possible answers of the store.
- The time-zone database (pytz) is left out. Which of EST and EDT is in
  force is an input, `Calendar.Eastern`, not computed from the DST rules.
  One such value holds for a whole call. The source converts each bound
  with the offset in force at that bound's own instant (honkbot.py:155-168,
  bots/honkbot.py:173-174). On a day when daylight saving time starts or
  ends, a bound on the other side of the change is shown one hour away
  from the hour the model shows. The comparisons are between instants and
  do not depend on this.
- The clock is left out; the current instant is a parameter.
  - `bots/honkbot.py` calls `astimezone` on the naive result of `utcnow()`,
    which Python reads as the server's local time. The model assumes the
    server runs in UTC.
  - The weekday of the server-local `today()` at bots/honkbot.py:227 is an
    input (`serverWeekday`).
- Sub-second time is not modelled. `replace` keeps microseconds as it keeps
  seconds, so they change no comparison the model makes.
- `Text.Lower`, `Text.Upper` and `Text.Capitalize` map ASCII letters only,
  not the full Unicode case tables.
- `Text.ParseInt` reads only a text of decimal digits. Python's `int` also
  accepts surrounding white space, signs and underscores. The model applies
  it only to the constant hour texts.
- `StepManiaX.GetImage` ends in `ReturnsNone` when a JSON reply's `success`
  is the string "false". What `smxjacket` then sends (`None`) is not
  modelled.
- `lastRecordSearch`, which belongs to the record feature that is left out.
- `bot.py` is an older revision of `honkbot.py`, with a syntax error at
  bot.py:212. Its dispatch and join logic is a subset of the one modelled.
- `bots/remy.py` (HTML scraping), `bots/rules.py` (reaction handlers that
  only call the role API) and `startup.py` (process wiring) hold no logic of
  their own to model.
