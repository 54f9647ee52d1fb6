# Medicine Reminder: the next-reminder computation

The Medicine Reminder application keeps a daily schedule of reminder times, such as "08:00,12:00,18:00", and a cutoff time.
Its settings window shows how long it is until the next reminder, as "HH:MM".
This project models the parts of `app.py` that hold logic:

- reading each schedule entry with `datetime.strptime(t, "%H:%M")`;
- `time_until_next_reminder`, which adjusts each parsed time for "today or tomorrow" and takes the minimum;
- the remaining-time label of `SettingsWindow.update_next_reminder`: the `datetime` difference, its `.seconds`, two `divmod`s and the `02d` formatting;
- how `save_settings` stores the schedule field (`text.split(",")`), and how `load_settings` shows it again (`",".join(...)`);
- the default settings record written when no settings file exists.

Everything is modelled as pure functions and lemmas, as in the source.
The wall clock is a parameter:

- `now` is a time of day in microseconds since midnight;
- `today` is a day number.

Python's `datetime` and `timedelta` arithmetic is written out on integers of microseconds.
A `timedelta` is normalised with floor division, as CPython does.
`strptime("%H:%M")` follows CPython's pattern for those two directives:

- the hour is `2[0-3]`, `[0-1]` followed by a digit, or a single digit;
- the minute is `[0-5]` followed by a digit, or a single digit;
- the pattern must match at the start of the text, and any text left over raises "unconverted data remains".

So "8:5" is 08:05. The mismatch and unconverted-data errors are told apart.

The model follows what the code computes, also where that differs from what the code evidently intends:

- In the code, the next reminder is the earliest scheduled time of day, whatever the current time is. The "tomorrow" branch (app.py:127-129) moves a time one day on and then drops the date again, so it changes nothing. The application model (`Reminder.TimeUntilNextReminder`, `Reminder.UpdateNextReminder`) keeps this behaviour.
- The "smallest time strictly after now" rule is defined only as the corrected member of the finding below: `Reminder.NextOccurrence` and the `Reminder.Intended...` functions built on it. Nothing else in the model uses it.
- A save followed by a load always shows the saved text again (`SettingsStore.SaveThenLoad`). The other way round does not always hold: loading a record and then saving the text that the field shows writes back an equal record only when the schedule is non-empty and no entry holds a comma (`SettingsStore.LoadThenSave`).

Modules:

- `Wrappers`: `Option` (Python's `None`) and `Result` (a value or a raised exception).
- `Decimal`: digits, `str(n)` and `02d`.
- `Clock`: times of day, `datetime`, `timedelta` and `strptime`.
- `SettingsStore`: the settings record, split, join, save and load.
- `Reminder`: the next-reminder computation and its label.

## Model

| member | source | states |
|---|---|---|
| Clock.TimeOfMinute | app.py:125 | the time parsed as minute `m` of the day is a whole number of minutes, and that number is `m` |
| Clock.MatchPrefix | app.py:125 | a match of the "%H:%M" pattern at the start of the text has hour below 24, minute below 60, and ends within the text |
| Clock.Strptime | app.py:125 | parsing yields a minute of the day or one of two errors: "does not match" on the whole text, or "unconverted data remains" with a non-empty rest |
| Clock.StrptimeExactly | app.py:125 | an entry parses exactly when it is a 1- or 2-digit hour up to 23, a colon, and a 1- or 2-digit minute up to 59; its value is hour*60+minute |
| Clock.StrptimeExamples | app.py:125 | "8:5" gives 485 and "23:59" gives 1439; " 12:00", "" and "24:00" do not match; "12:60" leaves "0" unconverted; "08:00 " leaves " " unconverted |
| Clock.StrptimeDefaults | app.py:94 | the default entries "08:00", "12:00" and "18:00" parse as minutes 480, 720 and 1080 |
| Clock.Combine | app.py:113-114 | `datetime.combine(day, t)` is the instant `t` into that day |
| Clock.Subtract | app.py:113-115 | the difference of two datetimes is a timedelta whose total is the difference of their instants |
| Clock.Delta | app.py:113-115 | normalising a number of microseconds gives a timedelta with seconds below 86400 and microseconds below 10^6 that totals that number |
| Clock.Add | app.py:129 | adding a timedelta to a datetime moves its instant by the timedelta's total |
| Clock.AddDaysKeepsTime | app.py:129 | adding whole days to a datetime leaves `.time()` unchanged |
| Clock.DeltaSeconds | app.py:116 | `.seconds` of a difference is its whole seconds, taken modulo one day |
| Clock.DeltaSecondsWholeDays | app.py:113-116 | adding whole days to a difference leaves its `.seconds` unchanged |
| Decimal.DecimalString | app.py:118 | `str(n)` is one or more digits with no leading zero, and a single digit exactly when n is below 10 |
| Decimal.DecimalStringRoundTrip | app.py:118 | the decimal spelling of `n` reads back as `n` |
| Decimal.Pad2 | app.py:118 | `02d` gives digits that read back as `n`; below 100 it is exactly the tens digit and the units digit |
| SettingsStore.Split | app.py:81 | splitting gives at least one part, one more part than there are commas, and no part holds a comma |
| SettingsStore.Join | app.py:103 | when no part holds a comma, the joined text holds exactly one comma fewer than there are parts |
| SettingsStore.JoinSplit | app.py:81-103 | joining with "," what a split at "," produced gives back the text |
| SettingsStore.SplitJoin | app.py:81-103 | splitting a join gives back the parts, when there is at least one part and no part holds a comma |
| SettingsStore.SplitKeepsSpaces | app.py:81 | "a, b" splits into "a" and " b": the space stays in the second entry |
| SettingsStore.SaveSettings | app.py:79-83 | the saved schedule is the field text cut at every comma: at least one entry, no entry holds a comma, and the entries joined with "," give back the text; the cutoff text is kept |
| SettingsStore.LoadSettings | app.py:91-106 | with no settings file the result is the default record, schedule ["08:00", "12:00", "18:00"] and cutoff "23:59"; otherwise it is the stored record |
| SettingsStore.SaveThenLoad | app.py:81-103 | after a save, the schedule field shows exactly the saved text, and the cutoff is kept |
| SettingsStore.LoadThenSave | app.py:81-103 | saving the field text that a load showed writes back the same record exactly when the schedule is non-empty and no entry holds a comma |
| SettingsStore.DefaultScheduleText | app.py:93-103 | with no settings file the schedule field shows "08:00,12:00,18:00" |
| SettingsStore.DefaultsSurviveSave | app.py:81-96 | saving the field text shown for the defaults writes the defaults again |
| Reminder.ParseSchedule | app.py:125 | parsing succeeds exactly when every entry parses, keeping their order and values; otherwise it raises the first failing entry's error |
| Reminder.Adjusted | app.py:127-129 | for every time, now and today, the today/tomorrow adjustment gives back the time itself |
| Reminder.AdjustAll | app.py:126-131 | the adjusted list has one adjusted element per parsed time, in order, and equals the parsed list |
| Reminder.MinOf | app.py:132 | `min(times, default=None)` is None exactly for an empty list; otherwise it is one of the times and no later than any of them |
| Reminder.MinFrom | app.py:132 | a running minimum ends as the start value or one of the rest, and no later than any of them |
| Reminder.MinOfSameTimes | app.py:132 | lists holding the same times have the same minimum |
| Reminder.TimeUntilNextReminder | app.py:123-133 | the result raises exactly when some entry does not parse, with that entry's error; it is None exactly when the schedule is empty; otherwise it is the earliest parsed time |
| Reminder.NextReminderIgnoresNow | app.py:123-133 | the result is the same at every time and date |
| Reminder.NextReminderIgnoresCutoff | app.py:123-133 | the cutoff time does not affect the result |
| Reminder.NextReminderIgnoresDuplicates | app.py:123-133 | schedules listing the same entries, in any order and with repeats, both raise or both give the same result |
| Reminder.RemainingSeconds | app.py:113-116 | the label's seconds are floor((next-now)/10^6) mod 86400, whatever the two dates: the difference when next is not earlier than now, the difference plus one day when it is earlier, and 0 when they are equal |
| Reminder.Divmod | app.py:116-117 | `divmod(a, b)` for positive `b` gives quotient and remainder with a = q*b + r and 0 <= r < b |
| Reminder.FormatRemaining | app.py:116-118 | the label is the two digits of the whole hours, ':', and the two digits of the left-over whole minutes |
| Reminder.FormatRemainingShows | app.py:116-118 | the label is 5 characters with ':' in the middle, hours below 24 and minutes below 60; its hours and minutes are within one minute below the remaining seconds |
| Reminder.FormatRemainingParses | app.py:118 | reading the label back with "%H:%M" gives the remaining whole minutes |
| Reminder.NextReminderText | app.py:110-120 | with no next reminder the label reads "No reminders scheduled"; otherwise it is 5 characters "HH:MM", never that text, and reads back with "%H:%M" as the whole minutes from now until the next reminder, modulo one day |
| Reminder.UpdateNextReminder | app.py:108-120 | the update raises exactly when an entry does not parse, with that entry's error; the label reads "No reminders scheduled" exactly when the schedule is empty; otherwise it is 5 characters "HH:MM" that read back with "%H:%M" as the whole minutes from now to the earliest scheduled time, modulo one day |
| Reminder.SpaceAfterCommaRaises | app.py:81 | "a, b" is saved as ["a", " b"], and computing the next reminder then raises: a's error, or "does not match" for " b" |
| Reminder.EmptyFieldRaises | app.py:81 | an empty schedule field is saved as [""], and computing the next reminder then raises instead of reporting no reminders |
| Reminder.DefaultTimes | app.py:94 | the default schedule parses as 08:00, 12:00 and 18:00 |
| Reminder.DefaultNextIsEight | app.py:123-133 | with the default schedule the next reminder is 08:00 at every time of day |
| Reminder.AsWrittenAtDefaults | app.py:108-133 | with the default schedule the label always shows the time until 08:00 |
| Reminder.LabelForWholeHours | app.py:113-118 | when the next reminder is a whole number of hours away, the label shows those hours and ":00" |
| Reminder.TenOClockAsWritten | app.py:108-133 | at 10:00 with the default schedule the label shows "22:00" |
| Reminder.SevenPmAsWritten | app.py:108-133 | at 19:00 with the default schedule the label shows "13:00" |
| Reminder.Wait | app.py:126-131 | the wait until a daily time next comes round strictly after now is between 1 microsecond and one day, after it the clock shows that time again, and it is the plain difference exactly when that time is still ahead today |
| Reminder.Later | app.py:127 | the times kept are exactly the scheduled times still ahead of now |
| Reminder.LaterWhenAllPast | app.py:127 | when no time is ahead of now, none is kept |
| Reminder.NextOccurrence | app.py:126-132 | the corrected next reminder is None exactly for an empty schedule; otherwise it is a scheduled time whose wait is the shortest |
| Reminder.AsWrittenAgreesExactly | app.py:126-132 | for a non-empty schedule the code's result equals the corrected one exactly when all times are still ahead of now or all have passed |
| Reminder.IntendedTimeUntilNextReminder | app.py:123-133 | the corrected computation raises exactly when the code's does, with the same error; it gives None exactly for an empty schedule, and otherwise a scheduled time whose next occurrence after now is soonest |
| Reminder.IntendedUpdateNextReminder | app.py:108-133 | the corrected update raises exactly when the code's does, with the same error; the label reads "No reminders scheduled" exactly when the schedule is empty; otherwise it is 5 characters "HH:MM" that read back as the whole minutes from now to the corrected next reminder, modulo one day |
| Reminder.IntendedAtDefaults | app.py:123-133 | with the default schedule the corrected computation picks among 08:00, 12:00 and 18:00 |
| Reminder.IntendedLabelAtDefaults | app.py:108-120 | with the default schedule the corrected label shows the time until the corrected next reminder |
| Reminder.NoonIsNextAtTen | app.py:126-132 | at 10:00 the corrected next reminder of the default schedule is 12:00 |
| Reminder.EightIsNextAtSeven | app.py:126-132 | at 19:00 the corrected next reminder of the default schedule is 08:00 |
| Reminder.TenOClockIntended | app.py:108-133 | at 10:00 with the default schedule the corrected label shows "02:00" |
| Reminder.SevenPmIntended | app.py:108-133 | at 19:00 with the default schedule the corrected label agrees with the code's: "13:00" |

## Left out

- The PyQt window, its widgets and layouts, `QTimer`, and `ReminderWidget`'s show and hide (app.py:22-77). These are UI toolkit behaviour. The cutoff text is kept as the string that `QTimeEdit.text()` returned, and `QTime.fromString` is not modelled.
- Reading and writing `settings.json` and JSON encoding (app.py:84-85, 97-101). `SettingsStore.LoadSettings` takes what the file holds as an `Option`: `None` when it does not exist.
- Settings files holding other JSON types or missing a key. In the model the schedule is always a list of strings and the cutoff a string. A `"schedule"` that is a single JSON string is not modelled; app.py:103 would join its characters, and app.py:125 would parse each character. The `KeyError` and `TypeError` cases are not modelled either.
- The `schedule` library: `schedule.every().day.at(...)`, `schedule.clear()`, `run_pending()` and `schedule_reminders` (app.py:86-87, 140-151). It is a foreign library whose behaviour is not visible.
- The background thread, its `sleep(60)` loop and `print` (app.py:88, 147-168). These are concurrency and console output.
- `datetime.now()` and `datetime.today()` become parameters. The conditional expression reads `datetime.today()` again for each entry that is not ahead of now, and only for those. The model uses one `today` for all of them, because the adjustment does not depend on it.
- `update_next_reminder` reads the clock again after `time_until_next_reminder` has returned. `Reminder.UpdateNextReminder` takes both readings as separate parameters.
- An exception raised inside the Qt slot is modelled as the `Err` result carrying the `ValueError`'s kind. How Qt reports it is not modelled.
- Clock.Add: the day number is an unbounded integer, so moving a time to tomorrow never fails. In Python, `datetime.combine(datetime.today(), t) + timedelta(days=1)` (app.py:129) raises `OverflowError` when today is 9999-12-31 and some entry is not ahead of now. Dates past 9999-12-31 are not modelled, and neither is that error.
- Clock.Strptime: Python's `\d` also matches non-ASCII decimal digits (such as Arabic-Indic digits). The model accepts only '0' to '9', so it rejects some entries that Python would accept.
- setup.py: creating the virtual environment, installing packages and launching the program. This is process I/O.

## Findings

| source | as written | input that shows it | evidently intended | confidence | as-written member | corrected member |
|---|---|---|---|---|---|---|
| app.py:126-132 | every time that has passed today is replaced by `(combine(today, t) + 1 day).time()`, which is `t` again, so the next reminder is the earliest time of the schedule whatever the time now is | schedule "08:00,12:00,18:00" at 10:00: the label shows "22:00", the wait until tomorrow's 08:00 | the earliest time still ahead of now, or tomorrow's earliest when all have passed: "02:00", the wait until 12:00 | high, not executed | Reminder.TenOClockAsWritten | Reminder.NextOccurrence |
