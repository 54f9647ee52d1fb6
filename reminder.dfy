/**
  The "next reminder" computation of the application: `time_until_next_reminder`
  and the remaining-time text that `SettingsWindow.update_next_reminder` puts in
  its label. The current time and date are parameters: `now` is the time of day
  that `datetime.now().time()` returned, and `today` the date ordinal of
  `datetime.today()`.
 */
module Reminder {
  import opened Wrappers
  import opened Decimal
  import opened Clock
  import opened SettingsStore

  const NoRemindersText := "No reminders scheduled"

  /** Entry `i` is the first of `schedule` that does not parse, and it raises `e`. */
  predicate FirstFailure(schedule: seq<string>, i: int, e: ParseError) {
    && 0 <= i < |schedule|
    && Strptime(schedule[i]) == Err(e)
    && forall j :: 0 <= j < i ==> Strptime(schedule[j]).Ok?
  }

  /**
    The list comprehension over the schedule: every entry is parsed with
    "%H:%M", in order, and the first entry that fails raises its `ValueError`.
   */
  function ParseSchedule(schedule: seq<string>): (r: Result<seq<TimeOfDay>, ParseError>)
    ensures r.Ok? <==> forall i :: 0 <= i < |schedule| ==> Strptime(schedule[i]).Ok?
    ensures r.Ok? ==> (|r.value| == |schedule| &&
      forall i :: 0 <= i < |schedule| ==> r.value[i] == TimeOfMinute(Strptime(schedule[i]).value))
    ensures r.Err? ==> exists i :: FirstFailure(schedule, i, r.error)
  {
    if schedule == [] then Ok([])
    else
      match Strptime(schedule[0])
      case Err(e) =>
        assert FirstFailure(schedule, 0, e);
        Err(e)
      case Ok(m) =>
        match ParseSchedule(schedule[1..])
        case Err(e) =>
          ghost var i :| FirstFailure(schedule[1..], i, e);
          assert FirstFailure(schedule, i + 1, e);
          Err(e)
        case Ok(rest) => Ok([TimeOfMinute(m)] + rest)
  }

  /**
    The conditional expression of the second comprehension: a time still ahead
    of `now` is kept, any other is combined with today, moved one day on, and
    reduced to its time of day again. Since `.time()` drops the date that was
    moved on, every time comes back unchanged, whatever `now` and `today` are.
   */
  function Adjusted(t: TimeOfDay, now: TimeOfDay, today: int): (r: TimeOfDay)
    ensures r == t
  {
    AddDaysKeepsTime(Combine(today, t), 1);
    if t > now then t else Add(Combine(today, t), OneDay).time
  }

  /** The second comprehension, element by element: it gives back the parsed list. */
  function AdjustAll(times: seq<TimeOfDay>, now: TimeOfDay, today: int): (r: seq<TimeOfDay>)
    ensures |r| == |times|
    ensures forall i :: 0 <= i < |times| ==> r[i] == Adjusted(times[i], now, today)
    ensures r == times
  {
    if times == [] then [] else [Adjusted(times[0], now, today)] + AdjustAll(times[1..], now, today)
  }

  /**
    Python's `min(times, default=None)`: the first element is the running
    minimum and a later element replaces it when it is smaller.
   */
  function MinOf(times: seq<TimeOfDay>): (r: Option<TimeOfDay>)
    ensures r.None? <==> times == []
    ensures r.Some? ==> r.value in times && forall t :: t in times ==> r.value <= t
  {
    if times == [] then None
    else
      assert forall t :: t in times ==> t == times[0] || t in times[1..];
      Some(MinFrom(times[0], times[1..]))
  }

  function MinFrom(least: TimeOfDay, rest: seq<TimeOfDay>): (r: TimeOfDay)
    ensures r == least || r in rest
    ensures r <= least && forall t :: t in rest ==> r <= t
  {
    if rest == [] then least
    else
      var r := MinFrom(if rest[0] < least then rest[0] else least, rest[1..]);
      assert forall t :: t in rest ==> t == rest[0] || t in rest[1..];
      r
  }

  /**
    `time_until_next_reminder(settings)`, as the code computes it. The next
    reminder is the earliest time of the schedule, whatever the time now is;
    there is none exactly when the schedule is empty, and a schedule entry that
    is not "%H:%M" makes the computation raise that entry's error.
   */
  function TimeUntilNextReminder(settings: Settings, now: TimeOfDay, today: int): (r: Result<Option<TimeOfDay>, ParseError>)
    ensures r.Err? <==> ParseSchedule(settings.schedule).Err?
    ensures r.Err? ==> r.error == ParseSchedule(settings.schedule).error
    ensures r.Ok? ==> (r.value.None? <==> settings.schedule == [])
    ensures r.Ok? && r.value.Some? ==>
      && r.value.value in ParseSchedule(settings.schedule).value
      && forall t :: t in ParseSchedule(settings.schedule).value ==> r.value.value <= t
  {
    match ParseSchedule(settings.schedule)
    case Err(e) => Err(e)
    case Ok(times) => Ok(MinOf(AdjustAll(times, now, today)))
  }

  /** The result of `time_until_next_reminder` does not depend on the time or date it is computed at. */
  lemma NextReminderIgnoresNow(settings: Settings, now1: TimeOfDay, today1: int, now2: TimeOfDay, today2: int)
    ensures TimeUntilNextReminder(settings, now1, today1) == TimeUntilNextReminder(settings, now2, today2)
  {
  }

  /** The cutoff time is never read by the computation. */
  lemma NextReminderIgnoresCutoff(settings: Settings, cutoff: string, now: TimeOfDay, today: int)
    ensures TimeUntilNextReminder(settings, now, today) == TimeUntilNextReminder(settings.(cutoffTime := cutoff), now, today)
  {
  }

  /** Two parsed schedules holding the same times have the same minimum: duplicates and order do not matter. */
  lemma MinOfSameTimes(a: seq<TimeOfDay>, b: seq<TimeOfDay>)
    requires forall t :: t in a <==> t in b
    ensures MinOf(a) == MinOf(b)
  {
    if a != [] {
      assert a[0] in b;
    }
  }

  /**
    Schedules that list the same entries, in any order and any number of times,
    have the same next reminder when they parse.
   */
  lemma NextReminderIgnoresDuplicates(s1: Settings, s2: Settings, now: TimeOfDay, today: int)
    requires forall e :: e in s1.schedule <==> e in s2.schedule
    ensures TimeUntilNextReminder(s1, now, today).Ok? <==> TimeUntilNextReminder(s2, now, today).Ok?
    ensures TimeUntilNextReminder(s1, now, today).Ok? ==>
      TimeUntilNextReminder(s1, now, today) == TimeUntilNextReminder(s2, now, today)
  {
    var p1, p2 := ParseSchedule(s1.schedule), ParseSchedule(s2.schedule);
    if p1.Ok? {
      forall i | 0 <= i < |s2.schedule| ensures Strptime(s2.schedule[i]).Ok? {
        assert s2.schedule[i] in s2.schedule;
        var j :| 0 <= j < |s1.schedule| && s1.schedule[j] == s2.schedule[i];
      }
    }
    if p2.Ok? {
      forall i | 0 <= i < |s1.schedule| ensures Strptime(s1.schedule[i]).Ok? {
        assert s1.schedule[i] in s1.schedule;
        var j :| 0 <= j < |s2.schedule| && s2.schedule[j] == s1.schedule[i];
      }
    }
    if p1.Ok? {
      forall t | t in p1.value ensures t in p2.value {
        var i :| 0 <= i < |p1.value| && p1.value[i] == t;
        assert s1.schedule[i] in s1.schedule;
        var j :| 0 <= j < |s2.schedule| && s2.schedule[j] == s1.schedule[i];
        assert p2.value[j] == t;
      }
      forall t | t in p2.value ensures t in p1.value {
        var i :| 0 <= i < |p2.value| && p2.value[i] == t;
        assert s2.schedule[i] in s2.schedule;
        var j :| 0 <= j < |s1.schedule| && s1.schedule[j] == s2.schedule[i];
        assert p1.value[j] == t;
      }
      MinOfSameTimes(p1.value, p2.value);
    }
  }

  // ---------------------------------------------------------------------------
  // The label of SettingsWindow.update_next_reminder
  // ---------------------------------------------------------------------------

  /**
    `delta.seconds` for `delta = combine(nextDay, next) - combine(nowDay, now)`;
    the two dates come from two reads of `datetime.today()`. These are the
    whole seconds from `now` until the next time the clock shows `next`, later
    today or tomorrow: the difference of the two times, floored to seconds and
    taken modulo one day, whatever the dates.
   */
  function RemainingSeconds(next: TimeOfDay, now: TimeOfDay, nextDay: int, nowDay: int): (r: SecondOfDay)
    ensures r == ((next - now) / MicrosPerSecond) % SecondsPerDay
    ensures r == ((next - now) % MicrosPerDay) / MicrosPerSecond
    ensures now <= next ==> r == (next - now) / MicrosPerSecond
    ensures next < now ==> r == (next - now + MicrosPerDay) / MicrosPerSecond
    ensures next == now ==> r == 0
  {
    var d := next - now;
    DeltaSecondsWholeDays(d, nextDay - nowDay);
    assert Micros(Combine(nextDay, next)) - Micros(Combine(nowDay, now)) == (nextDay - nowDay) * MicrosPerDay + d;
    DeltaSeconds(d);
    assert 0 <= d ==> d % MicrosPerDay == d;
    assert d < 0 ==> d % MicrosPerDay == d + MicrosPerDay;
    Subtract(Combine(nextDay, next), Combine(nowDay, now)).seconds
  }

  /** Python's `divmod(a, b)` for a positive divisor: floor quotient and remainder. */
  function Divmod(a: int, b: int): (r: (int, int))
    requires b > 0
    ensures a == r.0 * b + r.1 && 0 <= r.1 < b
  {
    (a / b, a % b)
  }

  /**
    `hours, remainder = divmod(seconds, 3600)`, `minutes, seconds = divmod(remainder, 60)`
    and `f"{int(hours):02d}:{int(minutes):02d}"`.
   */
  function FormatRemaining(seconds: SecondOfDay): (text: string)
    ensures var hours, minutes := seconds / 3600, seconds % 3600 / 60;
      text == [DigitChar(hours / 10), DigitChar(hours % 10), ':', DigitChar(minutes / 10), DigitChar(minutes % 10)]
  {
    var (hours, remainder) := Divmod(seconds, 3600);
    var (minutes, _) := Divmod(remainder, 60);
    Pad2(hours) + ":" + Pad2(minutes)
  }

  /**
    The label's "HH:MM" holds the whole hours, below 24, and the whole minutes
    left over, below 60, of the remaining seconds.
   */
  lemma FormatRemainingShows(seconds: SecondOfDay)
    ensures var text := FormatRemaining(seconds);
      && |text| == 5 && text[2] == ':' && AllDigits(text[..2]) && AllDigits(text[3..])
      && DecimalValue(text[..2]) < 24 && DecimalValue(text[3..]) < 60
      && var shown := DecimalValue(text[..2]) * 3600 + DecimalValue(text[3..]) * 60;
         shown <= seconds < shown + 60
  {
    var text := FormatRemaining(seconds);
    var hours, minutes := seconds / 3600, seconds % 3600 / 60;
    assert text[..2] == [DigitChar(hours / 10), DigitChar(hours % 10)];
    assert text[3..] == [DigitChar(minutes / 10), DigitChar(minutes % 10)];
    DecimalValueOfTwo(text[0], text[1]);
    DecimalValueOfTwo(text[3], text[4]);
  }

  /** Reading the label back with "%H:%M" gives the remaining whole minutes. */
  lemma FormatRemainingParses(seconds: SecondOfDay)
    ensures Strptime(FormatRemaining(seconds)) == Ok(seconds / 60)
  {
    var text := FormatRemaining(seconds);
    var hours, minutes := seconds / 3600, seconds % 3600 / 60;
    FormatRemainingShows(seconds);
    assert text[..2] == [DigitChar(hours / 10), DigitChar(hours % 10)];
    assert text[3..] == [DigitChar(minutes / 10), DigitChar(minutes % 10)];
    DecimalValueOfTwo(text[0], text[1]);
    DecimalValueOfTwo(text[3], text[4]);
    assert seconds / 60 == hours * 60 + minutes;
    assert ClockTextAt(text, 2);
    StrptimeExactly(text);
  }

  /** The whole minutes from `now` until the clock next shows `next`, later today or tomorrow. */
  function MinutesUntil(next: TimeOfDay, now: TimeOfDay): Minute {
    (((next - now) % MicrosPerDay) / MicrosPerSecond) / 60
  }

  /** The text that `update_next_reminder` shows for the next reminder time `next`. */
  function NextReminderText(next: Option<TimeOfDay>, now: TimeOfDay, nextDay: int, nowDay: int): (text: string)
    ensures next.None? ==> text == NoRemindersText
    ensures next.Some? ==> |text| == 5 && text[2] == ':' && text != NoRemindersText
    ensures next.Some? ==> Strptime(text) == Ok(MinutesUntil(next.value, now))
  {
    match next
    case None => NoRemindersText
    case Some(t) =>
      var seconds := RemainingSeconds(t, now, nextDay, nowDay);
      FormatRemainingParses(seconds);
      FormatRemaining(seconds)
  }

  /**
    `update_next_reminder` with the settings that `load_settings` returned:
    the label's new text, or the error raised by a malformed schedule entry.
    `calcNow` and `calcDay` are what `time_until_next_reminder` read. The label
    shows "No reminders scheduled" exactly when the schedule is empty, and
    otherwise the time from `now` until the earliest scheduled time of day, as
    "HH:MM" in whole minutes.
   */
  function UpdateNextReminder(settings: Settings, calcNow: TimeOfDay, calcDay: int, now: TimeOfDay, nextDay: int, nowDay: int): (r: Result<string, ParseError>)
    ensures r.Err? <==> ParseSchedule(settings.schedule).Err?
    ensures r.Err? ==> r.error == ParseSchedule(settings.schedule).error
    ensures r.Ok? ==> (r.value == NoRemindersText <==> settings.schedule == [])
    ensures r.Ok? && settings.schedule != [] ==> |r.value| == 5 && r.value[2] == ':'
    ensures r.Ok? && settings.schedule != [] ==>
      var earliest := MinOf(ParseSchedule(settings.schedule).value).value;
      Strptime(r.value) == Ok(MinutesUntil(earliest, now))
  {
    match TimeUntilNextReminder(settings, calcNow, calcDay)
    case Err(e) => Err(e)
    case Ok(next) =>
      Ok(NextReminderText(next, now, nextDay, nowDay))
  }

  // ---------------------------------------------------------------------------
  // Schedules as they come out of the schedule field
  // ---------------------------------------------------------------------------

  /**
    A space after a comma stays in the next entry, and no entry that starts
    with a space parses: "08:00, 12:00" is saved as ["08:00", " 12:00"] and
    raises for " 12:00".
   */
  lemma SpaceAfterCommaRaises(first: string, second: string, cutoff: string, now: TimeOfDay, today: int)
    requires ',' !in first && ',' !in second
    ensures var saved := SaveSettings(first + ", " + second, cutoff);
      && saved.schedule == [first, " " + second]
      && TimeUntilNextReminder(saved, now, today) ==
         Err(if Strptime(first).Ok? then DoesNotMatch(" " + second) else Strptime(first).error)
  {
    var text := first + ", " + second;
    SplitKeepsSpaces(text, first, second);
    var schedule := [first, " " + second];
    var p := ParseSchedule(schedule);
    assert Strptime(schedule[1]) == Err(DoesNotMatch(" " + second));
    var i :| FirstFailure(schedule, i, p.error);
  }

  /** An empty schedule field is saved as [""], which fails to parse rather than meaning "no reminders". */
  lemma EmptyFieldRaises(cutoff: string, now: TimeOfDay, today: int)
    ensures var saved := SaveSettings("", cutoff);
      saved.schedule == [""] && TimeUntilNextReminder(saved, now, today) == Err(DoesNotMatch(""))
  {
  }

  // ---------------------------------------------------------------------------
  // The next reminder as evidently intended
  // ---------------------------------------------------------------------------

  /** The wait from `now` until the daily time `t` next comes round strictly after `now`. */
  function Wait(now: TimeOfDay, t: TimeOfDay): (w: int)
    ensures 0 < w <= MicrosPerDay
    ensures (w == t - now) <==> t > now
    ensures (now + w) % MicrosPerDay == t
  {
    if t > now then t - now else t - now + MicrosPerDay
  }

  /** The times of the schedule that are still ahead of `now` today, in order. */
  function Later(now: TimeOfDay, times: seq<TimeOfDay>): (r: seq<TimeOfDay>)
    ensures forall t :: t in r <==> t in times && t > now
  {
    if times == [] then []
    else
      var rest := Later(now, times[1..]);
      assert forall t :: t in times <==> t == times[0] || t in times[1..];
      if times[0] > now then [times[0]] + rest else rest
  }

  lemma {:induction false} LaterWhenAllPast(now: TimeOfDay, times: seq<TimeOfDay>)
    requires forall t :: t in times ==> t <= now
    ensures Later(now, times) == []
  {
    if times != [] {
      assert times[0] in times;
      assert forall t :: t in times[1..] ==> t in times;
      LaterWhenAllPast(now, times[1..]);
    }
  }

  /**
    The corrected `time_until_next_reminder`: the earliest time still ahead of
    `now`, or the earliest time of all (tomorrow's first reminder) when none is.
    It is the time whose next occurrence is soonest.
   */
  function NextOccurrence(now: TimeOfDay, times: seq<TimeOfDay>): (r: Option<TimeOfDay>)
    ensures r.None? <==> times == []
    ensures r.Some? ==> r.value in times && forall t :: t in times ==> Wait(now, r.value) <= Wait(now, t)
  {
    var later := Later(now, times);
    if later != [] then
      var r := MinOf(later);
      assert forall t :: t in times ==> Wait(now, r.value) <= Wait(now, t) by {
        forall t | t in times ensures Wait(now, r.value) <= Wait(now, t) {
          if t > now {
            assert t in later;
          }
        }
      }
      r
    else
      MinOf(times)
  }

  /**
    The code as written agrees with the intended next occurrence exactly when
    the schedule's times are all still ahead of `now` or all already past.
   */
  lemma {:induction false} AsWrittenAgreesExactly(times: seq<TimeOfDay>, now: TimeOfDay, today: int)
    requires times != []
    ensures MinOf(AdjustAll(times, now, today)) == NextOccurrence(now, times) <==>
      ((forall t :: t in times ==> t > now) || (forall t :: t in times ==> t <= now))
  {
    var least := MinOf(times).value;
    var later := Later(now, times);
    if forall t :: t in times ==> t > now {
      assert forall t :: t in later <==> t in times;
      MinOfSameTimes(later, times);
    } else if forall t :: t in times ==> t <= now {
      LaterWhenAllPast(now, times);
    } else {
      var ahead :| ahead in times && ahead > now;
      var past :| past in times && past <= now;
      assert least <= past;
      assert ahead in later;
      assert NextOccurrence(now, times).value > now;
    }
  }

  /**
    `time_until_next_reminder` with the corrected next occurrence: it raises as
    the code does, and otherwise gives the scheduled time whose next occurrence
    after `now` is soonest, or None for an empty schedule.
   */
  function IntendedTimeUntilNextReminder(settings: Settings, now: TimeOfDay): (r: Result<Option<TimeOfDay>, ParseError>)
    ensures r.Ok? <==> ParseSchedule(settings.schedule).Ok?
    ensures r.Err? ==> r.error == ParseSchedule(settings.schedule).error
    ensures r.Ok? ==> (r.value.None? <==> settings.schedule == [])
    ensures r.Ok? && r.value.Some? ==>
      && r.value.value in ParseSchedule(settings.schedule).value
      && forall t :: t in ParseSchedule(settings.schedule).value ==> Wait(now, r.value.value) <= Wait(now, t)
  {
    match ParseSchedule(settings.schedule)
    case Err(e) => Err(e)
    case Ok(times) => Ok(NextOccurrence(now, times))
  }

  /**
    `update_next_reminder` with the corrected next occurrence: the same errors
    and the same "No reminders scheduled", and otherwise the time from `now`
    until the corrected next reminder, as "HH:MM" in whole minutes.
   */
  function IntendedUpdateNextReminder(settings: Settings, now: TimeOfDay, nextDay: int, nowDay: int): (r: Result<string, ParseError>)
    ensures r.Err? <==> ParseSchedule(settings.schedule).Err?
    ensures r.Err? ==> r.error == ParseSchedule(settings.schedule).error
    ensures r.Ok? ==> (r.value == NoRemindersText <==> settings.schedule == [])
    ensures r.Ok? && settings.schedule != [] ==> |r.value| == 5 && r.value[2] == ':'
    ensures r.Ok? && settings.schedule != [] ==>
      var next := NextOccurrence(now, ParseSchedule(settings.schedule).value).value;
      Strptime(r.value) == Ok(MinutesUntil(next, now))
  {
    match IntendedTimeUntilNextReminder(settings, now)
    case Err(e) => Err(e)
    case Ok(next) =>
      Ok(NextReminderText(next, now, nextDay, nowDay))
  }

  // ---------------------------------------------------------------------------
  // The default schedule at 10:00 and at 19:00
  //
  // The lemmas below take the settings, the time and the list of times as
  // parameters pinned to literals by their `requires`, rather than writing the
  // literals in their bodies: the solver then reasons about one name instead
  // of unfolding the literal at every use, which keeps these proofs cheap.
  // ---------------------------------------------------------------------------

  /** The times of day of the default schedule. */
  const DefaultTimesOfDay: seq<TimeOfDay> := [TimeAt(8, 0, 0, 0), TimeAt(12, 0, 0, 0), TimeAt(18, 0, 0, 0)]

  /** The default schedule parses as 08:00, 12:00 and 18:00. */
  lemma DefaultTimes()
    ensures ParseSchedule(DefaultSettings.schedule) == Ok(DefaultTimesOfDay)
  {
    StrptimeDefaults();
    var d := DefaultSettings.schedule;
    var r := ParseSchedule(d);
    assert forall i :: 0 <= i < |d| ==> Strptime(d[i]).Ok?;
    assert r.value[0] == TimeAt(8, 0, 0, 0) && r.value[1] == TimeAt(12, 0, 0, 0) && r.value[2] == TimeAt(18, 0, 0, 0);
    assert r == Ok(r.value) && |r.value| == 3;
    assert r.value == DefaultTimesOfDay;
  }

  /** With the default schedule the code's next reminder is 08:00 at every time of day. */
  lemma DefaultNextIsEight(now: TimeOfDay, day: int)
    ensures TimeUntilNextReminder(DefaultSettings, now, day) == Ok(Some(TimeAt(8, 0, 0, 0)))
  {
    DefaultTimes();
    var m := MinOf(DefaultTimesOfDay);
    assert m.value <= DefaultTimesOfDay[0];
  }

  /** When `next` is a whole number of hours after `now`, the label shows those hours and ":00". */
  lemma LabelForWholeHours(next: TimeOfDay, now: TimeOfDay, day: int, hours: nat)
    requires hours < 24 && (if next < now then next - now + MicrosPerDay else next - now) == hours * 3600 * MicrosPerSecond
    ensures FormatRemaining(RemainingSeconds(next, now, day, day)) == [DigitChar(hours / 10), DigitChar(hours % 10), ':', '0', '0']
  {
    var seconds := RemainingSeconds(next, now, day, day);
    assert seconds == hours * 3600;
    assert seconds / 3600 == hours && seconds % 3600 == 0;
    assert DigitChar(0) == '0';
  }

  /** With the default schedule the code's label shows the time until 08:00. */
  lemma AsWrittenAtDefaults(settings: Settings, now: TimeOfDay, day: int)
    requires settings == DefaultSettings
    ensures UpdateNextReminder(settings, now, day, now, day, day) ==
      Ok(FormatRemaining(RemainingSeconds(TimeAt(8, 0, 0, 0), now, day, day)))
  {
    DefaultNextIsEight(now, day);
  }

  /**
    At 10:00 with the default schedule the code shows "22:00", the time until
    tomorrow's 08:00, although 12:00 is two hours away.
   */
  lemma TenOClockAsWritten(settings: Settings, now: TimeOfDay, day: int)
    requires settings == DefaultSettings && now == TimeAt(10, 0, 0, 0)
    ensures UpdateNextReminder(settings, now, day, now, day, day) == Ok("22:00")
  {
    AsWrittenAtDefaults(settings, now, day);
    LabelForWholeHours(TimeAt(8, 0, 0, 0), now, day, 22);
    assert DigitChar(0) == '0' && DigitChar(2) == '2';
  }

  /** With the default schedule the corrected computation picks among 08:00, 12:00 and 18:00. */
  lemma IntendedAtDefaults(settings: Settings, now: TimeOfDay)
    requires settings == DefaultSettings
    ensures IntendedTimeUntilNextReminder(settings, now) == Ok(NextOccurrence(now, DefaultTimesOfDay))
  {
    DefaultTimes();
  }

  /** With the default schedule the corrected label shows the time until the next occurrence. */
  lemma IntendedLabelAtDefaults(settings: Settings, now: TimeOfDay, day: int, next: TimeOfDay)
    requires settings == DefaultSettings && NextOccurrence(now, DefaultTimesOfDay) == Some(next)
    ensures IntendedUpdateNextReminder(settings, now, day, day) == Ok(FormatRemaining(RemainingSeconds(next, now, day, day)))
  {
    IntendedAtDefaults(settings, now);
  }

  lemma NoonIsNextAtTen(now: TimeOfDay, times: seq<TimeOfDay>)
    requires now == TimeAt(10, 0, 0, 0) && times == DefaultTimesOfDay
    ensures NextOccurrence(now, times) == Some(TimeAt(12, 0, 0, 0))
  {
    var r := NextOccurrence(now, times);
    assert Wait(now, r.value) <= Wait(now, times[1]);
  }

  /** At 10:00 with the default schedule the corrected computation shows "02:00", the time until 12:00. */
  lemma TenOClockIntended(settings: Settings, now: TimeOfDay, day: int)
    requires settings == DefaultSettings && now == TimeAt(10, 0, 0, 0)
    ensures IntendedUpdateNextReminder(settings, now, day, day) == Ok("02:00")
  {
    NoonIsNextAtTen(now, DefaultTimesOfDay);
    IntendedLabelAtDefaults(settings, now, day, TimeAt(12, 0, 0, 0));
    LabelForWholeHours(TimeAt(12, 0, 0, 0), now, day, 2);
    assert DigitChar(0) == '0' && DigitChar(2) == '2';
  }

  lemma EightIsNextAtSeven(now: TimeOfDay, times: seq<TimeOfDay>, day: int)
    requires now == TimeAt(19, 0, 0, 0) && times == DefaultTimesOfDay
    ensures NextOccurrence(now, times) == Some(TimeAt(8, 0, 0, 0))
  {
    AsWrittenAgreesExactly(times, now, day);
    var m := MinOf(times);
    assert m.value <= times[0];
  }

  /** At 19:00 every time has passed, and the code shows "13:00", the time until tomorrow's 08:00. */
  lemma SevenPmAsWritten(settings: Settings, now: TimeOfDay, day: int)
    requires settings == DefaultSettings && now == TimeAt(19, 0, 0, 0)
    ensures UpdateNextReminder(settings, now, day, now, day, day) == Ok("13:00")
  {
    AsWrittenAtDefaults(settings, now, day);
    LabelForWholeHours(TimeAt(8, 0, 0, 0), now, day, 13);
    assert DigitChar(1) == '1' && DigitChar(3) == '3';
  }

  /** At 19:00 the corrected computation agrees with the code and shows "13:00". */
  lemma SevenPmIntended(settings: Settings, now: TimeOfDay, day: int)
    requires settings == DefaultSettings && now == TimeAt(19, 0, 0, 0)
    ensures IntendedUpdateNextReminder(settings, now, day, day) == Ok("13:00")
  {
    EightIsNextAtSeven(now, DefaultTimesOfDay, day);
    IntendedLabelAtDefaults(settings, now, day, TimeAt(8, 0, 0, 0));
    LabelForWholeHours(TimeAt(8, 0, 0, 0), now, day, 13);
    assert DigitChar(1) == '1' && DigitChar(3) == '3';
  }
}
