/**
  The parts of Python's `datetime` that the reminder computation uses: naive
  times of day with microsecond resolution, datetimes made of a day ordinal and
  a time, normalised `timedelta` values, and `datetime.strptime(s, "%H:%M")`.
 */
module Clock {
  import opened Wrappers
  import opened Decimal

  const MinutesPerDay := 1440
  const SecondsPerDay := 86400
  const MicrosPerSecond := 1_000_000
  const MicrosPerMinute := 60_000_000
  const MicrosPerDay := 86_400_000_000

  /** A `datetime.time` without time zone: microseconds since midnight. */
  type TimeOfDay = t: int | 0 <= t < MicrosPerDay

  /** A time that "%H:%M" can produce: whole minutes since midnight. */
  type Minute = m: int | 0 <= m < MinutesPerDay

  type SecondOfDay = s: int | 0 <= s < SecondsPerDay

  type MicroOfSecond = u: int | 0 <= u < MicrosPerSecond

  /** `time(h, m, s, us)`: the time of day with these fields. */
  function TimeAt(hour: nat, minute: nat, second: nat, micro: nat): (t: TimeOfDay)
    requires hour < 24 && minute < 60 && second < 60 && micro < MicrosPerSecond
    ensures t / MicrosPerSecond == (hour * 60 + minute) * 60 + second
    ensures t % MicrosPerSecond == micro
  {
    ((hour * 60 + minute) * 60 + second) * MicrosPerSecond + micro
  }

  /** The time of day of the entry "HH:MM" whose value is `m` minutes. */
  function TimeOfMinute(m: Minute): (t: TimeOfDay)
    ensures t % MicrosPerMinute == 0 && t / MicrosPerMinute == m
  {
    m * MicrosPerMinute
  }

  /** A naive `datetime`: the ordinal of its date and its time of day. */
  datatype DateTime = DateTime(day: int, time: TimeOfDay)

  /** Microseconds since midnight of day 0. */
  function Micros(dt: DateTime): int {
    dt.day * MicrosPerDay + dt.time
  }

  /** The datetime that lies `x` microseconds after midnight of day 0. */
  function FromMicros(x: int): (dt: DateTime)
    ensures Micros(dt) == x
  {
    DateTime(x / MicrosPerDay, x % MicrosPerDay)
  }

  /** `datetime.combine(day, t)` */
  function Combine(day: int, t: TimeOfDay): (dt: DateTime)
    ensures dt.time == t && Micros(dt) == day * MicrosPerDay + t
  {
    DateTime(day, t)
  }

  /** A `timedelta` in CPython's normal form: seconds and microseconds never negative. */
  datatype TimeDelta = TimeDelta(days: int, seconds: SecondOfDay, microseconds: MicroOfSecond)

  function TotalMicros(d: TimeDelta): int {
    (d.days * SecondsPerDay + d.seconds) * MicrosPerSecond + d.microseconds
  }

  /**
    `timedelta(microseconds=x)`: two floor `divmod`s carry the microseconds into
    seconds and the seconds into days.
   */
  function Delta(x: int): (d: TimeDelta)
    ensures TotalMicros(d) == x
  {
    var seconds, micros := x / MicrosPerSecond, x % MicrosPerSecond;
    TimeDelta(seconds / SecondsPerDay, seconds % SecondsPerDay, micros)
  }

  const OneDay: TimeDelta := TimeDelta(1, 0, 0)

  /** `a - b` on datetimes. */
  function Subtract(a: DateTime, b: DateTime): (d: TimeDelta)
    ensures TotalMicros(d) == Micros(a) - Micros(b)
  {
    Delta(Micros(a) - Micros(b))
  }

  /** `dt + d`: the date rolls over when the time passes midnight. */
  function Add(dt: DateTime, d: TimeDelta): (r: DateTime)
    ensures Micros(r) == Micros(dt) + TotalMicros(d)
  {
    FromMicros(Micros(dt) + TotalMicros(d))
  }

  /** Adding whole days to a datetime keeps its time of day. */
  lemma AddDaysKeepsTime(dt: DateTime, days: int)
    ensures Add(dt, TimeDelta(days, 0, 0)).time == dt.time
  {
    var x := Micros(dt) + days * MicrosPerDay;
    assert x == (dt.day + days) * MicrosPerDay + dt.time;
  }

  /** The `seconds` field of the normalised difference depends on the difference modulo one day. */
  lemma DeltaSeconds(x: int)
    ensures Delta(x).seconds == (x % MicrosPerDay) / MicrosPerSecond
  {
    var q, r := x / MicrosPerDay, x % MicrosPerDay;
    assert x == q * MicrosPerDay + r;
    var s := r / MicrosPerSecond;
    assert x == (q * SecondsPerDay + s) * MicrosPerSecond + r % MicrosPerSecond;
    assert x / MicrosPerSecond == q * SecondsPerDay + s;
  }

  /** Whole days added to a difference leave the `seconds` field of its normal form unchanged. */
  lemma DeltaSecondsWholeDays(x: int, days: int)
    ensures Delta(days * MicrosPerDay + x).seconds == Delta(x).seconds
  {
    var y := days * MicrosPerDay + x;
    assert y / MicrosPerSecond == days * SecondsPerDay + x / MicrosPerSecond;
  }

  // ---------------------------------------------------------------------------
  // datetime.strptime(s, "%H:%M")
  // ---------------------------------------------------------------------------

  /** The `ValueError`s that `strptime` raises. */
  datatype ParseError =
    | DoesNotMatch(data: string)          // "time data %r does not match format %r"
    | UnconvertedDataRemains(rest: string) // "unconverted data remains: %s"

  /** Where a match of the format's regular expression at the start of a string ends. */
  datatype Match = Match(hour: nat, minute: nat, end: nat)

  /** The two-character alternatives `2[0-3]` and `[0-1]\d` of the hour group. */
  predicate TwoDigitHour(a: char, b: char) {
    (a == '2' && '0' <= b <= '3') || ((a == '0' || a == '1') && IsDigit(b))
  }

  /** The minute group `[0-5]\d|\d` at index `i`, alternatives tried in order. */
  function MatchMinute(s: string, i: nat, hour: nat): (r: Option<Match>)
    requires i <= |s|
    ensures r.Some? ==> r.value.hour == hour && r.value.minute < 60 && i < r.value.end <= i + 2 && r.value.end <= |s|
    ensures r.None? <==> i == |s| || !IsDigit(s[i])
  {
    if i + 2 <= |s| && '0' <= s[i] <= '5' && IsDigit(s[i + 1]) then
      Some(Match(hour, 10 * DigitValue(s[i]) + DigitValue(s[i + 1]), i + 2))
    else if i + 1 <= |s| && IsDigit(s[i]) then
      Some(Match(hour, DigitValue(s[i]), i + 1))
    else
      None
  }

  /**
    `re.match` of `(2[0-3]|[0-1]\d|\d):([0-5]\d|\d)` against `s`. The two-digit
    hour alternatives need a digit where the one-digit one needs the ':', so
    backtracking never finds a second match.
   */
  function MatchPrefix(s: string): (r: Option<Match>)
    ensures r.Some? ==> r.value.hour < 24 && r.value.minute < 60 && r.value.end <= |s|
  {
    if 3 <= |s| && TwoDigitHour(s[0], s[1]) && s[2] == ':' then
      MatchMinute(s, 3, 10 * DigitValue(s[0]) + DigitValue(s[1]))
    else if 2 <= |s| && IsDigit(s[0]) && s[1] == ':' then
      MatchMinute(s, 2, DigitValue(s[0]))
    else
      None
  }

  /** `datetime.strptime(s, "%H:%M").time()`, in minutes since midnight. */
  function Strptime(s: string): (r: Result<Minute, ParseError>)
    ensures r.Err? ==> r.error == DoesNotMatch(s) || (r.error.UnconvertedDataRemains? && r.error.rest != [])
  {
    match MatchPrefix(s)
    case None => Err(DoesNotMatch(s))
    case Some(m) =>
      if m.end < |s| then Err(UnconvertedDataRemains(s[m.end..])) else Ok(m.hour * 60 + m.minute)
  }

  /**
    `s` is an hour of one or two ASCII digits worth at most 23, a ':' at index
    `p`, and a minute of one or two ASCII digits worth at most 59.
   */
  predicate ClockTextAt(s: string, p: nat) {
    && (p == 1 || p == 2)
    && p + 2 <= |s| <= p + 3
    && s[p] == ':'
    && AllDigits(s[..p]) && AllDigits(s[p + 1..])
    && DecimalValue(s[..p]) <= 23 && DecimalValue(s[p + 1..]) <= 59
  }

  predicate IsClockText(s: string) {
    ClockTextAt(s, 1) || ClockTextAt(s, 2)
  }

  /** Minutes since midnight written by a clock text whose ':' is at `p`. */
  function ClockTextValue(s: string, p: nat): int
    requires ClockTextAt(s, p)
  {
    DecimalValue(s[..p]) * 60 + DecimalValue(s[p + 1..])
  }

  lemma DigitsOfOne(s: string, i: nat)
    requires i + 1 == |s| && IsDigit(s[i])
    ensures AllDigits(s[i..]) && DecimalValue(s[i..]) == DigitValue(s[i])
  {
    assert s[i..] == [s[i]];
    DecimalValueOfOne(s[i]);
  }

  lemma DigitsOfTwo(s: string, i: nat)
    requires i + 2 == |s| && IsDigit(s[i]) && IsDigit(s[i + 1])
    ensures AllDigits(s[i..]) && DecimalValue(s[i..]) == 10 * DigitValue(s[i]) + DigitValue(s[i + 1])
  {
    assert s[i..] == [s[i], s[i + 1]];
    DecimalValueOfTwo(s[i], s[i + 1]);
  }

  /** The minute part after a ':' at `p` parses exactly when it is a clock minute. */
  lemma MinutePartExactly(s: string, p: nat, hour: nat)
    requires p + 1 <= |s|
    ensures var r := MatchMinute(s, p + 1, hour);
      (r.Some? && r.value.end == |s|) <==>
      (p + 2 <= |s| <= p + 3 && AllDigits(s[p + 1..]) && DecimalValue(s[p + 1..]) <= 59)
    ensures var r := MatchMinute(s, p + 1, hour);
      r.Some? && r.value.end == |s| ==> r.value.minute == DecimalValue(s[p + 1..])
  {
    var i := p + 1;
    if |s| == i + 1 && IsDigit(s[i]) {
      DigitsOfOne(s, i);
    } else if |s| == i + 2 && IsDigit(s[i]) && IsDigit(s[i + 1]) {
      DigitsOfTwo(s, i);
    } else if |s| == i + 2 && IsDigit(s[i]) {
      assert !IsDigit(s[i..][1]);
    } else if |s| == i + 1 {
      assert !IsDigit(s[i..][0]);
    }
  }

  /**
    `strptime(s, "%H:%M")` succeeds exactly on clock texts, and then yields the
    hour times 60 plus the minute; every other string raises a `ValueError`.
   */
  lemma {:induction false} StrptimeExactly(s: string)
    ensures Strptime(s).Ok? <==> IsClockText(s)
    ensures forall p :: ClockTextAt(s, p) ==> Strptime(s) == Ok(ClockTextValue(s, p))
  {
    if 3 <= |s| && TwoDigitHour(s[0], s[1]) && s[2] == ':' {
      DigitsOfTwo(s[..2], 0);
      assert s[..2][0..] == s[..2];
      MinutePartExactly(s, 2, 10 * DigitValue(s[0]) + DigitValue(s[1]));
      assert !ClockTextAt(s, 1);
    } else if 2 <= |s| && IsDigit(s[0]) && s[1] == ':' {
      DigitsOfOne(s[..1], 0);
      assert s[..1][0..] == s[..1];
      MinutePartExactly(s, 1, DigitValue(s[0]));
      assert !ClockTextAt(s, 2);
    } else {
      TwoDigitClockHour(s);
    }
  }

  /** A clock text with a two-digit hour starts with one of the two-character hour alternatives. */
  lemma TwoDigitClockHour(s: string)
    ensures ClockTextAt(s, 2) ==> 3 <= |s| && TwoDigitHour(s[0], s[1]) && s[2] == ':'
  {
    if 3 <= |s| && IsDigit(s[0]) && IsDigit(s[1]) {
      DigitsOfTwo(s[..2], 0);
      assert s[..2][0..] == s[..2];
    }
  }

  /** The entries of the default schedule. */
  lemma StrptimeDefaults()
    ensures Strptime("08:00") == Ok(480) && Strptime("12:00") == Ok(720) && Strptime("18:00") == Ok(1080)
  {
  }

  /** Entries as the format reads them: one-digit fields are accepted, anything around or beyond them is not. */
  lemma StrptimeExamples()
    ensures Strptime("8:5") == Ok(485) && Strptime("23:59") == Ok(1439)
    ensures Strptime(" 12:00") == Err(DoesNotMatch(" 12:00")) && Strptime("") == Err(DoesNotMatch(""))
    ensures Strptime("24:00") == Err(DoesNotMatch("24:00"))
    ensures Strptime("12:60") == Err(UnconvertedDataRemains("0"))
    ensures Strptime("08:00 ") == Err(UnconvertedDataRemains(" "))
  {
  }
}
