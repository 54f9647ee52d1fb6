/**
  The settings record of the reminder application: how the schedule text field
  is stored as a list (`text.split(",")`) and shown again (`",".join(list)`),
  and the record used when no settings file exists yet.
 */
module SettingsStore {
  import opened Wrappers

  /** The JSON object `{"schedule": [...], "cutoff_time": "..."}`. */
  datatype Settings = Settings(schedule: seq<string>, cutoffTime: string)

  const DefaultSettings: Settings := Settings(["08:00", "12:00", "18:00"], "23:59")

  /** `text.split(",")`: every comma separates two parts, empty parts included. */
  function Split(text: string): (parts: seq<string>)
    ensures |parts| >= 1
    ensures forall i :: 0 <= i < |parts| ==> ',' !in parts[i]
    ensures |parts| == CommaCount(text) + 1
  {
    if text == [] then [[]]
    else
      var rest := Split(text[1..]);
      if text[0] == ',' then [[]] + rest
      else [[text[0]] + rest[0]] + rest[1..]
  }

  function CommaCount(text: string): nat {
    if text == [] then 0 else (if text[0] == ',' then 1 else 0) + CommaCount(text[1..])
  }

  lemma {:induction false} CommaCountAppend(a: string, b: string)
    ensures CommaCount(a + b) == CommaCount(a) + CommaCount(b)
  {
    if a != [] {
      assert (a + b)[1..] == a[1..] + b;
      CommaCountAppend(a[1..], b);
    } else {
      assert a + b == b;
    }
  }

  lemma {:induction false} NoCommaCount(s: string)
    ensures CommaCount(s) == 0 <==> ',' !in s
  {
    if s != [] {
      NoCommaCount(s[1..]);
      assert forall c :: c in s <==> c == s[0] || c in s[1..];
    }
  }

  /**
    `",".join(parts)`, which `load_settings` puts into the schedule field: when
    no part holds a comma, the only commas of the text are the separators.
   */
  function Join(parts: seq<string>): (text: string)
    ensures (forall i :: 0 <= i < |parts| ==> ',' !in parts[i]) ==>
      CommaCount(text) == if parts == [] then 0 else |parts| - 1
  {
    if parts == [] then []
    else if |parts| == 1 then
      NoCommaCount(parts[0]);
      parts[0]
    else
      var rest := Join(parts[1..]);
      NoCommaCount(parts[0]);
      CommaCountAppend(parts[0], ",");
      CommaCountAppend(parts[0] + ",", rest);
      assert forall i :: 0 <= i < |parts[1..]| ==> parts[1..][i] == parts[i + 1];
      parts[0] + "," + rest
  }

  /** Joining what a split produced gives back the text that was split. */
  lemma {:induction false} JoinSplit(text: string)
    ensures Join(Split(text)) == text
  {
    if text != [] {
      var rest := Split(text[1..]);
      JoinSplit(text[1..]);
      if text[0] == ',' {
        assert ([[]] + rest)[1..] == rest;
      } else if |rest| == 1 {
        assert Join(rest) == rest[0];
      } else {
        assert Join(rest) == rest[0] + "," + Join(rest[1..]);
        assert ([[text[0]] + rest[0]] + rest[1..])[1..] == rest[1..];
      }
    }
  }

  lemma {:induction false} SplitWithoutComma(s: string)
    requires ',' !in s
    ensures Split(s) == [s]
  {
    if s != [] {
      SplitWithoutComma(s[1..]);
      assert [s[0]] + s[1..] == s;
    }
  }

  lemma {:induction false} SplitAtFirstComma(p: string, s: string)
    requires ',' !in p
    ensures Split(p + "," + s) == [p] + Split(s)
  {
    if p == [] {
      assert p + "," + s == [','] + s;
      assert ([','] + s)[1..] == s;
    } else {
      var t := p + "," + s;
      assert t[1..] == p[1..] + "," + s;
      SplitAtFirstComma(p[1..], s);
      assert [p[0]] + p[1..] == p;
    }
  }

  /** Splitting what a join produced gives back the parts, when none holds a comma. */
  lemma {:induction false} SplitJoin(parts: seq<string>)
    requires |parts| >= 1
    requires forall i :: 0 <= i < |parts| ==> ',' !in parts[i]
    ensures Split(Join(parts)) == parts
  {
    if |parts| == 1 {
      SplitWithoutComma(parts[0]);
    } else {
      SplitJoin(parts[1..]);
      SplitAtFirstComma(parts[0], Join(parts[1..]));
      assert [parts[0]] + parts[1..] == parts;
    }
  }

  /** A space after a comma stays part of the next entry: "08:00, 12:00" splits into "08:00" and " 12:00". */
  lemma SplitKeepsSpaces(text: string, first: string, second: string)
    requires ',' !in first && ',' !in second && text == first + ", " + second
    ensures Split(text) == [first, " " + second]
  {
    assert text == first + "," + (" " + second);
    SplitAtFirstComma(first, " " + second);
    SplitWithoutComma(" " + second);
  }

  /** The record that `save_settings` writes: the schedule field's text split at commas. */
  function SaveSettings(scheduleText: string, cutoffText: string): (s: Settings)
    ensures |s.schedule| >= 1 && s.cutoffTime == cutoffText
    ensures Join(s.schedule) == scheduleText
    ensures forall i :: 0 <= i < |s.schedule| ==> ',' !in s.schedule[i]
  {
    JoinSplit(scheduleText);
    Settings(Split(scheduleText), cutoffText)
  }

  /**
    The record that `load_settings` returns, given what the settings file holds:
    when there is no file, the defaults are written to it and read back.
    Afterwards the file holds exactly the returned record.
   */
  function LoadSettings(file: Option<Settings>): (s: Settings)
    ensures file.None? ==> s == DefaultSettings
    ensures file.None? ==> s.schedule == ["08:00", "12:00", "18:00"] && s.cutoffTime == "23:59"
    ensures file.Some? ==> s == file.value
  {
    match file
    case None => DefaultSettings
    case Some(stored) => stored
  }

  /** After a save, loading shows exactly the schedule text that was saved, and keeps the cutoff. */
  lemma SaveThenLoad(scheduleText: string, cutoffText: string)
    ensures Join(LoadSettings(Some(SaveSettings(scheduleText, cutoffText))).schedule) == scheduleText
    ensures LoadSettings(Some(SaveSettings(scheduleText, cutoffText))).cutoffTime == cutoffText
    ensures |LoadSettings(Some(SaveSettings(scheduleText, cutoffText))).schedule| >= 1
  {
  }

  /** Saving the text that a load of `s` showed writes `s` itself. */
  predicate LoadThenSaveKeeps(s: Settings) {
    SaveSettings(Join(s.schedule), s.cutoffTime) == s
  }

  /**
    Saving the text that a load showed writes the loaded record back exactly
    when its schedule is not empty and no entry holds a comma.
   */
  lemma {:induction false} LoadThenSave(s: Settings)
    ensures LoadThenSaveKeeps(s) <==>
      (|s.schedule| >= 1 && forall i :: 0 <= i < |s.schedule| ==> ',' !in s.schedule[i])
  {
    if |s.schedule| >= 1 && forall i :: 0 <= i < |s.schedule| ==> ',' !in s.schedule[i] {
      SplitJoin(s.schedule);
    }
  }

  /** With no settings file the schedule field reads "08:00,12:00,18:00". */
  lemma DefaultScheduleText(d: seq<string>)
    requires d == LoadSettings(None).schedule
    ensures Join(d) == "08:00" + "," + "12:00" + "," + "18:00"
  {
    JoinThree(d[0], d[1], d[2]);
    assert d == [d[0], d[1], d[2]];
  }

  lemma JoinThree(a: string, b: string, c: string)
    ensures Join([a, b, c]) == a + "," + b + "," + c
  {
    assert [b, c][1..] == [c];
    assert Join([b, c]) == b + "," + c;
    assert [a, b, c][1..] == [b, c];
    assert Join([a, b, c]) == a + "," + (b + "," + c);
  }

  /** Saving the schedule text shown for the defaults writes the defaults again. */
  lemma DefaultsSurviveSave()
    ensures LoadThenSaveKeeps(LoadSettings(None))
  {
    var d := DefaultSettings.schedule;
    assert forall i :: 0 <= i < |d| ==> ',' !in d[i];
    LoadThenSave(DefaultSettings);
  }
}
