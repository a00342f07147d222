/**
 * The `TTimeTracker` class of t-time-tracker.rb: where a tracker keeps its
 * logs (the constructor) and how it renders minute counts and times of day
 * (`format_minutes`, `format_time`).
 *
 * The ambient inputs of the constructor are parameters: `clock` is the value
 * `Time.now` would return and `home` the value of `Dir.home`.
 */
module TimeTracker {
  import opened Wrappers
  import opened Decimal
  import opened FilePath
  import opened Calendar

  // ---------------------------------------------------------------------------
  // Log locations
  // ---------------------------------------------------------------------------

  /** The constructor's options hash; `None` is an absent (nil) entry, and any string, even "", is used. */
  datatype Options = Options(
    now: Option<Time>,
    directory: Option<string>,
    subdirectory: Option<string>,
    filename: Option<string>)

  /** The three paths a tracker stores: `@directory`, `@subdirectory`, `@filename`. */
  datatype Locations = Locations(directory: string, subdirectory: string, filename: string)

  const StoreName: string := ".ttimetracker"

  const LogExtension: string := ".csv"

  predicate ValidOptions(params: Options) {
    params.now.Some? ==> ValidTime(params.now.value)
  }

  /**
   * `File.join(Dir.home, '.ttimetracker')`: the home directory, one
   * separator unless it already ends with one, and the store's name.
   */
  function DefaultDirectory(home: string): (directory: string)
    ensures directory == home + SeparatorAfter(home) + StoreName
    ensures !EndsWithSeparator(directory)
    ensures |directory| > |StoreName| && directory[|directory| - |StoreName|..] == StoreName
    ensures directory[|directory| - |StoreName| - 1] == Separator
  {
    assert Separator !in StoreName;
    JoinName(home, StoreName);
    AppendLastComponent(home + SeparatorAfter(home), StoreName);
    Join([home, StoreName])
  }

  /** A non-empty name that does not end with a separator, placed after a separator. */
  lemma AppendLastComponent(prefix: string, name: string)
    requires EndsWithSeparator(prefix) && name != [] && !EndsWithSeparator(name)
    ensures var r := prefix + name;
              !EndsWithSeparator(r) && r[|r| - |name|..] == name && r[|r| - |name| - 1] == Separator
  {
    var r := prefix + name;
    assert r[|r| - |name|..] == name;
  }

  /** `strftime("%m_%b")`: the two-digit month, an underscore and the month's abbreviation. */
  function MonthDirectoryName(d: Date): (name: string)
    requires 1 <= d.month <= 12
    ensures |name| == 6 && name[2] == '_' && Separator !in name
    ensures ParseNat(name[..2]) == Some(d.month)
    ensures name[3..] == MonthAbbreviation(d.month)
  {
    TwoDigits(d.month);
    ParseZeroPad(d.month, 2);
    var mm, mon := ZeroPad(d.month, 2), MonthAbbreviation(d.month);
    MonthNameFields(mm, mon);
    mm + "_" + mon
  }

  /** A two-digit month and a three-letter abbreviation joined by an underscore. */
  lemma MonthNameFields(mm: string, mon: string)
    requires |mm| == 2 && AllDigits(mm)
    requires |mon| == 3 && IsLetter(mon[0]) && IsLetter(mon[1]) && IsLetter(mon[2])
    ensures var name := mm + "_" + mon;
              |name| == 6 && name[2] == '_' && Separator !in name && name[..2] == mm && name[3..] == mon
  {
    var name := mm + "_" + mon;
    assert name[..2] == mm && name[3..] == mon;
    DigitsAreNotSeparators(mm);
    assert Separator !in mon by {
      assert mon == [mon[0], mon[1], mon[2]];
    }
  }

  /** Reads a day's log name `<year>-<MM>-<DD>.csv` back into its date. */
  function ParseDayLogName(name: string): Option<Date> {
    if |name| < 11 then
      None
    else
      var year, rest := name[..|name| - 10], name[|name| - 10..];
      if rest[0] == '-' && rest[3] == '-' && rest[6..] == LogExtension then
        match (ParseNat(year), ParseNat(rest[1..3]), ParseNat(rest[4..6]))
        case (Some(y), Some(m), Some(dd)) => Some(Date(y, m, dd))
        case _ => None
      else
        None
  }

  /**
   * `now.strftime('%Y-%m-%d') + '.csv'`: the year padded to at least four
   * digits, the month and day to two. It names no directory and reads back
   * as the date it was made from.
   */
  function DayLogName(d: Date): (name: string)
    requires ValidDate(d)
    ensures Separator !in name
    ensures |name| >= |LogExtension| && name[|name| - |LogExtension|..] == LogExtension
    ensures ParseDayLogName(name) == Some(d)
  {
    TwoDigits(d.month);
    TwoDigits(d.day);
    ParseZeroPad(d.year, 4);
    ParseZeroPad(d.month, 2);
    ParseZeroPad(d.day, 2);
    LogNameFields(ZeroPad(d.year, 4), ZeroPad(d.month, 2), ZeroPad(d.day, 2));
    LogNameHasNoSeparator(ZeroPad(d.year, 4), ZeroPad(d.month, 2), ZeroPad(d.day, 2));
    ZeroPad(d.year, 4) + "-" + ZeroPad(d.month, 2) + "-" + ZeroPad(d.day, 2) + LogExtension
  }

  /** A log name assembled from digit fields splits back into those fields. */
  lemma LogNameFields(y: string, m: string, dd: string)
    requires |y| >= 1 && |m| == 2 && |dd| == 2
    requires AllDigits(y) && AllDigits(m) && AllDigits(dd)
    ensures var name := y + "-" + m + "-" + dd + LogExtension;
              name[|name| - |LogExtension|..] == LogExtension &&
              ParseDayLogName(name) == Some(Date(DigitsValue(y), DigitsValue(m), DigitsValue(dd)))
  {
    var rest := "-" + m + "-" + dd + LogExtension;
    var name := y + rest;
    assert y + "-" + m + "-" + dd + LogExtension == name;
    DateFields(m, dd);
    assert name[..|name| - 10] == y && name[|name| - 10..] == rest;
    assert name[|name| - |LogExtension|..] == rest[6..];
  }

  /** A log name assembled from digit fields names no directory. */
  lemma LogNameHasNoSeparator(y: string, m: string, dd: string)
    requires AllDigits(y) && AllDigits(m) && AllDigits(dd)
    ensures Separator !in y + "-" + m + "-" + dd + LogExtension
  {
    DigitsAreNotSeparators(y);
    DigitsAreNotSeparators(m);
    DigitsAreNotSeparators(dd);
  }

  /** The `-MM-DD.csv` tail of a log name, field by field. */
  lemma DateFields(m: string, dd: string)
    requires |m| == 2 && |dd| == 2
    ensures var rest := "-" + m + "-" + dd + LogExtension;
              |rest| == 10 && rest[0] == '-' && rest[3] == '-' &&
              rest[1..3] == m && rest[4..6] == dd && rest[6..] == LogExtension
  {
  }

  /** Digits are never separators. */
  lemma DigitsAreNotSeparators(s: string)
    requires AllDigits(s)
    ensures Separator !in s
  {
    forall i | 0 <= i < |s|
      ensures s[i] != Separator
    {
      assert IsDigit(s[i]);
    }
  }

  /**
   * `File.join(@directory, now.year.to_s, now.strftime("%m_%b"), '')`: the
   * directory, one separator unless it already ends with one, the year
   * unpadded, a separator, the month directory and a final separator.
   */
  function DefaultSubdirectory(directory: string, d: Date): (subdirectory: string)
    requires 1 <= d.month <= 12
    ensures subdirectory ==
              directory + SeparatorAfter(directory) + NatToString(d.year) + [Separator]
              + MonthDirectoryName(d) + [Separator]
    ensures EndsWithSeparator(subdirectory)
  {
    var year := NatToString(d.year);
    DigitsAreNotSeparators(year);
    JoinComponents(directory, year, MonthDirectoryName(d));
    Join([directory, year, MonthDirectoryName(d), ""])
  }

  /**
   * `File.join(@subdirectory, now.strftime('%Y-%m-%d') + '.csv')`: the
   * subdirectory, one separator unless it already ends with one, and the
   * day's log name, which is the last component of the result.
   */
  function DefaultFilename(subdirectory: string, d: Date): (filename: string)
    requires ValidDate(d)
    ensures filename == subdirectory + SeparatorAfter(subdirectory) + DayLogName(d)
    ensures |filename| > |subdirectory| && filename[..|subdirectory|] == subdirectory
    ensures filename[|filename| - |LogExtension|..] == LogExtension
    ensures AfterLastSeparator(filename) == DayLogName(d)
  {
    var name := DayLogName(d);
    JoinName(subdirectory, name);
    SuffixOfLastComponent(subdirectory + SeparatorAfter(subdirectory), name, LogExtension);
    Join([subdirectory, name])
  }

  /** The date the default paths are derived from: that of the `:now` option, or else of the clock. */
  function ReferenceDate(params: Options, clock: Time): Date {
    if params.now.Some? then params.now.value.date else clock.date
  }

  /**
   * The constructor's path derivation: each option given is used as it is,
   * whatever the clock says; each one missing is derived from the ones
   * before it and from the reference date.
   */
  function Resolve(params: Options, clock: Time, home: string): (r: Locations)
    requires ValidOptions(params) && ValidTime(clock)
    ensures params.directory.Some? ==> r.directory == params.directory.value
    ensures params.subdirectory.Some? ==> r.subdirectory == params.subdirectory.value
    ensures params.filename.Some? ==> r.filename == params.filename.value
  {
    var date := ReferenceDate(params, clock);
    var directory :=
      if params.directory.Some? then params.directory.value else DefaultDirectory(home);
    var subdirectory :=
      if params.subdirectory.Some? then params.subdirectory.value
      else DefaultSubdirectory(directory, date);
    var filename :=
      if params.filename.Some? then params.filename.value
      else DefaultFilename(subdirectory, date);
    Locations(directory, subdirectory, filename)
  }

  /** Whatever the subdirectory, two default filenames are equal only for equal dates. */
  lemma DefaultFilenameDeterminesDate(sub1: string, d1: Date, sub2: string, d2: Date)
    requires ValidDate(d1) && ValidDate(d2)
    requires DefaultFilename(sub1, d1) == DefaultFilename(sub2, d2)
    ensures d1 == d2
  {
    assert Some(d1) == ParseDayLogName(DayLogName(d1)) == ParseDayLogName(DayLogName(d2)) == Some(d2);
  }

  /**
   * The subdirectory spells the year with `to_s` and the filename with `%Y`;
   * the two spellings agree exactly for years from 1000 on (year 999 gives
   * the subdirectory `999` and the log name `0999-…`).
   */
  lemma {:induction false} YearSpellings(year: nat)
    ensures NatToString(year) == ZeroPad(year, 4) <==> year >= 1000
  {
    NatToStringLength(year, 3);
    assert Pow10(3) == 1000;
  }

  /**
   * Without `:subdirectory`, the tracker's subdirectory is
   * `<directory>/<year>/<MM>_<Mon>/` for the reference date, with
   * `<directory>` the given one or `<home>/.ttimetracker`; without
   * `:filename` as well, its filename is `<that>YYYY-MM-DD.csv`.
   */
  lemma ResolveDefaultLayout(params: Options, clock: Time, home: string)
    requires ValidOptions(params) && ValidTime(clock)
    ensures var r, d := Resolve(params, clock, home), ReferenceDate(params, clock);
              r.directory == (if params.directory.Some? then params.directory.value
                              else home + SeparatorAfter(home) + ".ttimetracker") &&
              (params.subdirectory.None? ==>
                 r.subdirectory == r.directory + SeparatorAfter(r.directory) + NatToString(d.year) + "/"
                                   + (ZeroPad(d.month, 2) + "_" + MonthAbbreviation(d.month)) + "/") &&
              (params.subdirectory.None? && params.filename.None? ==>
                 r.filename == r.subdirectory
                               + (ZeroPad(d.year, 4) + "-" + ZeroPad(d.month, 2) + "-" + ZeroPad(d.day, 2) + ".csv"))
  {
    var r, d := Resolve(params, clock, home), ReferenceDate(params, clock);
    if params.subdirectory.None? {
      assert r.subdirectory == DefaultSubdirectory(r.directory, d);
      if params.filename.None? {
        assert r.filename == DefaultFilename(r.subdirectory, d);
        assert r.subdirectory + SeparatorAfter(r.subdirectory) == r.subdirectory;
      }
    }
  }

  /** A given `:subdirectory` is where the default filename goes. */
  lemma ResolveGivenSubdirectory(params: Options, clock: Time, home: string)
    requires ValidOptions(params) && ValidTime(clock)
    requires params.subdirectory.Some? && params.filename.None?
    ensures var r, s := Resolve(params, clock, home), params.subdirectory.value;
              r.filename == s + SeparatorAfter(s) + DayLogName(ReferenceDate(params, clock)) &&
              r.filename[..|s|] == s
  {
  }

  /**
   * The paths depend on the clock only through its date: two clocks in the
   * same month give the same subdirectory, two on the same day the same
   * paths.
   */
  lemma ResolveDependsOnDate(params: Options, clock1: Time, clock2: Time, home: string)
    requires ValidOptions(params) && ValidTime(clock1) && ValidTime(clock2)
    requires params.now.None?
    ensures clock1.date.year == clock2.date.year && clock1.date.month == clock2.date.month ==>
              Resolve(params, clock1, home).subdirectory == Resolve(params, clock2, home).subdirectory
    ensures clock1.date == clock2.date ==> Resolve(params, clock1, home) == Resolve(params, clock2, home)
  {
  }

  /** Without `:filename` (and without `:now`), two clocks on different days log to different files. */
  lemma ResolveDistinctDays(params: Options, clock1: Time, clock2: Time, home: string)
    requires ValidOptions(params) && ValidTime(clock1) && ValidTime(clock2)
    requires params.now.None? && params.filename.None?
    requires clock1.date != clock2.date
    ensures Resolve(params, clock1, home).filename != Resolve(params, clock2, home).filename
  {
    var r1, r2 := Resolve(params, clock1, home), Resolve(params, clock2, home);
    if r1.filename == r2.filename {
      DefaultFilenameDeterminesDate(r1.subdirectory, clock1.date, r2.subdirectory, clock2.date);
    }
  }

  /** A tracker, as far as its constructor sets it up. */
  class TTimeTracker {
    var directory: string
    var subdirectory: string
    var filename: string

    /**
     * `initialize(params)`, without the final `mkdir @subdirectory`: the
     * three fields are assigned in turn, each default reading the field set
     * before it; `Resolve` is the same derivation as one value.
     */
    constructor (params: Options, clock: Time, home: string)
      requires ValidOptions(params) && ValidTime(clock)
      ensures Locations(directory, subdirectory, filename) == Resolve(params, clock, home)
    {
      new;
      var now := if params.now.Some? then params.now.value else clock;
      directory := if params.directory.Some? then params.directory.value else DefaultDirectory(home);
      subdirectory :=
        if params.subdirectory.Some? then params.subdirectory.value
        else DefaultSubdirectory(directory, now.date);
      filename :=
        if params.filename.Some? then params.filename.value
        else DefaultFilename(subdirectory, now.date);
    }
  }

  // ---------------------------------------------------------------------------
  // Rendering
  // ---------------------------------------------------------------------------

  /**
   * `format_minutes(minutes)`: the hours `minutes / 60` (Ruby's floor
   * division) in plain decimal, a colon, and the remaining minutes
   * `minutes % 60` in two digits.
   */
  function FormatMinutes(minutes: int): (r: string)
    ensures |r| >= 4 && r[|r| - 3] == ':'
    ensures r[..|r| - 3] == IntToString(minutes / 60)
    ensures IsDigit(r[|r| - 2]) && IsDigit(r[|r| - 1])
    ensures ParseInt(r[..|r| - 3]) == Some(minutes / 60)
    ensures DigitsValue(r[|r| - 2..]) == minutes % 60
  {
    var hours, rest := IntToString(minutes / 60), ZeroPad(minutes % 60, 2);
    ColonFields(hours, rest, minutes / 60, minutes % 60);
    hours + ":" + rest
  }

  /** `<hours>:<MM>` splits at the third character from the end into the hours and the minutes. */
  lemma ColonFields(hours: string, rest: string, h: int, m: nat)
    requires |hours| >= 1 && ParseInt(hours) == Some(h)
    requires m < 60 && rest == ZeroPad(m, 2)
    ensures var r := hours + ":" + rest;
              |r| >= 4 && r[|r| - 3] == ':' && IsDigit(r[|r| - 2]) && IsDigit(r[|r| - 1]) &&
              r[..|r| - 3] == hours && ParseInt(r[..|r| - 3]) == Some(h) && DigitsValue(r[|r| - 2..]) == m
  {
    TwoDigits(m);
    assert IsDigit(rest[0]) && IsDigit(rest[1]);
    var r := hours + ":" + rest;
    assert r[..|r| - 3] == hours;
    assert r[|r| - 2..] == rest;
  }

  /** Reads `H:MM` back into a number of minutes; the `MM` part must be below 60. */
  function ParseMinutes(s: string): Option<int> {
    if |s| >= 4 && s[|s| - 3] == ':' then
      match (ParseInt(s[..|s| - 3]), ParseNat(s[|s| - 2..]))
      case (Some(h), Some(m)) => if m < 60 then Some(h * 60 + m) else None
      case _ => None
    else
      None
  }

  /** Reading the hours and the minutes back gives the count that was formatted. */
  lemma FormatMinutesRoundTrip(minutes: int)
    ensures ParseMinutes(FormatMinutes(minutes)) == Some(minutes)
  {
    ParseMinutesOfFields(FormatMinutes(minutes), minutes);
  }

  /** A string with the layout `FormatMinutes` promises for `minutes` reads back as `minutes`. */
  lemma ParseMinutesOfFields(s: string, minutes: int)
    requires |s| >= 4 && s[|s| - 3] == ':'
    requires IsDigit(s[|s| - 2]) && IsDigit(s[|s| - 1])
    requires ParseInt(s[..|s| - 3]) == Some(minutes / 60)
    requires AllDigits(s[|s| - 2..]) ==> DigitsValue(s[|s| - 2..]) == minutes % 60
    ensures ParseMinutes(s) == Some(minutes)
  {
    var mm := s[|s| - 2..];
    assert mm == [s[|s| - 2], s[|s| - 1]];
    assert ParseNat(mm) == Some(minutes % 60);
    assert minutes / 60 * 60 + minutes % 60 == minutes;
  }

  /** Different minute counts are rendered differently. */
  lemma FormatMinutesInjective(m1: int, m2: int)
    requires FormatMinutes(m1) == FormatMinutes(m2)
    ensures m1 == m2
  {
    FormatMinutesRoundTrip(m1);
    FormatMinutesRoundTrip(m2);
  }

  /** The clock fields `HH:MM:SS` is read back into. */
  datatype ClockFields = ClockFields(hour: nat, minute: nat, second: nat)

  /**
   * `format_time(time)`, `strftime("%H:%M:%S")`: eight characters, a colon
   * at positions 2 and 5, and two digits for each of the hour, minute and
   * second.
   */
  function FormatTime(time: Time): (r: string)
    requires ValidTime(time)
    ensures |r| == 8 && r[2] == ':' && r[5] == ':'
    ensures forall i :: 0 <= i < 8 && i != 2 && i != 5 ==> IsDigit(r[i])
  {
    TwoDigits(time.hour);
    TwoDigits(time.minute);
    TwoDigits(time.second);
    ZeroPad(time.hour, 2) + ":" + ZeroPad(time.minute, 2) + ":" + ZeroPad(time.second, 2)
  }

  /** Reads `HH:MM:SS` back into its fields. */
  function ParseTime(s: string): Option<ClockFields> {
    if |s| == 8 && s[2] == ':' && s[5] == ':' then
      match (ParseNat(s[..2]), ParseNat(s[3..5]), ParseNat(s[6..]))
      case (Some(h), Some(m), Some(sec)) => Some(ClockFields(h, m, sec))
      case _ => None
    else
      None
  }

  /** The rendered time reads back as the hour, minute and second of `time`. */
  lemma FormatTimeRoundTrip(time: Time)
    requires ValidTime(time)
    ensures ParseTime(FormatTime(time)) == Some(ClockFields(time.hour, time.minute, time.second))
  {
    var h, m, s := ZeroPad(time.hour, 2), ZeroPad(time.minute, 2), ZeroPad(time.second, 2);
    TwoDigits(time.hour);
    TwoDigits(time.minute);
    TwoDigits(time.second);
    ParseZeroPad(time.hour, 2);
    ParseZeroPad(time.minute, 2);
    ParseZeroPad(time.second, 2);
    ParseTimeOfFields(h, m, s);
  }

  /** Three two-character fields joined by colons split back into those fields. */
  lemma ParseTimeOfFields(h: string, m: string, s: string)
    requires |h| == 2 && |m| == 2 && |s| == 2
    ensures ParseNat(h).Some? && ParseNat(m).Some? && ParseNat(s).Some? ==>
              ParseTime(h + ":" + m + ":" + s) ==
                Some(ClockFields(ParseNat(h).value, ParseNat(m).value, ParseNat(s).value))
  {
    var r := h + ":" + m + ":" + s;
    assert r[..2] == h && r[3..5] == m && r[6..] == s;
  }

  /** Two times render alike exactly when they agree on hour, minute and second; the date plays no part. */
  lemma FormatTimeDeterminedByClock(t1: Time, t2: Time)
    requires ValidTime(t1) && ValidTime(t2)
    ensures FormatTime(t1) == FormatTime(t2) <==>
              t1.hour == t2.hour && t1.minute == t2.minute && t1.second == t2.second
  {
    FormatTimeRoundTrip(t1);
    FormatTimeRoundTrip(t2);
  }
}
