# t-time-tracker: log locations and rendering

A Dafny model of the `TTimeTracker` class in `t-time-tracker.rb`, covering three things:

- **Where a tracker keeps its logs.** The constructor works out three paths:
  - the store directory, by default `~/.ttimetracker`;
  - the month's subdirectory `<directory>/<year>/<MM>_<Mon>/`;
  - the day's log file `<subdirectory><YYYY>-<MM>-<DD>.csv`.

  Each of the `:directory`, `:subdirectory` and `:filename` options replaces its default verbatim when given. The `:now` option replaces the clock.
- **How it renders a count of minutes.** `format_minutes` prints `H:MM`.
- **How it renders a time of day.** `format_time` prints `HH:MM:SS`.

The modules:

- `Wrappers` holds the `Option` type. It stands for Ruby's nil-or-value options and is also what the parsers return.
- `Decimal` models how Ruby spells integers:
  - `Integer#to_s`;
  - the zero-padded conversions `'%02d'` and `strftime`'s `%Y`, `%m`, `%d`, `%H`, `%M`, `%S`;
  - parsers that read each spelling back.
- `FilePath` models `File.join` on a system whose only separator is `/`:
  - parts are joined from left to right;
  - a part that starts with `/` absorbs the separators that end the text before it;
  - before any other part, one separator is added unless the text so far already ends with one.
- `Calendar` holds the date and time fields of a Ruby `Time` and the month abbreviations of `%b`.
- `TimeTracker` holds the rest:
  - the option record;
  - the path derivation (the function `Resolve`, and the class `TTimeTracker` whose constructor sets its three fields);
  - `FormatMinutes` and `FormatTime`.

  Each path is stated as an explicit concatenation of its pieces, and each rendering comes with a parser and a round-trip lemma.
- `TimeTrackerExamples` works out the documented examples, plus the paths for 16 May 2012.

`Time.now` and `Dir.home` are parameters of the model, named `clock` and `home`.

The year is spelled differently in the two paths:

- the subdirectory uses `now.year.to_s`, with no padding;
- the log name uses `%Y`, padded to four digits.

The model follows this code. `YearSpellings` proves that the two spellings are the same string exactly when the year is at least 1000.

## Model

| member | source | states |
|---|---|---|
| TimeTracker.TTimeTracker.constructor | t-time-tracker.rb:22-27 | The constructor assigns the fields in turn, as the source does, each default reading the field set before it. Afterwards `directory`, `subdirectory` and `filename` are the locations `Resolve` derives from the options, the clock and the home directory. |
| TimeTracker.Resolve | t-time-tracker.rb:23-26 | Each of `:directory`, `:subdirectory` and `:filename` that is given becomes the corresponding path unchanged, whatever the clock and the other options. |
| TimeTracker.ResolveDefaultLayout | t-time-tracker.rb:23-26 | The directory is the given one, or `home`, one separator unless `home` ends with one, and `.ttimetracker`. Without `:subdirectory`, the subdirectory is `<directory>` followed by one separator (none added if it already ends in one), the unpadded year, `/`, `MM_Mon` and `/`. Without `:filename` as well, the filename is that subdirectory followed directly by `YYYY-MM-DD.csv`. |
| TimeTracker.ResolveGivenSubdirectory | t-time-tracker.rb:26 | Without `:filename` but with a given `:subdirectory`, the filename is that subdirectory, one separator when it lacks a trailing one, and the day's log name. The given subdirectory is a prefix of the filename. |
| TimeTracker.ResolveDependsOnDate | t-time-tracker.rb:23-26 | Without `:now`, two clocks in the same year and month give the same subdirectory, and two clocks on the same date give the same three paths. |
| TimeTracker.ResolveDistinctDays | t-time-tracker.rb:23-26 | Without `:now` and `:filename`, two clocks on different dates give different log filenames. |
| TimeTracker.DefaultDirectory | t-time-tracker.rb:24 | `File.join(home, '.ttimetracker')` is `home`, one separator unless `home` already ends with one, and `.ttimetracker`. So it ends in `/.ttimetracker` and has no trailing separator. |
| TimeTracker.MonthDirectoryName | t-time-tracker.rb:25 | `%m_%b` is six characters and contains no separator. Its first two characters read back as the month, position 2 is `_`, and the last three are the month's abbreviation. |
| TimeTracker.DefaultSubdirectory | t-time-tracker.rb:25 | The joined subdirectory equals the directory, one separator when needed, the year's `to_s`, `/`, the month directory name and a final `/`. So the result always ends with a separator. |
| TimeTracker.DayLogName | t-time-tracker.rb:26 | `%Y-%m-%d` plus `.csv` contains no separator, ends in `.csv`, and parses back to the date it was made from. |
| TimeTracker.DefaultFilename | t-time-tracker.rb:26 | The default filename is the subdirectory, one separator when needed, and the log name. So the subdirectory is a proper prefix, the name ends in `.csv`, and its last path component is exactly the day's log name. |
| TimeTracker.DefaultFilenameDeterminesDate | t-time-tracker.rb:26 | Two default filenames, whatever their subdirectories, are equal only when their dates are equal. |
| TimeTracker.YearSpellings | t-time-tracker.rb:25-26 | The subdirectory's year (`to_s`) and the filename's year (`%Y`) are the same string exactly when the year is at least 1000. |
| TimeTracker.FormatMinutes | t-time-tracker.rb:54-56 | The rendering of any minute count is at least four characters and ends in two digits after a colon. The digits read as `minutes % 60`. The part before the colon is the canonical `Integer#to_s` of `minutes / 60` (floor division, as Ruby's) and parses back to it. |
| TimeTracker.FormatMinutesRoundTrip | t-time-tracker.rb:54-56 | Parsing the rendering back as `h:mm` gives `h * 60 + mm == minutes` for every integer. |
| TimeTracker.FormatMinutesInjective | t-time-tracker.rb:54-56 | Different minute counts render as different strings. |
| TimeTracker.FormatTime | t-time-tracker.rb:68-70 | `%H:%M:%S` is exactly eight characters, with colons at positions 2 and 5 and digits at every other position. |
| TimeTracker.FormatTimeRoundTrip | t-time-tracker.rb:68-70 | The rendering parses back to the hour, minute and second of the time. |
| TimeTracker.FormatTimeDeterminedByClock | t-time-tracker.rb:68-70 | Two times render alike if and only if they agree on hour, minute and second; the date plays no part. |
| TimeTrackerExamples.FormatTimeExample | t-time-tracker.rb:62-64 | The documented example: 00:32:31 renders as `"00:32:31"`. |
| TimeTrackerExamples.FormatTimeOfFields | t-time-tracker.rb:69 | The rendering of a time is, character by character, the tens and units digits of hour, minute and second separated by colons. |
| TimeTrackerExamples.FormatMinutesExamples | t-time-tracker.rb:48-50 | 95 renders as `"1:35"`, 75 as `"1:15"` and 5 as `"0:05"`. The last matches the documentation; for the first see Findings. |
| TimeTrackerExamples.FormatMinutesOfDigits | t-time-tracker.rb:55 | A count below 600 with `h` hours renders as that one digit, a colon and the two digits of the remaining minutes. |
| TimeTrackerExamples.FormatMinutesDocumentedExampleDiffers | t-time-tracker.rb:49 | The code's rendering of 95 is not the documented `"1:15"`. |
| TimeTrackerExamples.ResolveExample | t-time-tracker.rb:25-26 | With directory `root` on 16 May 2012, the subdirectory is `root/2012/05_May/` and the filename `root/2012/05_May/2012-05-16.csv`. |
| FilePath.JoinTwo | t-time-tracker.rb:24-26 | One junction of `File.join`: the next part always ends the result. |
| FilePath.JoinTwoJunction | t-time-tracker.rb:24-26 | At each junction of `File.join`, the next part ends the result. A part without a leading separator comes after the whole text so far, with a separator right before it. A part with one follows the text so far with exactly its run of trailing separators removed: what is dropped is all separators, and what is kept does not end in one. |
| FilePath.TrailingSeparatorsStart | t-time-tracker.rb:24-26 | The position where the trailing run of separators starts: everything from there on is a separator, the character before it is not, and it is the end of the text exactly when the text does not end with a separator. |
| FilePath.Join | t-time-tracker.rb:24-26 | `File.join` of no parts is empty, and the last part always ends the result. |
| FilePath.JoinComponents | t-time-tracker.rb:25 | Joining a directory, two non-empty separator-free components and `''` gives the directory, one separator unless it ends with one, the first component, `/`, the second and a final `/`. |
| FilePath.JoinTwoPlain | t-time-tracker.rb:24-26 | Joining a part without a leading separator is the text so far, a separator unless it already ends in one, and the part. |
| FilePath.JoinName | t-time-tracker.rb:26 | Joining a directory and a separator-free name keeps the directory as a prefix and makes the name the last path component. |
| FilePath.AfterLastSeparatorAppend | t-time-tracker.rb:26 | After a text ending in a separator, a separator-free suffix is the last path component. |
| Decimal.NatToString | t-time-tracker.rb:25 | `Integer#to_s` of a non-negative integer is a non-empty string of digits with no leading zero (except for 0 itself) that denotes the number. |
| Decimal.NatToStringLength | t-time-tracker.rb:25 | The spelling takes at most `k` digits exactly when the number is below `10^k`. |
| Decimal.IntToString | t-time-tracker.rb:55 | `Integer#to_s` of any integer has a leading minus sign exactly when the integer is negative. The digits after it have no leading zero except for zero itself, and the string parses back to the integer. |
| Decimal.ZeroPad | t-time-tracker.rb:55 | A `%0<w>d` conversion consists of digits, is as long as the longer of `w` and the plain spelling, and denotes the number. |
| Decimal.ParseZeroPad | t-time-tracker.rb:26 | Zero padding to any width parses back to the number. |
| Decimal.TwoDigitSpelling | t-time-tracker.rb:69 | Two-digit padding of a value below 100 is its tens digit followed by its units digit. |
| Calendar.MonthAbbreviation | t-time-tracker.rb:25 | `%b` is three letters and differs between every two months. |

## Left out

- `mkdir` (t-time-tracker.rb:28, 37-44): it creates directories on the file system, which the model does not have. `TTimeTracker.constructor` stops after the three assignments.
- `get_task` (t-time-tracker.rb:31-33): its body is empty.
- The accessors for `task`, `at` and `to` (t-time-tracker.rb:14): the code never sets or reads them.
- `Time.now` and `Dir.home`: they become the constructor's `clock` and `home` parameters.
- Options of the wrong type: in Ruby, `:now` could be any object with `year` and `strftime`. The model's `now` option is a `Time`.
- Time zones, locales, leap seconds and negative years:
  - `Calendar.Date` has a natural-number year;
  - `ValidTime` takes seconds below 60;
  - `%b` is the English abbreviation.
- FormatMinutes: models an Integer argument only. For a Float, `minutes.to_i / 60` and `'%02d' % (minutes % 60)` take a path not modelled here.
- FilePath.Join: models `/` as the only separator, as on POSIX systems. It models no `\` separators and no `File::ALT_SEPARATOR`.
- FilePath.Join: always returns a path. Ruby's `File.join` raises `ArgumentError` for a part containing a NUL character and `Encoding::CompatibilityError` for parts in incompatible encodings; the model has no encodings and no exceptions.

## Findings

| source | as written | input that shows it | evidently intended | confidence | as-written member | corrected member |
|---|---|---|---|---|---|---|
| t-time-tracker.rb:49 | The documentation of `format_minutes` says `format_minutes(95) #=> "1:15"`, but the code at line 55 renders 95 minutes (one hour and 35 minutes) as `"1:35"`. | 95 | The example should read `"1:35"`, since 1:15 is 75 minutes. The code is right, and the model follows it. | not executed | TimeTrackerExamples.FormatMinutesDocumentedExampleDiffers | TimeTrackerExamples.FormatMinutesExamples |
