/**
 * The examples in the documentation of t-time-tracker.rb and the path
 * layout for one concrete date, worked out against the model.
 */
module TimeTrackerExamples {
  import opened Wrappers
  import opened Decimal
  import opened FilePath
  import opened Calendar
  import opened TimeTracker

  /** The paths for 16 May 2012 under the directory `root`. */
  lemma ResolveExample(clock: Time, home: string)
    requires clock == Time(Date(2012, 5, 16), 0, 32, 31)
    ensures var r := Resolve(Options(None, Some("root"), None, None), clock, home);
              r.subdirectory == "root/2012/05_May/" &&
              r.filename == "root/2012/05_May/2012-05-16.csv"
  {
    var params := Options(None, Some("root"), None, None);
    SpellingsOfMay2012();
    assert NatToString(clock.date.year) == "2012" && MonthDirectoryName(clock.date) == "05_May";
    SubdirectoryForMay2012(params.directory.value, clock.date);
    assert DayLogName(clock.date) == "2012-05-16.csv" by {
      LogNameForMay16(clock.date);
    }
    FilenameForMay2012(Resolve(params, clock, home).subdirectory, clock.date);
  }

  lemma SubdirectoryForMay2012(directory: string, d: Date)
    requires directory == "root" && 1 <= d.month <= 12
    requires NatToString(d.year) == "2012" && MonthDirectoryName(d) == "05_May"
    ensures DefaultSubdirectory(directory, d) == "root/2012/05_May/"
  {
    var year, month := NatToString(d.year), MonthDirectoryName(d);
    var sep := SeparatorAfter(directory);
    assert sep == "/";
    var subdirectory := DefaultSubdirectory(directory, d);
    assert subdirectory == directory + sep + year + [Separator] + month + [Separator];
    ConcatenateSubdirectory(directory, sep, year, month);
  }

  lemma ConcatenateSubdirectory(directory: string, sep: string, year: string, month: string)
    requires directory == "root" && sep == "/" && year == "2012" && month == "05_May"
    ensures directory + sep + year + [Separator] + month + [Separator] == "root/2012/05_May/"
  {
  }

  lemma FilenameForMay2012(subdirectory: string, d: Date)
    requires subdirectory == "root/2012/05_May/" && ValidDate(d) && DayLogName(d) == "2012-05-16.csv"
    ensures DefaultFilename(subdirectory, d) == "root/2012/05_May/2012-05-16.csv"
  {
    var name := DayLogName(d);
    var sep := SeparatorAfter(subdirectory);
    assert sep == "";
    var filename := DefaultFilename(subdirectory, d);
    assert filename == subdirectory + sep + name;
    ConcatenateFilename(subdirectory, sep, name);
  }

  lemma ConcatenateFilename(subdirectory: string, sep: string, name: string)
    requires subdirectory == "root/2012/05_May/" && sep == "" && name == "2012-05-16.csv"
    ensures subdirectory + sep + name == "root/2012/05_May/2012-05-16.csv"
  {
  }

  lemma LogNameForMay16(d: Date)
    requires d == Date(2012, 5, 16)
    ensures DayLogName(d) == "2012-05-16.csv"
  {
    var y, m, dd := ZeroPad(d.year, 4), ZeroPad(d.month, 2), ZeroPad(d.day, 2);
    assert y == "2012" && m == "05" && dd == "16" by {
      SpellingsOfMay2012();
    }
    assert DayLogName(d) == y + "-" + m + "-" + dd + LogExtension;
    ConcatenateLogName(y, m, dd);
  }

  lemma ConcatenateLogName(y: string, m: string, dd: string)
    requires y == "2012" && m == "05" && dd == "16"
    ensures y + "-" + m + "-" + dd + LogExtension == "2012-05-16.csv"
  {
  }

  /** The decimal fields of 16 May 2012. */
  lemma SpellingsOfMay2012()
    ensures NatToString(2012) == "2012" && ZeroPad(2012, 4) == "2012"
    ensures ZeroPad(5, 2) == "05" && ZeroPad(16, 2) == "16" && MonthAbbreviation(5) == "May"
  {
    assert NatToString(2012) == "2012" by {
      FourDigitSpelling(2012);
      assert DigitChar(2) == '2' && DigitChar(0) == '0' && DigitChar(1) == '1';
    }
    assert ZeroPad(5, 2) == "05" by {
      TwoDigitSpelling(5);
      assert DigitChar(0) == '0' && DigitChar(5) == '5';
    }
    assert ZeroPad(16, 2) == "16" by {
      TwoDigitSpelling(16);
      assert DigitChar(1) == '1' && DigitChar(6) == '6';
    }
  }

  /**
   * The method's documentation gives 95 => "1:15" and 5 => "0:05". The code
   * renders 95 minutes, one hour and 35 minutes, as "1:35"; "1:15" is what
   * it renders for 75.
   */
  lemma FormatMinutesExamples()
    ensures FormatMinutes(95) == "1:35"
    ensures FormatMinutes(75) == "1:15"
    ensures FormatMinutes(5) == "0:05"
  {
    FormatMinutesOfDigits(95, 1, 3, 5);
    FormatMinutesOfDigits(75, 1, 1, 5);
    FormatMinutesOfDigits(5, 0, 0, 5);
  }

  /** `minutes` of one digit's worth of hours renders as that digit, a colon, and the two minute digits. */
  lemma FormatMinutesOfDigits(minutes: nat, h: nat, tens: nat, units: nat)
    requires h < 10 && tens < 6 && units < 10 && minutes == h * 60 + tens * 10 + units
    ensures FormatMinutes(minutes) == [DigitChar(h), ':', DigitChar(tens), DigitChar(units)]
  {
    assert minutes / 60 == h && minutes % 60 == tens * 10 + units;
    TwoDigitSpelling(minutes % 60);
  }

  /** The documented example 95 => "1:15" is not what the code computes. */
  lemma FormatMinutesDocumentedExampleDiffers()
    ensures FormatMinutes(95) != "1:15"
  {
    FormatMinutesRoundTrip(95);
    FormatMinutesRoundTrip(75);
    FormatMinutesExamples();
  }

  /** The example of the method's documentation: 00:32:31 renders as "00:32:31". */
  lemma FormatTimeExample()
    ensures FormatTime(Time(Date(2012, 5, 16), 0, 32, 31)) == "00:32:31"
  {
    var time := Time(Date(2012, 5, 16), 0, 32, 31);
    assert time.hour / 10 == 0 && time.hour % 10 == 0;
    assert time.minute / 10 == 3 && time.minute % 10 == 2;
    assert time.second / 10 == 3 && time.second % 10 == 1;
    FormatTimeOfFields(time);
    ConcatenateTime(FormatTime(time), DigitChar(0), DigitChar(3), DigitChar(2), DigitChar(1));
  }

  lemma ConcatenateTime(r: string, zero: char, three: char, two: char, one: char)
    requires zero == '0' && three == '3' && two == '2' && one == '1'
    requires r == [zero, zero, ':', three, two, ':', three, one]
    ensures r == "00:32:31"
  {
  }

  /** A rendered time, character by character. */
  lemma FormatTimeOfFields(time: Time)
    requires ValidTime(time)
    ensures FormatTime(time) ==
              [DigitChar(time.hour / 10), DigitChar(time.hour % 10), ':',
               DigitChar(time.minute / 10), DigitChar(time.minute % 10), ':',
               DigitChar(time.second / 10), DigitChar(time.second % 10)]
  {
    TwoDigitSpelling(time.hour);
    TwoDigitSpelling(time.minute);
    TwoDigitSpelling(time.second);
    var h, m, s := ZeroPad(time.hour, 2), ZeroPad(time.minute, 2), ZeroPad(time.second, 2);
    assert FormatTime(time) == h + ":" + m + ":" + s;
    ConcatenateClock(h, m, s);
  }

  lemma ConcatenateClock(h: string, m: string, s: string)
    requires |h| == 2 && |m| == 2 && |s| == 2
    ensures h + ":" + m + ":" + s == [h[0], h[1], ':', m[0], m[1], ':', s[0], s[1]]
  {
  }
}
