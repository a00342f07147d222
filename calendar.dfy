/**
 * The parts of Ruby's `Time` that the tracker reads: the calendar date
 * (proleptic Gregorian, years from 0 on) and the time of day, together with
 * the English month abbreviations `strftime` prints for `%b`.
 */
module Calendar {

  datatype Date = Date(year: nat, month: nat, day: nat)

  datatype Time = Time(date: Date, hour: nat, minute: nat, second: nat)

  predicate IsLeapYear(year: nat) {
    year % 4 == 0 && (year % 100 != 0 || year % 400 == 0)
  }

  function DaysInMonth(year: nat, month: nat): (n: nat)
    requires 1 <= month <= 12
    ensures 28 <= n <= 31
  {
    if month == 2 then (if IsLeapYear(year) then 29 else 28)
    else if month == 4 || month == 6 || month == 9 || month == 11 then 30
    else 31
  }

  /** A date a `Time` can carry. */
  predicate ValidDate(d: Date) {
    1 <= d.month <= 12 && 1 <= d.day <= DaysInMonth(d.year, d.month)
  }

  /** A time a `Time` can carry; `Time` normalises a leap second into the next minute. */
  predicate ValidTime(t: Time) {
    ValidDate(t.date) && t.hour < 24 && t.minute < 60 && t.second < 60
  }

  const MonthAbbreviations: seq<string> :=
    ["Jan", "Feb", "Mar", "Apr", "May", "Jun", "Jul", "Aug", "Sep", "Oct", "Nov", "Dec"]

  predicate IsLetter(c: char) {
    'A' <= c <= 'Z' || 'a' <= c <= 'z'
  }

  /** `%b`: three letters, and a different name for every month. */
  function MonthAbbreviation(month: nat): (name: string)
    requires 1 <= month <= 12
    ensures |name| == 3 && IsLetter(name[0]) && IsLetter(name[1]) && IsLetter(name[2])
    ensures forall i :: 0 <= i < 12 && i != month - 1 ==> MonthAbbreviations[i] != name
  {
    MonthAbbreviations[month - 1]
  }
}
