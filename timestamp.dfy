/** A `chrono::DateTime<Utc>` as its calendar fields, and its rendering by
    `to_rfc3339_opts(SecondsFormat::Secs, false)`: the date-time format of section 5.6
    of RFC 3339 at whole seconds, with the UTC offset written `+00:00`. */
module Timestamp {
  import opened Wrappers

  type Month = m: int | 1 <= m <= 12 witness 1
  type Day = d: int | 1 <= d <= 31 witness 1
  type Hour = h: int | 0 <= h < 24
  type Minute = m: int | 0 <= m < 60
  type Second = s: int | 0 <= s < 60
  /** chrono keeps a leap second as second 59 with a nanosecond count of a second or more. */
  type Nanosecond = n: int | 0 <= n < 2_000_000_000

  /** The fields of a date-time. The field types admit more than chrono does (a 31st of
      every month, a leap nanosecond count at any second, any year); `IsChronoValue` is the
      range chrono keeps. The rendering and parsing properties below hold over the wider
      type, so they hold for every value chrono can hold. */
  datatype DateTime = DateTime(
    year: int, month: Month, day: Day, hour: Hour, minute: Minute, second: Second, nanosecond: Nanosecond)

  /** A leap year of the proleptic Gregorian calendar. */
  predicate IsLeapYear(year: int) {
    year % 4 == 0 && (year % 100 != 0 || year % 400 == 0)
  }

  /** The number of days of a month. */
  function DaysInMonth(year: int, month: Month): (n: int)
    ensures 28 <= n <= 31
    ensures n == 29 <==> month == 2 && IsLeapYear(year)
  {
    if month == 2 then (if IsLeapYear(year) then 29 else 28)
    else if month in {4, 6, 9, 11} then 30
    else 31
  }

  /** The calendar values a `chrono::DateTime<Utc>` can hold: a day that exists in its
      month, and a nanosecond count of a second or more only on the 59th second of a minute,
      where chrono keeps a leap second. chrono's bound of some 262,000 years either side of
      year 0 is not modelled. */
  predicate IsChronoValue(t: DateTime) {
    && t.day <= DaysInMonth(t.year, t.month)
    && (t.nanosecond >= 1_000_000_000 ==> t.second == 59)
  }

  /** A decimal digit. */
  function Digit(d: int): (c: char)
    requires 0 <= d < 10
  {
    (0x30 + d) as char
  }

  /** The value of a decimal digit character. */
  function DigitValue(c: char): (r: Option<int>)
    ensures r.Some? ==> 0 <= r.value < 10
  {
    if '0' <= c <= '9' then Some(c as int - 0x30) else None
  }

  /** `n` in exactly `width` decimal digits, with leading zeros. */
  function Fixed(n: nat, width: nat): (s: string)
    requires n < Pow10(width)
    ensures |s| == width
  {
    if width == 0 then [] else Fixed(n / 10, width - 1) + [Digit(n % 10)]
  }

  function Pow10(k: nat): (p: nat)
    ensures p >= 1
  {
    if k == 0 then 1 else 10 * Pow10(k - 1)
  }

  /** The number of decimal digits of `n`. */
  function NumDigits(n: nat): (k: nat)
    ensures k >= 1 && n < Pow10(k)
  {
    if n < 10 then 1 else 1 + NumDigits(n / 10)
  }

  lemma {:induction false} Pow10Monotone(j: nat, k: nat)
    requires j <= k
    ensures Pow10(j) <= Pow10(k)
    decreases k
  {
    if j < k {
      Pow10Monotone(j, k - 1);
    }
  }

  /** The value of a string of decimal digits; `None` if a character is not a digit. */
  function ReadFixed(s: string): (r: Option<nat>)
  {
    if s == [] then Some(0)
    else match (ReadFixed(s[..|s| - 1]), DigitValue(s[|s| - 1]))
      case (Some(high), Some(low)) => Some(high * 10 + low)
      case _ => None
  }

  /** Fixed-width digits are read back as their value. */
  lemma {:induction false} ReadFixedOfFixed(n: nat, width: nat)
    requires n < Pow10(width)
    ensures ReadFixed(Fixed(n, width)) == Some(n)
  {
    if width > 0 {
      var s := Fixed(n, width);
      assert s[..|s| - 1] == Fixed(n / 10, width - 1);
      ReadFixedOfFixed(n / 10, width - 1);
    }
  }

  /** The year: four digits from 0 to 9999, otherwise a sign and at least four digits
      (chrono writes such years with `{:+05}`). */
  function YearText(year: int): (s: string)
    ensures 0 <= year <= 9999 ==> |s| == 4
    ensures !(0 <= year <= 9999) ==> |s| >= 5 && s[0] == (if year < 0 then '-' else '+')
  {
    if 0 <= year <= 9999 then Fixed(year, 4)
    else
      var magnitude := if year < 0 then -year else year;
      var width := if NumDigits(magnitude) < 4 then 4 else NumDigits(magnitude);
      Pow10Monotone(NumDigits(magnitude), width);
      [if year < 0 then '-' else '+'] + Fixed(magnitude, width)
  }

  /** The seconds field as written: a leap second shows as 60. */
  function ShownSecond(t: DateTime): (s: int)
    ensures 0 <= s <= 60
  {
    if t.nanosecond >= 1_000_000_000 then t.second + 1 else t.second
  }

  /** The date: `YYYY-MM-DD`. */
  function DateText(t: DateTime): string {
    YearText(t.year) + "-" + Fixed(t.month, 2) + "-" + Fixed(t.day, 2)
  }

  /** The time of day at whole seconds: `HH:MM:SS`. */
  function TimeText(t: DateTime): (s: string)
    ensures |s| == 8
  {
    Fixed(t.hour, 2) + ":" + Fixed(t.minute, 2) + ":" + Fixed(ShownSecond(t), 2)
  }

  /** `to_rfc3339_opts(SecondsFormat::Secs, false)` for a UTC time:
      `YYYY-MM-DDTHH:MM:SS+00:00`, the fraction of the second dropped. */
  function ToRfc3339Secs(t: DateTime): (s: string)
    ensures |s| == |YearText(t.year)| + 21
    ensures 0 <= t.year <= 9999 ==> |s| == 25
    ensures s[|s| - 15] == 'T' && s[|s| - 6..] == "+00:00"
  {
    DateText(t) + "T" + TimeText(t) + "+00:00"
  }

  /** The fields a whole-second RFC 3339 text carries. */
  datatype Fields = Fields(year: int, month: int, day: int, hour: int, minute: int, second: int)

  /** The fields of the time as written at seconds precision. */
  function Shown(t: DateTime): Fields {
    Fields(t.year, t.month, t.day, t.hour, t.minute, ShownSecond(t))
  }

  /** Reads `YYYY-MM-DDTHH:MM:SS+00:00` back into its fields. */
  function ParseRfc3339Secs(s: string): (r: Option<Fields>)
  {
    if |s| != 25 || s[4] != '-' || s[7] != '-' || s[10] != 'T' || s[13] != ':' || s[16] != ':'
       || s[19..] != "+00:00" then None
    else match (ReadFixed(s[..4]), ReadFixed(s[5..7]), ReadFixed(s[8..10]),
                ReadFixed(s[11..13]), ReadFixed(s[14..16]), ReadFixed(s[17..19]))
      case (Some(y), Some(mo), Some(d), Some(h), Some(mi), Some(se)) => Some(Fields(y, mo, d, h, mi, se))
      case _ => None
  }

  /** Three fixed-width fields with a separator between each two are sliced back apart. */
  lemma SliceThree(a: string, b: string, c: string, sep: char)
    requires |b| == 2 && |c| == 2
    ensures var s := a + [sep] + b + [sep] + c;
      && |s| == |a| + 6 && s[..|a|] == a && s[|a|] == sep && s[|a| + 1..|a| + 3] == b
      && s[|a| + 3] == sep && s[|a| + 4..] == c
  {
  }

  /** For a four-digit year the text is 25 characters long and reads back as the shown
      fields: nothing but the fraction of the second is lost. */
  lemma ParseToRfc3339Secs(t: DateTime)
    requires 0 <= t.year <= 9999
    ensures |ToRfc3339Secs(t)| == 25
    ensures ParseRfc3339Secs(ToRfc3339Secs(t)) == Some(Shown(t))
  {
    var date, time := DateText(t), TimeText(t);
    var y, mo, d := Fixed(t.year, 4), Fixed(t.month, 2), Fixed(t.day, 2);
    var h, mi, se := Fixed(t.hour, 2), Fixed(t.minute, 2), Fixed(ShownSecond(t), 2);
    SliceThree(y, mo, d, '-');
    SliceThree(h, mi, se, ':');
    assert date == y + ['-'] + mo + ['-'] + d;
    assert time == h + [':'] + mi + [':'] + se;
    var s := ToRfc3339Secs(t);
    assert s == date + ['T'] + time + "+00:00";
    assert |date| == 10;
    assert s[..10] == date && s[10] == 'T' && s[11..19] == time && s[19..] == "+00:00";
    assert s[..4] == date[..4] && s[5..7] == date[5..7] && s[8..10] == date[8..];
    assert s[11..13] == time[..2] && s[14..16] == time[3..5] && s[17..19] == time[6..];
    ReadFixedOfFixed(t.year, 4);
    ReadFixedOfFixed(t.month, 2);
    ReadFixedOfFixed(t.day, 2);
    ReadFixedOfFixed(t.hour, 2);
    ReadFixedOfFixed(t.minute, 2);
    ReadFixedOfFixed(ShownSecond(t), 2);
  }

  /** Two times that differ only below the second (and are not leap seconds) render alike. */
  lemma SecondsPrecision(t: DateTime, nanosecond: Nanosecond)
    requires t.nanosecond < 1_000_000_000 && nanosecond < 1_000_000_000
    ensures ToRfc3339Secs(t.(nanosecond := nanosecond)) == ToRfc3339Secs(t)
  {
  }
}
