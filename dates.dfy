/** Calendar dates, and the text form `%Y-%m-%d` read by `datetime.strptime`
    and written by `date.strftime`. */
module Dates {

  datatype Option<T> = None | Some(value: T)

  /** A proleptic Gregorian date, as Python's `datetime.date` holds it. */
  datatype Date = Date(year: int, month: int, day: int)

  /** Python's `datetime.MINYEAR` and `datetime.MAXYEAR`. */
  const MinYear := 1
  const MaxYear := 9999

  predicate IsLeapYear(y: int) {
    y % 4 == 0 && (y % 100 != 0 || y % 400 == 0)
  }

  function DaysInMonth(y: int, m: int): (n: int)
    requires 1 <= m <= 12
    ensures 28 <= n <= 31
    ensures m == 2 ==> (n == 29 <==> IsLeapYear(y))
  {
    if m == 2 then (if IsLeapYear(y) then 29 else 28)
    else if m == 4 || m == 6 || m == 9 || m == 11 then 30
    else 31
  }

  /** The dates `datetime.date(year, month, day)` accepts. */
  predicate ValidDate(d: Date) {
    && MinYear <= d.year <= MaxYear
    && 1 <= d.month <= 12
    && 1 <= d.day <= DaysInMonth(d.year, d.month)
  }

  // ---------------------------------------------------------------------------
  // Digits

  predicate IsDigit(c: char) {
    '0' <= c <= '9'
  }

  function DigitValue(c: char): (n: int)
    requires IsDigit(c)
    ensures 0 <= n <= 9
  {
    c as int - '0' as int
  }

  function Digit(n: int): (c: char)
    requires 0 <= n <= 9
    ensures IsDigit(c) && DigitValue(c) == n
  {
    ('0' as int + n) as char
  }

  /** `n` written with exactly two digits, zero-padded (`%m`, `%d`). */
  function Pad2(n: int): (s: string)
    requires 0 <= n <= 99
  {
    [Digit(n / 10), Digit(n % 10)]
  }

  /** `n` written with exactly four digits, zero-padded (`%Y`). */
  function Pad4(n: int): (s: string)
    requires 0 <= n <= 9999
  {
    Pad2(n / 100) + Pad2(n % 100)
  }

  /** The value of two decimal digits. */
  function TwoDigits(hi: char, lo: char): (n: int)
    requires IsDigit(hi) && IsDigit(lo)
    ensures 0 <= n <= 99
  {
    10 * DigitValue(hi) + DigitValue(lo)
  }

  // ---------------------------------------------------------------------------
  // Parsing, as CPython's `_strptime` does it for the format "%Y-%m-%d":
  // the regular expression  (\d\d\d\d)-(1[0-2]|0[1-9]|[1-9])-(3[01]|[12]\d|0[1-9]|[1-9]| [1-9])
  // is matched at the start of the text, anything left after the match is an
  // error, and the fields must then form a date `datetime.date` accepts.

  /** A matched numeric field: its value and how many characters it took. */
  datatype Field = Field(value: int, width: nat)

  /** The `%m` alternatives in their regex order; since a `-` must follow the
      month, an alternative counts only when a `-` comes right after it. */
  function MatchMonth(t: string): (r: Option<Field>)
    ensures r.Some? ==> 1 <= r.value.value <= 12 && 1 <= r.value.width < |t| && t[r.value.width] == '-' && r.value.width <= 2
  {
    if |t| >= 3 && t[0] == '1' && '0' <= t[1] <= '2' && t[2] == '-' then Some(Field(10 + DigitValue(t[1]), 2))
    else if |t| >= 3 && t[0] == '0' && '1' <= t[1] <= '9' && t[2] == '-' then Some(Field(DigitValue(t[1]), 2))
    else if |t| >= 2 && '1' <= t[0] <= '9' && t[1] == '-' then Some(Field(DigitValue(t[0]), 1))
    else None
  }

  /** The `%d` alternatives in their regex order; the first one that matches
      is taken, whatever follows it. */
  function MatchDay(t: string): (r: Option<Field>)
    ensures r.Some? ==> 1 <= r.value.value <= 31 && 1 <= r.value.width <= |t| && r.value.width <= 2
  {
    if |t| >= 2 && t[0] == '3' && '0' <= t[1] <= '1' then Some(Field(30 + DigitValue(t[1]), 2))
    else if |t| >= 2 && '1' <= t[0] <= '2' && IsDigit(t[1]) then Some(Field(10 * DigitValue(t[0]) + DigitValue(t[1]), 2))
    else if |t| >= 2 && t[0] == '0' && '1' <= t[1] <= '9' then Some(Field(DigitValue(t[1]), 2))
    else if |t| >= 1 && '1' <= t[0] <= '9' then Some(Field(DigitValue(t[0]), 1))
    else if |t| >= 2 && t[0] == ' ' && '1' <= t[1] <= '9' then Some(Field(DigitValue(t[1]), 2))
    else None
  }

  /** `%Y-`: four digits and a `-` open the text. */
  predicate YearDash(s: string) {
    |s| >= 5 && IsDigit(s[0]) && IsDigit(s[1]) && IsDigit(s[2]) && IsDigit(s[3]) && s[4] == '-'
  }

  /** The value of the four year digits. */
  function YearValue(s: string): (y: int)
    requires YearDash(s)
    ensures 0 <= y <= 9999
  {
    100 * TwoDigits(s[0], s[1]) + TwoDigits(s[2], s[3])
  }

  /** `%m-%d` matched against all of `t`: a month, `-`, and a day that ends
      the text; anything after the day is "unconverted data". */
  function MatchMonthDay(year: int, t: string): (r: Option<Date>)
    ensures r.Some? ==> r.value.year == year && 1 <= r.value.month <= 12 && 1 <= r.value.day <= 31
  {
    match MatchMonth(t)
    case None => None
    case Some(m) =>
      var rest := t[m.width + 1..];
      match MatchDay(rest)
      case None => None
      case Some(d) => if d.width != |rest| then None else Some(Date(year, m.value, d.value))
  }

  /** The fields the regular expression matches in `s`, when it matches all
      of `s`; the year, month and day are not yet checked against each other. */
  function MatchDate(s: string): (r: Option<Date>)
    ensures r.Some? ==> 0 <= r.value.year <= 9999 && 1 <= r.value.month <= 12 && 1 <= r.value.day <= 31
  {
    if !YearDash(s) then None else MatchMonthDay(YearValue(s), s[5..])
  }

  /** `datetime.strptime(s, "%Y-%m-%d").date()`: the matched fields, when
      `datetime.date` accepts them; `None` where either raises `ValueError`. */
  function ParseDate(s: string): (r: Option<Date>)
    ensures r.Some? ==> ValidDate(r.value)
  {
    match MatchDate(s)
    case None => None
    case Some(d) => if ValidDate(d) then Some(d) else None
  }

  /** `d.strftime("%Y-%m-%d")`. */
  function FormatDate(d: Date): (s: string)
    requires ValidDate(d)
    ensures |s| == 10 && s[4] == '-' && s[7] == '-'
  {
    Pad4(d.year) + "-" + Pad2(d.month) + "-" + Pad2(d.day)
  }

  // ---------------------------------------------------------------------------
  // The accepted text, described as a grammar independently of the parser.

  /** How a month may be written: two digits, or one digit without a leading zero. */
  function MonthSpellings(m: int): set<string>
    requires 1 <= m <= 12
  {
    {Pad2(m)} + (if m < 10 then {[Digit(m)]} else {})
  }

  /** How a day may be written: two digits, or below ten also one digit or a
      space followed by one digit. */
  function DaySpellings(d: int): set<string>
    requires 1 <= d <= 31
  {
    {Pad2(d)} + (if d < 10 then {[Digit(d)], [' ', Digit(d)]} else {})
  }

  /** `s` writes the date `d` as four year digits, `-`, a month spelling, `-`
      and a day spelling, and nothing else. */
  ghost predicate Spells(s: string, d: Date) {
    && 0 <= d.year <= 9999 && 1 <= d.month <= 12 && 1 <= d.day <= 31
    && exists ms, ds :: ms in MonthSpellings(d.month) && ds in DaySpellings(d.day)
                        && s == Pad4(d.year) + "-" + (ms + "-" + ds)
  }

  // ---------------------------------------------------------------------------
  // Properties

  lemma DigitOfValue(c: char)
    requires IsDigit(c)
    ensures Digit(DigitValue(c)) == c
  {
  }

  /** Two digits written back with `Pad2` are the same two characters. */
  lemma Pad2OfDigits(hi: char, lo: char)
    requires IsDigit(hi) && IsDigit(lo)
    ensures Pad2(TwoDigits(hi, lo)) == [hi, lo]
  {
    var n := TwoDigits(hi, lo);
    assert n / 10 == DigitValue(hi) && n % 10 == DigitValue(lo);
    DigitOfValue(hi);
    DigitOfValue(lo);
  }

  /** The year digits written back with `Pad4` are the same four characters. */
  lemma Pad4OfYear(s: string)
    requires YearDash(s)
    ensures Pad4(YearValue(s)) == s[..4]
  {
    var hi, lo := TwoDigits(s[0], s[1]), TwoDigits(s[2], s[3]);
    var n := 100 * hi + lo;
    assert n / 100 == hi && n % 100 == lo;
    Pad2OfDigits(s[0], s[1]);
    Pad2OfDigits(s[2], s[3]);
    assert s[..4] == [s[0], s[1]] + [s[2], s[3]];
  }

  /** The value of the two digits `Pad2` writes is the number written. */
  lemma DigitsOfPad2(n: int)
    requires 0 <= n <= 99
    ensures var s := Pad2(n); TwoDigits(s[0], s[1]) == n
  {
  }

  /** The value of the four digits `Pad4` writes is the number written. */
  lemma DigitsOfPad4(n: int)
    requires 0 <= n <= 9999
    ensures var s := Pad4(n); 100 * TwoDigits(s[0], s[1]) + TwoDigits(s[2], s[3]) == n
  {
    DigitsOfPad2(n / 100);
    DigitsOfPad2(n % 100);
  }

  /** The month field of `ms + "-" + tail` is read back as `m` and takes exactly `ms`. */
  lemma MatchMonthSpelling(m: int, ms: string, tail: string)
    requires 1 <= m <= 12 && ms in MonthSpellings(m)
    ensures MatchMonth(ms + "-" + tail) == Some(Field(m, |ms|))
  {
  }

  /** The day field `ds` is read back as `d` and takes all of `ds`. */
  lemma MatchDaySpelling(d: int, ds: string)
    requires 1 <= d <= 31 && ds in DaySpellings(d)
    ensures MatchDay(ds) == Some(Field(d, |ds|))
  {
  }

  /** What the month matcher takes is a spelling of the month it reports. */
  lemma MatchedMonthIsSpelling(t: string)
    requires MatchMonth(t).Some?
    ensures var f := MatchMonth(t).value; t[..f.width] in MonthSpellings(f.value)
  {
    if |t| >= 3 && t[0] == '1' && '0' <= t[1] <= '2' && t[2] == '-' {
      Pad2OfDigits('1', t[1]);
      assert t[..2] == [t[0], t[1]];
    } else if |t| >= 3 && t[0] == '0' && '1' <= t[1] <= '9' && t[2] == '-' {
      Pad2OfDigits('0', t[1]);
      assert t[..2] == [t[0], t[1]];
    } else {
      DigitOfValue(t[0]);
      assert t[..1] == [Digit(DigitValue(t[0]))];
    }
  }

  /** What the day matcher takes is a spelling of the day it reports. */
  lemma MatchedDayIsSpelling(t: string)
    requires MatchDay(t).Some?
    ensures var f := MatchDay(t).value; t[..f.width] in DaySpellings(f.value)
  {
    if |t| >= 2 && t[0] == '3' && '0' <= t[1] <= '1' {
      Pad2OfDigits('3', t[1]);
      assert t[..2] == [t[0], t[1]];
    } else if |t| >= 2 && '1' <= t[0] <= '2' && IsDigit(t[1]) {
      Pad2OfDigits(t[0], t[1]);
      assert t[..2] == [t[0], t[1]];
    } else if |t| >= 2 && t[0] == '0' && '1' <= t[1] <= '9' {
      Pad2OfDigits('0', t[1]);
      assert t[..2] == [t[0], t[1]];
    } else if |t| >= 1 && '1' <= t[0] <= '9' {
      DigitOfValue(t[0]);
      assert t[..1] == [Digit(DigitValue(t[0]))];
    } else {
      DigitOfValue(t[1]);
      assert t[..2] == [' ', Digit(DigitValue(t[1]))];
    }
  }

  /** Every parse result is spelled by the parsed text. */
  lemma ParseDateSound(s: string)
    requires ParseDate(s).Some?
    ensures Spells(s, ParseDate(s).value)
  {
    var t := s[5..];
    var m := MatchMonth(t).value;
    var rest := t[m.width + 1..];
    var ms := t[..m.width];
    MatchedMonthIsSpelling(t);
    MatchedDayIsSpelling(rest);
    assert rest[..MatchDay(rest).value.width] == rest;
    Pad4OfYear(s);
    assert t == ms + "-" + rest;
    assert s == s[..4] + "-" + t;
  }

  /** Text that starts with a padded year and `-` shows that year in its
      first four characters. */
  lemma YearPrefix(y: int, t: string)
    requires 0 <= y <= 9999
    ensures YearDash(Pad4(y) + "-" + t)
    ensures YearValue(Pad4(y) + "-" + t) == y
    ensures (Pad4(y) + "-" + t)[5..] == t
  {
    var p := Pad4(y);
    var s := p + "-" + t;
    DigitsOfPad4(y);
    assert s[0] == p[0] && s[1] == p[1] && s[2] == p[2] && s[3] == p[3];
  }

  /** A month spelling, `-` and a day spelling are matched as that month and day. */
  lemma MatchMonthDayComplete(y: int, m: int, d: int, ms: string, ds: string)
    requires 1 <= m <= 12 && ms in MonthSpellings(m)
    requires 1 <= d <= 31 && ds in DaySpellings(d)
    ensures MatchMonthDay(y, ms + "-" + ds) == Some(Date(y, m, d))
  {
    MatchMonthSpelling(m, ms, ds);
    assert (ms + "-" + ds)[|ms| + 1..] == ds;
    MatchDaySpelling(d, ds);
  }

  /** Every spelling of a date is matched as that date's fields. */
  lemma MatchDateComplete(s: string, d: Date)
    requires Spells(s, d)
    ensures MatchDate(s) == Some(d)
  {
    var ms, ds :| ms in MonthSpellings(d.month) && ds in DaySpellings(d.day)
                  && s == Pad4(d.year) + "-" + (ms + "-" + ds);
    var t := ms + "-" + ds;
    YearPrefix(d.year, t);
    MatchMonthDayComplete(d.year, d.month, d.day, ms, ds);
  }

  /** Every spelling of a valid date parses to that date. */
  lemma ParseDateComplete(s: string, d: Date)
    requires ValidDate(d) && Spells(s, d)
    ensures ParseDate(s) == Some(d)
  {
    MatchDateComplete(s, d);
  }

  /** The parser accepts exactly the spellings of valid dates: four digits,
      `-`, a month 1-12 in one or two digits, `-`, a day that exists in that
      month (in two digits, one digit, or a space and one digit), nothing more. */
  lemma ParseDateIff(s: string, d: Date)
    ensures ParseDate(s) == Some(d) <==> ValidDate(d) && Spells(s, d)
  {
    if ParseDate(s) == Some(d) {
      ParseDateSound(s);
    }
    if ValidDate(d) && Spells(s, d) {
      ParseDateComplete(s, d);
    }
  }

  /** Text the parser accepts always carries a year of four characters,
      so for instance "15-06-2024" and "2024/01/01" are rejected. */
  lemma ParseDateNeedsYearAndDash(s: string)
    requires ParseDate(s).Some?
    ensures 8 <= |s| <= 10 && s[4] == '-'
    ensures forall i :: 0 <= i < 4 ==> IsDigit(s[i])
  {
    ParseDateSound(s);
  }

  /** Formatting a date and parsing the text gives the date back; this is the
      default the new-entry form shows. */
  lemma FormatParseRoundTrip(d: Date)
    requires ValidDate(d)
    ensures ParseDate(FormatDate(d)) == Some(d)
  {
    assert Pad2(d.month) in MonthSpellings(d.month);
    assert Pad2(d.day) in DaySpellings(d.day);
    ParseDateComplete(FormatDate(d), d);
  }

  /** A zero-padded spelling is accepted. */
  lemma ParseDateAcceptsPadded()
    ensures ParseDate("2024-06-15") == Some(Date(2024, 6, 15))
  {
  }

  /** February 29 of a leap year is accepted. */
  lemma ParseDateAcceptsLeapDay()
    ensures ParseDate("2024-02-29") == Some(Date(2024, 2, 29))
  {
  }

  /** A one-digit month and a one-digit day are accepted. */
  lemma ParseDateAcceptsShortFields()
    ensures ParseDate("2024-6-5") == Some(Date(2024, 6, 5))
  {
  }

  /** A space before a one-digit day is accepted. */
  lemma ParseDateAcceptsSpacedDay()
    ensures ParseDate("2024-06- 5") == Some(Date(2024, 6, 5))
  {
  }

  /** February 29 of a year not divisible by 4 is refused. */
  lemma ParseDateRefusesLeapDay()
    ensures ParseDate("2023-02-29") == None
  {
  }

  /** February 29 of a century year not divisible by 400 is refused. */
  lemma ParseDateRefusesCenturyLeapDay()
    ensures ParseDate("1900-02-29") == None
  {
  }

  /** A month, day or year out of range is refused. */
  lemma ParseDateRefusesRanges()
    ensures ParseDate("2024-13-01") == None
    ensures ParseDate("2024-01-32") == None
    ensures ParseDate("0000-01-01") == None
  {
  }

  /** Other layouts, and surrounding spaces, are refused. */
  lemma ParseDateRefusesLayouts()
    ensures ParseDate("15-06-2024") == None
    ensures ParseDate("2024/01/01") == None
    ensures ParseDate("2024-06-15 ") == None
    ensures ParseDate(" 2024-06-15") == None
  {
  }
}
