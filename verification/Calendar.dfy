/** Dates of birth: the overflow test of the parser and the age in years. Days
    are numbered as ECMAScript numbers them, from 1970-01-01. */
module Calendar {
  import opened Wrappers

  datatype Date = Date(year: int, month: int, day: int)

  // ----- the Gregorian calendar --------------------------------------------------------------

  predicate IsLeap(y: int) { y % 4 == 0 && (y % 100 != 0 || y % 400 == 0) }

  /** In the range of the parser every fourth year, except 1900 and 2100. */
  lemma LeapYears(y: int)
    requires 1900 <= y <= 2100
    ensures IsLeap(y) <==> y % 4 == 0 && y != 1900 && y != 2100
  {}

  function DaysInMonth(y: int, m: int): (n: int)
    ensures 28 <= n <= 31
  {
    if m == 2 then (if IsLeap(y) then 29 else 28)
    else if m == 4 || m == 6 || m == 9 || m == 11 then 30
    else 31
  }

  predicate IsRealDate(y: int, m: int, d: int) {
    1 <= m <= 12 && 1 <= d <= DaysInMonth(y, m)
  }

  // ----- the day numbers of ECMAScript ------------------------------------------------------------

  /** The number of the first day of a year. */
  function DayFromYear(y: int): int {
    365 * (y - 1970) + (y - 1969) / 4 - (y - 1901) / 100 + (y - 1601) / 400
  }

  /** Days of the year before the month m. */
  function DaysBefore(y: int, m: int): int
    requires 1 <= m <= 13
  {
    if m == 1 then 0 else DaysBefore(y, m - 1) + DaysInMonth(y, m - 1)
  }

  /** Date.UTC for a month in range, as a day number; the day may overflow. */
  function DayNumber(y: int, m: int, d: int): int
    requires 1 <= m <= 12
  {
    DayFromYear(y) + DaysBefore(y, m) + d - 1
  }

  /** The year that contains a day, searched from a guess. */
  function YearOf(n: int, guess: int): (y: int)
    ensures DayFromYear(y) <= n < DayFromYear(y + 1)
    decreases if n < DayFromYear(guess) then DayFromYear(guess) - n else n - DayFromYear(guess),
              if n < DayFromYear(guess) then 1 else 0
  {
    hide DayFromYear;
    YearBound(guess);
    YearBound(guess - 1);
    if n < DayFromYear(guess) then
      if n >= DayFromYear(guess - 1) then guess - 1 else YearOf(n, guess - 1)
    else if n >= DayFromYear(guess + 1) then YearOf(n, guess + 1)
    else guess
  }

  /** The month that contains day k of a year, searched from a month on. */
  function MonthOf(y: int, k: int, from: int): (m: int)
    requires 1 <= from <= 12 && DaysBefore(y, from) <= k < DaysBefore(y, 13)
    ensures from <= m <= 12 && DaysBefore(y, m) <= k < DaysBefore(y, m + 1)
    decreases 13 - from
  {
    if k < DaysBefore(y, from + 1) then from else MonthOf(y, k, from + 1)
  }

  /** The calendar date of a day number, as the getters of Date return it. */
  function DateOf(n: int): Date {
    var y := YearOf(n, 1970);
    YearLength(y);
    var k := n - DayFromYear(y);
    var m := MonthOf(y, k, 1);
    Date(y, m, k - DaysBefore(y, m) + 1)
  }

  lemma YearLength(y: int)
    ensures DayFromYear(y + 1) - DayFromYear(y) == if IsLeap(y) then 366 else 365
    ensures DaysBefore(y, 13) == if IsLeap(y) then 366 else 365
  {
    YearSpan(y);
    MonthStarts(y);
    hide DayFromYear, IsLeap, DaysBefore;
  }

  lemma YearSpan(y: int)
    ensures DayFromYear(y + 1) - DayFromYear(y) == if IsLeap(y) then 366 else 365
  {
    var four, hundred := y % 4 == 0, y % 100 == 0;
    FourthStep(y);
    CenturyStep(y);
    CycleStep(y);
    Multiples(y);
    assert IsLeap(y) <==> four && (!hundred || y % 400 == 0);
    hide IsLeap;
    assert DayFromYear(y + 1) == 365 * (y - 1969) + (y - 1968) / 4 - (y - 1900) / 100 + (y - 1600) / 400;
  }

  lemma YearBound(y: int)
    ensures DayFromYear(y) + 365 <= DayFromYear(y + 1) <= DayFromYear(y) + 366
  {
    YearLength(y);
    hide DayFromYear, IsLeap;
  }

  lemma FourthStep(y: int)
    ensures (y - 1968) / 4 == (y - 1969) / 4 + if y % 4 == 0 then 1 else 0
  {}

  lemma CenturyStep(y: int)
    ensures (y - 1900) / 100 == (y - 1901) / 100 + if y % 100 == 0 then 1 else 0
  {}

  lemma CycleStep(y: int)
    ensures (y - 1600) / 400 == (y - 1601) / 400 + if y % 400 == 0 then 1 else 0
  {}

  lemma Multiples(y: int)
    ensures y % 400 == 0 ==> y % 100 == 0
    ensures y % 100 == 0 ==> y % 4 == 0
  {
    if y % 400 == 0 {
      assert y == 100 * (4 * (y / 400));
      HundredTimes(4 * (y / 400));
    }
    if y % 100 == 0 {
      assert y == 4 * (25 * (y / 100));
      FourTimes(25 * (y / 100));
    }
  }

  lemma HundredTimes(k: int)
    ensures 100 * k % 100 == 0
  {}

  lemma FourTimes(k: int)
    ensures 4 * k % 4 == 0
  {}

  lemma MonthStarts(y: int)
    ensures var f := DaysInMonth(y, 2);
      && DaysBefore(y, 2) == 31 && DaysBefore(y, 3) == 31 + f
      && DaysBefore(y, 7) == 153 + f && DaysBefore(y, 13) == 337 + f
  {
    assert DaysBefore(y, 4) == DaysBefore(y, 3) + 31;
    assert DaysBefore(y, 5) == DaysBefore(y, 4) + 30;
    assert DaysBefore(y, 6) == DaysBefore(y, 5) + 31;
    assert DaysBefore(y, 8) == DaysBefore(y, 7) + 31;
    assert DaysBefore(y, 9) == DaysBefore(y, 8) + 31;
    assert DaysBefore(y, 10) == DaysBefore(y, 9) + 30;
    assert DaysBefore(y, 11) == DaysBefore(y, 10) + 31;
    assert DaysBefore(y, 12) == DaysBefore(y, 11) + 30;
  }

  lemma {:induction false} YearsAscend(a: int, b: int)
    requires a <= b
    ensures DayFromYear(a) <= DayFromYear(b)
    decreases b - a
  {
    if a < b {
      YearsAscend(a, b - 1);
      YearLength(b - 1);
    }
  }

  lemma {:induction false} MonthsAscend(y: int, a: int, b: int)
    requires 1 <= a <= b <= 13
    ensures DaysBefore(y, a) <= DaysBefore(y, b)
    decreases b - a
  {
    if a < b {
      MonthsAscend(y, a, b - 1);
    }
  }

  lemma YearIsUnique(n: int, y: int)
    requires DayFromYear(y) <= n < DayFromYear(y + 1)
    ensures YearOf(n, 1970) == y
  {
    var y' := YearOf(n, 1970);
    hide DayFromYear, YearOf;
    if y' < y {
      YearsAscend(y' + 1, y);
    } else if y' > y {
      YearsAscend(y + 1, y');
    }
  }

  lemma MonthIsUnique(y: int, k: int, m: int)
    requires 1 <= m <= 12 && 0 <= k < DaysBefore(y, 13) && DaysBefore(y, m) <= k < DaysBefore(y, m + 1)
    ensures MonthOf(y, k, 1) == m
  {
    var m' := MonthOf(y, k, 1);
    hide MonthOf;
    if m' < m {
      MonthsAscend(y, m' + 1, m);
    } else if m' > m {
      MonthsAscend(y, m + 1, m');
    }
  }

  /** A day belongs to one year and one month. */
  lemma DateIsUnique(y: int, m: int, d: int)
    requires IsRealDate(y, m, d)
    ensures DateOf(DayNumber(y, m, d)) == Date(y, m, d)
  {
    var n, k := DayNumber(y, m, d), DaysBefore(y, m) + d - 1;
    MonthsAscend(y, 1, m);
    MonthsAscend(y, m + 1, 13);
    YearLength(y);
    assert k < DaysBefore(y, m + 1);
    hide DayFromYear, YearOf, MonthOf, DaysInMonth;
    YearIsUnique(n, y);
    MonthIsUnique(y, k, m);
  }

  /** Only short months overflow, and the next month has room for the rest. */
  lemma RoomInNextMonth(y: int, m: int, d: int)
    requires 1 <= m <= 12 && DaysInMonth(y, m) < d <= 31
    ensures m < 12 && 1 <= d - DaysInMonth(y, m) <= DaysInMonth(y, m + 1)
  {
    hide IsLeap;
  }

  /** A day beyond the end of its month, up to the 31st, is read back as a day
      of the next month of the same year. */
  lemma OverflowIsNextMonth(y: int, m: int, d: int)
    requires 1 <= m <= 12 && DaysInMonth(y, m) < d <= 31
    ensures DateOf(DayNumber(y, m, d)) == Date(y, m + 1, d - DaysInMonth(y, m))
  {
    hide DayFromYear, DateOf, DaysInMonth;
    RoomInNextMonth(y, m, d);
    assert DaysBefore(y, m + 1) == DaysBefore(y, m) + DaysInMonth(y, m);
    hide DaysBefore;
    DateIsUnique(y, m + 1, d - DaysInMonth(y, m));
  }

  // ----- parsing ----------------------------------------------------------------------------------------

  predicate IsDigit(c: char) { '0' <= c <= '9' }

  function DigitValue(c: char): int
    requires IsDigit(c)
  {
    c as int - '0' as int
  }

  /** The number spelled by decimal digits. */
  function Number(s: string): int
    requires forall i :: 0 <= i < |s| ==> IsDigit(s[i])
  {
    if s == "" then 0 else Number(s[..|s| - 1]) * 10 + DigitValue(s[|s| - 1])
  }

  predicate StartsWithEightDigits(raw: string) {
    |raw| >= 8 && forall i :: 0 <= i < 8 ==> IsDigit(raw[i])
  }

  /** parseDOBString: range tests, then the date is built, read back and compared. */
  function ParseDob(raw: string): Option<Date> {
    if !StartsWithEightDigits(raw) then None
    else
      var y, m, d := Number(raw[..4]), Number(raw[4..6]), Number(raw[6..8]);
      if m < 1 || m > 12 || d < 1 || d > 31 then None
      else if y < 1900 || y > 2100 then None
      else
        var back := DateOf(DayNumber(y, m, d));
        if back.year != y || back.month != m || back.day != d then None else Some(back)
  }

  /** The parser accepts exactly the real dates of the years 1900 to 2100. */
  lemma ParsesRealDates(raw: string)
    ensures ParseDob(raw).Some? <==>
      && StartsWithEightDigits(raw)
      && 1900 <= Number(raw[..4]) <= 2100
      && IsRealDate(Number(raw[..4]), Number(raw[4..6]), Number(raw[6..8]))
    ensures ParseDob(raw).Some? ==>
      ParseDob(raw).value == Date(Number(raw[..4]), Number(raw[4..6]), Number(raw[6..8]))
  {
    if StartsWithEightDigits(raw) {
      var y, m, d := Number(raw[..4]), Number(raw[4..6]), Number(raw[6..8]);
      if 1 <= m <= 12 && 1 <= d <= 31 {
        if IsRealDate(y, m, d) {
          DateIsUnique(y, m, d);
        } else {
          OverflowIsNextMonth(y, m, d);
        }
      }
    }
  }

  /** The decimal digit of v. */
  function Digit(v: int): (c: char)
    requires 0 <= v < 10
    ensures IsDigit(c) && DigitValue(c) == v
  {
    "0123456789"[v]
  }

  /** A date as the certificate writes it: four digits of the year, two of the
      month, two of the day. */
  function DateText(y: int, m: int, d: int): (s: string)
    requires 0 <= y < 10000 && 0 <= m < 100 && 0 <= d < 100
    ensures |s| == 8
  {
    [Digit(y / 1000), Digit(y / 100 % 10), Digit(y / 10 % 10), Digit(y % 10),
     Digit(m / 10), Digit(m % 10), Digit(d / 10), Digit(d % 10)]
  }

  /** Two digits spell ten times the first and the second. */
  lemma TwoDigits(s: string)
    requires |s| == 2 && forall i :: 0 <= i < |s| ==> IsDigit(s[i])
    ensures Number(s) == 10 * DigitValue(s[0]) + DigitValue(s[1])
  {
    assert Number(s[..1]) == Number(s[..1][..0]) * 10 + DigitValue(s[0]);
    assert s[..1][..0] == "";
  }

  lemma FourDigits(s: string)
    requires |s| == 4 && forall i :: 0 <= i < |s| ==> IsDigit(s[i])
    ensures Number(s)
         == 1000 * DigitValue(s[0]) + 100 * DigitValue(s[1]) + 10 * DigitValue(s[2]) + DigitValue(s[3])
  {
    TwoDigits(s[..2]);
    assert s[..3][..2] == s[..2];
    assert Number(s[..3]) == Number(s[..2]) * 10 + DigitValue(s[2]);
    assert Number(s) == Number(s[..3]) * 10 + DigitValue(s[3]);
  }

  lemma DigitsBack(a: int, b: int, c: int, d: int)
    requires 0 <= a < 10 && 0 <= b < 10 && 0 <= c < 10 && 0 <= d < 10
    ensures var y := 1000 * a + 100 * b + 10 * c + d;
      0 <= y < 10000 && y / 1000 == a && y / 100 % 10 == b && y / 10 % 10 == c && y % 10 == d
  {
    var y := 1000 * a + 100 * b + 10 * c + d;
    assert y / 100 == 10 * a + b && y / 10 == 100 * a + 10 * b + c;
  }

  /** The written date spells its numbers. */
  lemma WrittenNumbers(y: int, m: int, d: int)
    requires 0 <= y < 10000 && 0 <= m < 100 && 0 <= d < 100
    ensures var t := DateText(y, m, d);
      StartsWithEightDigits(t) && Number(t[..4]) == y && Number(t[4..6]) == m && Number(t[6..8]) == d
  {
    var t := DateText(y, m, d);
    hide Digit, DigitValue, IsDigit;
    FourDigits(t[..4]);
    TwoDigits(t[4..6]);
    TwoDigits(t[6..8]);
    hide Number, DateText;
    YearDigits(y);
    SmallDigits(m);
    SmallDigits(d);
  }

  lemma YearIsWritten(s: string, y: int)
    requires |s| == 4 && (forall i :: 0 <= i < |s| ==> IsDigit(s[i])) && Number(s) == y
    ensures 0 <= y < 10000
    ensures s == [Digit(y / 1000), Digit(y / 100 % 10), Digit(y / 10 % 10), Digit(y % 10)]
  {
    FourDigits(s);
    DigitsBack(DigitValue(s[0]), DigitValue(s[1]), DigitValue(s[2]), DigitValue(s[3]));
    hide Number;
    SameDigits(s, [Digit(y / 1000), Digit(y / 100 % 10), Digit(y / 10 % 10), Digit(y % 10)]);
  }

  lemma PairIsWritten(s: string, v: int)
    requires |s| == 2 && (forall i :: 0 <= i < |s| ==> IsDigit(s[i])) && Number(s) == v
    ensures 0 <= v < 100
    ensures s == [Digit(v / 10), Digit(v % 10)]
  {
    TwoDigits(s);
    hide Number;
    SameDigits(s, [Digit(v / 10), Digit(v % 10)]);
  }

  /** Eight digits are the written form of the numbers that they spell. */
  lemma EightDigits(s: string)
    requires |s| == 8 && forall i :: 0 <= i < 8 ==> IsDigit(s[i])
    ensures 0 <= Number(s[..4]) < 10000 && 0 <= Number(s[4..6]) < 100 && 0 <= Number(s[6..8]) < 100
    ensures s == DateText(Number(s[..4]), Number(s[4..6]), Number(s[6..8]))
  {
    YearIsWritten(s[..4], Number(s[..4]));
    PairIsWritten(s[4..6], Number(s[4..6]));
    PairIsWritten(s[6..8], Number(s[6..8]));
    hide Number, Digit;
    assert s == s[..4] + s[4..6] + s[6..8];
  }

  lemma YearDigits(y: int)
    requires 0 <= y < 10000
    ensures y == 1000 * (y / 1000) + 100 * (y / 100 % 10) + 10 * (y / 10 % 10) + y % 10
  {
    assert y / 100 == y / 10 / 10 && y / 1000 == y / 10 / 10 / 10;
  }

  lemma SmallDigits(v: int)
    requires 0 <= v < 100
    ensures v == 10 * (v / 10) + v % 10 && 0 <= v / 10 < 10
  {}

  lemma SameDigits(s: string, t: string)
    requires |s| == |t| && forall i :: 0 <= i < |s| ==> IsDigit(s[i]) && IsDigit(t[i])
    requires forall i :: 0 <= i < |s| ==> DigitValue(s[i]) == DigitValue(t[i])
    ensures s == t
  {}

  /** The parser against the writer: a text is accepted as a date exactly when the
      date is real, of the years 1900 to 2100, and the text starts with it. */
  lemma ParsesWritten(raw: string, date: Date)
    ensures ParseDob(raw) == Some(date) <==>
      && 1900 <= date.year <= 2100 && IsRealDate(date.year, date.month, date.day)
      && |raw| >= 8 && raw[..8] == DateText(date.year, date.month, date.day)
  {
    ParsesRealDates(raw);
    var y, m, d := date.year, date.month, date.day;
    hide ParseDob, Number, DaysInMonth, DateText;
    if StartsWithEightDigits(raw) {
      var s := raw[..8];
      assert s[..4] == raw[..4] && s[4..6] == raw[4..6] && s[6..8] == raw[6..8];
      EightDigits(s);
    }
    if 1900 <= y <= 2100 && IsRealDate(y, m, d) && |raw| >= 8 && raw[..8] == DateText(y, m, d) {
      WrittenNumbers(y, m, d);
      var s := raw[..8];
      assert s[..4] == raw[..4] && s[4..6] == raw[4..6] && s[6..8] == raw[6..8];
      assert forall i :: 0 <= i < 8 ==> raw[i] == s[i];
    }
  }

  // ----- age ----------------------------------------------------------------------------------------------

  /** ageInYears; the months compare as they do when counted from zero. */
  method AgeInYears(dob: Date, now: Date) returns (age: int)
    ensures age == Age(dob, now)
  {
    age := now.year - dob.year;
    var m := now.month - dob.month;
    if m < 0 || (m == 0 && now.day < dob.day) {
      age := age - 1;
    }
    age := if age < 0 then 0 else age;
  }

  function Age(dob: Date, now: Date): int {
    var early := now.month < dob.month || (now.month == dob.month && now.day < dob.day);
    var age := now.year - dob.year - if early then 1 else 0;
    if age < 0 then 0 else age
  }

  /** Not later than, year first. */
  predicate NotAfter(a: Date, b: Date) {
    a.year < b.year || (a.year == b.year && (a.month < b.month || (a.month == b.month && a.day <= b.day)))
  }

  /** On real dates that is the order of the days. */
  lemma NotAfterIsDayOrder(a: Date, b: Date)
    requires IsRealDate(a.year, a.month, a.day) && IsRealDate(b.year, b.month, b.day)
    ensures NotAfter(a, b) <==> DayNumber(a.year, a.month, a.day) <= DayNumber(b.year, b.month, b.day)
  {
    if NotAfter(a, b) {
      EarlierHasSmallerNumber(a, b);
    } else {
      EarlierHasSmallerNumber(b, a);
      if DayNumber(a.year, a.month, a.day) == DayNumber(b.year, b.month, b.day) {
        DateIsUnique(a.year, a.month, a.day);
        DateIsUnique(b.year, b.month, b.day);
      }
    }
  }

  lemma EarlierHasSmallerNumber(a: Date, b: Date)
    requires IsRealDate(a.year, a.month, a.day) && IsRealDate(b.year, b.month, b.day) && NotAfter(a, b)
    ensures DayNumber(a.year, a.month, a.day) <= DayNumber(b.year, b.month, b.day)
  {
    YearLength(a.year);
    hide DayFromYear, DaysInMonth, IsLeap;
    MonthsAscend(a.year, a.month + 1, 13);
    MonthsAscend(b.year, 1, b.month);
    if a.year < b.year {
      YearsAscend(a.year + 1, b.year);
    } else if a.month < b.month {
      MonthsAscend(a.year, a.month + 1, b.month);
    }
  }

  /** The day after a real date has the next number, and day 0 is 1970-01-01. */
  lemma NextDay(y: int, m: int, d: int)
    requires IsRealDate(y, m, d)
    ensures DayNumber(1970, 1, 1) == 0
    ensures DayNumber(y, m, d) + 1
         == if d < DaysInMonth(y, m) then DayNumber(y, m, d + 1)
            else if m < 12 then DayNumber(y, m + 1, 1)
            else DayNumber(y + 1, 1, 1)
  {
    YearLength(y);
  }

  function Birthday(dob: Date, n: int): Date { Date(dob.year + n, dob.month, dob.day) }

  /** The age is the number of the last birthday that is not in the future, and
      0 when even the birth is. */
  lemma AgeIsLastBirthday(dob: Date, now: Date)
    ensures Age(dob, now) >= 0
    ensures Age(dob, now) > 0 || NotAfter(dob, now) ==> NotAfter(Birthday(dob, Age(dob, now)), now)
    ensures forall n :: n > Age(dob, now) ==> !NotAfter(Birthday(dob, n), now)
  {}

  /** The age gate: someone is at least n years old exactly from the n-th
      birthday on, so the verdict never goes back. */
  lemma AgeGate(dob: Date, now: Date, n: int)
    requires n > 0
    ensures Age(dob, now) >= n <==> NotAfter(Birthday(dob, n), now)
  {}

  lemma AgeIsMonotone(dob: Date, now: Date, later: Date)
    requires NotAfter(now, later)
    ensures Age(dob, now) <= Age(dob, later)
  {
    var n := Age(dob, now);
    if n > 0 {
      AgeGate(dob, now, n);
      AgeGate(dob, later, n);
    }
  }
}
