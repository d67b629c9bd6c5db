/** Calendar dates as the validators use them: `datetime.strptime(s,
    "%d-%m-%Y")`, the ordering of the resulting datetimes, and `now`, which
    the model takes as a parameter instead of reading the clock. */
module Dates {
  import opened Wrappers
  import opened Text
  import opened Numerals

  datatype Date = Date(day: nat, month: nat, year: nat)

  predicate LeapYear(year: nat) {
    year % 4 == 0 && (year % 100 != 0 || year % 400 == 0)
  }

  function DaysInMonth(month: nat, year: nat): nat {
    if month == 2 then (if LeapYear(year) then 29 else 28)
    else if month == 4 || month == 6 || month == 9 || month == 11 then 30
    else 31
  }

  /** A date `datetime` can represent: years 1 to 9999. */
  predicate ValidDate(d: Date) {
    && 1 <= d.year <= 9999
    && 1 <= d.month <= 12
    && 1 <= d.day <= DaysInMonth(d.month, d.year)
  }

  /** `a < b` on two datetimes taken at the same time of day. */
  predicate Before(a: Date, b: Date) {
    || a.year < b.year
    || (a.year == b.year && a.month < b.month)
    || (a.year == b.year && a.month == b.month && a.day < b.day)
  }

  /** `datetime.now()`: today's date and the microseconds elapsed since its
      midnight. */
  datatype Clock = Clock(today: Date, sinceMidnight: nat)

  /** The midnight that starts `d` is strictly earlier than `now`, that is,
      `strptime(...) < datetime.now()`. */
  predicate EarlierThan(d: Date, now: Clock) {
    Before(d, now.today) || (d == now.today && now.sinceMidnight > 0)
  }

  /** The ten characters `dd-mm-yyyy` with ASCII digits in the numbered
      places. */
  predicate DateShape(s: string) {
    && |s| == 10 && s[2] == '-' && s[5] == '-'
    && IsDigit(s[0]) && IsDigit(s[1]) && IsDigit(s[3]) && IsDigit(s[4])
    && AllDigits(s[6..10])
  }

  /** The date that zero-padded `dd-mm-yyyy` text names, when `datetime`
      can represent it. */
  function PaddedDate(s: string): (r: Option<Date>)
    ensures r.Some? ==> ValidDate(r.value) && DateShape(s)
  {
    if DateShape(s) then
      var d := Date(CharDigit(s[0]) * 10 + CharDigit(s[1]),
                    CharDigit(s[3]) * 10 + CharDigit(s[4]),
                    DigitsValue(s[6..10]));
      if ValidDate(d) then Some(d) else None
    else None
  }

  /** The number a `%d` or `%m` field reads: one digit, two digits, or, for
      the day only, a space and a digit. These are the shapes the regular
      expressions of `%d` (`3[01]|[12]\d|0[1-9]|[1-9]| [1-9]`) and `%m`
      (`1[0-2]|0[1-9]|[1-9]`) take; the values outside 1 to 31 and 1 to 12
      they also exclude are left to `ValidDate`. */
  function SmallNumber(t: string, spaced: bool): Option<nat> {
    if |t| == 1 && IsDigit(t[0]) then Some(CharDigit(t[0]))
    else if |t| == 2 && IsDigit(t[0]) && IsDigit(t[1]) then Some(CharDigit(t[0]) * 10 + CharDigit(t[1]))
    else if |t| == 2 && spaced && t[0] == ' ' && IsDigit(t[1]) then Some(CharDigit(t[1]))
    else None
  }

  /** `datetime.strptime(s, "%d-%m-%Y")`: a day, a month and a four-digit
      year separated by `-`, with nothing before or after, naming a day
      that exists; otherwise `ValueError`, here `None`. No field holds a
      `-`, so the fields are the pieces of `s.split('-')`. */
  function ParseDate(s: string): (r: Option<Date>)
    ensures r.Some? ==> ValidDate(r.value)
  {
    var p := Split(s, '-');
    if |p| != 3 || |p[2]| != 4 || !AllDigits(p[2]) then None
    else match (SmallNumber(p[0], true), SmallNumber(p[1], false))
      case (Some(day), Some(month)) =>
        var d := Date(day, month, DigitsValue(p[2]));
        if ValidDate(d) then Some(d) else None
      case _ => None
  }

  /** Text without the separator is a single piece. */
  lemma {:induction false} SplitWhole(t: string, sep: char)
    requires sep !in t
    ensures Split(t, sep) == [t]
  {
    SplitJoin([t], sep);
  }

  /** The pieces of `a-b-c` when no part holds a `-`. */
  lemma {:induction false} SplitThree(a: string, b: string, c: string)
    requires '-' !in a && '-' !in b && '-' !in c
    ensures Split(a + "-" + b + "-" + c, '-') == [a, b, c]
  {
    SplitWhole(c, '-');
    SplitAtSep(b, c, '-');
    SplitAtSep(a, b + "-" + c, '-');
    assert a + "-" + b + "-" + c == a + ['-'] + (b + ['-'] + c);
  }

  /** On zero-padded `dd-mm-yyyy` text, `strptime` reads the date the text
      names. */
  lemma PaddedParses(s: string)
    requires DateShape(s)
    ensures ParseDate(s) == PaddedDate(s)
  {
    var a, b, c := s[..2], s[3..5], s[6..10];
    assert s == a + "-" + b + "-" + c;
    assert '-' !in c by { assert forall i :: 0 <= i < 4 ==> c[i] == s[6 + i]; }
    SplitThree(a, b, c);
  }

  /** `dd-mm-yyyy` followed by one more character is never a date: the
      character is left unconverted, or it is a fourth `-`. */
  lemma ParseLongDate(s: string)
    requires |s| == 11 && DateShape(s[..10])
    ensures ParseDate(s) == None
  {
    var a, b, t := s[..2], s[3..5], s[6..];
    assert '-' !in a by { assert a[0] == s[0] && a[1] == s[1]; }
    assert '-' !in b by { assert b[0] == s[3] && b[1] == s[4]; }
    assert s == a + ['-'] + (b + ['-'] + t);
    SplitAtSep(b, t, '-');
    SplitAtSep(a, b + ['-'] + t, '-');
    assert Split(s, '-') == [a, b] + Split(t, '-');
    var y := s[6..10];
    assert '-' !in y by {
      assert y == s[..10][6..10];
      assert forall i :: 0 <= i < 4 ==> IsDigit(y[i]);
    }
    if s[10] == '-' {
      assert t == y + ['-'] + "";
      SplitAtSep(y, "", '-');
    } else {
      assert t == y + [s[10]];
      SplitWhole(t, '-');
    }
  }

  function TwoDigits(n: nat): string
    requires n < 100
  {
    [DigitChar(n / 10), DigitChar(n % 10)]
  }

  function FourDigits(n: nat): string
    requires n < 10000
  {
    [DigitChar(n / 1000), DigitChar(n / 100 % 10), DigitChar(n / 10 % 10), DigitChar(n % 10)]
  }

  /** `d.strftime("%d-%m-%Y")`. */
  function ShowDate(d: Date): string
    requires ValidDate(d)
  {
    TwoDigits(d.day) + "-" + TwoDigits(d.month) + "-" + FourDigits(d.year)
  }

  lemma FourCharsValue(a: Digit, b: Digit, c: Digit, d: Digit)
    ensures var s := [DigitChar(a), DigitChar(b), DigitChar(c), DigitChar(d)];
      AllDigits(s) && DigitsValue(s) == ((a * 10 + b) * 10 + c) * 10 + d
  {
    var s := [DigitChar(a), DigitChar(b), DigitChar(c), DigitChar(d)];
    assert s[..1] == [DigitChar(a)];
    assert DigitsValue(s[..1]) == a;
    assert s[..2][..1] == s[..1];
    assert DigitsValue(s[..2]) == a * 10 + b;
    assert s[..3][..2] == s[..2];
    assert DigitsValue(s[..3]) == (a * 10 + b) * 10 + c;
    assert s[..4][..3] == s[..3];
    assert s[..4] == s;
  }

  lemma PlaceValues(n: nat)
    requires n < 10000
    ensures n == ((n / 1000 * 10 + n / 100 % 10) * 10 + n / 10 % 10) * 10 + n % 10
  {
    assert n / 100 == n / 1000 * 10 + n / 100 % 10;
    assert n / 10 == n / 100 * 10 + n / 10 % 10;
  }

  lemma FourDigitsValue(n: nat)
    requires n < 10000
    ensures AllDigits(FourDigits(n)) && DigitsValue(FourDigits(n)) == n
  {
    FourCharsValue(n / 1000, n / 100 % 10, n / 10 % 10, n % 10);
    PlaceValues(n);
  }

  /** Every representable date prints as text `strptime` reads back as the
      same date. */
  lemma ParseShowDate(d: Date)
    requires ValidDate(d)
    ensures PaddedDate(ShowDate(d)) == Some(d)
    ensures ParseDate(ShowDate(d)) == Some(d)
  {
    var s := ShowDate(d);
    FourDigitsValue(d.year);
    assert s[6..10] == FourDigits(d.year);
    PaddedParses(s);
  }

  /** The texts `%d` accepts for a day of the month: two digits, and below
      10 also one digit or a space and a digit. */
  function DayTexts(n: nat): set<string>
    requires n < 100
  {
    {TwoDigits(n)} + (if n < 10 then {[DigitChar(n)], [' ', DigitChar(n)]} else {})
  }

  /** The texts `%m` accepts for a month: two digits, and below 10 also one
      digit. */
  function MonthTexts(n: nat): set<string>
    requires n < 100
  {
    {TwoDigits(n)} + (if n < 10 then {[DigitChar(n)]} else {})
  }

  lemma SmallNumberReads(t: string, n: nat, spaced: bool)
    requires n < 100
    requires t in (if spaced then DayTexts(n) else MonthTexts(n))
    ensures SmallNumber(t, spaced) == Some(n)
    ensures '-' !in t
  {
  }

  /** `strptime` also reads a day or month written without its leading zero,
      and a day padded with a space instead. */
  lemma ParseDateForms(d: Date, day: string, month: string)
    requires ValidDate(d)
    requires day in DayTexts(d.day) && month in MonthTexts(d.month)
    ensures ParseDate(day + "-" + month + "-" + FourDigits(d.year)) == Some(d)
  {
    var y := FourDigits(d.year);
    FourDigitsValue(d.year);
    SmallNumberReads(day, d.day, true);
    SmallNumberReads(month, d.month, false);
    assert '-' !in y by { assert forall i :: 0 <= i < 4 ==> IsDigit(y[i]); }
    SplitThree(day, month, y);
  }
}
