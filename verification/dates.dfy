/** Calendar dates as the tracker stores them: the `yyyy-mm-dd` text a date
    input produces, and the time value `new Date(text).getTime()` gives it
    (a date-only ISO form is read as midnight UTC of that day). */
module Dates {
  import opened Decimal

  const MsPerDay: int := 86_400_000

  predicate IsLeapYear(y: nat) {
    y % 4 == 0 && (y % 100 != 0 || y % 400 == 0)
  }

  function DaysInYear(y: nat): nat {
    if IsLeapYear(y) then 366 else 365
  }

  function DaysInMonth(y: nat, m: nat): nat
    requires 1 <= m <= 12
  {
    if m == 2 then (if IsLeapYear(y) then 29 else 28)
    else if m == 4 || m == 6 || m == 9 || m == 11 then 30
    else 31
  }

  /** Days from 0000-01-01 to the first day of year `y` (proleptic Gregorian). */
  function DaysBeforeYear(y: nat): nat {
    if y == 0 then 0 else DaysBeforeYear(y - 1) + DaysInYear(y - 1)
  }

  /** Days from the first of January of year `y` to the first day of month `m`. */
  function DaysBeforeMonth(y: nat, m: nat): nat
    requires 1 <= m <= 12
  {
    [0, 31, 59, 90, 120, 151, 181, 212, 243, 273, 304, 334][m - 1]
    + (if m > 2 && IsLeapYear(y) then 1 else 0)
  }

  predicate Shaped(s: string) {
    |s| == 10 && s[4] == '-' && s[7] == '-' &&
    AllDigits(s[..4]) && AllDigits(s[5..7]) && AllDigits(s[8..])
  }

  function Year(s: string): nat
    requires Shaped(s)
  {
    DigitsValue(s[..4])
  }

  function Month(s: string): nat
    requires Shaped(s)
  {
    DigitsValue(s[5..7])
  }

  function Day(s: string): nat
    requires Shaped(s)
  {
    DigitsValue(s[8..])
  }

  /** A calendar date written `yyyy-mm-dd` that names a day that exists. */
  predicate WellFormedDate(s: string) {
    Shaped(s) && 1 <= Month(s) <= 12 && 1 <= Day(s) <= DaysInMonth(Year(s), Month(s))
  }

  /** The number of days from 0000-01-01 to the date `s`. */
  function DayNumber(s: string): (d: nat)
    requires WellFormedDate(s)
    ensures DaysBeforeYear(Year(s)) <= d < DaysBeforeYear(Year(s)) + DaysInYear(Year(s))
  {
    DayOfYearBound(Year(s), Month(s), Day(s));
    DaysBeforeYear(Year(s)) + DaysBeforeMonth(Year(s), Month(s)) + Day(s) - 1
  }

  /** `new Date(s).getTime()`: milliseconds from 1970-01-01T00:00:00Z to
      midnight UTC at the start of the date `s`. */
  function TimeValue(s: string): (t: int)
    requires WellFormedDate(s)
    ensures t % MsPerDay == 0
  {
    (DayNumber(s) - DaysBeforeYear(1970)) * MsPerDay
  }

  /** `s` names an earlier day than `t`: year, then month, then day. */
  predicate DateBefore(s: string, t: string)
    requires Shaped(s) && Shaped(t)
  {
    Year(s) < Year(t) ||
    (Year(s) == Year(t) && Month(s) < Month(t)) ||
    (Year(s) == Year(t) && Month(s) == Month(t) && Day(s) < Day(t))
  }

  /** A year's days all come before the next year's first day. */
  lemma {:induction false} YearsAscend(y: nat, z: nat)
    requires y < z
    ensures DaysBeforeYear(y) + DaysInYear(y) <= DaysBeforeYear(z)
    decreases z
  {
    if y + 1 < z {
      YearsAscend(y, z - 1);
    }
  }

  /** A month's days all come before a later month's first day of one year. */
  lemma MonthsAscend(y: nat, m: nat, n: nat)
    requires 1 <= m < n <= 12
    ensures DaysBeforeMonth(y, m) + DaysInMonth(y, m) <= DaysBeforeMonth(y, n)
  {
  }

  /** Every day of a year lies inside that year. */
  lemma DayOfYearBound(y: nat, m: nat, d: nat)
    requires 1 <= m <= 12 && 1 <= d <= DaysInMonth(y, m)
    ensures DaysBeforeMonth(y, m) + d - 1 < DaysInYear(y)
  {
  }

  /** An earlier date has a smaller day number. */
  lemma DayNumberAscends(s: string, t: string)
    requires WellFormedDate(s) && WellFormedDate(t) && DateBefore(s, t)
    ensures DayNumber(s) < DayNumber(t)
  {
    var ys, yt := Year(s), Year(t);
    DayOfYearBound(ys, Month(s), Day(s));
    if ys < yt {
      YearsAscend(ys, yt);
    } else if Month(s) < Month(t) {
      MonthsAscend(ys, Month(s), Month(t));
    }
  }

  /** The day number orders dates chronologically, and names each date once. */
  lemma DayNumberOrder(s: string, t: string)
    requires WellFormedDate(s) && WellFormedDate(t)
    ensures DayNumber(s) < DayNumber(t) <==> DateBefore(s, t)
    ensures DayNumber(s) == DayNumber(t) <==> s == t
  {
    if DateBefore(s, t) {
      DayNumberAscends(s, t);
    } else if DateBefore(t, s) {
      DayNumberAscends(t, s);
    } else {
      DigitsValueInjective(s[..4], t[..4]);
      DigitsValueInjective(s[5..7], t[5..7]);
      DigitsValueInjective(s[8..], t[8..]);
      assert s == s[..4] + [s[4]] + s[5..7] + [s[7]] + s[8..];
      assert t == t[..4] + [t[4]] + t[5..7] + [t[7]] + t[8..];
    }
  }

  /** The time value orders dates as the day number does. */
  lemma TimeValueOrder(s: string, t: string)
    requires WellFormedDate(s) && WellFormedDate(t)
    ensures TimeValue(s) < TimeValue(t) <==> DayNumber(s) < DayNumber(t)
  {
    assert TimeValue(s) - TimeValue(t) == (DayNumber(s) - DayNumber(t)) * MsPerDay;
  }

  /** Skipping one equal leading character does not change the comparison. */
  lemma StrLessSameHead(c: char, r: string, w: string)
    ensures StrLess([c] + r, [c] + w) <==> StrLess(r, w)
  {
    assert ([c] + r)[1..] == r && ([c] + w)[1..] == w;
  }

  /** The text after the year: dash, month, dash, day. */
  lemma MonthDayTextOrder(s: string, t: string)
    requires WellFormedDate(s) && WellFormedDate(t)
    ensures StrLess(s[4..], t[4..]) <==>
      Month(s) < Month(t) || (Month(s) == Month(t) && Day(s) < Day(t))
  {
    assert s[4..] == [s[4]] + (s[5..7] + ([s[7]] + s[8..]));
    assert t[4..] == [t[4]] + (t[5..7] + ([t[7]] + t[8..]));
    StrLessSameHead('-', s[5..7] + ([s[7]] + s[8..]), t[5..7] + ([t[7]] + t[8..]));
    StrLessConcat(s[5..7], [s[7]] + s[8..], t[5..7], [t[7]] + t[8..]);
    StrLessDigits(s[5..7], t[5..7]);
    DigitsValueInjective(s[5..7], t[5..7]);
    StrLessSameHead('-', s[8..], t[8..]);
    StrLessDigits(s[8..], t[8..]);
  }

  /** Comparing the text as JavaScript's `<` does orders two dates
      chronologically. */
  lemma DateBeforeIsTextOrder(s: string, t: string)
    requires WellFormedDate(s) && WellFormedDate(t)
    ensures DateBefore(s, t) <==> StrLess(s, t)
  {
    assert s == s[..4] + s[4..] && t == t[..4] + t[4..];
    StrLessConcat(s[..4], s[4..], t[..4], t[4..]);
    StrLessDigits(s[..4], t[..4]);
    DigitsValueInjective(s[..4], t[..4]);
    MonthDayTextOrder(s, t);
  }

  /** For these dates, the string order and the time-value order agree. */
  lemma DateOrderIsTextOrder(s: string, t: string)
    requires WellFormedDate(s) && WellFormedDate(t)
    ensures TimeValue(s) < TimeValue(t) <==> StrLess(s, t)
  {
    TimeValueOrder(s, t);
    DayNumberOrder(s, t);
    DateBeforeIsTextOrder(s, t);
  }

  /** A date written out from its year, month and day fields. */
  lemma DateFields(s: string, y: string, m: string, d: string)
    requires |y| == 4 && |m| == 2 && |d| == 2
    requires AllDigits(y) && AllDigits(m) && AllDigits(d)
    requires s == y + "-" + m + "-" + d
    ensures Shaped(s)
    ensures Year(s) == DigitsValue(y) && Month(s) == DigitsValue(m) && Day(s) == DigitsValue(d)
  {
    assert s[..4] == y && s[5..7] == m && s[8..] == d;
    FourDigits(y);
    TwoDigits(m);
    TwoDigits(d);
  }
}

