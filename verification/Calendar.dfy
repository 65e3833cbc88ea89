/** Dates and times as seconds since 1970 (src/kernel/drivers/rtc.cpp). */
module Calendar {
  import Arith

  datatype DateTime = DateTime(year: nat, month: nat, day: nat, hour: nat, minute: nat, second: nat)

  const SECONDS: nat := 0x1_0000_0000

  /** The value of a byte with two decimal digits. */
  function BcdToBin(b: nat): nat { b / 16 * 10 + b % 16 }

  function BinToBcd(n: nat): nat { n / 10 * 16 + n % 10 }

  lemma BcdRoundTrip(n: nat)
    requires n < 100
    ensures BinToBcd(n) < 256 && BcdToBin(BinToBcd(n)) == n
  {
  }

  /** The year that the clock's two digits stand for. */
  function FullYear(y: nat): nat { if y < 70 then y + 2000 else y + 1900 }

  /** The years from 1970 to 2069 have different last digits, and the clock's digits stand for the one they end. */
  lemma FullYearIff(y: nat, year: nat)
    requires y < 100
    ensures FullYear(y) == year <==> 1970 <= year < 2070 && year % 100 == y
  {
  }

  lemma BcdDigits(a: nat, b: nat)
    requires a < 10 && b < 10
    ensures BcdToBin(16 * a + b) == 10 * a + b && BinToBcd(10 * a + b) == 16 * a + b
  {
  }

  predicate IsLeap(year: nat) { year % 4 == 0 && (year % 100 != 0 || year % 400 == 0) }

  function DaysInYear(year: nat): nat { if IsLeap(year) then 366 else 365 }

  const DAYS_IN_MONTH: seq<nat> := [31, 28, 31, 30, 31, 30, 31, 31, 30, 31, 30, 31]

  const DAYS_BEFORE_MONTH: seq<nat> := [0, 31, 59, 90, 120, 151, 181, 212, 243, 273, 304, 334]

  /** The length of a month, counted from 0. */
  function DaysInMonth(month: nat, leap: bool): nat
    requires month < 12
  {
    if leap && month == 1 then DAYS_IN_MONTH[month] + 1 else DAYS_IN_MONTH[month]
  }

  /** The days of the years from 1970 on before this one. */
  function DaysBeforeYear(year: nat): nat
  {
    if year <= 1970 then 0 else DaysBeforeYear(year - 1) + DaysInYear(year - 1)
  }

  /** The days of the months before this one, counted from 0. */
  function DaysBeforeMonth(month: nat, leap: bool): nat
    requires month <= 12
  {
    if month == 0 then 0 else DaysBeforeMonth(month - 1, leap) + DaysInMonth(month - 1, leap)
  }

  predicate Valid(d: DateTime)
  {
    && 1970 <= d.year && 1 <= d.month <= 12 && 1 <= d.day <= DaysInMonth(d.month - 1, IsLeap(d.year))
    && d.hour < 24 && d.minute < 60 && d.second < 60
  }

  /** The days since 1970, counted year by year and month by month. */
  function DayNumber(d: DateTime): nat
    requires Valid(d)
  {
    DaysBeforeYear(d.year) + DaysBeforeMonth(d.month - 1, IsLeap(d.year)) + d.day - 1
  }

  function Seconds(d: DateTime): nat
    requires Valid(d)
  {
    ((DayNumber(d) * 24 + d.hour) * 60 + d.minute) * 60 + d.second
  }

  /** The days before a year in closed form. */
  function ClosedForm(year: nat): int
  {
    (year - 1970) * 365 + (year - 1969) / 4 - (year - 1901) / 100 + (year - 1601) / 400
  }

  /** `get_unix_timestamp` for what the clock says, in 32 bits. */
  function UnixTimestamp(rtcYear: nat, month: nat, day: nat, hour: nat, minute: nat, second: nat): nat
    requires 1 <= month <= 12
  {
    var year := FullYear(rtcYear);
    var days := ClosedForm(year) + DAYS_BEFORE_MONTH[month - 1]
             + (if IsLeap(year) && month > 2 then 1 else 0) + day - 1;
    (((days * 24 + hour) * 60 + minute) * 60 + second) % SECONDS
  }

  lemma {:induction false} ClosedFormCounts(year: nat)
    requires year >= 1970
    ensures ClosedForm(year) == DaysBeforeYear(year)
  {
    if year > 1970 {
      ClosedFormCounts(year - 1);
      NextYear(year - 1);
    }
  }

  lemma NextYear(year: nat)
    requires year >= 1970
    ensures ClosedForm(year + 1) == ClosedForm(year) + DaysInYear(year)
  {
    var a, b, c := year - 1969, year - 1901, year - 1601;
    Multiples(a, 4);
    Multiples(b, 100);
    Multiples(c, 400);
    LeapDays(year);
    hide IsLeap;
    assert ClosedForm(year) == (year - 1970) * 365 + a / 4 - b / 100 + c / 400;
    assert ClosedForm(year + 1) == (year - 1969) * 365 + (a + 1) / 4 - (b + 1) / 100 + (c + 1) / 400;
  }

  /** A leap year is one more multiple of 4, but none of 100 unless one of 400. */
  lemma LeapDays(year: nat)
    requires year >= 1970
    ensures (if IsLeap(year) then 1 else 0)
         == (if (year - 1968) % 4 == 0 then 1 else 0) - (if (year - 1900) % 100 == 0 then 1 else 0)
            + if (year - 1600) % 400 == 0 then 1 else 0
  {
    Shifted(year, 492, 4);
    Shifted(year, 19, 100);
    Shifted(year, 4, 400);
    MultipleOf(year, 400, 4, 100);
    MultipleOf(year, 100, 25, 4);
  }

  lemma Shifted(year: nat, k: nat, m: nat)
    requires m > 0
    ensures (year - k * m) % m == year % m
  {
    assert year == m * (year / m) + year % m;
    Arith.DivUnique(year - k * m, m, year / m - k, year % m);
  }

  lemma MultipleOf(year: nat, n: nat, k: nat, m: nat)
    requires m > 0 && n == k * m && n > 0
    ensures year % n == 0 ==> year % m == 0
  {
    if year % n == 0 {
      assert year == n * (year / n);
      assert k * m * (year / n) == m * (k * (year / n));
      Arith.DivUnique(year, m, k * (year / n), 0);
    }
  }

  lemma Multiples(n: nat, m: nat)
    requires m > 0
    ensures (n + 1) / m == n / m + if (n + 1) % m == 0 then 1 else 0
  {
    var q, r := n / m, n % m;
    assert n == m * q + r;
    if r + 1 == m {
      Arith.DivUnique(n + 1, m, q + 1, 0);
    } else {
      Arith.DivUnique(n + 1, m, q, r + 1);
    }
  }

  lemma MonthTable(month: nat, leap: bool)
    requires 1 <= month <= 12
    ensures DaysBeforeMonth(month - 1, leap) == DAYS_BEFORE_MONTH[month - 1] + if leap && month > 2 then 1 else 0
  {
    MonthSums(leap);
  }

  lemma MonthSums(leap: bool)
    ensures DaysBeforeMonth(0, leap) == 0 && DaysBeforeMonth(1, leap) == 31
    ensures DaysBeforeMonth(2, leap) == if leap then 60 else 59
    ensures forall m :: 3 <= m <= 12 ==>
            DaysBeforeMonth(m, leap) == [90, 120, 151, 181, 212, 243, 273, 304, 334, 365][m - 3] + if leap then 1 else 0
  {
    var extra := if leap then 1 else 0;
    assert DaysBeforeMonth(1, leap) == 31;
    assert DaysBeforeMonth(2, leap) == 59 + extra;
    assert DaysBeforeMonth(3, leap) == 90 + extra;
    assert DaysBeforeMonth(4, leap) == 120 + extra;
    assert DaysBeforeMonth(5, leap) == 151 + extra;
    assert DaysBeforeMonth(6, leap) == 181 + extra;
    assert DaysBeforeMonth(7, leap) == 212 + extra;
    assert DaysBeforeMonth(8, leap) == 243 + extra;
    assert DaysBeforeMonth(9, leap) == 273 + extra;
    assert DaysBeforeMonth(10, leap) == 304 + extra;
    assert DaysBeforeMonth(11, leap) == 334 + extra;
  }

  lemma {:induction false} YearsGrow(a: nat, b: nat)
    requires 1970 <= a < b
    ensures DaysBeforeYear(a) + DaysInYear(a) <= DaysBeforeYear(b)
  {
    if a + 1 < b {
      YearsGrow(a, b - 1);
    }
  }

  lemma {:induction false} MonthsGrow(a: nat, b: nat, leap: bool)
    requires a < b <= 12
    ensures DaysBeforeMonth(a, leap) + DaysInMonth(a, leap) <= DaysBeforeMonth(b, leap)
  {
    if a + 1 < b {
      MonthsGrow(a, b - 1, leap);
    }
  }

  /** The days of a date before it in its year are fewer than the year has. */
  lemma InYear(d: DateTime)
    requires Valid(d)
    ensures DaysBeforeMonth(d.month - 1, IsLeap(d.year)) + d.day - 1 < DaysInYear(d.year)
  {
    MonthsGrow(d.month - 1, 12, IsLeap(d.year));
    MonthSums(IsLeap(d.year));
  }

  /** No two dates have the same number of days. */
  lemma SameDay(a: DateTime, b: DateTime)
    requires Valid(a) && Valid(b) && DayNumber(a) == DayNumber(b)
    ensures a.year == b.year && a.month == b.month && a.day == b.day
  {
    InYear(a);
    InYear(b);
    if a.year < b.year {
      YearsGrow(a.year, b.year);
    } else if b.year < a.year {
      YearsGrow(b.year, a.year);
    } else if a.month < b.month {
      MonthsGrow(a.month - 1, b.month - 1, IsLeap(a.year));
    } else if b.month < a.month {
      MonthsGrow(b.month - 1, a.month - 1, IsLeap(a.year));
    }
  }

  /** No two points in time have the same number of seconds. */
  lemma SameSeconds(a: DateTime, b: DateTime)
    requires Valid(a) && Valid(b) && Seconds(a) == Seconds(b)
    ensures a == b
  {
    hide DayNumber;
    SameDay(a, b);
  }

  /** `timestamp_to_string` up to the formatting. */
  method DecodeTimestamp(ts: nat) returns (d: DateTime)
    ensures Valid(d) && Seconds(d) == ts
  {
    var t := ts;
    var seconds := t % 60;
    t := t / 60;
    var minutes := t % 60;
    t := t / 60;
    var hours := t % 24;
    t := t / 24;
    var days: nat := t;
    var year: nat := 1970;
    while days >= DaysInYear(year)
      invariant year >= 1970 && DaysBeforeYear(year) + days == t
      decreases days
    {
      days := days - DaysInYear(year);
      year := year + 1;
    }
    var leap := IsLeap(year);
    var month: nat := 0;
    MonthSums(leap);
    while month < 12
      invariant month < 12 && DaysBeforeYear(year) + DaysBeforeMonth(month, leap) + days == t
      invariant DaysBeforeMonth(month, leap) + days < DaysInYear(year)
    {
      var dim := DaysInMonth(month, leap);
      if days >= dim {
        days := days - dim;
        month := month + 1;
      } else {
        break;
      }
    }
    d := DateTime(year, month + 1, days + 1, hours, minutes, seconds);
  }

  /** Up to the year 2069 there are fewer than 100 years of days. */
  lemma BeforeTwentySeventy(d: DateTime)
    requires Valid(d) && d.year < 2070
    ensures DayNumber(d) < 36525
  {
    InYear(d);
    YearsGrow(d.year, 2070);
    ClosedFormCounts(2070);
  }

  /** The days that the code computes are the days counted one by one. */
  lemma DaysCount(d: DateTime)
    requires Valid(d)
    ensures DayNumber(d)
         == ClosedForm(d.year) + DAYS_BEFORE_MONTH[d.month - 1]
          + (if IsLeap(d.year) && d.month > 2 then 1 else 0) + d.day - 1
  {
    ClosedFormCounts(d.year);
    MonthTable(d.month, IsLeap(d.year));
  }

  /** For every date from 1970 to 2069 the clock's time is the number of seconds since 1970. */
  lemma TimestampCounts(rtcYear: nat, d: DateTime)
    requires rtcYear < 100 && d.year == FullYear(rtcYear) && Valid(d)
    ensures UnixTimestamp(rtcYear, d.month, d.day, d.hour, d.minute, d.second) == Seconds(d) < SECONDS
  {
    hide DayNumber;
    hide ClosedForm;
    DaysCount(d);
    BeforeTwentySeventy(d);
  }

  /** Midnight of 1 January 1970 is 0, and so on. */
  lemma KnownInstants()
    ensures UnixTimestamp(70, 1, 1, 0, 0, 0) == 0
    ensures UnixTimestamp(0, 3, 1, 0, 0, 0) == 951_868_800
    ensures UnixTimestamp(38, 1, 19, 3, 14, 7) == 0x7fff_ffff
  {
  }

  /** Decoding the clock's time gives back the date and time. */
  method ClockRoundTrip(rtcYear: nat, d: DateTime) returns (decoded: DateTime)
    requires rtcYear < 100 && d.year == FullYear(rtcYear) && Valid(d)
    ensures decoded == d
  {
    TimestampCounts(rtcYear, d);
    decoded := DecodeTimestamp(UnixTimestamp(rtcYear, d.month, d.day, d.hour, d.minute, d.second));
    SameSeconds(decoded, d);
  }
}
