/**
 * Parsing of Imperva's event-time strings with Go's `time.Parse` and the
 * layout "2006-01-02 15:04:05 UTC" (used by `ImpervaEvent.GetTime`,
 * pkg/imperva/imperva.go), and the instant a parsed date denotes.
 *
 * Instants are whole nanoseconds since 0001-01-01 00:00:00 UTC, which makes
 * Go's zero `time.Time` the instant 0.
 */
module EventTime {
  import opened Wrappers
  import opened Utils
  import Common

  const NanosPerSecond: int := Common.Second
  const SecondsPerDay: int := 86_400

  datatype DateTime = DateTime(year: int, month: int, day: int, hour: int, minute: int, second: int, nanos: int)

  predicate IsLeap(year: int) {
    year % 4 == 0 && (year % 100 != 0 || year % 400 == 0)
  }

  function DaysIn(month: int, year: int): (n: int)
    requires 1 <= month <= 12
    ensures 28 <= n <= 31
  {
    if month == 2 then (if IsLeap(year) then 29 else 28)
    else if month == 4 || month == 6 || month == 9 || month == 11 then 30
    else 31
  }

  /** The fields `time.Parse` accepts for this layout: a four-digit year and in-range clock fields. */
  predicate ValidDateTime(dt: DateTime) {
    && 0 <= dt.year <= 9999
    && 1 <= dt.month <= 12
    && 1 <= dt.day <= DaysIn(dt.month, dt.year)
    && 0 <= dt.hour < 24
    && 0 <= dt.minute < 60
    && 0 <= dt.second < 60
    && 0 <= dt.nanos < NanosPerSecond
  }

  /** Days from 0001-01-01 to January 1st of `year` (negative for year 0), proleptic Gregorian. */
  function DaysBeforeYear(year: int): int {
    var y := year - 1;
    365 * y + y / 4 - y / 100 + y / 400
  }

  /** Days in the months of `year` before `month`. */
  function DaysBeforeMonth(month: int, year: int): (n: int)
    requires 1 <= month <= 12
    ensures 0 <= n && n + DaysIn(month, year) <= (if IsLeap(year) then 366 else 365)
  {
    var common := [0, 31, 59, 90, 120, 151, 181, 212, 243, 273, 304, 334][month - 1];
    if IsLeap(year) && month > 2 then common + 1 else common
  }

  /** Days from 0001-01-01 to the date of `dt`. */
  function DayNumber(dt: DateTime): int
    requires ValidDateTime(dt)
  {
    DaysBeforeYear(dt.year) + DaysBeforeMonth(dt.month, dt.year) + dt.day - 1
  }

  /** Seconds from midnight to the clock of `dt`. */
  function SecondOfDay(dt: DateTime): (n: int)
    requires ValidDateTime(dt)
    ensures 0 <= n < SecondsPerDay
  {
    dt.hour * 3600 + dt.minute * 60 + dt.second
  }

  /** The instant a date denotes, in nanoseconds since 0001-01-01 00:00:00 UTC. */
  function Instant(dt: DateTime): int
    requires ValidDateTime(dt)
  {
    (DayNumber(dt) * SecondsPerDay + SecondOfDay(dt)) * NanosPerSecond + dt.nanos
  }

  /** Dates from year 1 on are at or after the zero instant; year 0 lies wholly before it. */
  lemma InstantSign(dt: DateTime)
    requires ValidDateTime(dt)
    ensures dt.year >= 1 <==> Instant(dt) >= 0
  {
    var secs := DayNumber(dt) * SecondsPerDay + SecondOfDay(dt);
    if dt.year >= 1 {
      assert DayNumber(dt) >= 0;
      assert secs >= 0;
    } else {
      assert DaysBeforeYear(0) == -366;
      assert IsLeap(0);
      assert DayNumber(dt) <= -1;
      assert secs < 0;
      assert secs * NanosPerSecond <= -NanosPerSecond;
    }
  }

  /** Lexicographic order on the fields of two dates, year first and nanoseconds last. */
  predicate Before(a: DateTime, b: DateTime) {
    || a.year < b.year
    || (a.year == b.year && a.month < b.month)
    || (a.year == b.year && a.month == b.month && a.day < b.day)
    || (a.year == b.year && a.month == b.month && a.day == b.day && a.hour < b.hour)
    || (a.year == b.year && a.month == b.month && a.day == b.day && a.hour == b.hour && a.minute < b.minute)
    || (a.year == b.year && a.month == b.month && a.day == b.day && a.hour == b.hour && a.minute == b.minute
        && a.second < b.second)
    || (a.year == b.year && a.month == b.month && a.day == b.day && a.hour == b.hour && a.minute == b.minute
        && a.second == b.second && a.nanos < b.nanos)
  }

  /** A year has 365 days, or 366 in a leap year. */
  lemma YearLength(year: int)
    ensures DaysBeforeYear(year + 1) - DaysBeforeYear(year) == if IsLeap(year) then 366 else 365
  {
    DivisionStep(year, 4);
    DivisionStep(year, 100);
    DivisionStep(year, 400);
  }

  /** Going from `x - 1` to `x` adds one multiple of `k` exactly when `k` divides `x`. */
  lemma DivisionStep(x: int, k: int)
    requires k == 4 || k == 100 || k == 400
    ensures x / k - (x - 1) / k == if x % k == 0 then 1 else 0
  {
    if k == 4 {
      assert x / 4 - (x - 1) / 4 == if x % 4 == 0 then 1 else 0;
    } else if k == 100 {
      assert x / 100 - (x - 1) / 100 == if x % 100 == 0 then 1 else 0;
    } else {
      assert x / 400 - (x - 1) / 400 == if x % 400 == 0 then 1 else 0;
    }
  }

  lemma {:induction false} DaysBeforeYearMonotone(y: int, z: int)
    requires y <= z
    ensures DaysBeforeYear(y) <= DaysBeforeYear(z)
    decreases z - y
  {
    if y < z {
      DaysBeforeYearMonotone(y, z - 1);
      YearLength(z - 1);
    }
  }

  /** The months before `m` take no more days than the months before a later month `n`, less the days of `m`. */
  lemma DaysBeforeMonthOrder(m: int, n: int, year: int)
    requires 1 <= m < n <= 12
    ensures DaysBeforeMonth(m, year) + DaysIn(m, year) <= DaysBeforeMonth(n, year)
  {
  }

  /** A later calendar date has a larger day number. */
  lemma DayNumberOrder(a: DateTime, b: DateTime)
    requires ValidDateTime(a) && ValidDateTime(b)
    requires a.year < b.year || (a.year == b.year && (a.month < b.month || (a.month == b.month && a.day < b.day)))
    ensures DayNumber(a) < DayNumber(b)
  {
    if a.year < b.year {
      YearLength(a.year);
      DaysBeforeYearMonotone(a.year + 1, b.year);
    } else if a.month < b.month {
      DaysBeforeMonthOrder(a.month, b.month, a.year);
    }
  }

  /**
   * Instants order valid dates exactly as their fields do, so comparing
   * instants, as `time.Time.After` does, compares the dates themselves.
   */
  lemma InstantOrder(a: DateTime, b: DateTime)
    requires ValidDateTime(a) && ValidDateTime(b)
    ensures Instant(a) < Instant(b) <==> Before(a, b)
    ensures Instant(a) == Instant(b) <==> a == b
  {
    if Before(a, b) {
      InstantBefore(a, b);
    } else if Before(b, a) {
      InstantBefore(b, a);
    }
  }

  lemma InstantBefore(a: DateTime, b: DateTime)
    requires ValidDateTime(a) && ValidDateTime(b) && Before(a, b)
    ensures Instant(a) < Instant(b)
  {
    if a.year < b.year || (a.year == b.year && (a.month < b.month || (a.month == b.month && a.day < b.day))) {
      DayNumberOrder(a, b);
      assert DayNumber(a) * SecondsPerDay + SecondOfDay(a) < DayNumber(b) * SecondsPerDay + SecondOfDay(b);
    } else {
      assert DayNumber(a) == DayNumber(b);
    }
  }

  /** What a field parser consumed: the number read and the rest of the input. */
  datatype Step = Step(n: int, rest: string)

  /** Exactly `width` decimal digits (the layout's zero-padded fields "2006", "01", "02", "04", "05"). */
  function Fixed(s: string, width: nat): (r: Option<Step>)
    ensures r.Some? ==> 0 <= r.value.n && |r.value.rest| == |s| - width
  {
    if |s| >= width && AllDigits(s[..width]) then Some(Step(DecimalValue(s[..width]), s[width..]))
    else None
  }

  /** One or two decimal digits (the layout's unpadded hour field "15"). */
  function Flexible(s: string): (r: Option<Step>)
    ensures r.Some? ==> 0 <= r.value.n < 100 && |r.value.rest| < |s|
  {
    if |s| >= 2 && IsDigit(s[0]) && IsDigit(s[1]) then Some(Step(DigitValue(s[0]) * 10 + DigitValue(s[1]), s[2..]))
    else if |s| >= 1 && IsDigit(s[0]) then Some(Step(DigitValue(s[0]), s[1..]))
    else None
  }

  /** A literal character of the layout. */
  function Literal(s: string, c: char): (r: Option<string>)
    ensures r.Some? ==> |s| > 0 && s[0] == c && r.value == s[1..]
  {
    if |s| > 0 && s[0] == c then Some(s[1..]) else None
  }

  function TrimSpaces(s: string): (r: string)
    ensures |r| <= |s|
    ensures r == [] || r[0] != ' '
  {
    if |s| > 0 && s[0] == ' ' then TrimSpaces(s[1..]) else s
  }

  /**
   * A space of the layout: the input must not continue with anything but
   * spaces here, and every space at this point is consumed.
   */
  function Space(s: string): (r: Option<string>)
    ensures r.Some? ==> (s == [] || s[0] == ' ') && (r.value == [] || r.value[0] != ' ')
  {
    if |s| > 0 && s[0] != ' ' then None else Some(TrimSpaces(s))
  }

  /** Number of leading decimal digits of `s`. */
  function LeadingDigits(s: string): (n: nat)
    ensures n <= |s| && AllDigits(s[..n])
    ensures n < |s| ==> !IsDigit(s[n])
  {
    if |s| > 0 && IsDigit(s[0]) then
      var n := 1 + LeadingDigits(s[1..]);
      assert forall i :: 1 <= i < n ==> s[..n][i] == s[1..][..n - 1][i - 1];
      n
    else 0
  }

  function Pow10(k: nat): (p: nat)
    ensures p >= 1
  {
    if k == 0 then 1 else 10 * Pow10(k - 1)
  }

  /**
   * A fractional-seconds field that the layout does not mention but
   * `time.Parse` accepts right after the seconds: '.' or ',' and one or more
   * digits. The first nine digits give the nanoseconds, the rest are dropped.
   * Without such a field nothing is consumed and the nanoseconds are 0.
   */
  function Fraction(s: string): (r: Step)
    ensures 0 <= r.n < NanosPerSecond
    ensures !(|s| >= 2 && (s[0] == '.' || s[0] == ',') && IsDigit(s[1])) ==> r == Step(0, s)
    ensures |s| >= 2 && (s[0] == '.' || s[0] == ',') && IsDigit(s[1]) ==>
      |r.rest| < |s| - 1 && r.rest == s[|s| - |r.rest|..] && (r.rest == [] || !IsDigit(r.rest[0]))
  {
    if |s| >= 2 && (s[0] == '.' || s[0] == ',') && IsDigit(s[1]) then
      var r := FractionDigits(s[1..]);
      assert s[1..][|s| - 1 - |r.rest|..] == s[|s| - |r.rest|..];
      r
    else Step(0, s)
  }

  /** The digits of a fraction, after its '.' or ',': all are consumed, the first nine count. */
  function FractionDigits(t: string): (r: Step)
    requires |t| >= 1 && IsDigit(t[0])
    ensures 0 <= r.n < NanosPerSecond
    ensures |r.rest| < |t| && r.rest == t[|t| - |r.rest|..] && (r.rest == [] || !IsDigit(r.rest[0]))
  {
    var digits := LeadingDigits(t);
    var kept := if digits > 9 then 9 else digits;
    assert AllDigits(t[..kept]) by {
      assert forall i :: 0 <= i < kept ==> t[..kept][i] == t[..digits][i];
    }
    DecimalLessThanPow10(t[..kept]);
    Step(DecimalValue(t[..kept]) * Pow10(9 - kept), t[digits..])
  }

  lemma {:induction false} DecimalLessThanPow10(s: string)
    requires AllDigits(s) && |s| <= 9
    ensures DecimalValue(s) < Pow10(|s|)
    ensures DecimalValue(s) * Pow10(9 - |s|) < NanosPerSecond
  {
    DecimalBound(s);
    PowSplit(|s|, 9 - |s|);
    assert Pow10(9) == NanosPerSecond;
  }

  lemma {:induction false} DecimalBound(s: string)
    requires AllDigits(s)
    ensures DecimalValue(s) < Pow10(|s|)
  {
    if s != [] {
      DecimalBound(s[..|s| - 1]);
    }
  }

  lemma {:induction false} PowSplit(a: nat, b: nat)
    ensures Pow10(a) * Pow10(b) == Pow10(a + b)
  {
    if a > 0 {
      PowSplit(a - 1, b);
    }
  }

  /** The date fields read from the front of the input, and what follows them. */
  datatype DatePart = DatePart(year: int, month: int, day: int, rest: string)

  /** The clock fields read after the date, and what follows them. */
  datatype ClockPart = ClockPart(hour: int, minute: int, second: int, nanos: int, rest: string)

  /** The "2006-01-02" part of the layout. */
  function ParseDate(s: string): (r: Option<DatePart>)
    ensures r.Some? ==> 0 <= r.value.year && 0 <= r.value.month && 0 <= r.value.day
  {
    var year :- Fixed(s, 4);
    var s1 :- Literal(year.rest, '-');
    var month :- Fixed(s1, 2);
    var s2 :- Literal(month.rest, '-');
    var day :- Fixed(s2, 2);
    Some(DatePart(year.n, month.n, day.n, day.rest))
  }

  /** The " 15:04:05" part of the layout: a run of spaces, the hour, the minutes and the seconds. */
  function ParseClockFields(s: string): (r: Option<ClockPart>)
    ensures r.Some? ==> 0 <= r.value.hour && 0 <= r.value.minute && 0 <= r.value.second && r.value.nanos == 0
  {
    var s1 :- Space(s);
    var hour :- Flexible(s1);
    var s2 :- Literal(hour.rest, ':');
    var minute :- Fixed(s2, 2);
    var s3 :- Literal(minute.rest, ':');
    var second :- Fixed(s3, 2);
    Some(ClockPart(hour.n, minute.n, second.n, 0, second.rest))
  }

  /** The " UTC" at the end of the layout: a run of spaces, then the letters. */
  function ParseZone(s: string): (r: Option<string>)
    ensures r.Some? ==> |r.value| + 3 <= |s|
  {
    var s1 :- Space(s);
    var s2 :- Literal(s1, 'U');
    var s3 :- Literal(s2, 'T');
    Literal(s3, 'C')
  }

  /** The clock part of the layout, with an optional fractional second before the zone. */
  function ParseClock(s: string): (r: Option<ClockPart>)
    ensures r.Some? ==> 0 <= r.value.hour && 0 <= r.value.minute && 0 <= r.value.second
    ensures r.Some? ==> 0 <= r.value.nanos < NanosPerSecond
  {
    var fields :- ParseClockFields(s);
    var frac := Fraction(fields.rest);
    var rest :- ParseZone(frac.rest);
    Some(ClockPart(fields.hour, fields.minute, fields.second, frac.n, rest))
  }

  /**
   * `time.Parse("2006-01-02 15:04:05 UTC", s)`: `None` for every input that
   * Go reports as an error (bad syntax, a field out of range, a day past the
   * end of its month, trailing text).
   */
  function ParseLayout(s: string): (r: Option<DateTime>)
    ensures r.Some? ==> ValidDateTime(r.value)
  {
    var date :- ParseDate(s);
    var clock :- ParseClock(date.rest);
    if clock.rest == [] && date.year <= 9999 && 1 <= date.month <= 12
       && 1 <= date.day <= DaysIn(date.month, date.year)
       && clock.hour < 24 && clock.minute < 60 && clock.second < 60
    then Some(DateTime(date.year, date.month, date.day, clock.hour, clock.minute, clock.second, clock.nanos))
    else None
  }

  /** Zero-padded rendering of `n` in `width` digits. */
  function Padded(n: nat, width: nat): (s: string)
    ensures |s| == width && AllDigits(s)
  {
    if width == 0 then [] else Padded(n / 10, width - 1) + [DigitChar(n % 10)]
  }

  lemma {:induction false} PaddedValue(n: nat, width: nat)
    requires n < Pow10(width)
    ensures DecimalValue(Padded(n, width)) == n
  {
    if width > 0 {
      PaddedValue(n / 10, width - 1);
      var s := Padded(n, width);
      assert s[..|s| - 1] == Padded(n / 10, width - 1);
    }
  }

  /** The date of `dt` in the layout's form, followed by `clock`. */
  function DateText(dt: DateTime, clock: string): string
    requires ValidDateTime(dt)
  {
    Padded(dt.year, 4) + ("-" + (Padded(dt.month, 2) + ("-" + (Padded(dt.day, 2) + clock))))
  }

  /** A space and the clock of `dt` in the layout's form, followed by `after`. */
  function ClockText(dt: DateTime, after: string): string
    requires ValidDateTime(dt)
  {
    " " + (Padded(dt.hour, 2) + (":" + (Padded(dt.minute, 2) + (":" + (Padded(dt.second, 2) + after)))))
  }

  /** The canonical text of a whole-second date, such as "2024-03-01 07:05:09 UTC". */
  function Format(dt: DateTime): string
    requires ValidDateTime(dt)
  {
    DateText(dt, ClockText(dt, " UTC"))
  }

  /** The text of a date with all nine fractional digits, such as "2024-03-01 07:05:09.000000123 UTC". */
  function FormatNanos(dt: DateTime): string
    requires ValidDateTime(dt)
  {
    DateText(dt, ClockText(dt, "." + (Padded(dt.nanos, 9) + " UTC")))
  }

  lemma FixedReadsPadded(n: nat, width: nat, rest: string)
    requires n < Pow10(width)
    ensures Fixed(Padded(n, width) + rest, width) == Some(Step(n, rest))
  {
    var s := Padded(n, width) + rest;
    assert s[..width] == Padded(n, width);
    assert s[width..] == rest;
    PaddedValue(n, width);
  }

  lemma DateTextParses(dt: DateTime, clock: string)
    requires ValidDateTime(dt)
    ensures ParseDate(DateText(dt, clock)) == Some(DatePart(dt.year, dt.month, dt.day, clock))
  {
    assert Pow10(2) == 100 && Pow10(4) == 10000;
    var tail2 := Padded(dt.day, 2) + clock;
    var tail1 := Padded(dt.month, 2) + ("-" + tail2);
    FixedReadsPadded(dt.year, 4, "-" + tail1);
    FixedReadsPadded(dt.month, 2, "-" + tail2);
    FixedReadsPadded(dt.day, 2, clock);
  }

  /** The hour field of the clock text: one space, then two digits read by the flexible-width reader. */
  lemma HourTextParses(h: nat, tail: string)
    requires h < 24
    ensures Space(" " + (Padded(h, 2) + tail)) == Some(Padded(h, 2) + tail)
    ensures Flexible(Padded(h, 2) + tail) == Some(Step(h, tail))
  {
    var p := Padded(h, 2);
    var t := p + tail;
    assert (" " + t)[1..] == t;
    assert TrimSpaces(" " + t) == TrimSpaces(t);
    assert t[0] == p[0] && t[1] == p[1] && t[2..] == tail;
    assert Pow10(2) == 100;
    PaddedValue(h, 2);
    assert DecimalValue(p) == DigitValue(p[0]) * 10 + DigitValue(p[1]) by {
      assert p[..1] == [p[0]];
    }
  }

  lemma ClockFieldsParse(dt: DateTime, after: string)
    requires ValidDateTime(dt)
    ensures ParseClockFields(ClockText(dt, after)) == Some(ClockPart(dt.hour, dt.minute, dt.second, 0, after))
  {
    assert Pow10(2) == 100;
    var tail5 := Padded(dt.second, 2) + after;
    var tail4 := Padded(dt.minute, 2) + (":" + tail5);
    HourTextParses(dt.hour, ":" + tail4);
    assert Literal(":" + tail4, ':') == Some(tail4);
    FixedReadsPadded(dt.minute, 2, ":" + tail5);
    assert Literal(":" + tail5, ':') == Some(tail5);
    FixedReadsPadded(dt.second, 2, after);
  }

  /** The trailing " UTC" after whole seconds: no fraction, then the zone and nothing after it. */
  lemma ZoneTextParses()
    ensures Fraction(" UTC") == Step(0, " UTC")
    ensures ParseZone(" UTC") == Some([])
  {
    assert " UTC"[1..] == "UTC";
    assert TrimSpaces("UTC") == "UTC";
    assert "UTC"[1..] == "TC" && "TC"[1..] == "C" && "C"[1..] == [];
  }

  /** A run of digits followed by a non-digit is read up to that non-digit. */
  lemma {:induction false} LeadingDigitsOf(d: string, rest: string)
    requires AllDigits(d) && (rest == [] || !IsDigit(rest[0]))
    ensures LeadingDigits(d + rest) == |d|
  {
    if d != [] {
      assert (d + rest)[1..] == d[1..] + rest;
      LeadingDigitsOf(d[1..], rest);
    } else {
      assert d + rest == rest;
    }
  }

  /**
   * A fraction of one or more digits after '.' or ',': every digit is
   * consumed, and the first nine, scaled to nanoseconds, give the value.
   */
  lemma FractionReads(sep: char, d: string, rest: string)
    requires sep == '.' || sep == ','
    requires |d| >= 1 && AllDigits(d) && (rest == [] || !IsDigit(rest[0]))
    ensures var kept := if |d| > 9 then 9 else |d|;
      Fraction([sep] + d + rest) == Step(DecimalValue(d[..kept]) * Pow10(9 - kept), rest)
  {
    var s := [sep] + d + rest;
    assert s[1..] == d + rest;
    LeadingDigitsOf(d, rest);
    var kept := if |d| > 9 then 9 else |d|;
    assert (d + rest)[..kept] == d[..kept];
    assert (d + rest)[|d|..] == rest;
  }

  /** All nine fractional digits of a nanosecond count read back as that count. */
  lemma NineDigitsRead(n: nat, rest: string)
    requires n < NanosPerSecond && (rest == [] || !IsDigit(rest[0]))
    ensures Fraction("." + (Padded(n, 9) + rest)) == Step(n, rest)
  {
    var d := Padded(n, 9);
    FractionReads('.', d, rest);
    assert "." + (d + rest) == ['.'] + d + rest;
    assert d[..9] == d;
    assert Pow10(9) == NanosPerSecond by {
      assert Pow10(2) == 100 && Pow10(4) == 10000;
    }
    PaddedValue(n, 9);
  }

  /** Parsing the canonical text of a whole-second date gives that date back. */
  lemma ParseFormat(dt: DateTime)
    requires ValidDateTime(dt) && dt.nanos == 0
    ensures ParseLayout(Format(dt)) == Some(dt)
  {
    DateTextParses(dt, ClockText(dt, " UTC"));
    ClockFieldsParse(dt, " UTC");
    ZoneTextParses();
  }

  /** Parsing a date written with all nine fractional digits gives that date back, nanoseconds included. */
  lemma ParseFormatNanos(dt: DateTime)
    requires ValidDateTime(dt)
    ensures ParseLayout(FormatNanos(dt)) == Some(dt)
  {
    var after := "." + (Padded(dt.nanos, 9) + " UTC");
    DateTextParses(dt, ClockText(dt, after));
    ClockFieldsParse(dt, after);
    NineDigitsRead(dt.nanos, " UTC");
    ZoneTextParses();
  }
}
