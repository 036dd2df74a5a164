/** Time stamps in catalogs: printing and parsing UTC times in the two forms of ISO 8601, and the
    hour stamps that name update logs. */
module Timestamps {
  import opened CatalogUpdates
  import opened Protocol
  import opened Wrappers
  import Strings

  datatype DateTime = DateTime(year: int, month: int, day: int, hour: int, minute: int, second: int, usec: int)

  // ----- The calendar

  predicate IsLeap(year: int) {
    year % 4 == 0 && (year % 100 != 0 || year % 400 == 0)
  }

  function DaysInMonth(year: int, month: int): int {
    if month == 2 then (if IsLeap(year) then 29 else 28)
    else if month in {4, 6, 9, 11} then 30 else 31
  }

  predicate Valid(dt: DateTime) {
    && 1 <= dt.year <= 9999 && 1 <= dt.month <= 12 && 1 <= dt.day <= DaysInMonth(dt.year, dt.month)
    && 0 <= dt.hour < 24 && 0 <= dt.minute < 60 && 0 <= dt.second < 60 && 0 <= dt.usec < 1_000_000
  }

  function DaysBeforeMonth(year: int, month: nat): int {
    if month <= 1 then 0 else DaysBeforeMonth(year, month - 1) + DaysInMonth(year, month - 1)
  }

  function DaysBeforeYear(year: nat): int {
    if year <= 1 then 0 else DaysBeforeYear(year - 1) + if IsLeap(year - 1) then 366 else 365
  }

  /** The number of the hour, counted from the start of the calendar. */
  function HourNumber(dt: DateTime): int
    requires Valid(dt)
  {
    (DaysBeforeYear(dt.year) + DaysBeforeMonth(dt.year, dt.month) + dt.day - 1) * 24 + dt.hour
  }

  /** The time in microseconds. */
  function Micros(dt: DateTime): int
    requires Valid(dt)
  {
    ((HourNumber(dt) * 60 + dt.minute) * 60 + dt.second) * 1_000_000 + dt.usec
  }

  lemma HourOfMicros(dt: DateTime)
    requires Valid(dt)
    ensures Hour(Micros(dt)) == HourNumber(dt)
  {
    var rest := (dt.minute * 60 + dt.second) * 1_000_000 + dt.usec;
    assert 0 <= rest < MICROSECONDS_PER_HOUR;
    assert Micros(dt) == HourNumber(dt) * MICROSECONDS_PER_HOUR + rest;
  }

  lemma {:induction false} MonthsGrow(year: int, m: nat, n: nat)
    requires 1 <= m < n
    ensures DaysBeforeMonth(year, m) + DaysInMonth(year, m) <= DaysBeforeMonth(year, n)
    decreases n
  {
    if n > m + 1 {
      MonthsGrow(year, m, n - 1);
    }
  }

  lemma WholeYear(year: int)
    ensures DaysBeforeMonth(year, 13) == if IsLeap(year) then 366 else 365
  {
    assert DaysBeforeMonth(year, 2) == 31;
    assert DaysBeforeMonth(year, 3) == 31 + DaysInMonth(year, 2);
    assert DaysBeforeMonth(year, 4) == DaysBeforeMonth(year, 3) + 31;
    assert DaysBeforeMonth(year, 6) == DaysBeforeMonth(year, 4) + 61;
    assert DaysBeforeMonth(year, 8) == DaysBeforeMonth(year, 6) + 61;
    assert DaysBeforeMonth(year, 10) == DaysBeforeMonth(year, 8) + 61;
    assert DaysBeforeMonth(year, 12) == DaysBeforeMonth(year, 10) + 61;
  }

  lemma {:induction false} YearsGrow(y: nat, z: nat)
    requires 1 <= y < z
    ensures DaysBeforeYear(y) + (if IsLeap(y) then 366 else 365) <= DaysBeforeYear(z)
    decreases z
  {
    if z > y + 1 {
      YearsGrow(y, z - 1);
    }
  }

  ghost predicate HourBefore(a: DateTime, b: DateTime) {
    || a.year < b.year
    || (a.year == b.year && a.month < b.month)
    || (a.year == b.year && a.month == b.month && a.day < b.day)
    || (a.year == b.year && a.month == b.month && a.day == b.day && a.hour < b.hour)
  }

  lemma EarlierHour(a: DateTime, b: DateTime)
    requires Valid(a) && Valid(b) && HourBefore(a, b)
    ensures HourNumber(a) < HourNumber(b)
  {
    MonthsGrow(a.year, a.month, 13);
    WholeYear(a.year);
    if a.year < b.year {
      YearsGrow(a.year, b.year);
      if b.month > 1 {
        MonthsGrow(b.year, 1, b.month);
      }
    } else if a.month < b.month {
      MonthsGrow(a.year, a.month, b.month);
    }
  }

  // ----- Strings of digits

  function Digit(d: int): char
    requires 0 <= d < 10
  {
    '0' + d as char
  }

  /** The last width digits of n. */
  function Digits(n: nat, width: nat): (s: string)
    ensures |s| == width
  {
    if width == 0 then "" else Digits(n / 10, width - 1) + [Digit(n % 10)]
  }

  function Power(width: nat): nat {
    if width == 0 then 1 else 10 * Power(width - 1)
  }

  /** int(s), for a string of digits; None where that is an error. */
  function Int(s: string): Option<nat> {
    if s == "" then None
    else if !('0' <= s[|s| - 1] <= '9') then None
    else
      var d := s[|s| - 1] as int - '0' as int;
      if |s| == 1 then Some(d)
      else
        var r := Int(s[..|s| - 1]);
        if r.None? then None else Some(10 * r.value + d)
  }

  lemma {:induction false} IntOfDigits(n: nat, width: nat)
    requires 0 < width && n < Power(width)
    ensures Int(Digits(n, width)) == Some(n)
  {
    var s := Digits(n, width);
    assert s[..|s| - 1] == Digits(n / 10, width - 1);
    if width > 1 {
      IntOfDigits(n / 10, width - 1);
    }
  }

  lemma {:induction false} OnlyDigits(n: nat, width: nat)
    ensures forall c :: c in Digits(n, width) ==> '0' <= c <= '9'
  {
    if width > 0 {
      OnlyDigits(n / 10, width - 1);
    }
  }

  /** Of strings of one length, the first part decides unless it is the same. */
  lemma {:induction false} LessConcat(s: string, t: string, u: string, v: string)
    requires |s| == |t|
    ensures Strings.Less(s + u, t + v) <==> Strings.Less(s, t) || (s == t && Strings.Less(u, v))
  {
    if s == "" {
      assert s + u == u && t + v == v;
    } else {
      assert (s + u)[1..] == s[1..] + u && (t + v)[1..] == t[1..] + v;
      LessConcat(s[1..], t[1..], u, v);
      assert s == [s[0]] + s[1..] && t == [t[0]] + t[1..];
    }
  }

  /** Numbers printed with the same width sort as strings as they do as numbers. */
  lemma {:induction false} LessDigits(m: nat, n: nat, width: nat)
    requires m < Power(width) && n < Power(width)
    ensures Strings.Less(Digits(m, width), Digits(n, width)) <==> m < n
    ensures Digits(m, width) == Digits(n, width) <==> m == n
  {
    if width > 0 {
      LessDigits(m / 10, n / 10, width - 1);
      LessConcat(Digits(m / 10, width - 1), Digits(n / 10, width - 1), [Digit(m % 10)], [Digit(n % 10)]);
      var s, t := Digits(m, width), Digits(n, width);
      assert s[..|s| - 1] == Digits(m / 10, width - 1) && t[..|t| - 1] == Digits(n / 10, width - 1);
      assert s[|s| - 1] == Digit(m % 10) && t[|t| - 1] == Digit(n % 10);
      assert [Digit(m % 10)][1..] == "" && [Digit(n % 10)][1..] == "";
    }
  }

  // ----- Printing

  /** s.replace([c], ""). */
  function Without(s: string, c: char): string {
    if s == "" then "" else Without(s[..|s| - 1], c) + if s[|s| - 1] == c then "" else [s[|s| - 1]]
  }

  /** Everything before the last c; all of s if it has none. */
  function BeforeLast(s: string, c: char): string {
    if c !in s then s else if s[|s| - 1] == c then s[..|s| - 1] else BeforeLast(s[..|s| - 1], c)
  }

  /** The extended form; the microseconds are left out when they are zero. */
  function IsoFormat(dt: DateTime): string
    requires Valid(dt)
  {
    (Digits(dt.year, 4) + "-" + Digits(dt.month, 2)) + "-" + (Digits(dt.day, 2) + Clock(dt))
  }

  function Clock(dt: DateTime): string
    requires Valid(dt)
  {
    "T" + Digits(dt.hour, 2) + ":" + Digits(dt.minute, 2) + ":" + (Digits(dt.second, 2) + Fraction(dt))
  }

  function Fraction(dt: DateTime): string
    requires Valid(dt)
  {
    if dt.usec == 0 then "" else "." + Digits(dt.usec, 6)
  }

  function DatetimeToBasicTs(dt: DateTime): string
    requires Valid(dt)
  {
    Without(Without(IsoFormat(dt), '-'), ':') + "Z"
  }

  function DatetimeToUpdateTs(dt: DateTime): string
    requires Valid(dt)
  {
    Without(BeforeLast(BeforeLast(Without(IsoFormat(dt), '-'), ':'), ':'), ':') + "Z"
  }

  lemma {:induction false} WithoutConcat(s: string, t: string, c: char)
    ensures Without(s + t, c) == Without(s, c) + Without(t, c)
  {
    if t == "" {
      assert s + t == s;
    } else {
      assert (s + t)[..|s + t| - 1] == s + t[..|t| - 1];
      WithoutConcat(s, t[..|t| - 1], c);
    }
  }

  lemma {:induction false} WithoutAbsent(s: string, c: char)
    requires c !in s
    ensures Without(s, c) == s
  {
    if s != "" {
      WithoutAbsent(s[..|s| - 1], c);
    }
  }

  lemma {:induction false} BeforeLastSplits(s: string, c: char, t: string)
    requires c !in t
    ensures BeforeLast(s + [c] + t, c) == s
  {
    var u := s + [c] + t;
    assert u[|s|] == c;
    if t == "" {
      assert u[..|u| - 1] == s;
    } else {
      assert u[..|u| - 1] == s + [c] + t[..|t| - 1];
      assert u[|u| - 1] == t[|t| - 1];
      BeforeLastSplits(s, c, t[..|t| - 1]);
    }
  }

  // ----- Parsing

  /** s[a:b], cut at the end of s. */
  function Slice(s: string, a: nat, b: nat): string
    requires a <= b
  {
    if a >= |s| then "" else if b > |s| then s[a..] else s[a..b]
  }

  /** A time from its components; None where one of them is not a number, or there is no such time.
      Microseconds that are not a number count as zero. */
  function FromComponents(year: Option<nat>, month: Option<nat>, day: Option<nat>, hour: Option<nat>,
                          minute: Option<nat>, second: Option<nat>, usec: Option<nat>): Option<DateTime>
  {
    if year.None? || month.None? || day.None? || hour.None? || minute.None? || second.None? then None
    else
      var dt := DateTime(year.value, month.value, day.value, hour.value, minute.value, second.value,
                         if usec.None? then 0 else usec.value);
      if Valid(dt) then Some(dt) else None
  }

  function TsToDatetime(ts: string): Option<DateTime> {
    FromComponents(Int(Slice(ts, 0, 4)), Int(Slice(ts, 5, 7)), Int(Slice(ts, 8, 10)), Int(Slice(ts, 11, 13)),
                   Int(Slice(ts, 14, 16)), Int(Slice(ts, 17, 19)), Int(Slice(ts, 20, 26)))
  }

  function BasicTsToDatetime(ts: string): Option<DateTime> {
    FromComponents(Int(Slice(ts, 0, 4)), Int(Slice(ts, 4, 6)), Int(Slice(ts, 6, 8)), Int(Slice(ts, 9, 11)),
                   Int(Slice(ts, 11, 13)), Int(Slice(ts, 13, 15)), Int(Slice(ts, 16, 22)))
  }

  // ----- Both ways

  /** The printed components. */
  function DatePart(dt: DateTime): string
    requires Valid(dt)
  {
    Digits(dt.year, 4) + Digits(dt.month, 2) + Digits(dt.day, 2)
  }

  lemma NoSeparators(n: nat, width: nat)
    ensures '-' !in Digits(n, width) && ':' !in Digits(n, width)
  {
    OnlyDigits(n, width);
  }

  lemma WithoutLast(s: string, c: char)
    ensures Without(s + [c], c) == Without(s, c)
  {
    assert (s + [c])[..|s|] == s;
    assert Without(s, c) + "" == Without(s, c);
  }

  lemma Stripped(s: string, c: char, t: string)
    requires c !in t
    ensures Without(s + [c] + t, c) == Without(s, c) + t
    ensures Without(s + t, c) == Without(s, c) + t
  {
    WithoutAbsent(t, c);
    WithoutConcat(s, t, c);
    WithoutConcat(s + [c], t, c);
    WithoutLast(s, c);
  }

  /** The form without dashes, up to the minutes and seconds. */
  function HourPart(dt: DateTime): string
    requires Valid(dt)
  {
    DatePart(dt) + "T" + Digits(dt.hour, 2)
  }

  lemma Dashless(dt: DateTime)
    requires Valid(dt)
    ensures Without(IsoFormat(dt), '-')
         == HourPart(dt) + ":" + Digits(dt.minute, 2) + ":" + (Digits(dt.second, 2) + Fraction(dt))
  {
    var y, m, rest := Digits(dt.year, 4), Digits(dt.month, 2), Digits(dt.day, 2) + Clock(dt);
    NoDashes(dt);
    Stripped(y + ['-'] + m, '-', rest);
    Stripped(y, '-', m);
    WithoutAbsent(y, '-');
    Reassociate(y + m, Digits(dt.day, 2), Digits(dt.hour, 2), Digits(dt.minute, 2),
                Digits(dt.second, 2) + Fraction(dt));
  }

  lemma Reassociate(s: string, d: string, h: string, m: string, r: string)
    ensures s + (d + ("T" + h + ":" + m + ":" + r)) == s + d + "T" + h + ":" + m + ":" + r
  {
  }

  lemma NoDashes(dt: DateTime)
    requires Valid(dt)
    ensures '-' !in Digits(dt.year, 4) && '-' !in Digits(dt.month, 2) && '-' !in Digits(dt.day, 2) + Clock(dt)
  {
    NoSeparators(dt.year, 4);
    NoSeparators(dt.month, 2);
    NoSeparators(dt.day, 2);
    NoDashesInClock(dt);
  }

  lemma NoDashesInClock(dt: DateTime)
    requires Valid(dt)
    ensures '-' !in Clock(dt)
  {
    NoSeparators(dt.hour, 2);
    NoSeparators(dt.minute, 2);
    NoSeparators(dt.second, 2);
    NoSeparators(dt.usec, 6);
    var h, m, s := Digits(dt.hour, 2), Digits(dt.minute, 2), Digits(dt.second, 2) + Fraction(dt);
    assert '-' !in s && '-' !in "T" + h && '-' !in "T" + h + ":" + m + ":";
  }

  lemma BasicForm(dt: DateTime)
    requires Valid(dt)
    ensures DatetimeToBasicTs(dt)
         == HourPart(dt) + Digits(dt.minute, 2) + (Digits(dt.second, 2) + Fraction(dt)) + "Z"
  {
    var h, m, s := HourPart(dt), Digits(dt.minute, 2), Digits(dt.second, 2) + Fraction(dt);
    Dashless(dt);
    NoColons(dt);
    Stripped(h + [':'] + m, ':', s);
    Stripped(h, ':', m);
    WithoutAbsent(h, ':');
  }

  lemma NoColons(dt: DateTime)
    requires Valid(dt)
    ensures ':' !in HourPart(dt) && ':' !in Digits(dt.minute, 2) && ':' !in Digits(dt.second, 2) + Fraction(dt)
  {
    NoSeparators(dt.year, 4);
    NoSeparators(dt.month, 2);
    NoSeparators(dt.day, 2);
    NoSeparators(dt.hour, 2);
    NoSeparators(dt.minute, 2);
    NoSeparators(dt.second, 2);
    NoSeparators(dt.usec, 6);
  }

  lemma UpdateForm(dt: DateTime)
    requires Valid(dt)
    ensures DatetimeToUpdateTs(dt) == HourPart(dt) + "Z"
  {
    var h, m, s := HourPart(dt), Digits(dt.minute, 2), Digits(dt.second, 2) + Fraction(dt);
    Dashless(dt);
    NoColons(dt);
    BeforeLastSplits(h + [':'] + m, ':', s);
    BeforeLastSplits(h, ':', m);
    WithoutAbsent(h, ':');
  }

  lemma Powers()
    ensures Power(2) == 100 && Power(4) == 10_000 && Power(6) == 1_000_000
  {
    assert Power(3) == 1000 && Power(5) == 100_000;
  }

  lemma ComponentsParse(dt: DateTime)
    requires Valid(dt)
    ensures FromComponents(Int(Digits(dt.year, 4)), Int(Digits(dt.month, 2)), Int(Digits(dt.day, 2)),
                           Int(Digits(dt.hour, 2)),
                           Int(Digits(dt.minute, 2)), Int(Digits(dt.second, 2)),
                           if dt.usec == 0 then None else Int(Digits(dt.usec, 6))) == Some(dt)
  {
    Powers();
    IntOfDigits(dt.year, 4);
    IntOfDigits(dt.month, 2);
    IntOfDigits(dt.day, 2);
    IntOfDigits(dt.hour, 2);
    IntOfDigits(dt.minute, 2);
    IntOfDigits(dt.second, 2);
    IntOfDigits(dt.usec, 6);
  }

  /** Parsing a printed time in basic form gives the time back, with or without microseconds. */
  lemma {:induction false} BasicRoundTrip(dt: DateTime)
    requires Valid(dt)
    ensures BasicTsToDatetime(DatetimeToBasicTs(dt)) == Some(dt)
  {
    BasicForm(dt);
    ComponentsParse(dt);
    BasicFields(Digits(dt.year, 4), Digits(dt.month, 2), Digits(dt.day, 2), Digits(dt.hour, 2),
                Digits(dt.minute, 2), Digits(dt.second, 2), Fraction(dt), DatetimeToBasicTs(dt));
  }

  lemma BasicFields(y: string, m: string, d: string, h: string, mi: string, s: string, f: string, ts: string)
    requires |y| == 4 && |m| == |d| == |h| == |mi| == |s| == 2 && |f| in {0, 7}
    requires ts == y + m + d + "T" + h + mi + (s + f) + "Z"
    ensures Slice(ts, 0, 4) == y && Slice(ts, 4, 6) == m && Slice(ts, 6, 8) == d
    ensures Slice(ts, 9, 11) == h && Slice(ts, 11, 13) == mi && Slice(ts, 13, 15) == s
    ensures Slice(ts, 16, 22) == if f == "" then "" else f[1..]
  {
    assert |ts| == 16 + |f|;
  }

  /** So does the extended form. */
  lemma ExtendedRoundTrip(dt: DateTime)
    requires Valid(dt)
    ensures TsToDatetime(IsoFormat(dt)) == Some(dt)
  {
    ComponentsParse(dt);
    ExtendedFields(Digits(dt.year, 4), Digits(dt.month, 2), Digits(dt.day, 2), Digits(dt.hour, 2),
                   Digits(dt.minute, 2), Digits(dt.second, 2), Fraction(dt), IsoFormat(dt));
  }

  lemma ExtendedFields(y: string, m: string, d: string, h: string, mi: string, s: string, f: string, ts: string)
    requires |y| == 4 && |m| == |d| == |h| == |mi| == |s| == 2 && |f| in {0, 7}
    requires ts == (y + "-" + m) + "-" + (d + ("T" + h + ":" + mi + ":" + (s + f)))
    ensures Slice(ts, 0, 4) == y && Slice(ts, 5, 7) == m && Slice(ts, 8, 10) == d
    ensures Slice(ts, 11, 13) == h && Slice(ts, 14, 16) == mi && Slice(ts, 17, 19) == s
    ensures Slice(ts, 20, 26) == if f == "" then "" else f[1..]
  {
    assert |ts| == 19 + |f|;
  }

  // ----- The texts, digit by digit

  /** The number that the n characters from position i spell. */
  ghost function Decimal(t: string, i: nat, n: nat): (number: int)
    requires i + n <= |t|
    ensures AllDigits(t, i, n) ==> number >= 0
  {
    if n == 0 then 0 else Decimal(t, i, n - 1) * 10 + (t[i + n - 1] as int - 0x30)
  }

  ghost predicate AllDigits(t: string, i: nat, n: nat)
    requires i + n <= |t|
  {
    forall k :: i <= k < i + n ==> 0x30 <= t[k] as int <= 0x39
  }

  /** From position i on, t spells the number in n digits. */
  ghost predicate Spells(t: string, i: nat, n: nat, number: int) {
    i + n <= |t| && AllDigits(t, i, n) && Decimal(t, i, n) == number
  }

  lemma {:induction false} SpellsInside(t: string, i: nat, n: nat, s: string)
    requires i + n <= |t| && s == t[i..i + n]
    ensures Decimal(t, i, n) == Decimal(s, 0, n) && (AllDigits(s, 0, n) ==> AllDigits(t, i, n))
    decreases n
  {
    if n > 0 {
      SpellsInside(t, i, n - 1, t[i..i + n - 1]);
      SpellsInside(s, 0, n - 1, s[0..n - 1]);
      assert s[0..n - 1] == t[i..i + n - 1] && s[n - 1] == t[i + n - 1];
    }
    forall k | i <= k < i + n
      ensures t[k] == s[k - i]
    {
    }
  }

  lemma {:induction false} DigitsSpell(number: nat, n: nat)
    requires number < Power(n)
    ensures Spells(Digits(number, n), 0, n, number)
  {
    if n > 0 {
      var s := Digits(number, n);
      DigitsSpell(number / 10, n - 1);
      SpellsInside(s, 0, n - 1, Digits(number / 10, n - 1));
      assert s[0..n - 1] == Digits(number / 10, n - 1);
    }
  }

  lemma FieldSpells(t: string, i: nat, n: nat, number: nat)
    requires i + n <= |t| && t[i..i + n] == Digits(number, n) && number < Power(n)
    ensures Spells(t, i, n, number)
  {
    DigitsSpell(number, n);
    SpellsInside(t, i, n, Digits(number, n));
  }

  lemma DateFields(t: string, y: string, m: string, d: string, h: string, rest: string)
    requires |y| == 4 && |m| == |d| == |h| == 2 && t == y + m + d + "T" + h + rest
    ensures t[0..4] == y && t[4..6] == m && t[6..8] == d && t[8] == 'T' && t[9..11] == h && t[11..] == rest
  {
  }

  lemma DateSpelled(t: string, dt: DateTime, rest: string)
    requires Valid(dt) && t == HourPart(dt) + rest
    ensures Spells(t, 0, 4, dt.year) && Spells(t, 4, 2, dt.month) && Spells(t, 6, 2, dt.day) && Spells(t, 9, 2, dt.hour)
    ensures t[8] == 'T' && t[11..] == rest
  {
    Powers();
    DateFields(t, Digits(dt.year, 4), Digits(dt.month, 2), Digits(dt.day, 2), Digits(dt.hour, 2), rest);
    FieldSpells(t, 0, 4, dt.year);
    FieldSpells(t, 4, 2, dt.month);
    FieldSpells(t, 6, 2, dt.day);
    FieldSpells(t, 9, 2, dt.hour);
  }

  /** An hour stamp: year, month, day, the letter T, the hour, and the letter Z. */
  lemma UpdateText(dt: DateTime)
    requires Valid(dt)
    ensures var t := DatetimeToUpdateTs(dt);
            && |t| == 12 && t[8] == 'T' && t[11] == 'Z'
            && Spells(t, 0, 4, dt.year) && Spells(t, 4, 2, dt.month) && Spells(t, 6, 2, dt.day)
            && Spells(t, 9, 2, dt.hour)
  {
    UpdateForm(dt);
    DateSpelled(DatetimeToUpdateTs(dt), dt, "Z");
  }

  lemma ClockFields(t: string, m: string, s: string, f: string)
    requires |m| == |s| == 2 && |t| >= 11 && t[11..] == m + (s + f) + "Z"
    ensures |t| == 16 + |f| && t[11..13] == m && t[13..15] == s && t[15..15 + |f|] == f && t[|t| - 1] == 'Z'
  {
    TailFields(t[11..], m, s, f);
    SliceOfTail(t, 11, 0, 2);
    SliceOfTail(t, 11, 2, 4);
    SliceOfTail(t, 11, 4, 4 + |f|);
    assert t[|t| - 1] == t[11..][|t| - 12];
  }

  lemma TailFields(u: string, m: string, s: string, f: string)
    requires |m| == |s| == 2 && u == m + (s + f) + "Z"
    ensures |u| == 5 + |f| && u[0..2] == m && u[2..4] == s && u[4..4 + |f|] == f && u[|u| - 1] == 'Z'
  {
  }

  lemma SliceOfTail(t: string, i: nat, a: nat, b: nat)
    requires a <= b && i + b <= |t|
    ensures t[i..][a..b] == t[i + a..i + b]
  {
  }

  lemma FractionSpelled(t: string, i: nat, dt: DateTime)
    requires Valid(dt) && dt.usec != 0 && i + 7 <= |t| && t[i..i + 7] == Fraction(dt)
    ensures t[i] == '.' && Spells(t, i + 1, 6, dt.usec)
  {
    Powers();
    assert t[i] == t[i..i + 7][0] && t[i + 1..i + 7] == t[i..i + 7][1..];
    assert Fraction(dt)[1..] == Digits(dt.usec, 6);
    FieldSpells(t, i + 1, 6, dt.usec);
  }

  /** A stamp in basic form: the same without the Z, then minute and second, a dot and the microseconds if there
      are any, and the letter Z. */
  lemma BasicText(dt: DateTime)
    requires Valid(dt)
    ensures var t := DatetimeToBasicTs(dt);
            && |t| == (if dt.usec == 0 then 16 else 23) && t[8] == 'T' && t[|t| - 1] == 'Z'
            && Spells(t, 0, 4, dt.year) && Spells(t, 4, 2, dt.month) && Spells(t, 6, 2, dt.day)
            && Spells(t, 9, 2, dt.hour) && Spells(t, 11, 2, dt.minute) && Spells(t, 13, 2, dt.second)
            && (dt.usec != 0 ==> t[15] == '.' && Spells(t, 16, 6, dt.usec))
  {
    var t, m, s := DatetimeToBasicTs(dt), Digits(dt.minute, 2), Digits(dt.second, 2);
    Powers();
    BasicForm(dt);
    assert t == HourPart(dt) + (m + (s + Fraction(dt)) + "Z");
    DateSpelled(t, dt, m + (s + Fraction(dt)) + "Z");
    ClockFields(t, m, s, Fraction(dt));
    FieldSpells(t, 11, 2, dt.minute);
    FieldSpells(t, 13, 2, dt.second);
    if dt.usec != 0 {
      FractionSpelled(t, 15, dt);
    }
  }

  lemma {:induction false} IntSpells(s: string)
    requires s != "" && AllDigits(s, 0, |s|)
    ensures Int(s) == Some(Decimal(s, 0, |s|))
  {
    if |s| > 1 {
      var init := s[..|s| - 1];
      IntSpells(init);
      assert s[0..|init|] == init;
      SpellsInside(s, 0, |init|, init);
    }
  }

  lemma SliceSpells(t: string, i: nat, n: nat)
    requires i + n <= |t| && n > 0 && AllDigits(t, i, n)
    ensures Int(Slice(t, i, i + n)) == Some(Decimal(t, i, n))
  {
    var s := t[i..i + n];
    assert Slice(t, i, i + n) == s;
    SpellsInside(t, i, n, s);
    forall k | 0 <= k < n
      ensures s[k] == t[i + k]
    {
    }
    IntSpells(s);
  }

  /** A stamp of digits in basic form, without microseconds, is read as what it spells exactly when there is
      such a time: with the days of its month, 29 of February in every fourth year but those
      that end a century, unless its number is divisible by 400. */
  lemma BasicExactly(t: string)
    requires |t| == 16 && AllDigits(t, 0, 8) && AllDigits(t, 9, 6)
    ensures var y, m, d := Decimal(t, 0, 4), Decimal(t, 4, 2), Decimal(t, 6, 2);
            var h, mi, s := Decimal(t, 9, 2), Decimal(t, 11, 2), Decimal(t, 13, 2);
            BasicTsToDatetime(t) ==
            if && 1 <= y && 1 <= m <= 12 && 1 <= d && h < 24 && mi < 60 && s < 60
               && d <= (if m == 2 && (y % 400 == 0 || (y % 4 == 0 && y % 100 != 0)) then 29 else if m == 2 then 28
                        else if m in {4, 6, 9, 11} then 30 else 31)
            then Some(DateTime(y, m, d, h, mi, s, 0)) else None
  {
    var y, m, d := Decimal(t, 0, 4), Decimal(t, 4, 2), Decimal(t, 6, 2);
    var h, mi, s := Decimal(t, 9, 2), Decimal(t, 11, 2), Decimal(t, 13, 2);
    FieldsRead(t);
    FourDigits(t);
    TwoDigits(t, 4);
    TwoDigits(t, 6);
    TwoDigits(t, 9);
    TwoDigits(t, 11);
    TwoDigits(t, 13);
    ComponentsExactly(y, m, d, h, mi, s);
  }

  lemma FieldsRead(t: string)
    requires |t| == 16 && AllDigits(t, 0, 8) && AllDigits(t, 9, 6)
    ensures BasicTsToDatetime(t)
         == FromComponents(Some(Decimal(t, 0, 4)), Some(Decimal(t, 4, 2)), Some(Decimal(t, 6, 2)),
                           Some(Decimal(t, 9, 2)), Some(Decimal(t, 11, 2)), Some(Decimal(t, 13, 2)), None)
  {
    DateRead(t);
    ClockRead(t);
  }

  lemma DateRead(t: string)
    requires |t| == 16 && AllDigits(t, 0, 8)
    ensures Int(Slice(t, 0, 4)) == Some(Decimal(t, 0, 4)) && Int(Slice(t, 4, 6)) == Some(Decimal(t, 4, 2))
    ensures Int(Slice(t, 6, 8)) == Some(Decimal(t, 6, 2))
  {
    SliceSpells(t, 0, 4);
    SliceSpells(t, 4, 2);
    SliceSpells(t, 6, 2);
  }

  lemma ClockRead(t: string)
    requires |t| == 16 && AllDigits(t, 9, 6)
    ensures Int(Slice(t, 9, 11)) == Some(Decimal(t, 9, 2)) && Int(Slice(t, 11, 13)) == Some(Decimal(t, 11, 2))
    ensures Int(Slice(t, 13, 15)) == Some(Decimal(t, 13, 2)) && Int(Slice(t, 16, 22)) == None
  {
    SliceSpells(t, 9, 2);
    SliceSpells(t, 11, 2);
    SliceSpells(t, 13, 2);
    assert Slice(t, 16, 22) == "";
  }

  lemma ComponentsExactly(y: nat, m: nat, d: nat, h: nat, mi: nat, s: nat)
    requires y <= 9999
    ensures FromComponents(Some(y), Some(m), Some(d), Some(h), Some(mi), Some(s), None) ==
            if && 1 <= y && 1 <= m <= 12 && 1 <= d && h < 24 && mi < 60 && s < 60
               && d <= (if m == 2 && (y % 400 == 0 || (y % 4 == 0 && y % 100 != 0)) then 29 else if m == 2 then 28
                        else if m in {4, 6, 9, 11} then 30 else 31)
            then Some(DateTime(y, m, d, h, mi, s, 0)) else None
  {
  }

  lemma FourDigits(t: string)
    requires |t| >= 4 && AllDigits(t, 0, 4)
    ensures 0 <= Decimal(t, 0, 4) <= 9999
  {
    assert 0 <= Decimal(t, 0, 1) <= 9;
    assert 0 <= Decimal(t, 0, 2) <= 99;
    assert 0 <= Decimal(t, 0, 3) <= 999;
  }

  lemma TwoDigits(t: string, i: nat)
    requires |t| >= i + 2 && AllDigits(t, i, 2)
    ensures 0 <= Decimal(t, i, 2) <= 99
  {
    assert 0 <= Decimal(t, i, 1) <= 9;
  }

  // ----- Update log names

  lemma LessHourPart(a: DateTime, b: DateTime, u: string, v: string)
    requires Valid(a) && Valid(b)
    ensures Strings.Less(HourPart(a) + u, HourPart(b) + v) <==>
            HourBefore(a, b) || (HourPart(a) == HourPart(b) && Strings.Less(u, v))
    ensures HourPart(a) == HourPart(b) <==> !HourBefore(a, b) && !HourBefore(b, a)
  {
    Powers();
    LessDigits(a.year, b.year, 4);
    LessDigits(a.month, b.month, 2);
    LessDigits(a.day, b.day, 2);
    LessDigits(a.hour, b.hour, 2);
    LessFields(Digits(a.year, 4), Digits(a.month, 2), Digits(a.day, 2), Digits(a.hour, 2), u,
               Digits(b.year, 4), Digits(b.month, 2), Digits(b.day, 2), Digits(b.hour, 2), v);
    SamePart(a, b);
  }

  lemma LessFields(ay: string, am: string, ad: string, ah: string, u: string,
                   cy: string, cm: string, cd: string, ch: string, v: string)
    requires |ay| == |cy| && |am| == |cm| && |ad| == |cd| && |ah| == |ch|
    ensures Strings.Less(ay + am + ad + "T" + ah + u, cy + cm + cd + "T" + ch + v) <==>
              || Strings.Less(ay, cy)
              || (ay == cy && Strings.Less(am, cm))
              || (ay == cy && am == cm && Strings.Less(ad, cd))
              || (ay == cy && am == cm && ad == cd && Strings.Less(ah, ch))
              || (ay == cy && am == cm && ad == cd && ah == ch && Strings.Less(u, v))
  {
    LessConcat(ay, cy, am, cm);
    LessConcat(ay + am, cy + cm, ad, cd);
    assert "T"[1..] == "";
    LessConcat(ay + am + ad, cy + cm + cd, "T", "T");
    LessConcat(ay + am + ad + "T", cy + cm + cd + "T", ah, ch);
    LessConcat(ay + am + ad + "T" + ah, cy + cm + cd + "T" + ch, u, v);
    SameConcat(ay, cy, am, cm);
    SameConcat(ay + am, cy + cm, ad, cd);
    SameConcat(ay + am + ad, cy + cm + cd, "T", "T");
    SameConcat(ay + am + ad + "T", cy + cm + cd + "T", ah, ch);
    Strings.Irreflexive("T");
  }

  lemma SameConcat(s: string, t: string, u: string, v: string)
    requires |s| == |t|
    ensures s + u == t + v <==> s == t && u == v
  {
    if s + u == t + v {
      assert (s + u)[..|s|] == s && (t + v)[..|t|] == t;
      assert (s + u)[|s|..] == u && (t + v)[|t|..] == v;
    }
  }

  lemma SamePart(a: DateTime, b: DateTime)
    requires Valid(a) && Valid(b)
    ensures HourPart(a) == HourPart(b) <==>
              Digits(a.year, 4) == Digits(b.year, 4) && Digits(a.month, 2) == Digits(b.month, 2)
              && Digits(a.day, 2) == Digits(b.day, 2) && Digits(a.hour, 2) == Digits(b.hour, 2)
  {
    var s, t := HourPart(a), HourPart(b);
    assert s[0..4] == Digits(a.year, 4) && s[4..6] == Digits(a.month, 2) && s[6..8] == Digits(a.day, 2)
           && s[9..11] == Digits(a.hour, 2);
    assert t[0..4] == Digits(b.year, 4) && t[4..6] == Digits(b.month, 2) && t[6..8] == Digits(b.day, 2)
           && t[9..11] == Digits(b.hour, 2);
  }

  /** The file name of the update log for the hour of dt. */
  function UpdateLogName(dt: DateTime, locale: string): string
    requires Valid(dt)
  {
    "update." + DatetimeToUpdateTs(dt) + "." + locale
  }

  /** Update log names sort as strings by hour, then by locale: just as the logs are replayed. */
  lemma {:induction false} LogNamesSortChronologically(a: DateTime, la: string, b: DateTime, lb: string)
    requires Valid(a) && Valid(b)
    ensures Strings.Less(UpdateLogName(a, la), UpdateLogName(b, lb))
       <==> LogLess(LogName(Hour(Micros(a)), la), LogName(Hour(Micros(b)), lb))
    ensures UpdateLogName(a, la) == UpdateLogName(b, lb)
       <==> LogName(Hour(Micros(a)), la) == LogName(Hour(Micros(b)), lb)
  {
    HoursAsStrings(a, b, "Z." + la, "Z." + lb);
    NameOf(a, la);
    NameOf(b, lb);
    Strings.CommonPrefix("Z.", la, lb);
    Renamed(HourPart(a), la, HourPart(b), lb);
  }

  lemma NameOf(dt: DateTime, locale: string)
    requires Valid(dt)
    ensures UpdateLogName(dt, locale) == "update." + (HourPart(dt) + "Z") + "." + locale
    ensures |HourPart(dt)| == 11
  {
    UpdateForm(dt);
  }

  lemma HoursAsStrings(a: DateTime, b: DateTime, u: string, v: string)
    requires Valid(a) && Valid(b)
    ensures Strings.Less(HourPart(a) + u, HourPart(b) + v) <==>
              Hour(Micros(a)) < Hour(Micros(b)) || (Hour(Micros(a)) == Hour(Micros(b)) && Strings.Less(u, v))
    ensures HourPart(a) == HourPart(b) <==> Hour(Micros(a)) == Hour(Micros(b))
  {
    HourOfMicros(a);
    HourOfMicros(b);
    HoursDecide(a, b);
    HoursDecide(b, a);
    LessHourPart(a, b, u, v);
  }

  lemma {:induction false} Renamed(s: string, la: string, t: string, lb: string)
    requires |s| == |t|
    ensures Strings.Less("update." + (s + "Z") + "." + la, "update." + (t + "Z") + "." + lb)
       <==> Strings.Less(s + ("Z." + la), t + ("Z." + lb))
    ensures "update." + (s + "Z") + "." + la == "update." + (t + "Z") + "." + lb <==> s == t && la == lb
  {
    assert "update." + (s + "Z") + "." + la == "update." + (s + ("Z." + la));
    assert "update." + (t + "Z") + "." + lb == "update." + (t + ("Z." + lb));
    Strings.CommonPrefix("update.", s + ("Z." + la), t + ("Z." + lb));
    SameConcat("update.", "update.", s + ("Z." + la), t + ("Z." + lb));
    SameConcat(s, t, "Z." + la, "Z." + lb);
    SameConcat("Z.", "Z.", la, lb);
  }

  lemma HoursDecide(a: DateTime, b: DateTime)
    requires Valid(a) && Valid(b)
    ensures HourBefore(a, b) <==> HourNumber(a) < HourNumber(b)
  {
    if HourBefore(a, b) {
      EarlierHour(a, b);
    } else if HourBefore(b, a) {
      EarlierHour(b, a);
    }
  }
}
