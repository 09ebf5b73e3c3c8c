/** Certificate times (der.ts) against the Gregorian calendar, and the writer of der-writer.ts.
    Dates follow ECMA-262, section 21.4.1 (Time Values and Time Range). */
module Calendar {
  import opened Common
  import opened Der
  import Text

  const DAY_MS := 86400000

  predicate Leap(y: int) {
    y % 4 == 0 && (y % 100 != 0 || y % 400 == 0)
  }

  /** Number of the first day of a year, counted from 1 January 1970. */
  function DayFromYear(y: int): int {
    365 * (y - 1970) + (y - 1969) / 4 - (y - 1901) / 100 + (y - 1601) / 400
  }

  /** Days of the year before month m, where January is 0; for m = 12 the length of the year. */
  function DaysBefore(m: nat, leap: bool): nat
    requires m <= 12
  {
    [0, 31, 59, 90, 120, 151, 181, 212, 243, 273, 304, 334, 365][m] + (if leap && m >= 2 then 1 else 0)
  }

  /** How many days month mo (January is 1) has. */
  function DaysIn(y: int, mo: nat): nat
    requires 1 <= mo <= 12
  {
    if mo == 2 then (if Leap(y) then 29 else 28) else if mo in {4, 6, 9, 11} then 30 else 31
  }

  /** The last year, from y on, whose first day is not after this day. */
  function YearFromDay(day: int, y: int): int
    requires DayFromYear(y) <= day
    decreases day - DayFromYear(y)
  {
    YearLength(y);
    if day < DayFromYear(y + 1) then y else YearFromDay(day, y + 1)
  }

  /** The month a day of the year falls in. */
  function MonthFromDay(n: nat, leap: bool, m: nat): (r: nat)
    requires m <= 11
    ensures r <= m
  {
    if m == 0 || n >= DaysBefore(m, leap) then m else MonthFromDay(n, leap, m - 1)
  }

  datatype Date = Date(year: int, month: nat, day: int)

  /** The calendar date (January is 0) of a day number not before the year 0. */
  function DateOf(day: int): Date
    requires DayFromYear(0) <= day
  {
    var y := YearFromDay(day, 0);
    YearFound(day, 0);
    var n := day - DayFromYear(y);
    var m := MonthFromDay(n, Leap(y), 11);
    Date(y, m, n - DaysBefore(m, Leap(y)) + 1)
  }

  // ---- the calendar is consistent -------------------------------------------------------------

  lemma YearLength(y: int)
    ensures DayFromYear(y + 1) == DayFromYear(y) + DaysBefore(12, Leap(y))
  {
    FourthYears(y);
    HundredthYears(y);
    FourHundredthYears(y);
    YearDifference(y);
  }

  lemma FourthYears(y: int)
    ensures (y - 1968) / 4 - (y - 1969) / 4 == if y % 4 == 0 then 1 else 0
  {
  }

  lemma HundredthYears(y: int)
    ensures (y - 1900) / 100 - (y - 1901) / 100 == if y % 100 == 0 then 1 else 0
    ensures y % 100 == 0 ==> y % 4 == 0
  {
  }

  lemma FourHundredthYears(y: int)
    ensures (y - 1600) / 400 - (y - 1601) / 400 == if y % 400 == 0 then 1 else 0
    ensures y % 400 == 0 ==> y % 100 == 0
  {
  }

  lemma YearDifference(y: int)
    requires (y - 1968) / 4 - (y - 1969) / 4 == if y % 4 == 0 then 1 else 0
    requires (y - 1900) / 100 - (y - 1901) / 100 == if y % 100 == 0 then 1 else 0
    requires (y - 1600) / 400 - (y - 1601) / 400 == if y % 400 == 0 then 1 else 0
    requires (y % 100 == 0 ==> y % 4 == 0) && (y % 400 == 0 ==> y % 100 == 0)
    ensures DayFromYear(y + 1) == DayFromYear(y) + DaysBefore(12, Leap(y))
  {
  }

  lemma MonthLength(y: int, mo: nat)
    requires 1 <= mo <= 12
    ensures DaysBefore(mo, Leap(y)) == DaysBefore(mo - 1, Leap(y)) + DaysIn(y, mo)
  {
  }

  lemma {:induction false} YearsGrow(x: int, y: int)
    requires x <= y
    ensures DayFromYear(x) + 365 * (y - x) <= DayFromYear(y)
    decreases y - x
  {
    if x < y {
      YearsGrow(x, y - 1);
      YearLength(y - 1);
    }
  }

  lemma {:induction false} YearFound(day: int, y: int)
    requires DayFromYear(y) <= day
    ensures var r := YearFromDay(day, y); r >= y && DayFromYear(r) <= day < DayFromYear(r + 1)
    decreases day - DayFromYear(y)
  {
    hide DayFromYear;
    YearLength(y);
    if day >= DayFromYear(y + 1) {
      YearFound(day, y + 1);
    }
  }

  lemma MonthFound(n: nat, leap: bool)
    requires n < DaysBefore(12, leap)
    ensures var m := MonthFromDay(n, leap, 11); m <= 11 && DaysBefore(m, leap) <= n < DaysBefore(m + 1, leap)
  {
    MonthFoundFrom(n, leap, 11);
  }

  lemma {:induction false} MonthFoundFrom(n: nat, leap: bool, m: nat)
    requires m <= 11 && n < DaysBefore(m + 1, leap)
    ensures var r := MonthFromDay(n, leap, m); r <= m && DaysBefore(r, leap) <= n < DaysBefore(r + 1, leap)
  {
    if m > 0 && n < DaysBefore(m, leap) {
      MonthFoundFrom(n, leap, m - 1);
    }
  }

  /** A day number decodes to a day that exists, and encodes back. */
  lemma DateExists(day: int)
    requires DayFromYear(0) <= day
    ensures var d := DateOf(day);
            && d.year >= 0 && d.month <= 11 && 1 <= d.day <= DaysIn(d.year, d.month + 1)
            && day == DayFromYear(d.year) + DaysBefore(d.month, Leap(d.year)) + d.day - 1
  {
    var y := YearFromDay(day, 0);
    YearFound(day, 0);
    YearLength(y);
    var n := day - DayFromYear(y);
    MonthFound(n, Leap(y));
    MonthLength(y, MonthFromDay(n, Leap(y), 11) + 1);
  }

  lemma YearIsUnique(y: nat, day: int)
    requires DayFromYear(y) <= day < DayFromYear(y + 1)
    ensures DayFromYear(0) <= day && YearFromDay(day, 0) == y
  {
    hide DayFromYear;
    YearsGrow(0, y);
    YearFound(day, 0);
    var z := YearFromDay(day, 0);
    if z < y { YearsGrow(z + 1, y); } else if z > y { YearsGrow(y + 1, z); }
  }

  lemma MonthIsUnique(n: nat, m: nat, leap: bool)
    requires m <= 11 && DaysBefore(m, leap) <= n < DaysBefore(m + 1, leap)
    ensures MonthFromDay(n, leap, 11) == m
  {
    hide DaysBefore;
    MonthsGrow(m + 1, 12, leap);
    MonthFound(n, leap);
    var r := MonthFromDay(n, leap, 11);
    if r < m { MonthsGrow(r + 1, m, leap); } else if r > m { MonthsGrow(m + 1, r, leap); }
  }

  /** Every existing day is the date of exactly its own day number. */
  lemma DateIsUnique(y: nat, m: nat, d: nat)
    requires m <= 11 && 1 <= d <= DaysIn(y, m + 1)
    ensures var day := DayFromYear(y) + DaysBefore(m, Leap(y)) + d - 1;
            DayFromYear(0) <= day && DateOf(day) == Date(y, m, d)
  {
    var day := DayFromYear(y) + DaysBefore(m, Leap(y)) + d - 1;
    hide DayFromYear, DaysBefore, Leap, DaysIn;
    MonthLength(y, m + 1);
    MonthsGrow(m + 1, 12, Leap(y));
    YearLength(y);
    YearIsUnique(y, day);
    MonthIsUnique(day - DayFromYear(y), m, Leap(y));
  }

  lemma MonthsGrow(a: nat, b: nat, leap: bool)
    requires a <= b <= 12
    ensures DaysBefore(a, leap) <= DaysBefore(b, leap)
  {
  }

  // ---- utc ------------------------------------------------------------------------------------

  /** Date.UTC reads the years 0 to 99 as 1900 to 1999. */
  function FullYear(y: nat): nat {
    if y <= 99 then 1900 + y else y
  }

  function DayNumber(y: int, mo: nat, d: int): int
    requires 1 <= mo <= 12
  {
    DayFromYear(y) + DaysBefore(mo - 1, Leap(y)) + d - 1
  }

  function Milliseconds(day: int, h: nat, mi: nat, s: nat): int {
    day * DAY_MS + h * 3600000 + mi * 60000 + s * 1000
  }

  function Utc(y: nat, mo: nat, d: nat, h: nat, mi: nat, s: nat): Result<int, DerError> {
    if mo < 1 || mo > 12 || d < 1 || d > 31 || h > 23 || mi > 59 || s > 60 then Err(InvalidTime)
    else
      var ms := Milliseconds(DayNumber(FullYear(y), mo, d), h, mi, s);
      AfterYearZero(FullYear(y), mo, d, h, mi, s);
      var check := DateOf(ms / DAY_MS);
      if check.month != mo - 1 || check.day != d then Err(InvalidDate) else Ok(ms)
  }

  /** The whole days in a time of day: one exactly for the leap second at the end of the day. */
  lemma WholeDays(day: int, h: nat, mi: nat, s: nat)
    requires h <= 23 && mi <= 59 && s <= 60
    ensures Milliseconds(day, h, mi, s) / DAY_MS == day + (if h == 23 && mi == 59 && s == 60 then 1 else 0)
  {
    var rest := h * 3600000 + mi * 60000 + s * 1000;
    assert 0 <= rest <= DAY_MS;
    assert (day * DAY_MS + rest) / DAY_MS == day + rest / DAY_MS;
  }

  lemma AfterYearZero(y: nat, mo: nat, d: nat, h: nat, mi: nat, s: nat)
    requires 1 <= mo <= 12 && 1 <= d && h <= 23 && mi <= 59 && s <= 60
    ensures DayFromYear(0) <= Milliseconds(DayNumber(y, mo, d), h, mi, s) / DAY_MS
  {
    WholeDays(DayNumber(y, mo, d), h, mi, s);
    YearsGrow(0, y);
  }

  /** What a reader expects of a time: a day of the Gregorian calendar and a time of that day; second
      60 is allowed except at 23:59, where it belongs to the next day. */
  predicate TimeExists(y: nat, mo: nat, d: nat, h: nat, mi: nat, s: nat) {
    && 1 <= mo <= 12 && 1 <= d <= DaysIn(FullYear(y), mo)
    && h <= 23 && mi <= 59 && s <= 60 && !(h == 23 && mi == 59 && s == 60)
  }

  /** utc accepts exactly the times that exist, for every year and second the syntax can express. */
  lemma UtcAcceptsExactlyExistingTimes(y: nat, mo: nat, d: nat, h: nat, mi: nat, s: nat)
    ensures Utc(y, mo, d, h, mi, s).Ok? <==> TimeExists(y, mo, d, h, mi, s)
    ensures TimeExists(y, mo, d, h, mi, s) ==>
            Utc(y, mo, d, h, mi, s) == Ok(Milliseconds(DayNumber(FullYear(y), mo, d), h, mi, s))
  {
    hide DayNumber, Milliseconds, DaysIn, DateOf, FullYear, DayFromYear;
    DaysInBound(FullYear(y), mo);
    if 1 <= mo <= 12 && 1 <= d <= 31 && h <= 23 && mi <= 59 && s <= 60 {
      AfterYearZero(FullYear(y), mo, d, h, mi, s);
      ShownDay(FullYear(y), mo, d, h, mi, s);
    }
  }

  lemma DaysInBound(y: int, mo: nat)
    ensures 1 <= mo <= 12 ==> DaysIn(y, mo) <= 31
  {
  }

  /** The date shown for the fields is that of the fields exactly when they exist. */
  lemma ShownDay(z: nat, mo: nat, d: nat, h: nat, mi: nat, s: nat)
    requires 1 <= mo <= 12 && 1 <= d <= 31 && h <= 23 && mi <= 59 && s <= 60
    ensures var day := Milliseconds(DayNumber(z, mo, d), h, mi, s) / DAY_MS;
            && DayFromYear(0) <= day
            && (DateOf(day).month == mo - 1 && DateOf(day).day == d <==>
                d <= DaysIn(z, mo) && !(h == 23 && mi == 59 && s == 60))
  {
    WholeDays(DayNumber(z, mo, d), h, mi, s);
    hide DayFromYear, DateOf, Milliseconds, DaysIn;
    var day := DayNumber(z, mo, d);
    if h == 23 && mi == 59 && s == 60 {
      hide DayNumber;
      NotThatDate(z, mo, d, day + 1);
    } else if d > DaysIn(z, mo) {
      hide DayNumber;
      NotThatDate(z, mo, d, day);
    } else {
      hide Leap, DaysBefore;
      DateIsUnique(z, mo - 1, d);
    }
  }

  /** Moved past the end of its month, or by one day, a date shows another month or day. */
  lemma NotThatDate(z: nat, mo: nat, d: nat, day: int)
    requires 1 <= mo <= 12 && 1 <= d <= 31
    requires day == DayNumber(z, mo, d) + 1 || (day == DayNumber(z, mo, d) && d > DaysIn(z, mo))
    ensures DayFromYear(0) <= day && (DateOf(day).month != mo - 1 || DateOf(day).day != d)
  {
    hide DayFromYear, Leap, DateOf;
    var e := day - DayNumber(z, mo, d) + d;
    MonthLength(z, mo);
    if e <= DaysIn(z, mo) {
      DateIsUnique(z, mo - 1, e);
    } else if mo < 12 {
      DateIsUnique(z, mo, e - DaysIn(z, mo));
    } else {
      YearLength(z);
      DateIsUnique(z + 1, 0, e - 31);
    }
  }

  datatype Clock = Clock(y: nat, mo: nat, d: nat, h: nat, mi: nat, s: nat)

  function UtcOf(c: Clock): Result<int, DerError> {
    Utc(c.y, c.mo, c.d, c.h, c.mi, c.s)
  }

  predicate EarlierDate(a: Clock, b: Clock) {
    a.y < b.y || (a.y == b.y && (a.mo < b.mo || (a.mo == b.mo && a.d < b.d)))
  }

  /** The six fields, compared from the year down. */
  predicate Earlier(a: Clock, b: Clock) {
    || EarlierDate(a, b)
    || (a.y == b.y && a.mo == b.mo && a.d == b.d
        && (a.h < b.h || (a.h == b.h && (a.mi < b.mi || (a.mi == b.mi && a.s < b.s)))))
  }

  /** From the year 100 on and without second 60, time values order exactly like the fields. */
  lemma UtcOrdersLikeTheFields(a: Clock, b: Clock)
    requires a.y >= 100 && b.y >= 100 && a.s <= 59 && b.s <= 59
    requires UtcOf(a).Ok? && UtcOf(b).Ok?
    ensures UtcOf(a).value < UtcOf(b).value <==> Earlier(a, b)
  {
    if Earlier(a, b) {
      UtcIncreases(a, b);
    } else if Earlier(b, a) {
      UtcIncreases(b, a);
    } else {
      assert a == b;
    }
  }

  /** The fields that the time value shows: the full year, and second 60 carried over. A time that
      exists has no second 60 at 23:59. */
  function Shown(c: Clock): Clock {
    var y := FullYear(c.y);
    if c.s != 60 then c.(y := y)
    else if c.mi < 59 then Clock(y, c.mo, c.d, c.h, c.mi + 1, 0)
    else Clock(y, c.mo, c.d, c.h + 1, 0, 0)
  }

  lemma ShownIsSame(c: Clock)
    requires UtcOf(c).Ok?
    ensures Shown(c).y >= 100 && Shown(c).s <= 59 && UtcOf(Shown(c)) == UtcOf(c)
  {
    hide Utc, DayNumber, DaysIn;
    var z := Shown(c);
    UtcAcceptsExactlyExistingTimes(c.y, c.mo, c.d, c.h, c.mi, c.s);
    UtcAcceptsExactlyExistingTimes(z.y, z.mo, z.d, z.h, z.mi, z.s);
  }

  /** Time values of accepted times order exactly like the fields they show. */
  lemma UtcOrdersLikeShownFields(a: Clock, b: Clock)
    requires UtcOf(a).Ok? && UtcOf(b).Ok?
    ensures UtcOf(a).value < UtcOf(b).value <==> Earlier(Shown(a), Shown(b))
    ensures UtcOf(a) == UtcOf(b) <==> Shown(a) == Shown(b)
  {
    ShownIsSame(a);
    ShownIsSame(b);
    UtcOrdersLikeTheFields(Shown(a), Shown(b));
    UtcOrdersLikeTheFields(Shown(b), Shown(a));
    hide UtcOf, Shown;
  }

  lemma UtcIncreases(a: Clock, b: Clock)
    requires a.y >= 100 && b.y >= 100 && a.s <= 59 && b.s <= 59
    requires UtcOf(a).Ok? && UtcOf(b).Ok? && Earlier(a, b)
    ensures UtcOf(a).value < UtcOf(b).value
  {
    UtcAcceptsExactlyExistingTimes(a.y, a.mo, a.d, a.h, a.mi, a.s);
    UtcAcceptsExactlyExistingTimes(b.y, b.mo, b.d, b.h, b.mi, b.s);
    hide Utc, DayNumber;
    if EarlierDate(a, b) {
      EarlierDay(a.y, a.mo, a.d, b.y, b.mo, b.d);
    }
  }

  lemma EarlierDay(y: nat, mo: nat, d: nat, y': nat, mo': nat, d': nat)
    requires 1 <= mo <= 12 && 1 <= mo' <= 12 && 1 <= d <= DaysIn(y, mo) && 1 <= d' <= DaysIn(y', mo')
    requires y < y' || (y == y' && (mo < mo' || (mo == mo' && d < d')))
    ensures DayNumber(y, mo, d) < DayNumber(y', mo', d')
  {
    MonthLength(y, mo);
    if y < y' {
      YearLength(y);
      YearsGrow(y + 1, y');
      MonthsGrow(mo, 12, Leap(y));
    } else if mo < mo' {
      MonthsGrow(mo, mo' - 1, Leap(y));
    }
  }
}

/** UTCTime and GeneralizedTime content: timeValue (der.ts) and the two writers (der-writer.ts). */
module CertificateTime {
  import opened Common
  import opened Der
  import opened Calendar
  import Radix
  import Text

  predicate IsDigit(o: byte) {
    0x30 <= o <= 0x39
  }

  predicate DigitsAt(c: Bytes, from: nat, to: nat) {
    to <= |c| && forall i :: from <= i < to ==> IsDigit(c[i])
  }

  function Two(c: Bytes, i: nat): nat
    requires DigitsAt(c, i, i + 2)
  {
    (c[i] - 0x30) * 10 + (c[i + 1] - 0x30)
  }

  /** Twelve digits and Z. */
  predicate UtcSyntax(c: Bytes) {
    |c| == 13 && DigitsAt(c, 0, 12) && c[12] == 'Z' as int
  }

  /** Fourteen digits, at most three decimals after a point, and Z. */
  predicate GeneralizedSyntax(c: Bytes) {
    && |c| >= 15 && DigitsAt(c, 0, 14) && c[|c| - 1] == 'Z' as int
    && (|c| == 15 || (17 <= |c| <= 19 && c[14] == '.' as int && DigitsAt(c, 15, |c| - 1)))
  }

  /** Milliseconds: the decimals padded to three digits. */
  function Fraction(c: Bytes): nat
    requires GeneralizedSyntax(c)
  {
    if |c| == 15 then 0
    else
      var tenths: nat := c[15] - 0x30;
      var hundredths: nat := if |c| > 17 then c[16] - 0x30 else 0;
      var thousandths: nat := if |c| > 18 then c[17] - 0x30 else 0;
      tenths * 100 + hundredths * 10 + thousandths
  }

  function CenturyYear(yy: nat): nat {
    if yy >= 50 then 1900 + yy else 2000 + yy
  }

  /** Milliseconds since the epoch. */
  function TimeValue(t: Tlv): Result<int, DerError> {
    var c := t.content;
    if Is(t, UTC_TIME, false) then
      if !UtcSyntax(c) then Err(MalformedTime)
      else Utc(CenturyYear(Two(c, 0)), Two(c, 2), Two(c, 4), Two(c, 6), Two(c, 8), Two(c, 10))
    else if Is(t, GENERALIZED_TIME, false) then
      if !GeneralizedSyntax(c) then Err(MalformedTime)
      else
        var ms :- Utc(Two(c, 0) * 100 + Two(c, 2), Two(c, 4), Two(c, 6), Two(c, 8), Two(c, 10), Two(c, 12));
        Ok(ms + Fraction(c))
    else Err(UnexpectedType)
  }

  // ---- the writer -----------------------------------------------------------------------------

  /** The UTC fields of a time value: year, month from 1, day, hour, minute, second. */
  function ClockOf(ms: int): Clock
    requires DayFromYear(0) <= ms / DAY_MS
  {
    DateExists(ms / DAY_MS);
    var date := DateOf(ms / DAY_MS);
    var rest := ms % DAY_MS;
    Clock(date.year, date.month + 1, date.day, rest / 3600000, rest / 60000 % 60, rest / 1000 % 60)
  }

  predicate IsAscii(s: string) {
    forall i :: 0 <= i < |s| ==> s[i] as int < 128
  }

  function PadTwo(n: nat): (r: string)
    ensures IsAscii(r)
  {
    var s := Text.Numeral(10, n);
    if |s| < 2 then "0" + s else s
  }

  function Ascii(s: string): (c: Bytes)
    requires IsAscii(s)
    ensures |c| == |s| && forall i :: 0 <= i < |s| ==> c[i] as int == s[i] as int
  {
    seq(|s|, i requires 0 <= i < |s| => s[i] as int)
  }

  function AfterYear(c: Clock): (s: string)
    ensures IsAscii(s)
  {
    PadTwo(c.mo) + PadTwo(c.d) + PadTwo(c.h) + PadTwo(c.mi) + PadTwo(c.s) + "Z"
  }

  function UtcTimeContent(ms: int): Bytes
    requires DayFromYear(0) <= ms / DAY_MS
  {
    Ascii(PadTwo(ClockOf(ms).y % 100) + AfterYear(ClockOf(ms)))
  }

  function GeneralizedTimeContent(ms: int): Bytes
    requires DayFromYear(0) <= ms / DAY_MS
  {
    Ascii(Text.Numeral(10, ClockOf(ms).y) + AfterYear(ClockOf(ms)))
  }

  /** The characters of a two-digit field. */
  function Pair(n: nat): (s: string)
    requires n < 100
    ensures IsAscii(s) && |s| == 2
  {
    ['0' + (n / 10) as char, '0' + (n % 10) as char]
  }

  lemma PadTwoIsPair(n: nat)
    requires n < 100
    ensures PadTwo(n) == Pair(n)
  {
    Radix.NoDigits(10);
    if n > 0 { Radix.DigitsSnoc(10, n); }
    if n >= 10 { Radix.DigitsSnoc(10, n / 10); }
    assert n / 10 / 10 == 0;
    assert 0 < n < 10 ==> Radix.Digits(10, n) == [n];
    assert n >= 10 ==> Radix.Digits(10, n) == [n / 10, n % 10];
  }

  lemma FourDigits(n: nat)
    requires 1000 <= n <= 9999
    ensures Text.Numeral(10, n) == Pair(n / 100) + Pair(n % 100)
  {
    Radix.NoDigits(10);
    Radix.DigitsSnoc(10, n);
    Radix.DigitsSnoc(10, n / 10);
    Radix.DigitsSnoc(10, n / 10 / 10);
    Radix.DigitsSnoc(10, n / 10 / 10 / 10);
    assert n / 10 / 10 / 10 / 10 == 0;
    assert Radix.Digits(10, n) == [n / 1000, n / 100 % 10, n / 10 % 10, n % 10];
    hide Radix.Digits;
    assert n / 100 / 10 == n / 1000 && n % 100 / 10 == n / 10 % 10 && n % 100 % 10 == n % 10;
  }

  /** Two digits written at i of an ASCII text read as the number. */
  lemma TwoRead(c: Bytes, i: nat, n: nat)
    requires n < 100 && i + 2 <= |c| && c[i] == Pair(n)[0] as int && c[i + 1] == Pair(n)[1] as int
    ensures DigitsAt(c, i, i + 2) && Two(c, i) == n
  {
  }

  lemma ClockInRange(ms: int)
    requires DayFromYear(0) <= ms / DAY_MS
    ensures var c := ClockOf(ms);
            && 1 <= c.mo <= 12 && 1 <= c.d <= DaysIn(c.y, c.mo) <= 31 && c.h < 24 && c.mi < 60 && c.s < 60
            && Milliseconds(DayNumber(c.y, c.mo, c.d), c.h, c.mi, c.s) == ms - ms % 1000
  {
    DateExists(ms / DAY_MS);
    var c := ClockOf(ms);
    var rest := ms % DAY_MS;
    hide DateOf, DayFromYear, DaysBefore, Leap;
    assert c.h * 3600000 + c.mi * 60000 + c.s * 1000 == rest - rest % 1000 by { TimeOfDay(rest); }
    DaysAndRest(ms);
  }

  lemma DaysAndRest(ms: int)
    ensures ms == ms / DAY_MS * DAY_MS + ms % DAY_MS && ms % 1000 == ms % DAY_MS % 1000
  {
  }

  lemma TimeOfDay(rest: nat)
    requires rest < DAY_MS
    ensures rest / 3600000 * 3600000 + rest / 60000 % 60 * 60000 + rest / 1000 % 60 * 1000 == rest - rest % 1000
  {
    var minutes, seconds := rest / 60000, rest / 1000;
    assert seconds / 60 == minutes && minutes / 60 == rest / 3600000;
  }

  /** The ten characters after the year, at offset k of the text, are read as the fields. */
  lemma AfterYearRead(c: Bytes, k: nat, clock: Clock)
    requires clock.mo < 100 && clock.d < 100 && clock.h < 100 && clock.mi < 100 && clock.s < 100
    requires |c| == k + |AfterYear(clock)| && forall i :: 0 <= i < |AfterYear(clock)| ==> c[k + i] == AfterYear(clock)[i] as int
    ensures |c| == k + 11
    ensures c[k + 10] == 'Z' as int
    ensures DigitsAt(c, k, k + 10)
    ensures Two(c, k) == clock.mo && Two(c, k + 2) == clock.d && Two(c, k + 4) == clock.h
         && Two(c, k + 6) == clock.mi && Two(c, k + 8) == clock.s
  {
    PadTwoIsPair(clock.mo);
    PadTwoIsPair(clock.d);
    PadTwoIsPair(clock.h);
    PadTwoIsPair(clock.mi);
    PadTwoIsPair(clock.s);
    var w := AfterYear(clock);
    hide PadTwo, Two, DigitsAt;
    assert c[k] == w[0] as int && c[k + 1] == w[1] as int && c[k + 2] == w[2] as int && c[k + 3] == w[3] as int;
    assert c[k + 4] == w[4] as int && c[k + 5] == w[5] as int && c[k + 6] == w[6] as int && c[k + 7] == w[7] as int;
    assert c[k + 8] == w[8] as int && c[k + 9] == w[9] as int && c[k + 10] == w[10] as int;
    TwoRead(c, k, clock.mo);
    TwoRead(c, k + 2, clock.d);
    TwoRead(c, k + 4, clock.h);
    TwoRead(c, k + 6, clock.mi);
    TwoRead(c, k + 8, clock.s);
    DigitsJoin(c, k);
  }

  lemma DigitsJoin(c: Bytes, k: nat)
    requires DigitsAt(c, k, k + 2) && DigitsAt(c, k + 2, k + 4) && DigitsAt(c, k + 4, k + 6)
    requires DigitsAt(c, k + 6, k + 8) && DigitsAt(c, k + 8, k + 10)
    ensures DigitsAt(c, k, k + 10)
  {
  }

  lemma ClockUtc(ms: int)
    requires DayFromYear(0) <= ms / DAY_MS && ClockOf(ms).y >= 100
    ensures UtcOf(ClockOf(ms)) == Ok(ms - ms % 1000)
  {
    hide ClockOf, DayFromYear, DayNumber, Milliseconds, DaysIn, Utc;
    ClockInRange(ms);
    var c := ClockOf(ms);
    UtcAcceptsExactlyExistingTimes(c.y, c.mo, c.d, c.h, c.mi, c.s);
  }

  lemma YearAndRest(head: string, clock: Clock)
    requires IsAscii(head)
    ensures var c := Ascii(head + AfterYear(clock));
            && |c| == |head| + |AfterYear(clock)|
            && (forall i :: 0 <= i < |head| ==> c[i] == head[i] as int)
            && (forall i :: 0 <= i < |AfterYear(clock)| ==> c[|head| + i] == AfterYear(clock)[i] as int)
  {
    hide AfterYear;
    var w := head + AfterYear(clock);
    assert forall i :: 0 <= i < |AfterYear(clock)| ==> w[|head| + i] == AfterYear(clock)[i];
  }

  /** A UTCTime of these fields is read as their time value. */
  lemma UtcFields(t: Tlv, clock: Clock)
    requires clock.mo < 100 && clock.d < 100 && clock.h < 100 && clock.mi < 100 && clock.s < 100
    requires 1950 <= clock.y <= 2049
    requires Is(t, UTC_TIME, false) && t.content == Ascii(Pair(clock.y % 100) + AfterYear(clock))
    ensures TimeValue(t) == UtcOf(clock)
  {
    hide AfterYear, Ascii, Two, Pair, Utc, GeneralizedSyntax, Fraction, CenturyYear;
    CenturyReturns(clock.y);
    YearAndRest(Pair(clock.y % 100), clock);
    AfterYearRead(t.content, 2, clock);
    TwoRead(t.content, 0, clock.y % 100);
  }

  lemma CenturyReturns(y: nat)
    requires 1950 <= y <= 2049
    ensures CenturyYear(y % 100) == y
  {
  }

  lemma GeneralizedFields(t: Tlv, clock: Clock)
    requires clock.mo < 100 && clock.d < 100 && clock.h < 100 && clock.mi < 100 && clock.s < 100
    requires clock.y <= 9999 && Is(t, GENERALIZED_TIME, false)
    requires t.content == Ascii(Pair(clock.y / 100) + Pair(clock.y % 100) + AfterYear(clock))
    ensures TimeValue(t) == UtcOf(clock)
  {
    hide AfterYear, Ascii, Pair, Utc, TimeValue;
    GeneralizedRead(t, clock.y / 100, clock.y % 100, clock);
  }

  lemma GeneralizedRead(t: Tlv, century: nat, year: nat, clock: Clock)
    requires clock.mo < 100 && clock.d < 100 && clock.h < 100 && clock.mi < 100 && clock.s < 100
    requires century < 100 && year < 100 && clock.y == century * 100 + year && Is(t, GENERALIZED_TIME, false)
    requires t.content == Ascii(Pair(century) + Pair(year) + AfterYear(clock))
    ensures TimeValue(t) == UtcOf(clock)
  {
    hide AfterYear, Ascii, Two, Pair, Utc, UtcSyntax, CenturyYear, GeneralizedSyntax, Fraction, DigitsAt;
    var head := Pair(century) + Pair(year);
    YearAndRest(head, clock);
    var c := t.content;
    AfterYearRead(c, 4, clock);
    assert c[2] == head[2] as int && c[3] == head[3] as int;
    TwoRead(c, 0, century);
    TwoRead(c, 2, year);
    WholeSeconds(c);
  }

  /** Fourteen digits and Z have no decimals. */
  lemma WholeSeconds(c: Bytes)
    requires |c| == 15 && c[14] == 'Z' as int && DigitsAt(c, 0, 2) && DigitsAt(c, 2, 4) && DigitsAt(c, 4, 14)
    ensures GeneralizedSyntax(c) && Fraction(c) == 0
  {
  }

  /** Reading a written UTCTime gives the time floored to the second, for the years 1950 to 2049. */
  lemma UtcTimeRoundTrip(t: Tlv, ms: int)
    requires DayFromYear(0) <= ms / DAY_MS && 1950 <= ClockOf(ms).y <= 2049
    requires Is(t, UTC_TIME, false) && t.content == UtcTimeContent(ms)
    ensures TimeValue(t) == Ok(ms - ms % 1000)
  {
    hide DayFromYear, ClockOf, UtcOf, PadTwo, Milliseconds, DayNumber, DaysIn, AfterYear, Ascii, TimeValue;
    ClockInRange(ms);
    ClockUtc(ms);
    PadTwoIsPair(ClockOf(ms).y % 100);
    UtcFields(t, ClockOf(ms));
  }

  /** Reading a written GeneralizedTime gives the time floored to the second, for the years 1000 to 9999. */
  lemma GeneralizedTimeRoundTrip(t: Tlv, ms: int)
    requires DayFromYear(0) <= ms / DAY_MS && 1000 <= ClockOf(ms).y <= 9999
    requires Is(t, GENERALIZED_TIME, false) && t.content == GeneralizedTimeContent(ms)
    ensures TimeValue(t) == Ok(ms - ms % 1000)
  {
    hide DayFromYear, ClockOf, UtcOf, PadTwo, Milliseconds, DayNumber, DaysIn, AfterYear, Ascii, TimeValue, Text.Numeral;
    ClockInRange(ms);
    ClockUtc(ms);
    FourDigits(ClockOf(ms).y);
    GeneralizedFields(t, ClockOf(ms));
  }

  // ---- which contents are times ---------------------------------------------------------------------

  /** The two digits of n stand at k. */
  predicate Spells(c: Bytes, k: nat, n: nat) {
    k + 2 <= |c| && n < 100 && c[k] == 0x30 + n / 10 && c[k + 1] == 0x30 + n % 10
  }

  /** Month, day, hour, minute and second from k on. */
  predicate SpellsRest(c: Bytes, k: nat, clock: Clock) {
    Spells(c, k, clock.mo) && Spells(c, k + 2, clock.d) && Spells(c, k + 4, clock.h) && Spells(c, k + 6, clock.mi)
    && Spells(c, k + 8, clock.s)
  }

  /** YYMMDDhhmmssZ, where 50 to 99 are the years 1950 to 1999 and 0 to 49 the years 2000 to 2049. */
  predicate IsUtcText(c: Bytes, clock: Clock) {
    |c| == 13 && 1950 <= clock.y <= 2049 && Spells(c, 0, clock.y % 100) && SpellsRest(c, 2, clock) && c[12] == 0x5A
  }

  predicate IsDecimal(c: Bytes, i: nat) {
    i < |c| && 0x30 <= c[i] <= 0x39
  }

  function Decimal(c: Bytes, i: nat): nat
    requires IsDecimal(c, i)
  {
    c[i] - 0x30
  }

  /** From 14 on: nothing, or a point and one to three decimals of a second, which make ms milliseconds. */
  predicate SpellsDecimals(c: Bytes, ms: nat) {
    if |c| == 15 then ms == 0
    else
      && 17 <= |c| <= 19 && c[14] == 0x2E && IsDecimal(c, 15)
      && (|c| == 17 ==> ms == 100 * Decimal(c, 15))
      && (|c| == 18 ==> IsDecimal(c, 16) && ms == 100 * Decimal(c, 15) + 10 * Decimal(c, 16))
      && (|c| == 19 ==>
           IsDecimal(c, 16) && IsDecimal(c, 17) && ms == 100 * Decimal(c, 15) + 10 * Decimal(c, 16) + Decimal(c, 17))
  }

  /** YYYYMMDDhhmmssZ, or with decimals before the Z. */
  predicate IsGeneralizedText(c: Bytes, clock: Clock, ms: nat) {
    && |c| >= 15 && clock.y <= 9999 && Spells(c, 0, clock.y / 100) && Spells(c, 2, clock.y % 100) && SpellsRest(c, 4, clock)
    && SpellsDecimals(c, ms) && c[|c| - 1] == 0x5A
  }

  lemma SpelledIsTwo(c: Bytes, k: nat, n: nat)
    ensures Spells(c, k, n) <==> DigitsAt(c, k, k + 2) && Two(c, k) == n
  {
    if DigitsAt(c, k, k + 2) {
      var a, b: nat := c[k] - 0x30, c[k + 1] - 0x30;
      assert (a * 10 + b) / 10 == a && (a * 10 + b) % 10 == b;
    }
    if Spells(c, k, n) { assert n == n / 10 * 10 + n % 10; }
  }

  lemma RestIsSpelled(c: Bytes, k: nat, clock: Clock)
    ensures SpellsRest(c, k, clock) <==>
            && DigitsAt(c, k, k + 10) && Two(c, k) == clock.mo && Two(c, k + 2) == clock.d && Two(c, k + 4) == clock.h
            && Two(c, k + 6) == clock.mi && Two(c, k + 8) == clock.s
  {
    SpelledIsTwo(c, k, clock.mo);
    SpelledIsTwo(c, k + 2, clock.d);
    SpelledIsTwo(c, k + 4, clock.h);
    SpelledIsTwo(c, k + 6, clock.mi);
    SpelledIsTwo(c, k + 8, clock.s);
    hide Two, Spells;
  }

  /** A UTCTime is accepted exactly when it spells a time that exists. */
  lemma UtcTimeIsSpelled(t: Tlv, v: int)
    requires t.cls == 0 && t.tag == 23 && !t.constructed
    ensures TimeValue(t) == Ok(v) <==> exists clock :: IsUtcText(t.content, clock) && UtcOf(clock) == Ok(v)
  {
    var c := t.content;
    hide Utc;
    if UtcSyntax(c) {
      var yy := Two(c, 0);
      var clock := Clock(CenturyYear(yy), Two(c, 2), Two(c, 4), Two(c, 6), Two(c, 8), Two(c, 10));
      SpelledIsTwo(c, 0, yy);
      RestIsSpelled(c, 2, clock);
      CenturyOf(yy);
      hide Two, SpellsRest, Spells;
      assert IsUtcText(c, clock);
      assert TimeValue(t) == UtcOf(clock);
    }
    forall clock | IsUtcText(c, clock) ensures TimeValue(t) == UtcOf(clock) {
      UtcTextReads(t, clock);
    }
  }

  lemma CenturyOf(yy: nat)
    requires yy < 100
    ensures 1950 <= CenturyYear(yy) <= 2049 && CenturyYear(yy) % 100 == yy
  {
  }

  lemma UtcTextReads(t: Tlv, clock: Clock)
    requires t.cls == 0 && t.tag == 23 && !t.constructed && IsUtcText(t.content, clock)
    ensures TimeValue(t) == UtcOf(clock)
  {
    var c := t.content;
    SpelledIsTwo(c, 0, clock.y % 100);
    RestIsSpelled(c, 2, clock);
    CenturyReturns(clock.y);
    hide Utc, Two, CenturyYear, Spells, SpellsRest;
    assert DigitsAt(c, 0, 12);
  }

  /** A GeneralizedTime is accepted exactly when it spells a time that exists, and its decimals are added. */
  lemma GeneralizedTimeIsSpelled(t: Tlv, v: int)
    requires t.cls == 0 && t.tag == 24 && !t.constructed
    ensures TimeValue(t) == Ok(v) <==>
            exists clock, ms :: IsGeneralizedText(t.content, clock, ms) && UtcOf(clock) == Ok(v - ms)
  {
    var c := t.content;
    hide Utc;
    if GeneralizedSyntax(c) {
      var clock, ms := SyntaxSpells(c);
      GeneralizedTextReads(t, clock, ms);
      hide IsGeneralizedText, TimeValue;
    }
    forall clock, ms | IsGeneralizedText(c, clock, ms)
      ensures TimeValue(t) == Ok(v) <==> UtcOf(clock) == Ok(v - ms)
    {
      GeneralizedTextReads(t, clock, ms);
    }
  }

  lemma SyntaxSpells(c: Bytes) returns (clock: Clock, ms: nat)
    requires GeneralizedSyntax(c)
    ensures IsGeneralizedText(c, clock, ms)
  {
    var hi, lo := Two(c, 0), Two(c, 2);
    clock := Clock(100 * hi + lo, Two(c, 4), Two(c, 6), Two(c, 8), Two(c, 10), Two(c, 12));
    ms := Fraction(c);
    SpelledIsTwo(c, 0, hi);
    SpelledIsTwo(c, 2, lo);
    RestIsSpelled(c, 4, clock);
    assert hi < 100 && lo < 100;
    Radix.DivModIs(100 * hi + lo, 100, hi, lo);
    DecimalsAreSpelled(c);
    hide Two, Spells, SpellsRest, Fraction, SpellsDecimals;
  }

  lemma DecimalsAreSpelled(c: Bytes)
    requires GeneralizedSyntax(c)
    ensures forall ms: nat :: SpellsDecimals(c, ms) <==> ms == Fraction(c)
  {
    assert |c| > 15 ==> IsDigit(c[15]) && (|c| > 17 ==> IsDigit(c[16])) && (|c| > 18 ==> IsDigit(c[17]));
  }

  lemma GeneralizedTextReads(t: Tlv, clock: Clock, ms: nat)
    requires t.cls == 0 && t.tag == 24 && !t.constructed && IsGeneralizedText(t.content, clock, ms)
    ensures TimeValue(t) == if UtcOf(clock).Err? then UtcOf(clock) else Ok(UtcOf(clock).value + ms)
  {
    var c := t.content;
    SpelledIsTwo(c, 0, clock.y / 100);
    SpelledIsTwo(c, 2, clock.y % 100);
    RestIsSpelled(c, 4, clock);
    TextIsSyntax(c, clock, ms);
    DecimalsAreSpelled(c);
    hide Spells, SpellsRest, SpellsDecimals, Fraction, GeneralizedSyntax, UtcSyntax, CenturyYear;
    SyntaxReads(t, clock.y / 100, clock.y % 100, clock, ms);
  }

  lemma SyntaxReads(t: Tlv, hi: nat, lo: nat, clock: Clock, ms: nat)
    requires t.cls == 0 && t.tag == 24 && !t.constructed && GeneralizedSyntax(t.content) && Fraction(t.content) == ms
    requires var c := t.content;
             && Two(c, 0) == hi && Two(c, 2) == lo && clock.y == hi * 100 + lo && Two(c, 4) == clock.mo && Two(c, 6) == clock.d
             && Two(c, 8) == clock.h && Two(c, 10) == clock.mi && Two(c, 12) == clock.s
    ensures TimeValue(t) == if UtcOf(clock).Err? then UtcOf(clock) else Ok(UtcOf(clock).value + ms)
  {
    hide Utc, Two, Fraction, GeneralizedSyntax, UtcSyntax, CenturyYear, DigitsAt;
  }

  lemma TextIsSyntax(c: Bytes, clock: Clock, ms: nat)
    requires IsGeneralizedText(c, clock, ms)
    ensures GeneralizedSyntax(c)
  {
    SpelledIsTwo(c, 0, clock.y / 100);
    SpelledIsTwo(c, 2, clock.y % 100);
    RestIsSpelled(c, 4, clock);
    hide Two, Spells, SpellsRest;
  }

  /** Nothing else is a time. */
  lemma OnlyTheseAreTimes(t: Tlv)
    ensures TimeValue(t).Ok? ==> t.cls == 0 && (t.tag == 23 || t.tag == 24) && !t.constructed
  {
    hide Utc;
  }
}
