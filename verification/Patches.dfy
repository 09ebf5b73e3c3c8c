/** Security patch levels (server/src/verifier/verifier.ts): digits to months, and how old they may be. */
module Patches {
  import opened Common
  import opened Calendar
  import Radix
  import Text

  const MAX_PATCH_AGE_MONTHS := 12

  /** The number of some of the digits. */
  function Part(digits: string, from_: nat, to: nat): nat
    requires from_ <= to <= |digits|
  {
    Text.NumeralValue(10, digits[from_..to])
  }

  /** The month index of a level of six or eight decimal digits, YYYYMM or YYYYMMDD. */
  function PatchMonth(level: Option<int>): Option<int> {
    if level.None? || level.value < 0 then None
    else
      var digits := Text.Numeral(10, level.value);
      if |digits| != 6 && |digits| != 8 then None
      else
        var month := Part(digits, 4, 6);
        if month < 1 || month > 12 then None else Some(Part(digits, 0, 4) * 12 + month - 1)
  }

  /** The month index of a time since the epoch. */
  function CurrentMonth(nowMs: nat): int {
    assert DayFromYear(0) <= 0;
    var date := DateOf(nowMs / DAY_MS);
    date.year * 12 + date.month
  }

  predicate LevelIsCurrent(level: Option<int>, nowMs: nat) {
    var month := PatchMonth(level);
    month.Some? && CurrentMonth(nowMs) - MAX_PATCH_AGE_MONTHS <= month.value <= CurrentMonth(nowMs) + 1
  }

  // ---- what the digits say ------------------------------------------------------------------------

  lemma DigitsAreValues(v: nat)
    requires v > 0
    ensures Text.DigitValues(Text.Numeral(10, v)) == Radix.Digits(10, v)
  {
    Radix.ValueOfDigits(10, v);
    hide Radix.Digits, Radix.Value;
    var ds := Radix.Digits(10, v);
    forall i | 0 <= i < |ds| ensures Text.CharDigit(Text.DigitChar(ds[i])) == ds[i] {
    }
  }

  /** A number has k digits exactly when it is in their range. */
  lemma DigitCountIs(v: nat, k: nat)
    requires k > 0 && v > 0
    ensures |Radix.Digits(10, v)| == k <==> Radix.Pow(10, k - 1) <= v < Radix.Pow(10, k)
  {
    hide Radix.Digits, Radix.Value, Radix.Pow;
    var ds := Radix.Digits(10, v);
    Radix.ValueOfDigits(10, v);
    Radix.ValueBelow(10, ds);
    Radix.ValueAtLeast(10, ds);
    if |ds| < k { PowGrows(|ds|, k - 1); }
    if |ds| > k { PowGrows(k, |ds| - 1); }
  }

  lemma {:induction false} PowGrows(a: nat, b: nat)
    requires a <= b
    ensures 1 <= Radix.Pow(10, a) <= Radix.Pow(10, b)
  {
    if b > a { PowGrows(a, b - 1); } else if a > 0 { PowGrows(a - 1, a - 1); }
  }

  /** The last two digits are the remainder by 100, the others the quotient. */
  lemma LastTwo(ds: seq<nat>)
    requires |ds| >= 2 && Radix.AreDigits(10, ds)
    ensures var v, n := Radix.Value(10, ds), |ds| - 2;
            v / 100 == Radix.Value(10, ds[..n]) && v % 100 == Radix.Value(10, ds[n..])
  {
    var n := |ds| - 2;
    var head, tail := ds[..n], ds[n..];
    Powers();
    hide Radix.Value, Radix.Pow;
    assert ds == head + tail;
    Radix.ValueConcat(10, head, tail);
    Radix.ValueBelow(10, tail);
    Radix.DivModIs(Radix.Value(10, ds), 100, Radix.Value(10, head), Radix.Value(10, tail));
  }

  lemma PartIs(digits: string, ds: seq<nat>, i: nat, j: nat)
    requires Text.DigitValues(digits) == ds && i <= j <= |ds|
    ensures Part(digits, i, j) == Radix.Value(10, ds[i..j])
  {
    assert Text.DigitValues(digits[i..j]) == ds[i..j];
  }

  function MonthOf(year: int, month: int): Option<int> {
    if 1 <= month <= 12 then Some(year * 12 + month - 1) else None
  }

  /** The reading of the digits, as arithmetic: exactly YYYYMM and YYYYMMDD with a year from 1000 on and a
      month from 1 to 12 have a month index; the day is not looked at. */
  lemma PatchMonthIsArithmetic(v: int)
    ensures PatchMonth(Some(v)) ==
            if 100000 <= v < 1000000 then MonthOf(v / 100, v % 100)
            else if 10000000 <= v < 100000000 then MonthOf(v / 100 / 100, v / 100 % 100)
            else None
  {
    hide Radix.Value, Radix.Pow, Radix.Digits, Text.Numeral, Text.NumeralValue, Text.DigitValues, Part;
    if v > 0 {
      var digits, ds := Text.Numeral(10, v), Radix.Digits(10, v);
      DigitsAreValues(v);
      Radix.ValueOfDigits(10, v);
      DigitCountIs(v, 6);
      DigitCountIs(v, 8);
      Powers();
      assert |digits| == |ds|;
      if |ds| == 6 {
        SixDigits(v, digits, ds);
      } else if |ds| == 8 {
        EightDigits(v, digits, ds);
      }
    } else if v == 0 {
      ZeroHasOneDigit();
    }
  }

  lemma ZeroHasOneDigit()
    ensures |Text.Numeral(10, 0)| == 1
  {
  }

  lemma SixDigits(v: nat, digits: string, ds: seq<nat>)
    requires Text.DigitValues(digits) == ds && |ds| == 6 && Radix.AreDigits(10, ds) && Radix.Value(10, ds) == v
    ensures Part(digits, 4, 6) == v % 100 && Part(digits, 0, 4) == v / 100
  {
    hide Radix.Value, Text.NumeralValue, Part;
    PartIs(digits, ds, 4, 6);
    PartIs(digits, ds, 0, 4);
    LastTwo(ds);
    assert ds[0..4] == ds[..4] && ds[4..] == ds[4..6];
  }

  lemma EightDigits(v: nat, digits: string, ds: seq<nat>)
    requires Text.DigitValues(digits) == ds && |ds| == 8 && Radix.AreDigits(10, ds) && Radix.Value(10, ds) == v
    ensures Part(digits, 4, 6) == v / 100 % 100 && Part(digits, 0, 4) == v / 100 / 100
  {
    hide Radix.Value, Text.NumeralValue, Part;
    PartIs(digits, ds, 4, 6);
    PartIs(digits, ds, 0, 4);
    LastTwo(ds);
    LastTwo(ds[..6]);
    assert ds[..6][..4] == ds[0..4] && ds[..6][4..] == ds[4..6];
  }

  /** On a day of year y and month m a level is accepted exactly when its month is at most twelve months
      before, or one month after. */
  lemma CurrentOnADay(level: int, y: nat, m: nat, d: nat, ms: nat, nowMs: nat)
    requires 1 <= m <= 12 && 1 <= d <= DaysIn(y, m) && ms < DAY_MS
    requires nowMs == DayNumber(y, m, d) * DAY_MS + ms
    ensures LevelIsCurrent(Some(level), nowMs) <==>
            var month := PatchMonth(Some(level));
            month.Some? && -12 <= month.value - (y * 12 + m - 1) <= 1
  {
    Radix.DivModIs(nowMs, DAY_MS, DayNumber(y, m, d), ms);
    DateIsUnique(y, m - 1, d);
    hide PatchMonth, DayFromYear, DaysBefore, Leap, DateOf;
  }

  lemma Powers()
    ensures Radix.Pow(10, 2) == 100 && Radix.Pow(10, 4) == 10000 && Radix.Pow(10, 5) == 100000
    ensures Radix.Pow(10, 6) == 1000000 && Radix.Pow(10, 7) == 10000000 && Radix.Pow(10, 8) == 100000000
  {
    assert Radix.Pow(10, 2) == Radix.Pow(10, 1) * 10 == 100;
    assert Radix.Pow(10, 4) == Radix.Pow(10, 3) * 10 && Radix.Pow(10, 3) == Radix.Pow(10, 2) * 10;
    assert Radix.Pow(10, 5) == Radix.Pow(10, 4) * 10 && Radix.Pow(10, 6) == Radix.Pow(10, 5) * 10;
    assert Radix.Pow(10, 7) == Radix.Pow(10, 6) * 10 && Radix.Pow(10, 8) == Radix.Pow(10, 7) * 10;
  }
}
