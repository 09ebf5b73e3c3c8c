/** Positional notation, most significant digit first: the arithmetic under tags, lengths, integers,
    object identifiers, serial numbers and base64. */
module Radix {
  ghost predicate AreDigits(base: nat, s: seq<nat>) {
    forall i :: 0 <= i < |s| ==> s[i] < base
  }

  /** The number a digit string denotes. */
  function Value(base: nat, s: seq<nat>): nat {
    if s == [] then 0 else Value(base, s[..|s| - 1]) * base + s[|s| - 1]
  }

  /** The digits of v without leading zeros; zero has none. */
  function Digits(base: nat, v: nat): seq<nat>
    requires base >= 2
  {
    if v == 0 then [] else DivMod(base, v); Digits(base, v / base) + [v % base]
  }

  function Pow(base: nat, k: nat): nat {
    if k == 0 then 1 else Pow(base, k - 1) * base
  }

  /** A digit string without leading zeros. */
  ghost predicate Minimal(base: nat, s: seq<nat>) {
    AreDigits(base, s) && (s == [] || s[0] != 0)
  }

  lemma {:induction false} MulMonotone(a: nat, b: nat, m: nat)
    requires a <= b
    ensures a * m <= b * m
  {
    var d := b - a;
    assert (a + d) * m == a * m + d * m;
    assert d * m >= 0;
  }

  lemma MulSuccessor(a: nat, m: nat)
    ensures (a + 1) * m == a * m + m
  {
  }

  lemma QuotientUnique(base: nat, q: nat, r: nat, q': nat, r': nat)
    requires r < base && r' < base && q * base + r == q' * base + r'
    ensures q == q' && r == r'
  {
    if q < q' {
      MulSuccessor(q, base);
      MulMonotone(q + 1, q', base);
    } else if q' < q {
      MulSuccessor(q', base);
      MulMonotone(q' + 1, q, base);
    }
  }

  lemma MulAtLeast(k: int, d: nat)
    ensures k >= 1 ==> k * d >= d
    ensures k <= -1 ==> k * d + d <= 0
  {
    if k >= 1 {
      assert k * d == (k - 1) * d + d;
    } else if k <= -1 {
      assert k * d == (k + 1) * d - d;
      assert (-k - 1) * d >= 0;
      assert (k + 1) * d == -((-k - 1) * d);
    }
  }

  /** Division and remainder of any integer from a decomposition. */
  lemma DivModIs(x: int, d: nat, q: int, r: nat)
    requires r < d && x == q * d + r
    ensures x / d == q && x % d == r
  {
    var k := q - x / d;
    assert x == d * (x / d) + x % d;
    assert k * d == q * d - d * (x / d);
    MulAtLeast(k, d);
  }

  lemma DivMod(base: nat, v: nat)
    requires base >= 2
    ensures v == v / base * base + v % base && v % base < base
    ensures v > 0 ==> v / base < v
  {
    var q, r := v / base, v % base;
    assert v == base * q + r;
    if v > 0 && q >= v {
      MulMonotone(2, base, q);
      assert false;
    }
  }

  lemma DivModUnique(base: nat, q: nat, r: nat)
    requires r < base && base >= 2
    ensures (q * base + r) / base == q && (q * base + r) % base == r
  {
    var n := q * base + r;
    DivMod(base, n);
    QuotientUnique(base, q, r, n / base, n % base);
  }

  lemma ValueSnoc(base: nat, s: seq<nat>, d: nat)
    ensures Value(base, s + [d]) == Value(base, s) * base + d
  {
    assert (s + [d])[..|s|] == s;
  }

  lemma DigitsSnoc(base: nat, v: nat)
    requires base >= 2 && v > 0
    ensures v / base < v && v % base < base
    ensures Digits(base, v) == Digits(base, v / base) + [v % base]
  {
    DivMod(base, v);
  }

  lemma {:induction false} ValueOfDigits(base: nat, v: nat)
    requires base >= 2
    ensures Minimal(base, Digits(base, v)) && Value(base, Digits(base, v)) == v
    ensures v > 0 ==> Digits(base, v) != []
  {
    if v > 0 {
      DivMod(base, v);
      DigitsSnoc(base, v);
      var q, r := v / base, v % base;
      hide Digits, Value;
      ValueOfDigits(base, q);
      ValueSnoc(base, Digits(base, q), r);
      if q == 0 {
        NoDigits(base);
      }
    }
  }

  lemma NoDigits(base: nat)
    requires base >= 2
    ensures Digits(base, 0) == [] && Value(base, []) == 0
  {
  }

  lemma {:induction false} DigitsOfValue(base: nat, s: seq<nat>)
    requires base >= 2 && Minimal(base, s)
    ensures Digits(base, Value(base, s)) == s
    ensures s != [] ==> Value(base, s) > 0
  {
    if s != [] {
      var q := s[..|s| - 1];
      DigitsOfValue(base, q);
      DivModUnique(base, Value(base, q), s[|s| - 1]);
      if q != [] {
        assert Value(base, q) * base >= 1;
      }
    }
  }

  lemma {:induction false} ValueConcat(base: nat, a: seq<nat>, b: seq<nat>)
    ensures Value(base, a + b) == Value(base, a) * Pow(base, |b|) + Value(base, b)
  {
    if b == [] {
      assert a + b == a;
    } else {
      var q := b[..|b| - 1];
      assert (a + b)[..|a + b| - 1] == a + q;
      ValueConcat(base, a, q);
      MulSteps(Value(base, a), Pow(base, |q|), base, Value(base, q), b[|b| - 1]);
    }
  }

  lemma MulSteps(a: nat, p: nat, base: nat, v: nat, d: nat)
    ensures (a * p + v) * base + d == a * (p * base) + (v * base + d)
  {
  }

  /** A string of k digits denotes less than base^k. */
  lemma {:induction false} ValueBelow(base: nat, s: seq<nat>)
    requires AreDigits(base, s)
    ensures Value(base, s) < Pow(base, |s|)
  {
    if s != [] {
      var q := s[..|s| - 1];
      var v, p := Value(base, q), Pow(base, |q|);
      ValueBelow(base, q);
      MulSuccessor(v, base);
      MulMonotone(v + 1, p, base);
    }
  }

  /** With a nonzero first digit, k digits denote at least base^(k-1). */
  lemma {:induction false} ValueAtLeast(base: nat, s: seq<nat>)
    requires s != [] && s[0] != 0
    ensures Value(base, s) >= Pow(base, |s| - 1)
  {
    var q := s[..|s| - 1];
    if q == [] {
      assert Value(base, q) == 0;
    } else {
      ValueAtLeast(base, q);
      MulMonotone(Pow(base, |q| - 1), Value(base, q), base);
    }
  }

  /** Equal-length digit strings with equal values are equal. */
  lemma {:induction false} ValueInjective(base: nat, a: seq<nat>, b: seq<nat>)
    requires base >= 2 && AreDigits(base, a) && AreDigits(base, b) && |a| == |b|
    requires Value(base, a) == Value(base, b)
    ensures a == b
  {
    if a != [] {
      var qa, qb := a[..|a| - 1], b[..|b| - 1];
      DivModUnique(base, Value(base, qa), a[|a| - 1]);
      DivModUnique(base, Value(base, qb), b[|b| - 1]);
      ValueInjective(base, qa, qb);
      assert a == qa + [a[|a| - 1]] && b == qb + [b[|b| - 1]];
    }
  }

  /** Exactly k digits, the least significant ones of v. */
  function FixedDigits(base: nat, v: nat, k: nat): (s: seq<nat>)
    requires base >= 2
    ensures |s| == k
  {
    if k == 0 then [] else FixedDigits(base, v / base, k - 1) + [v % base]
  }

  /** A number that fits k digits is the value of its k digits. */
  lemma {:induction false} ValueOfFixedDigits(base: nat, v: nat, k: nat)
    requires base >= 2
    ensures AreDigits(base, FixedDigits(base, v, k))
    ensures v < Pow(base, k) ==> Value(base, FixedDigits(base, v, k)) == v
  {
    if k > 0 {
      DivMod(base, v);
      var q := v / base;
      hide Value;
      ValueOfFixedDigits(base, q, k - 1);
      ValueSnoc(base, FixedDigits(base, q, k - 1), v % base);
      if q >= Pow(base, k - 1) {
        MulMonotone(Pow(base, k - 1), q, base);
      }
    }
  }
}
