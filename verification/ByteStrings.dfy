/** Octet strings as hexadecimal text, and their comparison (der.ts, hex and bytesEqual). */
module ByteStrings {
  import opened Common
  import Bits
  import Radix
  import Text

  /** Two lowercase digits. */
  function HexPair(x: byte): (s: string)
    ensures |s| == 2
  {
    [Text.DigitChar(x / 16), Text.DigitChar(x % 16)]
  }

  function HexOf(b: Bytes): string {
    if b == [] then "" else HexOf(b[..|b| - 1]) + HexPair(b[|b| - 1])
  }

  /** x.toString(16).padStart(2, "0") */
  function PaddedNumeral(x: byte): string {
    var s := Text.Numeral(16, x);
    if |s| < 2 then "0" + s else s
  }

  lemma PaddedNumeralIsHexPair(x: byte)
    ensures PaddedNumeral(x) == HexPair(x)
  {
    Radix.NoDigits(16);
    if x > 0 { Radix.DigitsSnoc(16, x); }
    if x >= 16 { Radix.DigitsSnoc(16, x / 16); }
    assert x / 16 / 16 == 0;
    assert 0 < x < 16 ==> Radix.Digits(16, x) == [x as nat];
    assert x >= 16 ==> Radix.Digits(16, x) == [x / 16, x % 16];
  }

  /** The sixteen digits in order. */
  lemma DigitsAre(x: byte)
    ensures HexPair(x) == ["0123456789abcdef"[x / 16], "0123456789abcdef"[x % 16]]
  {
    assert forall d :: 0 <= d < 16 ==> Text.DigitChar(d) == "0123456789abcdef"[d];
  }

  method Hex(b: Bytes) returns (s: string)
    ensures s == HexOf(b)
  {
    s := "";
    for i := 0 to |b|
      invariant s == HexOf(b[..i])
    {
      assert b[..i + 1][..i] == b[..i];
      PaddedNumeralIsHexPair(b[i]);
      s := s + PaddedNumeral(b[i]);
    }
    assert b[..|b|] == b;
  }

  lemma HexPairInjective(x: byte, y: byte)
    requires HexPair(x) == HexPair(y)
    ensures x == y
  {
    assert HexPair(x)[0] == HexPair(y)[0] && HexPair(x)[1] == HexPair(y)[1];
    assert Text.CharDigit(Text.DigitChar(x / 16)) == x / 16 && Text.CharDigit(Text.DigitChar(x % 16)) == x % 16;
    assert Text.CharDigit(Text.DigitChar(y / 16)) == y / 16 && Text.CharDigit(Text.DigitChar(y % 16)) == y % 16;
  }

  lemma {:induction false} HexLength(b: Bytes)
    ensures |HexOf(b)| == 2 * |b|
  {
    if b != [] { HexLength(b[..|b| - 1]); }
  }

  /** Hexadecimal text determines the octets. */
  lemma {:induction false} HexInjective(a: Bytes, b: Bytes)
    requires HexOf(a) == HexOf(b)
    ensures a == b
  {
    HexLength(a);
    HexLength(b);
    if a != [] {
      var p, q := a[..|a| - 1], b[..|b| - 1];
      HexLength(p);
      HexLength(q);
      var x, y := a[|a| - 1], b[|b| - 1];
      assert HexOf(a)[..2 * |p|] == HexOf(p) && HexOf(b)[..2 * |q|] == HexOf(q);
      assert HexOf(a)[2 * |p|..] == HexPair(x) && HexOf(b)[2 * |q|..] == HexPair(y);
      HexInjective(p, q);
      HexPairInjective(x, y);
      assert a == p + [x] && b == q + [y];
    }
  }

  /** Accumulates the differing bits of every position, without an early exit. */
  method BytesEqual(a: Bytes, b: Bytes) returns (equal: bool)
    ensures equal <==> a == b
  {
    if |a| != |b| { return false; }
    var diff: bv8 := 0;
    for i := 0 to |a|
      invariant diff == 0 <==> a[..i] == b[..i]
    {
      assert a[..i + 1] == a[..i] + [a[i]] && b[..i + 1] == b[..i] + [b[i]];
      Bits.OrXor(diff, a[i] as bv8, b[i] as bv8);
      Bits.Determine(a[i], b[i]);
      diff := diff | ((a[i] as bv8) ^ (b[i] as bv8));
    }
    assert a[..|a|] == a && b[..|b|] == b;
    equal := diff == 0;
  }
}

/** Octets as bits. */
module Bits {
  function Value(b: bv8): int {
    b as int
  }

  lemma OrXor(d: bv8, x: bv8, y: bv8)
    ensures d | (x ^ y) == 0 <==> d == 0 && x == y
  {
  }

  lemma ValueReturns(x: int)
    requires 0 <= x < 256
    ensures Value(x as bv8) == x
  {
  }

  lemma Determine(x: int, y: int)
    requires 0 <= x < 256 && 0 <= y < 256
    ensures x as bv8 == y as bv8 <==> x == y
  {
    hide Value;
    ValueReturns(x);
    ValueReturns(y);
  }
}
