/** Two's complement INTEGER content: reader (der.ts) and writer (der-writer.ts) are mutual inverses. */
module Integers {
  import opened Common
  import opened Der
  import opened DerWriter
  import opened DerBijection
  import Radix

  /** Neither redundant leading zeros nor redundant leading ones. */
  predicate MinimalInteger(c: Bytes) {
    c != [] && (|c| > 1 ==> !(c[0] == 0 && c[1] < 0x80) && !(c[0] == 0xff && c[1] >= 0x80))
  }

  /** The two's complement number of an octet string. */
  function Signed(c: Bytes): int
    requires c != []
  {
    if |c| == 1 then (if c[0] < 0x80 then c[0] as int else c[0] as int - 256) else Signed(c[..|c| - 1]) * 256 + c[|c| - 1]
  }

  function CheckMinimal(c: Bytes): Result<(), DerError> {
    if c == [] then Err(EmptyInteger) else if MinimalInteger(c) then Ok(()) else Err(NonMinimalInteger)
  }

  function IntegerOf(t: Tlv, tag: nat): Result<int, DerError> {
    if !Is(t, tag, false) then Err(UnexpectedType)
    else
      var _ :- CheckMinimal(t.content);
      Ok(Signed(t.content))
  }

  /** The source accumulates the unsigned value and then subtracts 2^(8n) when the sign bit is set. */
  method IntegerValue(t: Tlv, tag: nat) returns (r: Result<int, DerError>)
    ensures r == IntegerOf(t, tag)
  {
    if t.cls != UNIVERSAL || t.tag != tag || t.constructed { return Err(UnexpectedType); }
    var c := t.content;
    if |c| == 0 { return Err(EmptyInteger); }
    if |c| > 1 {
      if c[0] == 0 && c[1] < 0x80 { return Err(NonMinimalInteger); }
      if c[0] == 0xff && c[1] >= 0x80 { return Err(NonMinimalInteger); }
    }
    var v := 0;
    for i := 0 to |c|
      invariant v == Radix.Value(256, c[..i])
    {
      assert c[..i + 1][..i] == c[..i];
      v := v * 256 + c[i];
    }
    assert c[..|c|] == c;
    SignedIsUnsignedMinusPower(c);
    if c[0] >= 0x80 { v := v - Radix.Pow(256, |c|); }
    r := Ok(v);
  }

  lemma {:induction false} SignedIsUnsignedMinusPower(c: Bytes)
    requires c != []
    ensures Signed(c) == Radix.Value(256, c) - (if c[0] >= 0x80 then Radix.Pow(256, |c|) else 0)
  {
    if |c| == 1 {
      Radix.ValueSnoc(256, [], c[0]);
      assert [] + [c[0] as nat] == c;
    } else {
      SignedIsUnsignedMinusPower(c[..|c| - 1]);
    }
  }

  // ---- the writer ---------------------------------------------------------------------------

  /** Minimal two's complement octets of v. */
  function Octets(v: int): (c: Bytes)
    ensures c != []
    decreases if v < 0 then -v else v
  {
    if -128 <= v < 128 then [if v < 0 then v + 256 else v] else Octets(v / 256) + [v % 256]
  }

  /** What the loop over a non-negative number leaves: its octets with no sign octet yet. */
  function Magnitude(v: nat): (c: Bytes)
    ensures c != []
  {
    if v < 256 then [v] else Magnitude(v / 256) + [v % 256]
  }

  /** What the loop over a negative number leaves: octets down to, and without, an all-ones rest. */
  function NegativeOctets(v: int): (c: Bytes)
    requires v < 0
    ensures c != []
    decreases -v
  {
    if v / 256 < -1 then NegativeOctets(v / 256) + [v % 256] else [v % 256]
  }

  lemma {:induction false} MagnitudeIsOctets(v: nat)
    ensures Octets(v) == if Magnitude(v)[0] >= 0x80 then [0] + Magnitude(v) else Magnitude(v)
  {
    if v >= 256 {
      MagnitudeIsOctets(v / 256);
      assert [0] + Magnitude(v) == [0] + Magnitude(v / 256) + [v % 256];
    } else if v >= 128 {
      assert Octets(v) == Octets(0) + [v % 256] == [0, v];
    }
  }

  lemma {:induction false} NegativeOctetsAreOctets(v: int)
    requires v < 0
    ensures Octets(v) == if NegativeOctets(v)[0] < 0x80 then [0xff] + NegativeOctets(v) else NegativeOctets(v)
    decreases -v
  {
    if v / 256 < -1 {
      NegativeOctetsAreOctets(v / 256);
      assert [0xff] + NegativeOctets(v) == [0xff] + NegativeOctets(v / 256) + [v % 256];
    } else if v < -128 {
      assert v / 256 == -1;
      assert Octets(v) == Octets(-1) + [v % 256] == [0xff, v % 256];
    }
  }

  lemma MagnitudeStep(x: nat, rest: Bytes)
    ensures Magnitude(x) + rest == if x < 256 then [x] + rest else Magnitude(x / 256) + ([x % 256] + rest)
  {
  }

  lemma NegativeStep(x: int, rest: Bytes)
    requires x < 0
    ensures NegativeOctets(x) + rest ==
            if x / 256 < -1 then NegativeOctets(x / 256) + ([x % 256] + rest) else [x % 256] + rest
  {
  }

  method IntegerContent(v: int) returns (r: Bytes)
    ensures r == Octets(v)
  {
    hide Magnitude, NegativeOctets, Octets;
    var bytes: Bytes := [];
    var x := v;
    if x >= 0 {
      MagnitudeIsOctets(v);
      MagnitudeStep(v, []);
      assert Magnitude(v) + [] == Magnitude(v);
      // do ... while (x > 0)
      bytes := [x % 256] + bytes;
      x := x / 256;
      while x > 0
        invariant x >= 0 && bytes != []
        invariant Magnitude(v) == if x > 0 then Magnitude(x) + bytes else bytes
      {
        MagnitudeStep(x, bytes);
        bytes := [x % 256] + bytes;
        x := x / 256;
      }
      if bytes[0] >= 0x80 { bytes := [0] + bytes; }
    } else {
      NegativeOctetsAreOctets(v);
      NegativeStep(v, []);
      assert NegativeOctets(v) + [] == NegativeOctets(v);
      // do ... while (x < -1)
      bytes := [x % 256] + bytes;
      x := x / 256;
      while x < -1
        invariant x < 0 && bytes != []
        invariant NegativeOctets(v) == if x < -1 then NegativeOctets(x) + bytes else bytes
        decreases -x
      {
        NegativeStep(x, bytes);
        bytes := [x % 256] + bytes;
        x := x / 256;
      }
      if bytes[0] < 0x80 { bytes := [0xff] + bytes; }
    }
    r := bytes;
  }

  // ---- mutual inverses ----------------------------------------------------------------------

  /** Writing then reading any integer, negatives included, gives it back, and the octets are minimal. */
  lemma {:induction false} SignedOfOctets(v: int)
    ensures MinimalInteger(Octets(v)) && Signed(Octets(v)) == v
    decreases if v < 0 then -v else v
  {
    if !(-128 <= v < 128) {
      var q := v / 256;
      SignedOfOctets(q);
      var c := Octets(q);
      assert (c + [v % 256])[..|c|] == c;
      if |c| == 1 {
        assert q == 0 ==> v >= 128;
        assert q == -1 ==> v < -128;
      }
    }
  }

  /** Reading then writing any minimal octets gives them back. */
  lemma {:induction false} OctetsOfSigned(c: Bytes)
    requires MinimalInteger(c)
    ensures Octets(Signed(c)) == c
    decreases |c|, 0
  {
    if |c| > 1 {
      var q := c[..|c| - 1];
      var last := c[|c| - 1];
      assert MinimalInteger(q);
      OctetsOfSigned(q);
      var v := Signed(q);
      assert (v * 256 + last) / 256 == v && (v * 256 + last) % 256 == last;
      SmallSigned(q);
      assert c == q + [last];
    }
  }

  /** Only a single zero or all-ones octet reads as 0 or -1. */
  lemma SmallSigned(q: Bytes)
    requires MinimalInteger(q)
    ensures Signed(q) == 0 ==> q == [0]
    ensures Signed(q) == -1 ==> q == [0xff]
    decreases |q|, 1
  {
    OctetsOfSigned(q);
  }

  function WrittenInteger(v: int, tag: nat): Tlv
    requires tag < 31 && |Octets(v)| < LENGTH_LIMIT
  {
    Written(UNIVERSAL, false, tag, Octets(v))
  }

  lemma IntegerRoundTrip(v: int, tag: nat)
    requires tag < 31 && |Octets(v)| < LENGTH_LIMIT
    ensures IntegerOf(WrittenInteger(v, tag), tag) == Ok(v)
  {
    SignedOfOctets(v);
  }

  /** An accepted INTEGER or ENUMERATED element is the writer's element for its value, bit for bit. */
  lemma AcceptedIntegerIsWritten(t: Tlv, tag: nat)
    requires tag < 31 && WellFormed(t) && IntegerOf(t, tag).Ok?
    ensures var v := IntegerOf(t, tag).value; Octets(v) == t.content && t == WrittenInteger(v, tag)
  {
    OctetsOfSigned(t.content);
  }
}
