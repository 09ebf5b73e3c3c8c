/** ECDSA signatures: DER ECDSA-Sig-Value (x509.ts) and fixed-width r || s (der-writer.ts). */
module Ecdsa {
  import opened Common
  import opened Der
  import opened DerWriter
  import opened DerBijection
  import opened Integers
  import Radix

  /** v.toString(16), as digit values. */
  function HexDigits(v: nat): (h: seq<nat>)
    ensures h != [] && Radix.AreDigits(16, h) && Radix.Value(16, h) == v
  {
    Radix.ValueOfDigits(16, v);
    if v == 0 then [0] else Radix.Digits(16, v)
  }

  function Zeros(n: nat): (z: seq<nat>)
    ensures |z| == n && forall i :: 0 <= i < n ==> z[i] == 0
  {
    seq(n, _ => 0)
  }

  function PadStart(h: seq<nat>, width: nat): seq<nat> {
    if |h| >= width then h else Zeros(width - |h|) + h
  }

  /** Two hexadecimal digits to an octet. */
  function Paired(h: seq<nat>): (w: Bytes)
    requires Radix.AreDigits(16, h)
    ensures |w| == |h| / 2
  {
    seq(|h| / 2, i requires 0 <= i < |h| / 2 => h[2 * i] * 16 + h[2 * i + 1])
  }

  lemma {:induction false} ValueOfZeros(n: nat)
    ensures Radix.Value(16, Zeros(n)) == 0
  {
    if n > 0 {
      ValueOfZeros(n - 1);
      assert Zeros(n) == Zeros(n - 1) + [0];
      Radix.ValueSnoc(16, Zeros(n - 1), 0);
    }
  }

  lemma PaddingKeepsValue(h: seq<nat>, width: nat)
    requires Radix.AreDigits(16, h)
    ensures Radix.Value(16, PadStart(h, width)) == Radix.Value(16, h) && Radix.AreDigits(16, PadStart(h, width))
  {
    if |h| < width {
      ValueOfZeros(width - |h|);
      Radix.ValueConcat(16, Zeros(width - |h|), h);
    }
  }

  lemma {:induction false} PairingKeepsValue(h: seq<nat>)
    requires Radix.AreDigits(16, h) && |h| % 2 == 0
    ensures Radix.Value(256, Paired(h)) == Radix.Value(16, h)
  {
    if h != [] {
      hide Radix.Value;
      var n := |h|;
      var q := h[..n - 2];
      PairingKeepsValue(q);
      assert Paired(h) == Paired(q) + [h[n - 2] * 16 + h[n - 1]];
      Radix.ValueSnoc(256, Paired(q), h[n - 2] * 16 + h[n - 1]);
      assert h[..n - 1] == q + [h[n - 2]] && h == h[..n - 1] + [h[n - 1]];
      Radix.ValueSnoc(16, q, h[n - 2]);
      Radix.ValueSnoc(16, h[..n - 1], h[n - 1]);
    }
  }

  /** Big-endian octets of exactly this width, or none when the number does not fit. */
  function FixedWidth(v: nat, size: nat): Option<Bytes> {
    var h := PadStart(HexDigits(v), 2 * size);
    PaddingKeepsValue(HexDigits(v), 2 * size);
    if |h| > 2 * size then None else Some(Paired(h))
  }

  lemma FixedWidthDenotes(v: nat, size: nat)
    requires FixedWidth(v, size).Some?
    ensures var w := FixedWidth(v, size).value; |w| == size && Radix.Value(256, w) == v
  {
    var h := PadStart(HexDigits(v), 2 * size);
    PaddingKeepsValue(HexDigits(v), 2 * size);
    PairingKeepsValue(h);
  }

  lemma {:induction false} PowSquare(k: nat)
    ensures Radix.Pow(16, 2 * k) == Radix.Pow(256, k)
  {
    if k > 0 {
      PowSquare(k - 1);
      assert Radix.Pow(16, 2 * k) == Radix.Pow(16, 2 * k - 1) * 16 == Radix.Pow(16, 2 * (k - 1)) * 16 * 16;
    }
  }

  lemma FixedWidthOfValue(w: Bytes)
    requires w != []
    ensures FixedWidth(Radix.Value(256, w), |w|) == Some(w)
  {
    var v := Radix.Value(256, w);
    Radix.ValueBelow(256, w);
    PowSquare(|w|);
    DigitCount(16, v, 2 * |w|);
    FixedWidthDenotes(v, |w|);
    Radix.ValueInjective(256, w, FixedWidth(v, |w|).value);
  }

  // ---- the two conversions ------------------------------------------------------------------

  /** r || s of fixed width, or none when the signature is malformed. */
  function RawOf(sig: Bytes, size: nat): Option<Bytes> {
    var single := Single(sig);
    if single.Err? then None
    else
      var items := SequenceItems(single.value);
      if items.Err? || |items.value| != 2 then None
      else
        var r := IntegerOf(items.value[0], INTEGER);
        var s := IntegerOf(items.value[1], INTEGER);
        if r.Err? || s.Err? || r.value < 0 || s.value < 0 then None
        else
          var x := FixedWidth(r.value, size);
          var y := FixedWidth(s.value, size);
          if x.None? || y.None? then None else Some(x.value + y.value)
  }

  method EcdsaDerToRaw(sig: Bytes, size: nat) returns (raw: Option<Bytes>)
    ensures raw == RawOf(sig, size)
  {
    hide FixedWidth, IntegerOf, ElementsFrom, TlvAt;
    var single := Single(sig);
    if single.Err? || !Is(single.value, SEQUENCE, true) { return None; }
    var items := Children(single.value);
    if items.Err? || |items.value| != 2 { return None; }
    var r := IntegerValue(items.value[0], INTEGER);
    if r.Err? { return None; }
    var s := IntegerValue(items.value[1], INTEGER);
    if s.Err? || r.value < 0 || s.value < 0 { return None; }
    var out := new byte[size * 2](_ => 0);
    var fits := Put(r.value, size, out, 0);
    if !fits { return None; }
    fits := Put(s.value, size, out, size);
    if !fits { return None; }
    assert out[..] == out[..size] + out[size..size + size];
    raw := Some(out[..]);
  }

  /** Writes v at off in exactly size octets; false when it needs more. */
  method Put(v: nat, size: nat, out: array<byte>, off: nat) returns (fits: bool)
    requires off + size <= out.Length
    modifies out
    ensures fits == FixedWidth(v, size).Some?
    ensures fits ==> out[off..off + size] == FixedWidth(v, size).value
    ensures out[..off] == old(out[..off]) && out[off + size..] == old(out[off + size..])
  {
    hide HexDigits, Radix.Value;
    var h := PadStart(HexDigits(v), size * 2);
    PaddingKeepsValue(HexDigits(v), size * 2);
    fits := |h| <= size * 2;
    if !fits { return; }
    for i := 0 to size
      invariant forall k :: 0 <= k < i ==> out[off + k] == Paired(h)[k]
      invariant out[..off] == old(out[..off]) && out[off + size..] == old(out[off + size..])
    {
      out[off + i] := h[2 * i] * 16 + h[2 * i + 1];
    }
  }

  /** The octets of a half as a number, and the DER SEQUENCE of two INTEGERs. */
  function DerOf(raw: Bytes): Bytes
    requires |raw| % 2 == 0 && |raw| < 0x1000_0000
  {
    var half := |raw| / 2;
    var r, s := Radix.Value(256, raw[..half]), Radix.Value(256, raw[half..]);
    Radix.ValueBelow(256, raw[..half]);
    Radix.ValueBelow(256, raw[half..]);
    OctetsLength(r, half);
    OctetsLength(s, half);
    Encode(UNIVERSAL, true, SEQUENCE, WrittenInteger(r, INTEGER).raw + WrittenInteger(s, INTEGER).raw)
  }

  lemma {:induction false} OctetsLength(v: nat, k: nat)
    requires v < Radix.Pow(256, k)
    ensures |Octets(v)| <= k + 1
  {
    if v >= 128 {
      assert k > 0;
      OctetsLength(v / 256, k - 1);
    }
  }

  lemma ConcatenatedPair(a: Tlv, b: Tlv)
    ensures Concatenated([a, b]) == a.raw + b.raw
  {
    assert [a, b][1..] == [b] && [b][1..] == [];
    assert Concatenated([b]) == b.raw;
  }

  /** Raw to DER to raw is the identity for every curve size. */
  lemma RawRoundTrip(raw: Bytes, size: nat)
    requires 0 < size < 0x800_0000 && |raw| == 2 * size
    ensures RawOf(DerOf(raw), size) == Some(raw)
  {
    hide Radix.Value, Octets, FixedWidth, Single, SequenceItems, IntegerOf, Encode;
    var r, s := Radix.Value(256, raw[..size]), Radix.Value(256, raw[size..]);
    Radix.ValueBelow(256, raw[..size]);
    Radix.ValueBelow(256, raw[size..]);
    OctetsLength(r, size);
    OctetsLength(s, size);
    PairRoundTrip(r, s);
    FixedWidthOfValue(raw[..size]);
    FixedWidthOfValue(raw[size..]);
    assert raw == raw[..size] + raw[size..];
  }

  lemma PairRoundTrip(r: nat, s: nat)
    requires |Octets(r)| + |Octets(s)| < 0x1800_0000
    ensures var a, b := WrittenInteger(r, INTEGER), WrittenInteger(s, INTEGER);
            var sig := Encode(UNIVERSAL, true, SEQUENCE, a.raw + b.raw);
            && Single(sig).Ok? && SequenceItems(Single(sig).value) == Ok([a, b])
            && IntegerOf(a, INTEGER) == Ok(r) && IntegerOf(b, INTEGER) == Ok(s)
  {
    var a, b := WrittenInteger(r, INTEGER), WrittenInteger(s, INTEGER);
    ConcatenatedPair(a, b);
    ChildrenAreTheUniqueSplit(a.raw + b.raw, [a, b]);
    var sig := Encode(UNIVERSAL, true, SEQUENCE, a.raw + b.raw);
    assert sig[0..|sig|] == sig;
    hide TlvAt, ElementsFrom, TagBytes, LengthBytes, Octets;
    ReadsWhatWasWritten(sig, 0, UNIVERSAL, true, SEQUENCE, a.raw + b.raw);
    IntegerRoundTrip(r, INTEGER);
    IntegerRoundTrip(s, INTEGER);
  }

  /** Two halves of the curve's size, and the one DER encoding of them. */
  ghost predicate IsDerOf(sig: Bytes, raw: Bytes, size: nat) {
    size < 0x800_0000 && |raw| == 2 * size && sig == DerOf(raw)
  }

  /** An accepted signature is the DER encoding of what it is converted to. */
  lemma AcceptedSignatureIsUnique(sig: Bytes, size: nat)
    requires size < 0x800_0000 && RawOf(sig, size).Some?
    ensures IsDerOf(sig, RawOf(sig, size).value, size)
  {
    hide TlvAt, ElementsFrom, TagBytes, LengthBytes, Octets, FixedWidth, Radix.Value, IntegerOf;
    var raw := RawOf(sig, size).value;
    var t := Single(sig).value;
    AcceptedIsWritten(sig, 0);
    assert sig[0..|sig|] == sig;
    var items := SequenceItems(t).value;
    var a, b := items[0], items[1];
    assert items == [a, b];
    ChildrenAreTheUniqueSplit(t.content, items);
    ConcatenatedPair(a, b);
    AcceptedIntegerIsWritten(a, INTEGER);
    AcceptedIntegerIsWritten(b, INTEGER);
    var r, s := IntegerOf(a, INTEGER).value, IntegerOf(b, INTEGER).value;
    FixedWidthDenotes(r, size);
    FixedWidthDenotes(s, size);
    assert raw[..size] == FixedWidth(r, size).value && raw[size..] == FixedWidth(s, size).value;
  }

  /** Two accepted signatures with the same raw form are the same octets. */
  lemma RawDeterminesSignature(sig: Bytes, sig': Bytes, size: nat)
    requires size < 0x800_0000 && RawOf(sig, size).Some? && RawOf(sig, size) == RawOf(sig', size)
    ensures sig == sig'
  {
    hide RawOf, DerOf;
    AcceptedSignatureIsUnique(sig, size);
    AcceptedSignatureIsUnique(sig', size);
  }
}
