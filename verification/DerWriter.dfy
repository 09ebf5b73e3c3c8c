/** The DER writer of server/test/corpus/der-writer.ts, the printer that the reader is inverse to. */
module DerWriter {
  import opened Common
  import opened Der
  import Radix

  /** Tag numbers below 2^28 fit the four octets the reader accepts. */
  const TAG_LIMIT: nat := 0x1000_0000
  /** Lengths below 2^32 fit the four octets the reader accepts. */
  const LENGTH_LIMIT: nat := 0x1_0000_0000

  lemma SeptetLimit()
    ensures Radix.Pow(128, 4) == TAG_LIMIT && Radix.Pow(256, 4) == LENGTH_LIMIT
  {
    assert Radix.Pow(128, 1) == 128 && Radix.Pow(128, 2) == 16384 && Radix.Pow(128, 3) == 2097152;
    assert Radix.Pow(256, 1) == 256 && Radix.Pow(256, 2) == 65536 && Radix.Pow(256, 3) == 16777216;
  }

  /** Base-128 digits as octets: the high bit marks all but the last. */
  function Flagged(ds: seq<nat>): (r: Bytes)
    requires forall i :: 0 <= i < |ds| ==> ds[i] < 128
    ensures |r| == |ds|
  {
    seq(|ds|, i requires 0 <= i < |ds| => if i == |ds| - 1 then ds[i] else 128 + ds[i])
  }

  /** At least one base-128 digit, as a subidentifier or tag number needs. */
  function SeptetDigits(v: nat): (ds: seq<nat>)
    ensures ds != [] && Radix.Value(128, ds) == v && Radix.AreDigits(128, ds)
    ensures |ds| > 1 ==> ds[0] != 0
  {
    Radix.ValueOfDigits(128, v);
    if v == 0 then [0] else Radix.Digits(128, v)
  }

  function Identifier(cls: nat, constructed: bool, low: nat): byte
    requires cls < 4 && low < 32
  {
    cls * 64 + (if constructed then 32 else 0) + low
  }

  lemma IdentifierFields(cls: nat, constructed: bool, low: nat)
    requires cls < 4 && low < 32
    ensures var o := Identifier(cls, constructed, low);
            ClassBits(o) == cls && ConstructedBit(o) == constructed && TagBits(o) == low
  {
  }

  lemma FieldsIdentify(o: byte)
    ensures Identifier(ClassBits(o), ConstructedBit(o), TagBits(o)) == o
  {
  }

  function TagBytes(cls: nat, constructed: bool, tag: nat): (r: Bytes)
    requires cls < 4
    ensures r != [] && (tag < TAG_LIMIT ==> |r| <= 5)
  {
    if tag < 31 then [Identifier(cls, constructed, tag)]
    else
      SeptetLimit();
      assert tag < TAG_LIMIT ==> |SeptetDigits(tag)| <= 4 by {
        if tag < TAG_LIMIT { DigitCount(128, tag, 4); }
      }
      [Identifier(cls, constructed, 31)] + Flagged(SeptetDigits(tag))
  }

  function LengthBytes(n: nat): (r: Bytes)
    requires n < LENGTH_LIMIT
    ensures 1 <= |r| <= 5
  {
    Radix.ValueOfDigits(256, n);
    SeptetLimit();
    if n < 0x80 then [n] else DigitCount(256, n, 4); [0x80 + |Radix.Digits(256, n)|] + Radix.Digits(256, n)
  }

  function Encode(cls: nat, constructed: bool, tag: nat, content: Bytes): (e: Bytes)
    requires cls < 4 && |content| < LENGTH_LIMIT
    ensures tag < TAG_LIMIT ==> |e| <= |content| + 10
  {
    TagBytes(cls, constructed, tag) + LengthBytes(|content|) + content
  }

  /** Headers octet by octet: the types (X.690, section 8.1.2), context tags below and above 30, and lengths in
      the short and the long form. */
  lemma Headers()
    ensures TagBytes(UNIVERSAL, false, BOOLEAN) == [0x01] && TagBytes(UNIVERSAL, false, INTEGER) == [0x02]
    ensures TagBytes(UNIVERSAL, false, OCTET_STRING) == [0x04] && TagBytes(UNIVERSAL, false, OID) == [0x06]
    ensures TagBytes(UNIVERSAL, false, ENUMERATED) == [0x0A] && TagBytes(UNIVERSAL, false, UTF8_STRING) == [0x0C]
    ensures TagBytes(UNIVERSAL, false, PRINTABLE_STRING) == [0x13] && TagBytes(UNIVERSAL, false, UTC_TIME) == [0x17]
    ensures TagBytes(UNIVERSAL, false, GENERALIZED_TIME) == [0x18]
    ensures TagBytes(UNIVERSAL, true, SEQUENCE) == [0x30] && TagBytes(UNIVERSAL, true, SET) == [0x31]
    ensures TagBytes(CONTEXT_SPECIFIC, true, 1) == [0xA1] && TagBytes(CONTEXT_SPECIFIC, true, 702) == [0xBF, 0x85, 0x3E]
    ensures LengthBytes(0x7F) == [0x7F] && LengthBytes(0x80) == [0x81, 0x80] && LengthBytes(0x1234) == [0x82, 0x12, 0x34]
  {
    Radix.NoDigits(128);
    Radix.NoDigits(256);
    Radix.DigitsSnoc(128, 702);
    Radix.DigitsSnoc(128, 5);
    Radix.DigitsSnoc(256, 0x80);
    Radix.DigitsSnoc(256, 0x1234);
    Radix.DigitsSnoc(256, 0x12);
    hide Radix.Digits, Radix.Value;
    assert SeptetDigits(702) == [5, 62] && Radix.Digits(256, 0x80) == [0x80] && Radix.Digits(256, 0x1234) == [0x12, 0x34];
  }

  /** A number below base^k has at most k digits. */
  lemma {:induction false} DigitCount(base: nat, v: nat, k: nat)
    requires base >= 2 && v < Radix.Pow(base, k)
    ensures |Radix.Digits(base, v)| <= k
  {
    Radix.ValueOfDigits(base, v);
    var ds := Radix.Digits(base, v);
    if |ds| > k {
      Radix.ValueAtLeast(base, ds);
      PowMonotone(base, k, |ds| - 1);
      assert false;
    }
  }

  lemma {:induction false} PowMonotone(base: nat, j: nat, k: nat)
    requires base >= 1 && j <= k
    ensures Radix.Pow(base, j) <= Radix.Pow(base, k)
  {
    if j < k {
      PowMonotone(base, j, k - 1);
      Radix.MulMonotone(1, base, Radix.Pow(base, k - 1));
    }
  }

  /** Prepends to the digits already written what is left of the number. */
  lemma DigitsSplit(base: nat, v: nat, tail: seq<nat>)
    requires base >= 2 && v > 0
    ensures Radix.Digits(base, v) + tail == Radix.Digits(base, v / base) + ([v % base] + tail)
  {
    Radix.DigitsSnoc(base, v);
    hide Radix.Digits;
    assert Radix.Digits(base, v / base) + [v % base] + tail == Radix.Digits(base, v / base) + ([v % base] + tail);
  }

  lemma FlaggedOne(d: nat)
    requires d < 128
    ensures Flagged([d]) == [d]
  {
  }

  lemma FlaggedPrepend(d: nat, ds: seq<nat>)
    requires d < 128 && ds != [] && forall i :: 0 <= i < |ds| ==> ds[i] < 128
    ensures Flagged([d] + ds) == [128 + d] + Flagged(ds)
  {
  }

  method EncodeLength(n: nat) returns (r: Bytes)
    requires n < LENGTH_LIMIT
    ensures r == LengthBytes(n)
  {
    hide Radix.Value;
    Radix.ValueOfDigits(256, n);
    DigitCount(256, n, 4);
    if n < 0x80 { return [n]; }
    var bytes: Bytes := [];
    var v := n;
    while v > 0
      invariant Radix.Digits(256, n) == Radix.Digits(256, v) + bytes
    {
      DigitsSplit(256, v, bytes);
      Radix.DivMod(256, v);
      bytes := [v % 256] + bytes;
      v := v / 256;
    }
    r := [0x80 + |bytes|] + bytes;
  }

  /** The shifts of the source work on 32-bit integers, hence the bound on the tag. */
  method EncodeTag(cls: nat, constructed: bool, tag: nat) returns (r: Bytes)
    requires cls < 4 && tag < 0x8000_0000
    ensures r == TagBytes(cls, constructed, tag)
  {
    hide Flagged, Radix.Digits, Radix.Value;
    if tag < 31 { return [Identifier(cls, constructed, tag)]; }
    FlaggedOne(tag % 128);
    Radix.DigitsSnoc(128, tag);
    var rest: Bytes := [tag % 128];
    var v: nat := tag / 128;
    ghost var ds: seq<nat> := [tag % 128];
    while v > 0
      invariant forall i :: 0 <= i < |ds| ==> ds[i] < 128
      invariant ds != [] && rest == Flagged(ds)
      invariant Radix.Digits(128, tag) == Radix.Digits(128, v) + ds
    {
      DigitsSplit(128, v, ds);
      FlaggedPrepend(v % 128, ds);
      ds := [v % 128] + ds;
      rest := [128 + v % 128] + rest;
      v := v / 128;
    }
    Radix.NoDigits(128);
    assert [] + ds == ds;
    r := [Identifier(cls, constructed, 31)] + rest;
  }
}

/** Reader and writer are mutually inverse, so accepted encodings are unique. */
module DerBijection {
  import opened Common
  import opened Der
  import opened DerWriter
  import Radix

  /** An element whose raw bytes are what the writer produces for it. */
  ghost predicate WellFormed(t: Tlv) {
    && t.cls < 4 && t.tag < TAG_LIMIT && |t.content| < LENGTH_LIMIT
    && t.raw == Encode(t.cls, t.constructed, t.tag, t.content)
  }

  function Written(cls: nat, constructed: bool, tag: nat, content: Bytes): (t: Tlv)
    requires cls < 4 && tag < TAG_LIMIT && |content| < LENGTH_LIMIT
    ensures WellFormed(t)
  {
    Tlv(cls, constructed, tag, Encode(cls, constructed, tag, content), content)
  }

  /** w is found in b at offset. */
  ghost predicate At(b: Bytes, offset: nat, w: Bytes) {
    offset + |w| <= |b| && forall i :: 0 <= i < |w| ==> b[offset + i] == w[i]
  }

  lemma AtSlice(b: Bytes, offset: nat, w: Bytes)
    ensures At(b, offset, w) <==> offset + |w| <= |b| && b[offset..offset + |w|] == w
  {
    if offset + |w| <= |b| && b[offset..offset + |w|] == w {
      forall i | 0 <= i < |w| ensures b[offset + i] == w[i] {
        assert b[offset..offset + |w|][i] == w[i];
      }
    }
  }

  lemma AtSplit(b: Bytes, offset: nat, x: Bytes, y: Bytes)
    requires At(b, offset, x + y)
    ensures At(b, offset, x) && At(b, offset + |x|, y)
  {
    assert forall i :: 0 <= i < |x| ==> (x + y)[i] == x[i];
    forall i | 0 <= i < |y| ensures b[offset + |x| + i] == y[i] {
      assert (x + y)[|x| + i] == y[i];
    }
  }

  // ---- reading what was written -------------------------------------------------------------

  lemma {:induction false} TagOctetsRead(b: Bytes, p: nat, ds: seq<nat>, k: nat)
    requires Radix.AreDigits(128, ds) && k < |ds| <= 4 && ds[0] != 0
    requires At(b, p, Flagged(ds))
    ensures TagOctets(b, p + k, Radix.Value(128, ds[..k]), k) == Ok((Radix.Value(128, ds), p + |ds|))
    decreases |ds| - k
  {
    assert b[p + k] == Flagged(ds)[k];
    assert ds[..k + 1][..k] == ds[..k];
    assert Radix.Value(128, ds[..k + 1]) == Radix.Value(128, ds[..k]) * 128 + ds[k];
    if k + 1 < |ds| {
      TagOctetsRead(b, p, ds, k + 1);
    } else {
      assert ds[..k + 1] == ds;
    }
  }

  lemma TagRead(b: Bytes, offset: nat, cls: nat, constructed: bool, tag: nat)
    requires cls < 4 && tag < TAG_LIMIT && offset < |b|
    requires At(b, offset, TagBytes(cls, constructed, tag))
    ensures TagAt(b, offset) == Ok((tag, offset + |TagBytes(cls, constructed, tag)|))
    ensures ClassBits(b[offset]) == cls && ConstructedBit(b[offset]) == constructed
  {
    hide TagOctets, Flagged, Radix.Value, Radix.Digits, ClassBits, ConstructedBit, TagBits, Identifier, SeptetDigits;
    assert b[offset] == TagBytes(cls, constructed, tag)[0];
    if tag < 31 {
      IdentifierFields(cls, constructed, tag);
    } else {
      IdentifierFields(cls, constructed, 31);
      AtSplit(b, offset, [b[offset]], Flagged(SeptetDigits(tag)));
      HighTagRead(b, offset + 1, tag);
    }
  }

  lemma HighTagRead(b: Bytes, p: nat, tag: nat)
    requires 31 <= tag < TAG_LIMIT && At(b, p, Flagged(SeptetDigits(tag)))
    ensures TagOctets(b, p, 0, 0) == Ok((tag, p + |SeptetDigits(tag)|))
  {
    var ds := SeptetDigits(tag);
    SeptetLimit();
    DigitCount(128, tag, 4);
    Radix.ValueOfDigits(128, tag);
    Radix.NoDigits(128);
    hide Radix.Value, Radix.Digits, TagOctets, Flagged;
    assert ds[..0] == [];
    TagOctetsRead(b, p, ds, 0);
  }

  lemma LengthRead(b: Bytes, p: nat, n: nat)
    requires n < LENGTH_LIMIT
    requires At(b, p, LengthBytes(n))
    ensures LengthAt(b, p) == Ok((n, p + |LengthBytes(n)|))
  {
    hide Radix.Value, Radix.Digits, Radix.Pow;
    assert b[p] == LengthBytes(n)[0];
    if n >= 0x80 {
      var ds := Radix.Digits(256, n);
      Radix.ValueOfDigits(256, n);
      SeptetLimit();
      DigitCount(256, n, 4);
      AtSplit(b, p, [b[p]], ds);
      AtSlice(b, p + 1, ds);
      Radix.ValueAtLeast(256, ds);
    }
  }

  lemma HeaderRead(b: Bytes, offset: nat, cls: nat, constructed: bool, tag: nat, content: Bytes)
    requires cls < 4 && tag < TAG_LIMIT && |content| < LENGTH_LIMIT
    requires At(b, offset, Encode(cls, constructed, tag, content)) && offset < |b|
    ensures var t, l := TagBytes(cls, constructed, tag), LengthBytes(|content|);
            && TagAt(b, offset) == Ok((tag, offset + |t|))
            && ClassBits(b[offset]) == cls && ConstructedBit(b[offset]) == constructed
            && LengthAt(b, offset + |t|) == Ok((|content|, offset + |t| + |l|))
            && b[offset + |t| + |l|..offset + |t| + |l| + |content|] == content
  {
    hide TagAt, LengthAt, ClassBits, ConstructedBit, TagBytes, LengthBytes;
    var t := TagBytes(cls, constructed, tag);
    var l := LengthBytes(|content|);
    AtSplit(b, offset, t + l, content);
    AtSlice(b, offset + |t| + |l|, content);
    AtSplit(b, offset, t, l);
    TagRead(b, offset, cls, constructed, tag);
    LengthRead(b, offset + |t|, |content|);
  }

  lemma Assemble(b: Bytes, offset: nat, tag: nat, p: nat, len: nat, q: nat)
    requires offset < |b| && TagAt(b, offset) == Ok((tag, p)) && LengthAt(b, p) == Ok((len, q)) && q + len <= |b|
    ensures TlvAt(b, offset) == Ok((
              Tlv(ClassBits(b[offset]), ConstructedBit(b[offset]), tag, b[offset..q + len], b[q..q + len]), q + len))
  {
  }

  /** The reader recovers, at any offset inside any buffer, exactly what the writer wrote, and stops
      exactly after it. */
  lemma ReadsWhatWasWritten(b: Bytes, offset: nat, cls: nat, constructed: bool, tag: nat, content: Bytes)
    requires cls < 4 && tag < TAG_LIMIT && |content| < LENGTH_LIMIT
    requires var e := Encode(cls, constructed, tag, content);
             offset + |e| <= |b| && b[offset..offset + |e|] == e
    ensures var e := Encode(cls, constructed, tag, content);
            TlvAt(b, offset) == Ok((Written(cls, constructed, tag, content), offset + |e|))
  {
    hide TagAt, LengthAt, TagBytes, LengthBytes;
    var e := Encode(cls, constructed, tag, content);
    AtSlice(b, offset, e);
    HeaderRead(b, offset, cls, constructed, tag, content);
    var q := offset + |e| - |content|;
    Assemble(b, offset, tag, offset + |TagBytes(cls, constructed, tag)|, |content|, q);
  }

  // ---- what is read was written -------------------------------------------------------------

  function Septets(s: Bytes): (ds: seq<nat>)
    ensures |ds| == |s| && forall i :: 0 <= i < |s| ==> ds[i] == SevenBits(s[i])
  {
    seq(|s|, i requires 0 <= i < |s| => SevenBits(s[i]))
  }

  lemma SeptetsStep(b: Bytes, start: nat, p: nat)
    requires start <= p < |b|
    ensures Radix.Value(128, Septets(b[start..p + 1])) == Radix.Value(128, Septets(b[start..p])) * 128 + SevenBits(b[p])
  {
    assert Septets(b[start..p + 1]) == Septets(b[start..p]) + [SevenBits(b[p])];
    Radix.ValueSnoc(128, Septets(b[start..p]), SevenBits(b[p]));
  }

  lemma {:induction false} TagOctetsSound(b: Bytes, start: nat, p: nat)
    requires start <= p <= |b|
    requires forall i :: start <= i < p ==> b[i] >= 128
    requires p > start ==> b[start] != 0x80
    requires TagOctets(b, p, Radix.Value(128, Septets(b[start..p])), p - start).Ok?
    ensures var (v, q) := TagOctets(b, p, Radix.Value(128, Septets(b[start..p])), p - start).value;
            && p < q <= |b| && q - start <= 4
            && v == Radix.Value(128, Septets(b[start..q]))
            && (forall i :: start <= i < q - 1 ==> b[i] >= 128) && b[q - 1] < 128
            && b[start] != 0x80
    decreases |b| - p
  {
    hide Septets, Radix.Value;
    SeptetsStep(b, start, p);
    if b[p] >= 128 {
      TagOctetsSound(b, start, p + 1);
    }
  }

  /** Octets flagged up to the last, and not starting with an empty digit, are the writer's octets of
      their value. */
  lemma SubidentifierIsFlagged(s: Bytes)
    requires s != [] && s[0] != 0x80
    requires (forall i :: 0 <= i < |s| - 1 ==> s[i] >= 128) && s[|s| - 1] < 128
    ensures s == Flagged(SeptetDigits(Radix.Value(128, Septets(s))))
  {
    var ds := Septets(s);
    if |s| == 1 {
      assert ds == [] + [ds[0]];
      Radix.ValueSnoc(128, [], ds[0]);
      Radix.NoDigits(128);
    }
    if |s| > 1 || ds[0] != 0 {
      Radix.DigitsOfValue(128, ds);
    }
    assert Flagged(ds) == s;
  }

  lemma TagOctetsAreFlagged(s: Bytes)
    requires 0 < |s| <= 4 && s[0] != 0x80
    requires (forall i :: 0 <= i < |s| - 1 ==> s[i] >= 128) && s[|s| - 1] < 128
    ensures var tag := Radix.Value(128, Septets(s)); tag < TAG_LIMIT && s == Flagged(SeptetDigits(tag))
  {
    SubidentifierIsFlagged(s);
    SeptetLimit();
    Radix.ValueBelow(128, Septets(s));
    PowMonotone(128, |s|, 4);
  }

  lemma TagSound(b: Bytes, offset: nat)
    requires offset < |b| && TagAt(b, offset).Ok?
    ensures var (tag, p) := TagAt(b, offset).value;
            && tag < TAG_LIMIT
            && b[offset..p] == TagBytes(ClassBits(b[offset]), ConstructedBit(b[offset]), tag)
  {
    var (tag, p) := TagAt(b, offset).value;
    hide ClassBits, ConstructedBit, TagBits, Identifier, Flagged, Radix.Value, SevenBits, TagOctets;
    FieldsIdentify(b[offset]);
    Radix.NoDigits(128);
    if TagBits(b[offset]) == 31 {
      assert Septets(b[offset + 1..offset + 1]) == [];
      TagOctetsSound(b, offset + 1, offset + 1);
      var s := b[offset + 1..p];
      TagOctetsAreFlagged(s);
      assert b[offset..p] == [b[offset]] + s;
    }
  }

  lemma LengthSound(b: Bytes, p: nat)
    requires LengthAt(b, p).Ok?
    ensures var (len, q) := LengthAt(b, p).value; len < LENGTH_LIMIT && b[p..q] == LengthBytes(len)
  {
    var (len, q) := LengthAt(b, p).value;
    if b[p] > 0x80 {
      var ds := b[p + 1..q];
      SeptetLimit();
      Radix.ValueBelow(256, ds);
      PowMonotone(256, |ds|, 4);
      if ds[0] == 0 {
        LeadingZero(ds);
        assert false;
      }
      Radix.DigitsOfValue(256, ds);
      if |ds| > 1 {
        Radix.ValueAtLeast(256, ds);
        PowMonotone(256, 1, |ds| - 1);
      }
      assert b[p..q] == [b[p]] + ds;
    }
  }

  /** A leading zero octet makes a length smaller than its octet count announces. */
  lemma LeadingZero(ds: Bytes)
    requires ds != [] && ds[0] == 0
    ensures Radix.Value(256, ds) < Radix.Pow(256, |ds| - 1)
  {
    assert ds == [0] + ds[1..];
    Radix.ValueConcat(256, [0], ds[1..]);
    assert Radix.Value(256, [0]) == 0 by { Radix.ValueSnoc(256, [], 0); assert [] + [0] == [0 as nat]; }
    Radix.ValueBelow(256, ds[1..]);
  }

  /** Whatever the reader accepts is the writer's encoding of the result. */
  lemma AcceptedIsWritten(b: Bytes, offset: nat)
    requires TlvAt(b, offset).Ok?
    ensures var (t, end) := TlvAt(b, offset).value;
            WellFormed(t) && offset < end <= |b| && b[offset..end] == t.raw
  {
    hide TagAt, LengthAt, TagBytes, LengthBytes, ClassBits, ConstructedBit;
    var (tag, p) := TagAt(b, offset).value;
    TagSound(b, offset);
    var (len, q) := LengthAt(b, p).value;
    LengthSound(b, p);
    assert b[offset..q + len] == b[offset..p] + b[p..q] + b[q..q + len];
  }

  /** The reader accepts a buffer position exactly when some writable element is encoded there. */
  lemma AcceptsExactlyEncodings(b: Bytes, offset: nat)
    ensures TlvAt(b, offset).Ok? <==>
            exists t: Tlv :: WellFormed(t) && offset + |t.raw| <= |b| && b[offset..offset + |t.raw|] == t.raw
  {
    if TlvAt(b, offset).Ok? {
      AcceptedIsWritten(b, offset);
      var (t, end) := TlvAt(b, offset).value;
      assert b[offset..offset + |t.raw|] == t.raw;
    }
    forall t: Tlv | WellFormed(t) && offset + |t.raw| <= |b| && b[offset..offset + |t.raw|] == t.raw
      ensures TlvAt(b, offset).Ok?
    {
      ReadsWhatWasWritten(b, offset, t.cls, t.constructed, t.tag, t.content);
    }
  }

  /** No encoding is a proper prefix of another, and equal encodings are encodings of equal elements. */
  lemma EncodingsArePrefixFree(s: Tlv, t: Tlv)
    requires WellFormed(s) && WellFormed(t) && s.raw <= t.raw
    ensures s == t
  {
    ReadsWhatWasWritten(t.raw, 0, s.cls, s.constructed, s.tag, s.content);
    ReadsWhatWasWritten(t.raw, 0, t.cls, t.constructed, t.tag, t.content);
  }

  // ---- lists of elements --------------------------------------------------------------------

  function Concatenated(ts: seq<Tlv>): Bytes {
    if ts == [] then [] else ts[0].raw + Concatenated(ts[1..])
  }

  /** The children of accepted content concatenate back to it. */
  lemma {:induction false} ElementsConcatenate(b: Bytes, p: nat)
    requires p <= |b| && ElementsFrom(b, p).Ok?
    ensures var ts := ElementsFrom(b, p).value;
            Concatenated(ts) == b[p..] && forall i :: 0 <= i < |ts| ==> WellFormed(ts[i])
    decreases |b| - p
  {
    hide TagBytes, LengthBytes, TlvAt;
    if p < |b| {
      AcceptedIsWritten(b, p);
      var (t, next) := TlvAt(b, p).value;
      ElementsConcatenate(b, next);
      var ts := ElementsFrom(b, p).value;
      assert ts[1..] == ElementsFrom(b, next).value;
      assert b[p..] == b[p..next] + b[next..];
    }
  }

  /** A concatenation of encodings splits into exactly the elements it was made of. */
  lemma {:induction false} ElementsOfConcatenation(b: Bytes, p: nat, ts: seq<Tlv>)
    requires p <= |b| && b[p..] == Concatenated(ts)
    requires forall i :: 0 <= i < |ts| ==> WellFormed(ts[i])
    ensures ElementsFrom(b, p) == Ok(ts)
    decreases |ts|
  {
    hide TagBytes, LengthBytes, TlvAt;
    if ts != [] {
      var t := ts[0];
      var next := p + |t.raw|;
      AtSlice(b, p, Concatenated(ts));
      AtSplit(b, p, t.raw, Concatenated(ts[1..]));
      AtSlice(b, p, t.raw);
      AtSlice(b, next, Concatenated(ts[1..]));
      ReadsWhatWasWritten(b, p, t.cls, t.constructed, t.tag, t.content);
      ElementsOfConcatenation(b, next, ts[1..]);
      assert ts == [t] + ts[1..];
    }
  }

  /** Content splits into children in exactly one way, or in none. */
  lemma ChildrenAreTheUniqueSplit(b: Bytes, ts: seq<Tlv>)
    ensures ElementsFrom(b, 0) == Ok(ts) <==>
            Concatenated(ts) == b && forall i :: 0 <= i < |ts| ==> WellFormed(ts[i])
  {
    assert b[0..] == b;
    if ElementsFrom(b, 0) == Ok(ts) {
      ElementsConcatenate(b, 0);
    }
    if Concatenated(ts) == b && forall i :: 0 <= i < |ts| ==> WellFormed(ts[i]) {
      ElementsOfConcatenation(b, 0, ts);
    }
  }
}
