/** OBJECT IDENTIFIER content (der.ts): accepted content and dotted strings correspond one to one. */
module Oid {
  import opened Common
  import opened Der
  import opened DerWriter
  import opened DerBijection
  import Radix
  import Text

  /** The subidentifiers from octet i on; v is what the current one has accumulated. */
  function Subidentifiers(c: Bytes, i: nat, v: nat, inside: bool): Result<seq<nat>, DerError>
    requires i <= |c|
    decreases |c| - i
  {
    if i == |c| then (if inside then Err(TruncatedOid) else Ok([]))
    else if !inside && c[i] == 0x80 then Err(NonMinimalOid)
    else
      var next := v * 128 + SevenBits(c[i]);
      if c[i] >= 0x80 then Subidentifiers(c, i + 1, next, true)
      else
        var rest :- Subidentifiers(c, i + 1, 0, false);
        Ok([next] + rest)
  }

  /** The first subidentifier carries two arcs. */
  function FirstArcs(v: nat): seq<string> {
    if v < 40 then ["0", Text.Numeral(10, v)]
    else if v < 80 then ["1", Text.Numeral(10, v - 40)]
    else ["2", Text.Numeral(10, v - 80)]
  }

  function Numerals(vs: seq<nat>): seq<string> {
    seq(|vs|, i requires 0 <= i < |vs| => Text.Numeral(10, vs[i]))
  }

  function Arcs(vs: seq<nat>): seq<string> {
    if vs == [] then [] else FirstArcs(vs[0]) + Numerals(vs[1..])
  }

  function ContentText(c: Bytes): Result<string, DerError> {
    if c == [] then Err(EmptyOid)
    else
      var vs :- Subidentifiers(c, 0, 0, false);
      Ok(Text.Join(Arcs(vs), '.'))
  }

  function OidOf(t: Tlv): Result<string, DerError> {
    if !Is(t, OID, false) then Err(UnexpectedType) else ContentText(t.content)
  }

  /** Subidentifiers already read, put before the outcome of reading the rest. */
  function After(done: seq<nat>, rest: Result<seq<nat>, DerError>): Result<seq<nat>, DerError> {
    if rest.Ok? then Ok(done + rest.value) else rest
  }

  lemma AfterOne(done: seq<nat>, v: nat, rest: Result<seq<nat>, DerError>)
    ensures After(done, After([v], rest)) == After(done + [v], rest)
  {
    if rest.Ok? {
      assert done + ([v] + rest.value) == done + [v] + rest.value;
    }
  }

  lemma NoArcs()
    ensures Arcs([]) == []
  {
  }

  lemma ArcsGrow(vs: seq<nat>, v: nat)
    ensures Arcs(vs + [v]) == if vs == [] then FirstArcs(v) else Arcs(vs) + [Text.Numeral(10, v)]
  {
    if vs == [] {
      assert Numerals([]) == [];
    } else {
      assert (vs + [v])[1..] == vs[1..] + [v];
      assert Numerals(vs[1..] + [v]) == Numerals(vs[1..]) + [Text.Numeral(10, v)];
    }
  }

  /** One octet more. */
  lemma OneOctet(c: Bytes, i: nat, v: nat, inside: bool)
    requires i < |c|
    ensures Subidentifiers(c, i, v, inside) ==
            if !inside && c[i] == 0x80 then Err(NonMinimalOid)
            else if c[i] >= 0x80 then Subidentifiers(c, i + 1, v * 128 + SevenBits(c[i]), true)
            else After([v * 128 + SevenBits(c[i])], Subidentifiers(c, i + 1, 0, false))
  {
    hide SevenBits;
  }

  lemma NoOctetLeft(c: Bytes, v: nat, inside: bool)
    ensures Subidentifiers(c, |c|, v, inside) == if inside then Err(TruncatedOid) else Ok([])
  {
  }

  method OidValue(t: Tlv) returns (r: Result<string, DerError>)
    ensures r == OidOf(t)
  {
    hide Subidentifiers, SevenBits, Text.Numeral, Text.Join, Arcs;
    if !Is(t, OID, false) { return Err(UnexpectedType); }
    var c := t.content;
    if |c| == 0 { return Err(EmptyOid); }
    var parts: seq<string> := [];
    var v: nat := 0;
    var first := true;
    var inSub := false;
    ghost var done: seq<nat> := [];
    ghost var all := Subidentifiers(c, 0, 0, false);
    assert all.Ok? ==> [] + all.value == all.value;
    NoArcs();
    for i := 0 to |c|
      invariant all == After(done, Subidentifiers(c, i, v, inSub))
      invariant parts == Arcs(done) && first == (done == [])
      invariant !inSub ==> v == 0
    {
      var o := c[i];
      OneOctet(c, i, v, inSub);
      if !inSub && o == 0x80 { return Err(NonMinimalOid); }
      v := v * 128 + SevenBits(o);
      inSub := o >= 0x80;
      if !inSub {
        AfterOne(done, v, Subidentifiers(c, i + 1, 0, false));
        ArcsGrow(done, v);
        done := done + [v];
        if first {
          first := false;
          if v < 40 { parts := parts + ["0", Text.Numeral(10, v)]; }
          else if v < 80 { parts := parts + ["1", Text.Numeral(10, v - 40)]; }
          else { parts := parts + ["2", Text.Numeral(10, v - 80)]; }
        } else {
          parts := parts + [Text.Numeral(10, v)];
        }
        v := 0;
      }
    }
    NoOctetLeft(c, v, inSub);
    if inSub { return Err(TruncatedOid); }
    assert done + [] == done;
    r := Ok(Text.Join(parts, '.'));
  }

  // ---- accepted content is the writer's ------------------------------------------------------

  /** The octets of a list of subidentifiers. */
  function Flattened(vs: seq<nat>): Bytes {
    if vs == [] then [] else Flagged(SeptetDigits(vs[0])) + Flattened(vs[1..])
  }

  lemma FlattenOne(v: nat, rest: seq<nat>)
    ensures Flattened([v] + rest) == Flagged(SeptetDigits(v)) + Flattened(rest)
  {
    assert ([v] + rest)[1..] == rest;
  }

  /** The octets c[start..i] continue a subidentifier whose digits so far make v. */
  ghost predicate Continues(c: Bytes, start: nat, i: nat, v: nat) {
    && start <= i <= |c|
    && (forall k :: start <= k < i ==> c[k] >= 0x80)
    && (i > start ==> c[start] != 0x80)
    && v == Radix.Value(128, Septets(c[start..i]))
  }

  /** The octets from start on are the encoding of vs. */
  ghost predicate Encodes(c: Bytes, start: nat, vs: seq<nat>) {
    start <= |c| && Flattened(vs) == c[start..]
  }

  lemma ContinuesStep(c: Bytes, start: nat, i: nat, v: nat)
    requires Continues(c, start, i, v) && i < |c| && (i > start || c[i] != 0x80)
    ensures c[i] >= 0x80 ==> Continues(c, start, i + 1, v * 128 + SevenBits(c[i]))
  {
    SeptetsStep(c, start, i);
  }

  /** The octets c[start..i + 1] are one subidentifier; prepend it to the rest. */
  lemma SubidentifierEnds(c: Bytes, start: nat, i: nat, v: nat, rest: seq<nat>)
    requires Continues(c, start, i, v) && i < |c| && (i > start || c[i] != 0x80) && c[i] < 0x80
    requires Encodes(c, i + 1, rest)
    ensures Encodes(c, start, [v * 128 + SevenBits(c[i])] + rest)
  {
    hide Flattened, Flagged, SeptetDigits, Septets, Radix.Value, SevenBits;
    SeptetsStep(c, start, i);
    var s := c[start..i + 1];
    SubidentifierIsFlagged(s);
    FlattenOne(Radix.Value(128, Septets(s)), rest);
    assert c[start..] == s + c[i + 1..];
  }

  lemma SubidentifierStep(c: Bytes, i: nat, v: nat, inside: bool)
    requires i < |c| && Subidentifiers(c, i, v, inside).Ok?
    ensures inside || c[i] != 0x80
    ensures c[i] < 0x80 ==> Subidentifiers(c, i + 1, 0, false).Ok?
    ensures var next := v * 128 + SevenBits(c[i]);
            if c[i] >= 0x80 then Subidentifiers(c, i, v, inside) == Subidentifiers(c, i + 1, next, true)
            else Subidentifiers(c, i, v, inside) == After([next], Subidentifiers(c, i + 1, 0, false))
  {
  }

  lemma {:induction false} SubidentifiersSound(c: Bytes, start: nat, i: nat, v: nat, inside: bool)
    requires Continues(c, start, i, v) && inside == (i > start)
    requires Subidentifiers(c, i, v, inside).Ok?
    ensures Encodes(c, start, Subidentifiers(c, i, v, inside).value)
    decreases |c| - i
  {
    hide SevenBits, Subidentifiers, Continues, Encodes, Radix.Value, Septets;
    ContinuesWithin(c, start, i, v);
    if i == |c| {
      ContentEnds(c, start, v, inside);
    } else {
      SubidentifierStep(c, i, v, inside);
      ContinuesStep(c, start, i, v);
      if c[i] >= 0x80 {
        SubidentifiersSound(c, start, i + 1, v * 128 + SevenBits(c[i]), true);
      } else {
        NoSeptets(c, i + 1);
        SubidentifiersSound(c, i + 1, i + 1, 0, false);
        SubidentifierEnds(c, start, i, v, Subidentifiers(c, i + 1, 0, false).value);
      }
    }
  }

  lemma ContinuesWithin(c: Bytes, start: nat, i: nat, v: nat)
    requires Continues(c, start, i, v)
    ensures start <= i <= |c|
  {
  }

  lemma ContentEnds(c: Bytes, start: nat, v: nat, inside: bool)
    requires start <= |c| && inside == (|c| > start) && Subidentifiers(c, |c|, v, inside).Ok?
    ensures Encodes(c, start, Subidentifiers(c, |c|, v, inside).value)
  {
  }

  lemma NoSeptets(c: Bytes, i: nat)
    requires i <= |c|
    ensures Continues(c, i, i, 0)
  {
    assert Septets(c[i..i]) == [];
  }

  lemma AcceptedContent(c: Bytes)
    requires ContentText(c).Ok?
    ensures var vs := Subidentifiers(c, 0, 0, false).value; vs != [] && Flattened(vs) == c
  {
    NoSeptets(c, 0);
    SubidentifiersSound(c, 0, 0, 0, false);
    assert c[0..] == c;
  }

  /** Reading one flagged subidentifier from its k-th octet on. */
  lemma {:induction false} SubidentifierRead(c: Bytes, p: nat, ds: seq<nat>, k: nat)
    requires Radix.AreDigits(128, ds) && k < |ds| && (|ds| > 1 ==> ds[0] != 0) && At(c, p, Flagged(ds))
    ensures Subidentifiers(c, p + k, Radix.Value(128, ds[..k]), k > 0)
         == After([Radix.Value(128, ds)], Subidentifiers(c, p + |ds|, 0, false))
    decreases |ds| - k
  {
    assert c[p + k] == Flagged(ds)[k];
    assert ds[..k + 1][..k] == ds[..k];
    if k + 1 < |ds| {
      SubidentifierRead(c, p, ds, k + 1);
    } else {
      assert ds[..k + 1] == ds;
    }
  }

  lemma NoDigitsYet()
    ensures Radix.Value(128, []) == 0
  {
  }

  lemma FirstRead(c: Bytes, p: nat, vs: seq<nat>)
    requires Encodes(c, p, vs) && vs != []
    ensures var next := p + |SeptetDigits(vs[0])|;
            && Encodes(c, next, vs[1..])
            && Subidentifiers(c, p, 0, false) == After([vs[0]], Subidentifiers(c, next, 0, false))
  {
    hide At, Encodes, Flagged, SevenBits, Radix.Value, Subidentifiers;
    var ds := SeptetDigits(vs[0]);
    hide SeptetDigits;
    FirstEncoded(c, p, vs);
    assert ds[..0] == [];
    NoDigitsYet();
    SubidentifierRead(c, p, ds, 0);
  }

  /** The first subidentifier stands at p, the others after it. */
  lemma FirstEncoded(c: Bytes, p: nat, vs: seq<nat>)
    requires Encodes(c, p, vs) && vs != []
    ensures var ds := SeptetDigits(vs[0]); At(c, p, Flagged(ds)) && Encodes(c, p + |ds|, vs[1..])
  {
    var ds, tail := SeptetDigits(vs[0]), Flattened(vs[1..]);
    hide Flagged, SeptetDigits;
    AtSlice(c, p, Flagged(ds) + tail);
    AtSplit(c, p, Flagged(ds), tail);
    AtSlice(c, p + |ds|, tail);
  }

  lemma NothingLeft(c: Bytes, p: nat)
    requires Encodes(c, p, [])
    ensures Subidentifiers(c, p, 0, false) == Ok([])
  {
  }

  lemma EncodesInside(c: Bytes, p: nat, vs: seq<nat>)
    requires Encodes(c, p, vs)
    ensures p <= |c|
  {
  }

  lemma {:induction false} FlattenedRead(c: Bytes, p: nat, vs: seq<nat>)
    requires Encodes(c, p, vs)
    ensures p <= |c| && Subidentifiers(c, p, 0, false) == Ok(vs)
    decreases |vs|
  {
    hide Encodes, SeptetDigits, Subidentifiers, Radix.Value, Radix.Digits;
    EncodesInside(c, p, vs);
    if vs == [] {
      NothingLeft(c, p);
    } else {
      FirstRead(c, p, vs);
      FlattenedRead(c, p + |SeptetDigits(vs[0])|, vs[1..]);
      assert [vs[0]] + vs[1..] == vs;
    }
  }

  /** Content is accepted exactly when it is the encoding of some nonempty list of subidentifiers. */
  lemma AcceptsExactlySubidentifierLists(c: Bytes)
    ensures ContentText(c).Ok? <==> exists vs :: vs != [] && Flattened(vs) == c
  {
    if ContentText(c).Ok? {
      AcceptedContent(c);
    }
    forall vs | vs != [] && Flattened(vs) == c ensures ContentText(c).Ok? {
      assert c[0..] == c;
      FlattenedRead(c, 0, vs);
    }
  }

  // ---- the dotted string determines the content ----------------------------------------------

  lemma ArcsDetermine(vs: seq<nat>, ws: seq<nat>)
    requires vs != [] && ws != [] && Arcs(vs) == Arcs(ws)
    ensures vs == ws
  {
    hide Arcs, Text.Numeral;
    ArcsAre(vs, 0);
    ArcsAre(ws, 0);
    FirstArcsDetermine(vs[0], ws[0]);
    forall i | 0 <= i < |vs| ensures vs[i] == ws[i] {
      if i > 0 {
        ArcsAre(vs, i);
        ArcsAre(ws, i);
        Text.NumeralInjective(10, vs[i], ws[i]);
      }
    }
  }

  lemma ArcsAre(vs: seq<nat>, i: nat)
    requires i < |vs|
    ensures |Arcs(vs)| == |vs| + 1
    ensures [Arcs(vs)[0], Arcs(vs)[1]] == FirstArcs(vs[0])
    ensures i > 0 ==> Arcs(vs)[i + 1] == Text.Numeral(10, vs[i])
  {
    hide Text.Numeral;
    assert i > 0 ==> Arcs(vs)[i + 1] == Numerals(vs[1..])[i - 1];
  }

  lemma FirstArcsDetermine(v: nat, w: nat)
    requires FirstArcs(v) == FirstArcs(w)
    ensures v == w
  {
    hide Text.Numeral;
    assert FirstArcs(v)[0] == FirstArcs(w)[0] && FirstArcs(v)[1] == FirstArcs(w)[1];
    assert "0"[0] != "1"[0] && "1"[0] != "2"[0] && "0"[0] != "2"[0];
    var k := if v < 40 then 0 else if v < 80 then 40 else 80;
    Text.NumeralInjective(10, v - k, w - k);
  }

  lemma ArcsAreFree(vs: seq<nat>)
    ensures forall i :: 0 <= i < |Arcs(vs)| ==> Text.Free(Arcs(vs)[i], '.') && Text.Free(Arcs(vs)[i], '=')
    ensures vs != [] ==> Arcs(vs) != []
  {
  }

  /** Two accepted contents with the same dotted string are the same octets. */
  lemma OidInjective(c: Bytes, d: Bytes)
    requires ContentText(c).Ok? && ContentText(c) == ContentText(d)
    ensures c == d
  {
    hide Arcs, Flattened, Subidentifiers, Text.Join, Text.Split;
    AcceptedContent(c);
    AcceptedContent(d);
    ArcsAreFree(Subidentifiers(c, 0, 0, false).value);
    ArcsAreFree(Subidentifiers(d, 0, 0, false).value);
    var vs := Subidentifiers(c, 0, 0, false).value;
    var ws := Subidentifiers(d, 0, 0, false).value;
    Text.SplitOfJoin(Arcs(vs), '.');
    Text.SplitOfJoin(Arcs(ws), '.');
    ArcsDetermine(vs, ws);
  }

  /** A dotted string has no equals sign. */
  lemma NoEqualsSign(c: Bytes)
    requires ContentText(c).Ok?
    ensures Text.Free(ContentText(c).value, '=')
  {
    AcceptedContent(c);
    ArcsAreFree(Subidentifiers(c, 0, 0, false).value);
    JoinFree(Arcs(Subidentifiers(c, 0, 0, false).value));
  }

  lemma {:induction false} JoinFree(parts: seq<string>)
    requires forall i :: 0 <= i < |parts| ==> Text.Free(parts[i], '=')
    ensures Text.Free(Text.Join(parts, '.'), '=')
  {
    if |parts| > 1 {
      JoinFree(parts[1..]);
    }
  }
}

/** The writer of identifiers (oid in server/test/corpus/der-writer.ts), which the reader is inverse to.
    Identifiers are lists of arcs here; taking the dotted text apart and its decimals are left out. */
module OidWriter {
  import opened Common
  import opened Der
  import opened DerWriter
  import opened DerBijection
  import opened Oid
  import Radix
  import Text

  /** The first two arcs: three roots, and below two of them only forty arcs (X.690, section 8.19.4). */
  predicate Begins(a: nat, b: nat) {
    a <= 2 && (a < 2 ==> b < 40)
  }

  /** The octets of an identifier: the first two arcs share a subidentifier. */
  function ContentOf(a: nat, b: nat, rest: seq<nat>): Bytes {
    Flattened([40 * a + b] + rest)
  }

  /** The arcs as text. */
  function Dotted(arcs: seq<nat>): string {
    Text.Join(seq(|arcs|, i requires 0 <= i < |arcs| => Text.Numeral(10, arcs[i])), '.')
  }

  lemma RootNumerals()
    ensures Text.Numeral(10, 0) == "0" && Text.Numeral(10, 1) == "1" && Text.Numeral(10, 2) == "2"
  {
    assert Radix.Digits(10, 0) == [];
    assert Radix.Digits(10, 1) == [1] && Radix.Digits(10, 2) == [2];
  }

  lemma FirstTwo(a: nat, b: nat)
    requires Begins(a, b)
    ensures FirstArcs(40 * a + b) == [Text.Numeral(10, a), Text.Numeral(10, b)]
  {
    hide Text.Numeral;
    RootNumerals();
  }

  lemma ArcsOf(a: nat, b: nat, rest: seq<nat>)
    requires Begins(a, b)
    ensures var arcs := [a, b] + rest;
            Arcs([40 * a + b] + rest) == seq(|arcs|, i requires 0 <= i < |arcs| => Text.Numeral(10, arcs[i]))
  {
    hide Text.Numeral, FirstArcs, Begins;
    FirstTwo(a, b);
    var arcs := [a, b] + rest;
    assert ([40 * a + b] + rest)[1..] == rest;
    assert FirstArcs(40 * a + b) + Numerals(rest) == seq(|arcs|, i requires 0 <= i < |arcs| => Text.Numeral(10, arcs[i]));
  }

  /** Any identifier is read back as its arcs, in decimal and with points between them. */
  lemma ArcsRead(a: nat, b: nat, rest: seq<nat>)
    requires Begins(a, b)
    ensures ContentText(ContentOf(a, b, rest)) == Ok(Dotted([a, b] + rest))
  {
    hide Arcs, Subidentifiers, Flattened, Text.Join, Text.Numeral;
    var vs := [40 * a + b] + rest;
    var c := Flattened(vs);
    NotEmpty(vs);
    assert c[0..] == c;
    FlattenedRead(c, 0, vs);
    ArcsOf(a, b, rest);
  }

  lemma NotEmpty(vs: seq<nat>)
    requires vs != []
    ensures Flattened(vs) != []
  {
  }

  /** What an identifier's content and text are, arc by arc. */
  ghost predicate Writes(a: nat, b: nat, rest: seq<nat>, c: Bytes, s: string) {
    Begins(a, b) && c == ContentOf(a, b, rest) && s == Dotted([a, b] + rest)
  }

  /** The reader accepts exactly the identifiers, each as the text of its arcs. */
  lemma ReadsExactlyIdentifiers(c: Bytes, s: string)
    ensures ContentText(c) == Ok(s) <==> exists a, b, rest :: Writes(a, b, rest, c, s)
  {
    hide Subidentifiers, Flattened, Dotted, Text.Join, Arcs;
    if ContentText(c) == Ok(s) {
      AcceptedContent(c);
      var vs := Subidentifiers(c, 0, 0, false).value;
      var v := vs[0];
      var a: nat := if v < 40 then 0 else if v < 80 then 1 else 2;
      assert vs == [40 * a + (v - 40 * a)] + vs[1..];
      ArcsRead(a, v - 40 * a, vs[1..]);
      assert Writes(a, v - 40 * a, vs[1..], c, s);
    }
    forall a, b, rest | Writes(a, b, rest, c, s) ensures ContentText(c) == Ok(s) {
      ArcsRead(a, b, rest);
    }
  }

  // ---- the writer -------------------------------------------------------------------------------

  lemma {:induction false} FlattenedLast(vs: seq<nat>, v: nat)
    ensures Flattened(vs + [v]) == Flattened(vs) + Flagged(SeptetDigits(v))
  {
    hide Flagged, SeptetDigits, Radix.Value, Radix.Digits;
    if vs == [] {
      assert vs + [v] == [v] && [v][1..] == [];
    } else {
      FlattenedLast(vs[1..], v);
      assert (vs + [v])[1..] == vs[1..] + [v];
    }
  }

  /** One arc; the shifts of the source work on 32-bit integers. */
  method WriteArc(p: nat) returns (enc: Bytes)
    requires p < 0x8000_0000
    ensures enc == Flagged(SeptetDigits(p))
  {
    hide Flagged, Radix.Digits, Radix.Value;
    FlaggedOne(p % 128);
    enc := [p % 128];
    var v := p / 128;
    ghost var ds: seq<nat> := [p % 128];
    SeptetsSplit(p);
    while v > 0
      invariant forall i :: 0 <= i < |ds| ==> ds[i] < 128
      invariant ds != [] && enc == Flagged(ds)
      invariant SeptetDigits(p) == (if v > 0 then Radix.Digits(128, v) else []) + ds
    {
      DigitsSplit(128, v, ds);
      FlaggedPrepend(v % 128, ds);
      Radix.NoDigits(128);
      assert [] + ([v % 128] + ds) == [v % 128] + ds;
      ds := [v % 128] + ds;
      enc := [128 + v % 128] + enc;
      v := v / 128;
    }
    assert [] + ds == ds;
  }

  lemma SeptetsSplit(p: nat)
    ensures SeptetDigits(p) == (if p / 128 > 0 then Radix.Digits(128, p / 128) else []) + [p % 128]
  {
    hide Radix.Digits, Radix.Value;
    Radix.NoDigits(128);
    if p > 0 { Radix.DigitsSnoc(128, p); }
  }

  /** The first two arcs go into one octet, whatever their subidentifier needs. */
  method WriteOid(a: nat, b: nat, rest: seq<nat>) returns (content: Bytes)
    requires forall i :: 0 <= i < |rest| ==> rest[i] < 0x8000_0000
    ensures content == [(40 * a + b) % 256] + Flattened(rest)
  {
    hide Flattened, Flagged, SeptetDigits;
    NothingFlattened();
    content := [(a * 40 + b) % 256];
    for i := 0 to |rest|
      invariant content == [(40 * a + b) % 256] + Flattened(rest[..i])
    {
      var enc := WriteArc(rest[i]);
      FlattenedLast(rest[..i], rest[i]);
      assert rest[..i + 1] == rest[..i] + [rest[i]];
      content := content + enc;
    }
    assert rest[..|rest|] == rest;
  }

  lemma NothingFlattened()
    ensures Flattened([]) == []
  {
  }

  /** It writes an identifier correctly exactly when the first subidentifier is below 128, so under the
      root 2 only for second arcs up to 47. */
  lemma WriterIsExactBelow128(a: nat, b: nat, rest: seq<nat>)
    ensures [(40 * a + b) % 256] + Flattened(rest) == ContentOf(a, b, rest) <==> 40 * a + b < 128
  {
    hide Flattened, SeptetDigits, Flagged;
    var v := 40 * a + b;
    FlattenOne(v, rest);
    OneSeptet(v);
    SameFront([v % 256], Flagged(SeptetDigits(v)), Flattened(rest));
    if v < 128 { FlaggedOne(v); }
  }

  lemma SameFront(x: Bytes, y: Bytes, rest: Bytes)
    ensures x + rest == y + rest <==> x == y
  {
    if x + rest == y + rest {
      assert |x| == |y|;
      assert (x + rest)[..|x|] == x && (y + rest)[..|y|] == y;
    }
  }

  lemma OneSeptet(v: nat)
    ensures if v < 128 then SeptetDigits(v) == [v] else |SeptetDigits(v)| >= 2
  {
    SeptetsSplit(v);
    hide Radix.Digits, SeptetDigits;
    if v >= 128 { SomeDigits(v / 128); }
  }

  lemma SomeDigits(v: nat)
    requires v > 0
    ensures Radix.Digits(128, v) != []
  {
  }
}
