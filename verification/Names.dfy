/** Distinguished names (server/src/verifier/x509.ts): reading them and comparing them. */
module Names {
  import opened Common
  import opened Der
  import opened DerBijection
  import ByteStrings
  import Oid
  import Text

  const IA5_STRING := 22
  const T61_STRING := 20
  const BMP_STRING := 30
  const UNIVERSAL_STRING := 28

  const COMMON_NAME := "2.5.4.3"
  const ORGANIZATION := "2.5.4.10"
  const SERIAL_NUMBER := "2.5.4.5"

  const CANONICAL_STRING_TYPES: set<string> := {
    "2.5.4.3", "2.5.4.6", "2.5.4.7", "2.5.4.8", "2.5.4.10", "2.5.4.11", "2.5.4.9",
    "0.9.2342.19200300." + "100.1.25", "0.9.2342.19200300." + "100.1.1"
  }

  /** Text handling that stays abstract: decoding of UTF-8 and of the two wide string types (none when
      malformed), the canonical form of a text, and the parts of it that lookups use. */
  datatype Unicode = Unicode(
    utf8: Bytes -> Option<string>,
    wide: (nat, Bytes) -> Option<string>,
    canonical: string -> string,
    trim: string -> string,
    lower: string -> string)

  datatype Attribute = Attribute(oid: string, canonical: string, text: Option<string>)
  datatype Name = Name(der: Bytes, rdns: seq<seq<Attribute>>)

  function Latin1(b: Bytes): string {
    seq(|b|, i requires 0 <= i < |b| => b[i] as char)
  }

  function Decoded(text: Option<string>): Result<Option<string>, DerError> {
    if text.None? then Err(MalformedName) else Ok(text)
  }

  /** The text of a string element, none for any other element. */
  function DirectoryString(u: Unicode, t: Tlv): Result<Option<string>, DerError> {
    if t.cls != UNIVERSAL || t.constructed then Ok(None)
    else if t.tag == UTF8_STRING then Decoded(u.utf8(t.content))
    else if t.tag == PRINTABLE_STRING || t.tag == IA5_STRING || t.tag == T61_STRING then Ok(Some(Latin1(t.content)))
    else if t.tag == BMP_STRING || t.tag == UNIVERSAL_STRING then Decoded(u.wide(t.tag, t.content))
    else Ok(None)
  }

  function CanonicalValue(u: Unicode, oid: string, value: Tlv, text: Option<string>): string {
    if text.Some? && oid in CANONICAL_STRING_TYPES && (IsUniversal(value, PRINTABLE_STRING) || IsUniversal(value, UTF8_STRING))
    then u.canonical(text.value) else "#" + ByteStrings.HexOf(value.raw)
  }

  function AttributeOf(u: Unicode, atv: Tlv): Result<Attribute, DerError> {
    var items :- SequenceItems(atv);
    if |items| != 2 then Err(MalformedName)
    else
      var oid :- Oid.OidOf(items[0]);
      var text :- DirectoryString(u, items[1]);
      Ok(Attribute(oid, CanonicalValue(u, oid, items[1], text), text))
  }

  function AttributesOf(u: Unicode, atvs: seq<Tlv>): (r: Result<seq<Attribute>, DerError>)
    ensures r.Ok? ==> |r.value| == |atvs|
    ensures r.Ok? ==> forall i :: 0 <= i < |atvs| ==> AttributeOf(u, atvs[i]) == Ok(r.value[i])
  {
    if atvs == [] then Ok([])
    else
      var first :- AttributeOf(u, atvs[0]);
      var rest :- AttributesOf(u, atvs[1..]);
      Ok([first] + rest)
  }

  function RdnOf(u: Unicode, rdn: Tlv): Result<seq<Attribute>, DerError> {
    var atvs :- SetItems(rdn);
    var attributes :- AttributesOf(u, atvs);
    if attributes == [] then Err(MalformedName) else Ok(attributes)
  }

  function RdnsOf(u: Unicode, rdns: seq<Tlv>): (r: Result<seq<seq<Attribute>>, DerError>)
    ensures r.Ok? ==> |r.value| == |rdns|
    ensures r.Ok? ==> forall i :: 0 <= i < |rdns| ==> RdnOf(u, rdns[i]) == Ok(r.value[i])
  {
    if rdns == [] then Ok([])
    else
      var first :- RdnOf(u, rdns[0]);
      var rest :- RdnsOf(u, rdns[1..]);
      Ok([first] + rest)
  }

  function ParseName(u: Unicode, t: Tlv): Result<Name, DerError> {
    var items :- SequenceItems(t);
    var rdns :- RdnsOf(u, items);
    Ok(Name(t.raw, rdns))
  }

  // ---- comparison -----------------------------------------------------------------------------

  function Key(a: Attribute): string {
    a.oid + "=" + a.canonical
  }

  function Keys(rdn: seq<Attribute>): (r: seq<string>)
    ensures |r| == |rdn| && forall i :: 0 <= i < |rdn| ==> r[i] == Key(rdn[i])
  {
    seq(|rdn|, i requires 0 <= i < |rdn| => Key(rdn[i]))
  }

  predicate SameKeys(x: seq<Attribute>, y: seq<Attribute>) {
    Text.Sort(Keys(x)) == Text.Sort(Keys(y))
  }

  predicate Equal(a: Name, b: Name) {
    || a.der == b.der
    || (|a.rdns| == |b.rdns| && forall i :: 0 <= i < |a.rdns| ==> SameKeys(a.rdns[i], b.rdns[i]))
  }

  method NamesEqual(a: Name, b: Name) returns (equal: bool)
    ensures equal == Equal(a, b)
  {
    var sameDer := ByteStrings.BytesEqual(a.der, b.der);
    if sameDer { return true; }
    if |a.rdns| != |b.rdns| { return false; }
    for i := 0 to |a.rdns|
      invariant forall k :: 0 <= k < i ==> SameKeys(a.rdns[k], b.rdns[k])
    {
      var x, y := Text.Sort(Keys(a.rdns[i])), Text.Sort(Keys(b.rdns[i]));
      if |x| != |y| { assert !SameKeys(a.rdns[i], b.rdns[i]); return false; }
      for j := 0 to |x|
        invariant x[..j] == y[..j]
      {
        if x[j] != y[j] { assert !SameKeys(a.rdns[i], b.rdns[i]); return false; }
        assert x[..j + 1] == x[..j] + [x[j]] && y[..j + 1] == y[..j] + [y[j]];
      }
      assert x == x[..|x|] && y == y[..|x|];
    }
    equal := true;
  }

  // ---- what the comparison means ----------------------------------------------------------------

  /** An attribute as X.501 would compare it: the octets of its type and its canonical value. */
  datatype TypedValue = TypedValue(oid: Bytes, canonical: string)

  function TypedValueOf(u: Unicode, atv: Tlv): TypedValue
    requires AttributeOf(u, atv).Ok?
  {
    TypedValue(SequenceItems(atv).value[0].content, AttributeOf(u, atv).value.canonical)
  }

  function TypedValues(u: Unicode, atvs: seq<Tlv>): (r: seq<TypedValue>)
    requires AttributesOf(u, atvs).Ok?
    ensures |r| == |atvs| && forall i :: 0 <= i < |atvs| ==> r[i] == TypedValueOf(u, atvs[i])
  {
    seq(|atvs|, i requires 0 <= i < |atvs| => TypedValueOf(u, atvs[i]))
  }

  /** The relative names of an accepted name, each as a multiset of typed values. */
  function Meaning(u: Unicode, t: Tlv): (r: seq<multiset<TypedValue>>)
    requires ParseName(u, t).Ok?
    ensures |r| == |SequenceItems(t).value|
  {
    var items := SequenceItems(t).value;
    seq(|items|, i requires 0 <= i < |items| => multiset(TypedValues(u, SetItems(items[i]).value)))
  }

  /** The key of an attribute determines its type and value: an identifier has no "=". */
  lemma KeyDetermines(u: Unicode, s: Tlv, t: Tlv)
    requires AttributeOf(u, s).Ok? && AttributeOf(u, t).Ok?
    ensures Key(AttributeOf(u, s).value) == Key(AttributeOf(u, t).value) <==> TypedValueOf(u, s) == TypedValueOf(u, t)
  {
    var a, b := AttributeOf(u, s).value, AttributeOf(u, t).value;
    var c, d := SequenceItems(s).value[0].content, SequenceItems(t).value[0].content;
    assert Oid.ContentText(c) == Ok(a.oid) && Oid.ContentText(d) == Ok(b.oid);
    hide AttributeOf, Oid.ContentText, SequenceItems;
    Oid.NoEqualsSign(c);
    Oid.NoEqualsSign(d);
    if Key(a) == Key(b) {
      PrefixUpToSeparator(a.oid, a.canonical, b.oid, b.canonical);
      Oid.OidInjective(c, d);
    }
  }

  /** What stands before the first separator, and after it. */
  lemma PrefixUpToSeparator(p: string, v: string, q: string, w: string)
    requires Text.Free(p, '=') && Text.Free(q, '=') && p + "=" + v == q + "=" + w
    ensures p == q && v == w
  {
    var s := p + "=" + v;
    FirstSeparator(p, v, |q|);
    FirstSeparator(q, w, |p|);
    assert s[..|p|] == p && s[..|q|] == q && s[|p| + 1..] == v && s[|q| + 1..] == w;
  }

  lemma FirstSeparator(p: string, v: string, k: nat)
    requires Text.Free(p, '=') && k < |p + "=" + v| && (p + "=" + v)[k] == '='
    ensures k >= |p|
  {
  }

  /** Two lists and their keys, when keys are equal exactly where elements are. */
  ghost predicate Keyed<A(!new), B(!new)>(xs: seq<A>, ys: seq<A>, xk: seq<B>, yk: seq<B>) {
    && |xs| == |xk| && |ys| == |yk|
    && forall i, j :: 0 <= i < |xs| && 0 <= j < |ys| ==> (xk[i] == yk[j] <==> xs[i] == ys[j])
  }

  function Drop<A>(s: seq<A>, j: nat): (r: seq<A>)
    requires j < |s|
    ensures |r| == |s| - 1 && multiset(s) == multiset(r) + multiset{s[j]}
    ensures forall i :: 0 <= i < |r| ==> r[i] == if i < j then s[i] else s[i + 1]
  {
    assert s == s[..j] + [s[j]] + s[j + 1..];
    s[..j] + s[j + 1..]
  }

  lemma KeyedWithout<A(!new), B(!new)>(xs: seq<A>, ys: seq<A>, xk: seq<B>, yk: seq<B>, i: nat, j: nat)
    requires Keyed(xs, ys, xk, yk) && i < |xs| && j < |ys|
    ensures Keyed(Drop(xs, i), Drop(ys, j), Drop(xk, i), Drop(yk, j))
  {
    forall a, b | 0 <= a < |xs| - 1 && 0 <= b < |ys| - 1
      ensures Drop(xk, i)[a] == Drop(yk, j)[b] <==> Drop(xs, i)[a] == Drop(ys, j)[b]
    {
      hide Drop;
      assert xk[if a < i then a else a + 1] == yk[if b < j then b else b + 1] <==>
             xs[if a < i then a else a + 1] == ys[if b < j then b else b + 1];
    }
  }

  /** An element equal to the first, and equal multisets without the two. */
  lemma FirstMatched<A(!new), B(!new)>(xs: seq<A>, ys: seq<A>, xk: seq<B>, yk: seq<B>) returns (j: nat)
    requires Keyed(xs, ys, xk, yk) && multiset(xs) == multiset(ys) && xs != []
    ensures j < |ys| && ys[j] == xs[0] && |xk| == |xs| && |yk| == |ys| && xk[0] == yk[j]
    ensures multiset(Drop(xs, 0)) == multiset(Drop(ys, j))
  {
    assert xs[0] in multiset(ys);
    j :| 0 <= j < |ys| && ys[j] == xs[0];
    hide Drop;
    assert multiset(Drop(xs, 0)) == multiset(xs) - multiset{xs[0]};
    assert multiset(Drop(ys, j)) == multiset(ys) - multiset{ys[j]};
  }

  /** Then equal multisets of elements have equal multisets of keys. */
  lemma {:induction false} KeysFollow<A(!new), B(!new)>(xs: seq<A>, ys: seq<A>, xk: seq<B>, yk: seq<B>)
    requires Keyed(xs, ys, xk, yk) && multiset(xs) == multiset(ys)
    ensures multiset(xk) == multiset(yk)
  {
    if xs == [] {
      assert |multiset(xs)| == |xs| && |multiset(ys)| == |ys|;
    } else {
      hide Keyed, Drop;
      var j := FirstMatched(xs, ys, xk, yk);
      KeyedWithout(xs, ys, xk, yk, 0, j);
      KeysFollow(Drop(xs, 0), Drop(ys, j), Drop(xk, 0), Drop(yk, j));
    }
  }

  lemma KeysDecide<A(!new), B(!new)>(xs: seq<A>, ys: seq<A>, xk: seq<B>, yk: seq<B>)
    requires Keyed(xs, ys, xk, yk)
    ensures multiset(xs) == multiset(ys) <==> multiset(xk) == multiset(yk)
  {
    if multiset(xs) == multiset(ys) { KeysFollow(xs, ys, xk, yk); }
    if multiset(xk) == multiset(yk) { KeysFollow(xk, yk, xs, ys); }
  }

  lemma SameKeysMeaning(u: Unicode, xs: seq<Tlv>, ys: seq<Tlv>)
    requires AttributesOf(u, xs).Ok? && AttributesOf(u, ys).Ok?
    ensures SameKeys(AttributesOf(u, xs).value, AttributesOf(u, ys).value) <==>
            multiset(TypedValues(u, xs)) == multiset(TypedValues(u, ys))
  {
    var x, y := AttributesOf(u, xs).value, AttributesOf(u, ys).value;
    forall i, j | 0 <= i < |xs| && 0 <= j < |ys|
      ensures Keys(x)[i] == Keys(y)[j] <==> TypedValues(u, xs)[i] == TypedValues(u, ys)[j]
    {
      assert AttributeOf(u, xs[i]) == Ok(x[i]) && AttributeOf(u, ys[j]) == Ok(y[j]);
      KeyDetermines(u, xs[i], ys[j]);
    }
    Text.SortDecidesMultisets(Keys(x), Keys(y));
    KeysDecide(TypedValues(u, xs), TypedValues(u, ys), Keys(x), Keys(y));
  }

  /** Two accepted names are equal exactly when they have, relative name by relative name, the same
      multiset of typed values. The comparison of the whole encodings, done first, adds nothing. */
  lemma EqualIsSameMeaning(u: Unicode, s: Tlv, t: Tlv)
    requires WellFormed(s) && WellFormed(t) && ParseName(u, s).Ok? && ParseName(u, t).Ok?
    ensures Equal(ParseName(u, s).value, ParseName(u, t).value) <==> Meaning(u, s) == Meaning(u, t)
  {
    var a, b := ParseName(u, s).value, ParseName(u, t).value;
    if a.der == b.der {
      EncodingsArePrefixFree(s, t);
    } else {
      var x, y := SequenceItems(s).value, SequenceItems(t).value;
      hide Meaning, SameKeys, RdnOf, TypedValues, SequenceItems;
      if |x| == |y| {
        forall i | 0 <= i < |x|
          ensures SameKeys(a.rdns[i], b.rdns[i]) <==> Meaning(u, s)[i] == Meaning(u, t)[i]
        {
          RdnMeaning(u, s, t, i);
        }
      }
    }
  }

  lemma RdnMeaning(u: Unicode, s: Tlv, t: Tlv, i: nat)
    requires ParseName(u, s).Ok? && ParseName(u, t).Ok?
    requires i < |SequenceItems(s).value| && i < |SequenceItems(t).value|
    ensures SameKeys(ParseName(u, s).value.rdns[i], ParseName(u, t).value.rdns[i]) <==>
            Meaning(u, s)[i] == Meaning(u, t)[i]
  {
    var x, y := SequenceItems(s).value[i], SequenceItems(t).value[i];
    var a, b := ParseName(u, s).value, ParseName(u, t).value;
    assert RdnOf(u, x) == Ok(a.rdns[i]) && RdnOf(u, y) == Ok(b.rdns[i]);
    hide SameKeys, TypedValues, AttributesOf, SequenceItems, ParseName;
    SameKeysMeaning(u, SetItems(x).value, SetItems(y).value);
  }

  /** Comparison of accepted names is an equivalence relation. */
  lemma EqualIsAnEquivalence(u: Unicode, r: Tlv, s: Tlv, t: Tlv)
    requires WellFormed(r) && WellFormed(s) && WellFormed(t)
    requires ParseName(u, r).Ok? && ParseName(u, s).Ok? && ParseName(u, t).Ok?
    ensures var a, b, c := ParseName(u, r).value, ParseName(u, s).value, ParseName(u, t).value;
            && Equal(a, a) && (Equal(a, b) ==> Equal(b, a)) && (Equal(a, b) && Equal(b, c) ==> Equal(a, c))
  {
    EqualIsSameMeaning(u, r, s);
    EqualIsSameMeaning(u, s, r);
    EqualIsSameMeaning(u, s, t);
    EqualIsSameMeaning(u, r, t);
    hide ParseName, SameKeys, Meaning, WellFormed;
  }

  // ---- looking things up --------------------------------------------------------------------------

  function Flattened(rdns: seq<seq<Attribute>>): seq<Attribute> {
    if rdns == [] then [] else Flattened(rdns[..|rdns| - 1]) + rdns[|rdns| - 1]
  }

  /** The text of the last attribute of a type that has one. */
  function LastText(attributes: seq<Attribute>, oid: string): Option<string> {
    if attributes == [] then None
    else
      var a := attributes[|attributes| - 1];
      if a.oid == oid && a.text.Some? then a.text else LastText(attributes[..|attributes| - 1], oid)
  }

  function Trimmed(u: Unicode, text: Option<string>): Option<string> {
    if text.None? then None else Some(u.trim(text.value))
  }

  function AttributeText(u: Unicode, n: Name, oid: string): Option<string> {
    Trimmed(u, LastText(Flattened(n.rdns), oid))
  }

  lemma FlattenedTo(rdns: seq<seq<Attribute>>, i: nat)
    requires i < |rdns|
    ensures Flattened(rdns[..i + 1]) == Flattened(rdns[..i]) + rdns[i]
  {
    assert rdns[..i + 1][..i] == rdns[..i];
  }

  lemma LastTextOfOneMore(before: seq<Attribute>, rdn: seq<Attribute>, j: nat, oid: string)
    requires j < |rdn|
    ensures LastText(before + rdn[..j + 1], oid) ==
            if rdn[j].oid == oid && rdn[j].text.Some? then rdn[j].text else LastText(before + rdn[..j], oid)
  {
    assert (before + rdn[..j + 1])[..|before| + j] == before + rdn[..j];
  }

  method NameAttribute(u: Unicode, n: Name, oid: string) returns (out: Option<string>)
    ensures out == AttributeText(u, n, oid)
  {
    out := None;
    assert Flattened(n.rdns[..0]) == [];
    hide Flattened, LastText;
    for i := 0 to |n.rdns|
      invariant out == Trimmed(u, LastText(Flattened(n.rdns[..i]), oid))
    {
      var rdn := n.rdns[i];
      ghost var before := Flattened(n.rdns[..i]);
      FlattenedTo(n.rdns, i);
      assert before + rdn[..0] == before;
      for j := 0 to |rdn|
        invariant out == Trimmed(u, LastText(before + rdn[..j], oid))
      {
        LastTextOfOneMore(before, rdn, j, oid);
        if rdn[j].oid == oid && rdn[j].text.Some? { out := Some(u.trim(rdn[j].text.value)); }
      }
      assert rdn[..|rdn|] == rdn;
    }
    assert n.rdns[..|n.rdns|] == n.rdns;
  }

  /** The last one wins: it has the type and a text, and no later attribute has both. */
  lemma {:induction false} LastTextIsLast(attributes: seq<Attribute>, oid: string)
    ensures LastText(attributes, oid).None? ==>
              forall i :: 0 <= i < |attributes| && attributes[i].oid == oid ==> attributes[i].text.None?
    ensures LastText(attributes, oid).Some? ==> exists k :: LastAt(attributes, oid, k, LastText(attributes, oid).value)
  {
    if attributes != [] {
      var n := |attributes| - 1;
      LastTextIsLast(attributes[..n], oid);
      if attributes[n].oid == oid && attributes[n].text.Some? {
        assert LastAt(attributes, oid, n, attributes[n].text.value);
      } else if LastText(attributes, oid).Some? {
        var k :| LastAt(attributes[..n], oid, k, LastText(attributes, oid).value);
        assert LastAt(attributes, oid, k, LastText(attributes, oid).value);
      }
    }
  }

  ghost predicate LastAt(attributes: seq<Attribute>, oid: string, k: int, text: string) {
    && 0 <= k < |attributes| && attributes[k].oid == oid && attributes[k].text == Some(text)
    && forall i :: k < i < |attributes| && attributes[i].oid == oid ==> attributes[i].text.None?
  }

  predicate HasAttribute(n: Name, oid: string) {
    exists i, j :: 0 <= i < |n.rdns| && 0 <= j < |n.rdns[i]| && n.rdns[i][j].oid == oid
  }

  predicate OccursAt(s: string, needle: string, k: nat) {
    k + |needle| <= |s| && s[k..k + |needle|] == needle
  }

  predicate Includes(s: string, needle: string) {
    exists k :: 0 <= k <= |s| && OccursAt(s, needle, k)
  }

  /** Whether some text contains the needle, case ignored. */
  predicate Contains(u: Unicode, n: Name, needle: string) {
    exists i, j :: 0 <= i < |n.rdns| && 0 <= j < |n.rdns[i]|
      && n.rdns[i][j].text.Some? && Includes(u.lower(n.rdns[i][j].text.value), u.lower(needle))
  }
}
