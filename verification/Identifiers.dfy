/** The identifiers that the verifier compares with (OID in server/src/verifier/x509.ts), as the octets that
    certificates carry. */
module Identifiers {
  import opened Common
  import opened OidWriter
  import Names
  import Oid
  import Path
  import Radix
  import Text
  import Verifier

  /** The decimals of the arcs from k on stand in s from i on. */
  ghost predicate Stands(s: string, i: nat, arcs: seq<nat>, k: nat) {
    i <= |s| && k < |arcs| && Dotted(arcs[k..]) == s[i..]
  }

  lemma LastArc(s: string, i: nat, arcs: seq<nat>)
    requires i <= |s| && arcs != [] && Text.Numeral(10, arcs[|arcs| - 1]) == s[i..]
    ensures Stands(s, i, arcs, |arcs| - 1)
  {
    hide Text.Numeral;
  }

  lemma ArcBefore(s: string, i: nat, j: nat, arcs: seq<nat>, k: nat)
    requires i <= j < |s| && s[j] == '.' && Stands(s, j + 1, arcs, k + 1) && Text.Numeral(10, arcs[k]) == s[i..j]
    ensures Stands(s, i, arcs, k)
  {
    hide Text.Numeral;
    var here, rest := arcs[k..], arcs[k + 1..];
    var parts := seq(|here|, n requires 0 <= n < |here| => Text.Numeral(10, here[n]));
    assert parts[1..] == seq(|rest|, n requires 0 <= n < |rest| => Text.Numeral(10, rest[n]));
    assert parts[0] == s[i..j];
    assert Text.Join(parts, '.') == s[i..j] + ['.'] + s[j + 1..] == s[i..];
  }

  lemma OneDigit(v: nat)
    requires 0 < v < 10
    ensures Text.Numeral(10, v) == ['0' + v as char]
  {
    Radix.NoDigits(10);
    Radix.DigitsSnoc(10, v);
    hide Radix.Digits;
  }

  /** An arc of one digit. */
  lemma DigitBefore(s: string, i: nat, arcs: seq<nat>, k: nat)
    requires i + 1 < |s| && s[i + 1] == '.' && Stands(s, i + 2, arcs, k + 1)
    requires 0 < arcs[k] < 10 && s[i] == '0' + arcs[k] as char
    ensures Stands(s, i, arcs, k)
  {
    InRange(s, i + 2, arcs, k + 1);
    hide Text.Numeral, Stands;
    OneDigit(arcs[k]);
    assert s[i..i + 1] == [s[i]];
    ArcBefore(s, i, i + 1, arcs, k);
  }

  lemma InRange(s: string, i: nat, arcs: seq<nat>, k: nat)
    requires Stands(s, i, arcs, k)
    ensures i <= |s| && k < |arcs|
  {
  }

  lemma MoreDigits(v: nat)
    requires v >= 10
    ensures Text.Numeral(10, v) == Text.Numeral(10, v / 10) + ['0' + (v % 10) as char]
  {
    Radix.DigitsSnoc(10, v);
    hide Radix.Digits;
  }

  lemma LongNumerals()
    ensures Text.Numeral(10, 17) == ['1', '7'] && Text.Numeral(10, 840) == ['8', '4', '0']
    ensures Text.Numeral(10, 10045) == ['1', '0', '0', '4', '5'] && Text.Numeral(10, 11129) == ['1', '1', '1', '2', '9']
  {
    hide Text.Numeral;
    OneDigit(1);
    OneDigit(8);
    MoreDigits(17);
    MoreDigits(84);
    MoreDigits(840);
    MoreDigits(10);
    MoreDigits(100);
    MoreDigits(1004);
    MoreDigits(10045);
    MoreDigits(11);
    MoreDigits(111);
    MoreDigits(1112);
    MoreDigits(11129);
  }

  /** 1.3.6.1.4.1.11129.2.1.17 */
  lemma KeyAttestation()
    ensures Oid.ContentText(ContentOf(1, 3, [6, 1, 4, 1, 11129, 2, 1, 17])) == Ok(Path.KEY_ATTESTATION)
  {
    hide Text.Numeral, Dotted, Oid.ContentText, ContentOf, Stands;
    var s, arcs := Path.KEY_ATTESTATION, [1, 3, 6, 1, 4, 1, 11129, 2, 1, 17];
    LongNumerals();
    assert s[22..] == ['1', '7'] && s[12..17] == ['1', '1', '1', '2', '9'];
    LastArc(s, 22, arcs);
    DigitBefore(s, 20, arcs, 8);
    DigitBefore(s, 18, arcs, 7);
    ArcBefore(s, 12, 17, arcs, 6);
    DigitBefore(s, 10, arcs, 5);
    DigitBefore(s, 8, arcs, 4);
    DigitBefore(s, 6, arcs, 3);
    DigitBefore(s, 4, arcs, 2);
    DigitBefore(s, 2, arcs, 1);
    DigitBefore(s, 0, arcs, 0);
    Whole(s, arcs);
    assert arcs[2..] == [6, 1, 4, 1, 11129, 2, 1, 17];
  }

  lemma Whole(s: string, arcs: seq<nat>)
    requires |arcs| >= 2 && Begins(arcs[0], arcs[1]) && Stands(s, 0, arcs, 0)
    ensures Oid.ContentText(ContentOf(arcs[0], arcs[1], arcs[2..])) == Ok(s)
  {
    ArcsRead(arcs[0], arcs[1], arcs[2..]);
    hide Dotted, Oid.ContentText, ContentOf;
    assert arcs[0..] == arcs == [arcs[0], arcs[1]] + arcs[2..] && s[0..] == s;
  }

  /** 1.2.840.10045.2.1 */
  lemma EcPublicKey()
    ensures Oid.ContentText(ContentOf(1, 2, [840, 10045, 2, 1])) == Ok(Verifier.EC_PUBLIC_KEY)
  {
    hide Text.Numeral, Dotted, Oid.ContentText, ContentOf, Stands;
    var s, arcs := Verifier.EC_PUBLIC_KEY, [1, 2, 840, 10045, 2, 1];
    LongNumerals();
    OneDigit(1);
    assert s[16..] == ['1'];
    LastArc(s, 16, arcs);
    DigitBefore(s, 14, arcs, 4);
    AnsiX962(s, arcs);
    Whole(s, arcs);
    assert arcs[2..] == [840, 10045, 2, 1];
  }

  /** The identifiers under 1.2.840.10045. */
  lemma AnsiX962(s: string, arcs: seq<nat>)
    requires |s| > 14 && |arcs| > 4 && s[..14] == ['1', '.', '2', '.', '8', '4', '0', '.', '1', '0', '0', '4', '5', '.']
    requires arcs[..4] == [1, 2, 840, 10045] && Stands(s, 14, arcs, 4)
    ensures Stands(s, 0, arcs, 0)
  {
    hide Text.Numeral, Stands;
    LongNumerals();
    assert s[8..13] == s[..14][8..13] == ['1', '0', '0', '4', '5'] && s[4..7] == s[..14][4..7] == ['8', '4', '0'];
    assert arcs[3] == arcs[..4][3] && arcs[2] == arcs[..4][2] && arcs[1] == arcs[..4][1] && arcs[0] == arcs[..4][0];
    assert s[13] == s[..14][13] && s[7] == s[..14][7] && s[3] == s[..14][3] && s[2] == s[..14][2];
    assert s[1] == s[..14][1] && s[0] == s[..14][0];
    ArcBefore(s, 8, 13, arcs, 3);
    ArcBefore(s, 4, 7, arcs, 2);
    DigitBefore(s, 2, arcs, 1);
    DigitBefore(s, 0, arcs, 0);
  }

  /** 1.2.840.10045.3.1.7 */
  lemma P256()
    ensures Oid.ContentText(ContentOf(1, 2, [840, 10045, 3, 1, 7])) == Ok(Verifier.P256)
  {
    hide Text.Numeral, Dotted, Oid.ContentText, ContentOf, Stands;
    var s, arcs := Verifier.P256, [1, 2, 840, 10045, 3, 1, 7];
    OneDigit(7);
    assert s[18..] == ['7'];
    LastArc(s, 18, arcs);
    DigitBefore(s, 16, arcs, 5);
    DigitBefore(s, 14, arcs, 4);
    AnsiX962(s, arcs);
    Whole(s, arcs);
    assert arcs[2..] == [840, 10045, 3, 1, 7];
  }

  /** 1.2.840.10045.4.3.2 */
  lemma EcdsaWithSha256()
    ensures Oid.ContentText(ContentOf(1, 2, [840, 10045, 4, 3, 2])) == Ok(Verifier.ECDSA_SHA256)
  {
    hide Text.Numeral, Dotted, Oid.ContentText, ContentOf, Stands;
    var s, arcs := Verifier.ECDSA_SHA256, [1, 2, 840, 10045, 4, 3, 2];
    OneDigit(2);
    assert s[18..] == ['2'];
    LastArc(s, 18, arcs);
    DigitBefore(s, 16, arcs, 5);
    DigitBefore(s, 14, arcs, 4);
    AnsiX962(s, arcs);
    Whole(s, arcs);
    assert arcs[2..] == [840, 10045, 4, 3, 2];
  }

  // ---- the attribute types of names -------------------------------------------------------------

  lemma Attribute(s: string, k: nat)
    requires |s| >= 6 && s[..6] == ['2', '.', '5', '.', '4', '.'] && Text.Numeral(10, k) == s[6..]
    ensures Oid.ContentText(ContentOf(2, 5, [4, k])) == Ok(s)
  {
    hide Text.Numeral, Dotted, Oid.ContentText, ContentOf, Stands;
    var arcs := [2, 5, 4, k];
    assert s[0] == s[..6][0] && s[1] == s[..6][1] && s[2] == s[..6][2] && s[3] == s[..6][3];
    assert s[4] == s[..6][4] && s[5] == s[..6][5];
    if |s| > 6 {
      LastArc(s, 6, arcs);
      DigitBefore(s, 4, arcs, 2);
      DigitBefore(s, 2, arcs, 1);
      DigitBefore(s, 0, arcs, 0);
      Whole(s, arcs);
      assert arcs[2..] == [4, k];
    }
  }

  lemma ShortAttribute(s: string, k: nat)
    requires 0 < k < 10 && |s| == 7 && s[..6] == ['2', '.', '5', '.', '4', '.'] && s[6] == '0' + k as char
    ensures Oid.ContentText(ContentOf(2, 5, [4, k])) == Ok(s)
  {
    hide Text.Numeral, Oid.ContentText, ContentOf;
    OneDigit(k);
    assert s[6..] == [s[6]];
    Attribute(s, k);
  }

  /** The types that the comparison of names knows by their text. */
  lemma AttributeTypes()
    ensures Oid.ContentText(ContentOf(2, 5, [4, 3])) == Ok(Names.COMMON_NAME)
    ensures Oid.ContentText(ContentOf(2, 5, [4, 10])) == Ok(Names.ORGANIZATION)
    ensures Oid.ContentText(ContentOf(2, 5, [4, 5])) == Ok(Names.SERIAL_NUMBER)
  {
    hide Text.Numeral, Oid.ContentText, ContentOf;
    OneDigit(1);
    MoreDigits(10);
    assert Names.ORGANIZATION[6..] == ['1', '0'];
    Attribute(Names.ORGANIZATION, 10);
    ShortAttribute(Names.COMMON_NAME, 3);
    ShortAttribute(Names.SERIAL_NUMBER, 5);
  }

  predicate IsKeyword(k: nat) {
    k == 3 || 6 <= k <= 11
  }

  lemma KeywordText(k: nat) returns (s: string)
    requires IsKeyword(k)
    ensures Oid.ContentText(ContentOf(2, 5, [4, k])) == Ok(s) && s in Names.CANONICAL_STRING_TYPES
  {
    hide Text.Numeral, Oid.ContentText, ContentOf;
    if k < 10 {
      s := ['2', '.', '5', '.', '4', '.', '0' + k as char];
      ShortAttribute(s, k);
    } else {
      OneDigit(1);
      MoreDigits(k);
      s := ['2', '.', '5', '.', '4', '.', '1', '0' + (k % 10) as char];
      assert s[6..] == ['1', '0' + (k % 10) as char];
      Attribute(s, k);
    }
  }

  /** An identifier is determined by its text. */
  lemma SameArcs(a: nat, b: nat, rest: seq<nat>, a': nat, b': nat, rest': seq<nat>)
    requires Begins(a, b) && Begins(a', b')
    requires Oid.ContentText(ContentOf(a, b, rest)) == Oid.ContentText(ContentOf(a', b', rest'))
    ensures a == a' && b == b' && rest == rest'
  {
    hide Oid.ContentText, Oid.Flattened, Oid.Subidentifiers;
    var vs, ws := [40 * a + b] + rest, [40 * a' + b'] + rest';
    ArcsRead(a, b, rest);
    ArcsRead(a', b', rest');
    var c, d := Oid.Flattened(vs), Oid.Flattened(ws);
    Oid.OidInjective(c, d);
    assert c[0..] == c && d[0..] == d;
    Oid.FlattenedRead(c, 0, vs);
    Oid.FlattenedRead(d, 0, ws);
    assert vs[0] == 40 * a + b && ws[0] == 40 * a' + b' && vs[1..] == rest && ws[1..] == rest';
  }

  lemma DirectoryNumerals()
    ensures Text.Numeral(10, 25) == ['2', '5'] && Text.Numeral(10, 100) == ['1', '0', '0']
    ensures Text.Numeral(10, 2342) == ['2', '3', '4', '2']
    ensures Text.Numeral(10, 19200300) == ['1', '9', '2', '0', '0', '3', '0', '0']
  {
    hide Text.Numeral;
    OneDigit(1);
    OneDigit(2);
    MoreDigits(25);
    MoreDigits(10);
    MoreDigits(100);
    MoreDigits(23);
    MoreDigits(234);
    MoreDigits(2342);
    MoreDigits(19);
    MoreDigits(192);
    MoreDigits(1920);
    MoreDigits(19200);
    MoreDigits(192003);
    MoreDigits(1920030);
    MoreDigits(19200300);
  }

  const USER_ID: string := "0.9.2342.19200300." + "100.1.1"
  const DOMAIN_COMPONENT: string := "0.9.2342.19200300." + "100.1.25"

  /** The identifiers under 0.9.2342.19200300.100.1. */
  lemma Directory(s: string, arcs: seq<nat>)
    requires |arcs| == 7 && arcs[..6] == [0, 9, 2342, 19200300, 100, 1] && Stands(s, 24, arcs, 6)
    requires |s| > 24 && s[..24] == USER_ID[..24]
    ensures Oid.ContentText(ContentOf(0, 9, arcs[2..])) == Ok(s)
  {
    hide Text.Numeral, Oid.ContentText, ContentOf, Stands;
    DirectoryNumerals();
    RootNumerals();
    var u := USER_ID;
    forall i | 0 <= i < 24 ensures s[i] == u[i] {
      assert s[i] == s[..24][i] && u[i] == u[..24][i];
    }
    forall i | 0 <= i < 6 ensures arcs[i] == [0, 9, 2342, 19200300, 100, 1][i] {
      assert arcs[i] == arcs[..6][i];
    }
    assert s[18..21] == ['1', '0', '0'] && s[9..17] == ['1', '9', '2', '0', '0', '3', '0', '0'];
    assert s[4..8] == ['2', '3', '4', '2'] && s[0..1] == ['0'];
    DigitBefore(s, 22, arcs, 5);
    ArcBefore(s, 18, 21, arcs, 4);
    ArcBefore(s, 9, 17, arcs, 3);
    ArcBefore(s, 4, 8, arcs, 2);
    DigitBefore(s, 2, arcs, 1);
    ArcBefore(s, 0, 1, arcs, 0);
    Whole(s, arcs);
  }

  lemma DirectoryTypes()
    ensures Oid.ContentText(ContentOf(0, 9, [2342, 19200300, 100, 1, 1])) == Ok(USER_ID)
    ensures Oid.ContentText(ContentOf(0, 9, [2342, 19200300, 100, 1, 25])) == Ok(DOMAIN_COMPONENT)
  {
    hide Text.Numeral, Oid.ContentText, ContentOf, Stands;
    OneDigit(1);
    DirectoryNumerals();
    var uid, dc := [0, 9, 2342, 19200300, 100, 1, 1], [0, 9, 2342, 19200300, 100, 1, 25];
    assert USER_ID[24..] == ['1'] && DOMAIN_COMPONENT[24..] == ['2', '5'];
    LastArc(USER_ID, 24, uid);
    LastArc(DOMAIN_COMPONENT, 24, dc);
    assert DOMAIN_COMPONENT[..24] == USER_ID[..24];
    Directory(USER_ID, uid);
    Directory(DOMAIN_COMPONENT, dc);
    assert uid[2..] == [2342, 19200300, 100, 1, 1] && dc[2..] == [2342, 19200300, 100, 1, 25];
  }

  /** The types that are compared in canonical form: seven of X.520, user id and domain component. */
  ghost predicate IsNormalised(a: nat, b: nat, rest: seq<nat>) {
    || (a == 2 && b == 5 && |rest| == 2 && rest[0] == 4 && IsKeyword(rest[1]))
    || (a == 0 && b == 9 && rest == [2342, 19200300, 100, 1, 1])
    || (a == 0 && b == 9 && rest == [2342, 19200300, 100, 1, 25])
  }

  lemma NormalisedTypes(a: nat, b: nat, rest: seq<nat>)
    requires Begins(a, b)
    ensures Oid.ContentText(ContentOf(a, b, rest)).Ok?
    ensures Oid.ContentText(ContentOf(a, b, rest)).value in Names.CANONICAL_STRING_TYPES <==> IsNormalised(a, b, rest)
  {
    hide Oid.ContentText, ContentOf, IsKeyword, Dotted;
    ArcsRead(a, b, rest);
    var s := Oid.ContentText(ContentOf(a, b, rest)).value;
    DirectoryTypes();
    if s in Names.CANONICAL_STRING_TYPES {
      var a', b', rest' := ListedType(s);
      SameArcs(a, b, rest, a', b', rest');
    }
    if IsNormalised(a, b, rest) && a == 2 {
      assert rest == [4, rest[1]];
      var t := KeywordText(rest[1]);
    }
  }

  lemma ListedType(s: string) returns (a: nat, b: nat, rest: seq<nat>)
    requires s in Names.CANONICAL_STRING_TYPES
    ensures Begins(a, b) && IsNormalised(a, b, rest) && Oid.ContentText(ContentOf(a, b, rest)) == Ok(s)
  {
    hide Oid.ContentText, ContentOf;
    DirectoryTypes();
    if s == USER_ID {
      a, b, rest := 0, 9, [2342, 19200300, 100, 1, 1];
    } else if s == DOMAIN_COMPONENT {
      a, b, rest := 0, 9, [2342, 19200300, 100, 1, 25];
    } else {
      assert s in {"2.5.4.3", "2.5.4.6", "2.5.4.7", "2.5.4.8", "2.5.4.10", "2.5.4.11", "2.5.4.9"};
      var k := KeywordNumber(s);
      a, b, rest := 2, 5, [4, k];
    }
  }

  lemma KeywordNumber(s: string) returns (k: nat)
    requires s in {"2.5.4.3", "2.5.4.6", "2.5.4.7", "2.5.4.8", "2.5.4.10", "2.5.4.11", "2.5.4.9"}
    ensures IsKeyword(k) && Oid.ContentText(ContentOf(2, 5, [4, k])) == Ok(s)
  {
    hide Oid.ContentText, ContentOf, Text.Numeral;
    if |s| == 7 {
      k := s[6] as nat - '0' as nat;
      assert s[6] in {'3', '6', '7', '8', '9'};
      ShortAttribute(s, k);
    } else {
      k := if s == "2.5.4.10" then 10 else 11;
      OneDigit(1);
      MoreDigits(k);
      assert s[6..] == ['1', '0' + (k % 10) as char];
      Attribute(s, k);
    }
  }
}

/** Attributes of names, from the octets of a certificate on. */
module NameAttributes {
  import opened Common
  import opened Der
  import opened DerBijection
  import opened KeyDescriptionWriter
  import opened OidWriter
  import ByteStrings
  import DerWriter
  import Identifiers
  import Names
  import Oid

  /** An AttributeTypeAndValue whose value is a primitive element of a universal type. */
  function WriteAttribute(a: nat, b: nat, rest: seq<nat>, tag: nat, content: Bytes): Element
    requires tag < DerWriter.TAG_LIMIT
  {
    var kind :- WriteTlv(UNIVERSAL, false, OID, ContentOf(a, b, rest));
    var value :- WriteTlv(UNIVERSAL, false, tag, content);
    WriteSequence([kind, value])
  }

  /** The text of a value by its type: 12 is UTF8String, 19, 20 and 22 are PrintableString, T61String and
      IA5String, 28 and 30 are UniversalString and BMPString. None when the octets are malformed. */
  ghost predicate HasText(u: Names.Unicode, tag: nat, content: Bytes, text: Option<string>) {
    if tag == 12 then u.utf8(content).Some? && text == u.utf8(content)
    else if tag == 19 || tag == 20 || tag == 22 then
      text.Some? && |text.value| == |content| && forall i :: 0 <= i < |content| ==> text.value[i] as int == content[i]
    else if tag == 28 || tag == 30 then u.wide(tag, content).Some? && text == u.wide(tag, content)
    else text == None
  }

  ghost predicate Malformed(u: Names.Unicode, tag: nat, content: Bytes) {
    (tag == 12 && u.utf8(content).None?) || ((tag == 28 || tag == 30) && u.wide(tag, content).None?)
  }

  /** A written attribute is read with the text of its type and value. Only a PrintableString or UTF8String of
      a normalised type is compared in canonical form, everything else by the octets of the value. */
  lemma AttributeIsRead(u: Names.Unicode, a: nat, b: nat, rest: seq<nat>, tag: nat, content: Bytes)
    requires Begins(a, b) && tag < DerWriter.TAG_LIMIT && WriteAttribute(a, b, rest, tag, content).Ok?
    ensures var read := Names.AttributeOf(u, WriteAttribute(a, b, rest, tag, content).value);
            && (read.Err? <==> Malformed(u, tag, content))
            && (read.Ok? ==>
                 && read.value.oid == Dotted([a, b] + rest) && HasText(u, tag, content, read.value.text)
                 && read.value.canonical ==
                    if read.value.text.Some? && (tag == 12 || tag == 19) && Identifiers.IsNormalised(a, b, rest)
                    then u.canonical(read.value.text.value)
                    else "#" + ByteStrings.HexOf(DerWriter.Encode(0, false, tag, content)))
  {
    hide SequenceItems, WellFormed, WriteSequence, DerWriter.Encode, Dotted, ContentOf, ByteStrings.HexOf, Oid.ContentText,
      Identifiers.IsNormalised, Names.CANONICAL_STRING_TYPES;
    var kind := WriteTlv(UNIVERSAL, false, OID, ContentOf(a, b, rest)).value;
    var value := WriteTlv(UNIVERSAL, false, tag, content).value;
    SequenceReads([kind, value]);
    ArcsRead(a, b, rest);
    Identifiers.NormalisedTypes(a, b, rest);
  }
}
