/** Names, as the octets of a certificate have them. */
module WrittenNames {
  import opened Common
  import opened Der
  import opened DerWriter
  import opened DerBijection
  import opened KeyDescriptionWriter
  import Names
  import Oid
  import Radix
  import Text

  /** An element that could be written, in at most n octets. */
  ghost predicate Small(e: Element, n: nat) {
    e.Ok? && WellFormed(e.value) && |e.value.raw| <= n
  }

  lemma SmallTlv(cls: nat, constructed: bool, tag: nat, content: Bytes, n: nat)
    requires cls < 4 && tag < TAG_LIMIT && |content| <= n && n < LENGTH_LIMIT
    ensures Small(WriteTlv(cls, constructed, tag, content), n + 10)
  {
    hide TagBytes, LengthBytes;
  }

  ghost predicate AllSmall(items: seq<Tlv>, n: nat) {
    forall i :: 0 <= i < |items| ==> WellFormed(items[i]) && |items[i].raw| <= n
  }

  lemma {:induction false} ConcatenatedBound(items: seq<Tlv>, n: nat)
    requires AllSmall(items, n)
    ensures |Concatenated(items)| <= |items| * n
  {
    hide WellFormed;
    if items != [] {
      ConcatenatedBound(items[1..], n);
      Radix.MulSuccessor(|items| - 1, n);
    }
  }

  lemma SmallSequence(items: seq<Tlv>, n: nat, m: nat)
    requires AllSmall(items, n) && |items| * n <= m && m < LENGTH_LIMIT
    ensures Small(WriteSequence(items), m + 10) && AllWellFormed(items)
  {
    ConcatenatedBound(items, n);
    SmallTlv(UNIVERSAL, true, SEQUENCE, Concatenated(items), m);
    hide WellFormed, Encode;
  }

  lemma SmallSet(items: seq<Tlv>, n: nat, m: nat)
    requires AllSmall(items, n) && |items| * n <= m && m < LENGTH_LIMIT
    ensures Small(WriteSet(items), m + 10) && AllWellFormed(items)
  {
    ConcatenatedBound(items, n);
    SmallTlv(UNIVERSAL, true, SET, Concatenated(items), m);
    hide WellFormed, Encode;
  }

  const COMMON_NAME_OID: Bytes := [0x55, 4, 3]
  const ORGANIZATION_OID: Bytes := [0x55, 4, 10]

  predicate IsLatin1(s: string) {
    |s| <= 64 && forall i :: 0 <= i < |s| ==> s[i] as int < 256
  }

  function Octets(s: string): (b: Bytes)
    requires IsLatin1(s)
    ensures |b| == |s|
  {
    seq(|s|, i requires 0 <= i < |s| => s[i] as int)
  }

  /** A relative name of one attribute with a printable value. */
  function WriteRdn(oid: Bytes, text: string): Element
    requires IsLatin1(text)
  {
    var kind :- WriteTlv(UNIVERSAL, false, OID, oid);
    var value :- WriteTlv(UNIVERSAL, false, PRINTABLE_STRING, Octets(text));
    var atv :- WriteSequence([kind, value]);
    WriteSet([atv])
  }

  lemma RdnReads(u: Names.Unicode, oid: Bytes, name: string, text: string)
    requires IsLatin1(text) && |oid| == 3 && Oid.ContentText(oid) == Ok(name)
    ensures Small(WriteRdn(oid, text), 188)
    ensures exists canonical :: Names.RdnOf(u, WriteRdn(oid, text).value) == Ok([Names.Attribute(name, canonical, Some(text))])
  {
    hide Oid.ContentText, SequenceItems, SetItems, WellFormed, Encode, Names.CanonicalValue, WriteSequence, WriteSet;
    SmallTlv(UNIVERSAL, false, OID, oid, 64);
    SmallTlv(UNIVERSAL, false, PRINTABLE_STRING, Octets(text), 64);
    var kind := WriteTlv(UNIVERSAL, false, OID, oid).value;
    var value := WriteTlv(UNIVERSAL, false, PRINTABLE_STRING, Octets(text)).value;
    SmallSequence([kind, value], 74, 148);
    SequenceReads([kind, value]);
    var atv := WriteSequence([kind, value]).value;
    SmallSet([atv], 158, 158);
    SetReads([atv]);
    assert Names.Latin1(Octets(text)) == text;
    var canonical := Names.CanonicalValue(u, name, value, Some(text));
    assert Names.AttributeOf(u, atv) == Ok(Names.Attribute(name, canonical, Some(text)));
    OneAttribute(u, atv, Names.Attribute(name, canonical, Some(text)));
  }

  lemma OneAttribute(u: Names.Unicode, atv: Tlv, a: Names.Attribute)
    requires Names.AttributeOf(u, atv) == Ok(a)
    ensures Names.AttributesOf(u, [atv]) == Ok([a])
  {
    hide Names.AttributeOf;
    assert [atv][1..] == [];
    var none: seq<Names.Attribute> := [];
    assert Names.AttributesOf(u, []) == Ok(none) && [a] + none == [a];
  }

  lemma {:induction false} RdnsRead(u: Names.Unicode, items: seq<Tlv>, rdns: seq<seq<Names.Attribute>>)
    requires |items| == |rdns| && forall i :: 0 <= i < |items| ==> Names.RdnOf(u, items[i]) == Ok(rdns[i])
    ensures Names.RdnsOf(u, items) == Ok(rdns)
  {
    hide Names.RdnOf;
    if items != [] {
      RdnsRead(u, items[1..], rdns[1..]);
      assert rdns == [rdns[0]] + rdns[1..];
    } else {
      assert rdns == [];
    }
  }

  /** A name of two attributes, each in a relative name of its own. */
  function WriteName(first: (Bytes, string), second: (Bytes, string)): Element
    requires IsLatin1(first.1) && IsLatin1(second.1)
  {
    var a :- WriteRdn(first.0, first.1);
    var b :- WriteRdn(second.0, second.1);
    WriteSequence([a, b])
  }

  /** It is read as these two attributes. */
  ghost predicate ReadsTwo(n: Names.Name, first: (string, string), second: (string, string)) {
    && |n.rdns| == 2 && |n.rdns[0]| == 1 && |n.rdns[1]| == 1
    && n.rdns[0][0].oid == first.0 && n.rdns[0][0].text == Some(first.1)
    && n.rdns[1][0].oid == second.0 && n.rdns[1][0].text == Some(second.1)
  }

  lemma NameReads(u: Names.Unicode, first: (Bytes, string), second: (Bytes, string), firstName: string, secondName: string)
    requires IsLatin1(first.1) && IsLatin1(second.1) && |first.0| == 3 && |second.0| == 3
    requires Oid.ContentText(first.0) == Ok(firstName) && Oid.ContentText(second.0) == Ok(secondName)
    ensures WriteName(first, second).Ok? && WellFormed(WriteName(first, second).value)
    ensures var n := Names.ParseName(u, WriteName(first, second).value);
            n.Ok? && ReadsTwo(n.value, (firstName, first.1), (secondName, second.1))
  {
    hide Oid.ContentText, SequenceItems, WellFormed, WriteRdn, WriteSequence, Names.RdnOf, Names.RdnsOf;
    RdnReads(u, first.0, firstName, first.1);
    RdnReads(u, second.0, secondName, second.1);
    var a, b := WriteRdn(first.0, first.1).value, WriteRdn(second.0, second.1).value;
    var c: string :| Names.RdnOf(u, a) == Ok([Names.Attribute(firstName, c, Some(first.1))]);
    var d: string :| Names.RdnOf(u, b) == Ok([Names.Attribute(secondName, d, Some(second.1))]);
    SmallSequence([a, b], 188, 376);
    SequenceReads([a, b]);
    RdnsRead(u, [a, b], [[Names.Attribute(firstName, c, Some(first.1))], [Names.Attribute(secondName, d, Some(second.1))]]);
  }

  // ---- the identifiers --------------------------------------------------------------------------------

  lemma ThreeOctets(a: byte, b: byte, c: byte)
    requires 80 <= a < 128 && b < 128 && c < 128
    ensures Oid.ContentText([a, b, c]) ==
            Ok(Text.Join(["2", Text.Numeral(10, a - 80), Text.Numeral(10, b), Text.Numeral(10, c)], '.'))
  {
    var s: Bytes := [a, b, c];
    hide Text.Join, Text.Numeral;
    assert Oid.Subidentifiers(s, 3, 0, false) == Ok([]);
    assert Oid.Subidentifiers(s, 2, 0, false) == Ok([c as nat] + []);
    assert Oid.Subidentifiers(s, 1, 0, false) == Ok([b as nat] + ([c as nat] + []));
    assert Oid.Subidentifiers(s, 0, 0, false) == Ok([a as nat] + ([b as nat] + ([c as nat] + [])));
    var vs: seq<nat> := [a, b, c];
    assert [a as nat] + ([b as nat] + ([c as nat] + [])) == vs;
    assert vs[1..] == [b as nat, c as nat];
    assert Oid.Numerals([b as nat, c as nat]) == [Text.Numeral(10, b), Text.Numeral(10, c)];
    assert Oid.Arcs(vs) == ["2", Text.Numeral(10, a - 80), Text.Numeral(10, b), Text.Numeral(10, c)];
  }

  lemma SmallNumerals()
    ensures Text.Numeral(10, 3) == "3" && Text.Numeral(10, 4) == "4" && Text.Numeral(10, 5) == "5" && Text.Numeral(10, 10) == "10"
  {
    assert Radix.Digits(10, 0) == [];
    assert Radix.Digits(10, 1) == [1];
    assert Radix.Digits(10, 3) == [3] && Radix.Digits(10, 4) == [4] && Radix.Digits(10, 5) == [5];
    assert Radix.Digits(10, 10) == [1, 0];
  }

  lemma JoinFour(a: string, b: string, c: string, d: string)
    ensures Text.Join([a, b, c, d], '.') == a + "." + b + "." + c + "." + d
  {
    assert [a, b, c, d][1..] == [b, c, d] && [b, c, d][1..] == [c, d] && [c, d][1..] == [d];
    assert Text.Join([c, d], '.') == c + "." + d;
    assert Text.Join([b, c, d], '.') == b + "." + (c + "." + d);
    assert a + "." + (b + "." + (c + "." + d)) == a + "." + b + "." + c + "." + d;
  }

  lemma Identifiers()
    ensures Oid.ContentText(COMMON_NAME_OID) == Ok(Names.COMMON_NAME)
    ensures Oid.ContentText(ORGANIZATION_OID) == Ok(Names.ORGANIZATION)
  {
    hide Oid.ContentText, Text.Join, Text.Numeral;
    SmallNumerals();
    ThreeOctets(0x55, 4, 3);
    ThreeOctets(0x55, 4, 10);
    JoinFour("2", "5", "4", "3");
    JoinFour("2", "5", "4", "10");
    assert "2" + "." + "5" + "." + "4" + "." + "3" == "2.5.4.3";
    assert "2" + "." + "5" + "." + "4" + "." + "10" == "2.5.4.10";
  }
}

/** The attestation extension of an acceptable key. */
module WrittenDescription {
  import opened Common
  import opened Der
  import opened DerWriter
  import opened DerBijection
  import opened KeyDescription
  import opened KeyDescriptionWriter
  import opened WrittenNames
  import AuthorizationLists
  import ByteStrings
  import Ecdsa
  import Integers
  import Radix

  const BOOT_KEY: Bytes := [0]

  function SoftwareOf(package: string, signer: Bytes): Attributes {
    map[ATTESTATION_APPLICATION_ID := Application([PackageInfo(package, 1)], [signer])]
  }

  /** A P-256 key generated for signing with SHA-256, on a locked and verified device patched at `level`. */
  function HardwareOf(level: nat): Attributes {
    map[PURPOSE := NumberSet([2]), ALGORITHM := Number(3), KEY_SIZE := Number(256), DIGEST := NumberSet([4]),
        EC_CURVE := Number(1), ORIGIN := Number(OriginNumber(Generated)),
        ROOT_OF_TRUST := Trust(RootOfTrust(BOOT_KEY, true, BootVerified, None)),
        OS_PATCH_LEVEL := Number(level), VENDOR_PATCH_LEVEL := Number(level), BOOT_PATCH_LEVEL := Number(level)]
  }

  const HARDWARE_ORDER: seq<nat> := [1, 2, 3, 5, 10, 702, 704, 706, 718, 719]

  /** The hardware that holds the key. */
  function LevelFor(strongBox: bool): SecurityLevel {
    if strongBox then StrongBox else TrustedEnvironment
  }

  function Specified(challenge: Bytes, package: string, signer: Bytes, strongBox: bool, level: nat): Specification {
    Specification(300, LevelFor(strongBox), 300, LevelFor(strongBox), challenge, [],
                  SoftwareOf(package, signer), [ATTESTATION_APPLICATION_ID], HardwareOf(level), HARDWARE_ORDER)
  }

  // ---- it is small enough to be written -----------------------------------------------------------------

  lemma SmallOctets(b: Bytes, n: nat)
    requires |b| <= n && n < 0x1000_0000
    ensures Small(WriteOctets(b), n + 10)
  {
    SmallTlv(UNIVERSAL, false, OCTET_STRING, b, n);
    hide WellFormed, Encode;
  }

  lemma SmallNumber(v: nat)
    requires v < 0x100_0000
    ensures Small(WriteInt(v), 14)
  {
    assert Radix.Pow(256, 3) == 0x100_0000 by { assert Radix.Pow(256, 2) == 0x1_0000 by { assert Radix.Pow(256, 1) == 256; } }
    Ecdsa.OctetsLength(v, 3);
    SmallTlv(UNIVERSAL, false, INTEGER, Integers.Octets(v), 4);
    hide WellFormed, Encode, Integers.Octets;
  }

  lemma SmallEnumerated(v: nat)
    requires v < 0x100_0000
    ensures Small(WriteEnumerated(v), 14)
  {
    assert Radix.Pow(256, 3) == 0x100_0000 by { assert Radix.Pow(256, 2) == 0x1_0000 by { assert Radix.Pow(256, 1) == 256; } }
    Ecdsa.OctetsLength(v, 3);
    SmallTlv(UNIVERSAL, false, ENUMERATED, Integers.Octets(v), 4);
    hide WellFormed, Encode, Integers.Octets;
  }

  lemma SmallIntSet(v: nat)
    requires v < 0x100_0000
    ensures Small(WriteIntSet([v]), 24)
  {
    hide WellFormed, Encode, WriteInt, WriteSet;
    SmallNumber(v);
    var item := WriteInt(v).value;
    OneInt(v);
    SmallSet([item], 14, 14);
  }

  lemma OneInt(v: int)
    requires WriteInt(v).Ok?
    ensures WriteInts([v]) == Ok([WriteInt(v).value])
  {
    hide WriteInt;
    assert [v][..0] == [];
    assert WriteInts([v][..0]) == Ok([]);
    var none: seq<Tlv> := [];
    assert none + [WriteInt(v).value] == [WriteInt(v).value];
  }

  lemma SmallRoot()
    ensures Small(WriteRootOfTrust(RootOfTrust(BOOT_KEY, true, BootVerified, None)), 136)
  {
    SmallOctets(BOOT_KEY, 32);
    SmallTlv(UNIVERSAL, false, BOOLEAN, [0xff], 1);
    SmallEnumerated(0);
    hide WellFormed, Encode, WriteOctets, WriteEnumerated, WriteSequence;
    var items := [WriteOctets(BOOT_KEY).value, WriteBoolean(true).value, WriteEnumerated(0).value];
    SmallSequence(items, 42, 126);
  }

  lemma SmallApplication(encode: Encoder, package: string, signer: Bytes)
    requires |encode(package)| <= 1000 && |signer| <= 32
    ensures Small(WriteApplicationId(encode, [PackageInfo(package, 1)], [signer]), 4132)
  {
    hide WellFormed, Encode, WriteOctets, WriteInt, WriteSequence, WriteSet;
    SmallOctets(encode(package), 1000);
    SmallNumber(1);
    SmallSequence([WriteOctets(encode(package)).value, WriteInt(1).value], 1010, 2020);
    var p := WritePackage(encode, PackageInfo(package, 1)).value;
    OnePackage(encode, PackageInfo(package, 1));
    SmallOctets(signer, 32);
    OneSignature(signer);
    var s := WriteOctets(signer).value;
    SmallSet([p], 2030, 2030);
    SmallSet([s], 42, 42);
    var items := [WriteSet([p]).value, WriteSet([s]).value];
    SmallSequence(items, 2040, 4080);
    var inner := WriteSequence(items).value;
    SmallOctets(inner.raw, 4122);
  }

  lemma OnePackage(encode: Encoder, p: PackageInfo)
    requires WritePackage(encode, p).Ok?
    ensures WritePackages(encode, [p]) == Ok([WritePackage(encode, p).value])
  {
    hide WritePackage;
    assert [p][..0] == [];
    assert WritePackages(encode, [p][..0]) == Ok([]);
    var none: seq<Tlv> := [];
    assert none + [WritePackage(encode, p).value] == [WritePackage(encode, p).value];
  }

  lemma OneSignature(b: Bytes)
    requires WriteOctets(b).Ok?
    ensures WriteSignatures([b]) == Ok([WriteOctets(b).value])
  {
    hide WriteOctets;
    assert [b][..0] == [];
    assert WriteSignatures([b][..0]) == Ok([]);
    var none: seq<Tlv> := [];
    assert none + [WriteOctets(b).value] == [WriteOctets(b).value];
  }

  /** Attributes whose values are all small. */
  ghost predicate SmallValues(encode: Encoder, attributes: Attributes, order: seq<nat>) {
    forall i :: 0 <= i < |order| ==>
      order[i] < 1000 && order[i] in attributes && Small(WriteValue(encode, attributes[order[i]]), 4132)
  }

  lemma SmallAttribute(encode: Encoder, tag: nat, v: Value)
    requires tag < 1000 && Small(WriteValue(encode, v), 4132)
    ensures Small(WriteAttribute(encode, tag, v), 4142)
  {
    hide WellFormed, Encode, WriteValue;
    var inner := WriteValue(encode, v).value;
    ConcatenatedBound([inner], 4132);
    SmallTlv(CONTEXT_SPECIFIC, true, tag, Concatenated([inner]), 4132);
  }

  lemma {:induction false} SmallAttributes(encode: Encoder, attributes: Attributes, order: seq<nat>)
    requires SmallValues(encode, attributes, order)
    ensures var items := WriteAttributes(encode, attributes, order);
            items.Ok? && |items.value| == |order| && AllSmall(items.value, 4142)
  {
    hide WellFormed, WriteValue, WriteAttribute;
    if order != [] {
      var n := |order| - 1;
      SmallAttributes(encode, attributes, order[..n]);
      SmallAttribute(encode, order[n], attributes[order[n]]);
    }
  }

  lemma SmallList(encode: Encoder, attributes: Attributes, order: seq<nat>)
    requires SmallValues(encode, attributes, order) && |order| <= 10
    ensures Small(WriteList(encode, attributes, order), 41430)
  {
    hide WellFormed, WriteValue, WriteAttributes, WriteSequence;
    SmallAttributes(encode, attributes, order);
    SmallSequence(WriteAttributes(encode, attributes, order).value, 4142, 41420);
  }

  lemma SmallSoftware(encode: Encoder, package: string, signer: Bytes)
    requires |encode(package)| <= 1000 && |signer| <= 32
    ensures SmallValues(encode, SoftwareOf(package, signer), [ATTESTATION_APPLICATION_ID])
  {
    hide WriteApplicationId, WellFormed;
    SmallApplication(encode, package, signer);
  }

  lemma SmallHardware(encode: Encoder, level: nat)
    requires level < 0x100_0000
    ensures SmallValues(encode, HardwareOf(level), HARDWARE_ORDER)
  {
    hide WriteInt, WriteIntSet, WriteRootOfTrust, WriteOctets, WellFormed;
    SmallIntSet(2);
    SmallIntSet(4);
    SmallNumber(3);
    SmallNumber(256);
    SmallNumber(1);
    SmallNumber(0);
    SmallNumber(level);
    SmallRoot();
  }

  // ---- and it says what it should -----------------------------------------------------------------------

  lemma SoftwareSuits(package: string, signer: Bytes)
    ensures Suitable(DEFAULT_LIMITS, SoftwareOf(package, signer))
    ensures Orders([ATTESTATION_APPLICATION_ID], SoftwareOf(package, signer))
  {
    AuthorizationLists.OtherKinds();
    hide KindOf;
  }

  lemma OneNumber(v: int)
    ensures NoDuplicates([v])
  {
  }

  lemma HardwareTagsAreKnown()
    ensures PURPOSE in KNOWN_TAGS && ALGORITHM in KNOWN_TAGS && KEY_SIZE in KNOWN_TAGS && DIGEST in KNOWN_TAGS
    ensures EC_CURVE in KNOWN_TAGS && ORIGIN in KNOWN_TAGS && ROOT_OF_TRUST in KNOWN_TAGS
    ensures OS_PATCH_LEVEL in KNOWN_TAGS && VENDOR_PATCH_LEVEL in KNOWN_TAGS && BOOT_PATCH_LEVEL in KNOWN_TAGS
  {
  }

  lemma HardwareIsSuitable(level: nat)
    ensures Suitable(DEFAULT_LIMITS, HardwareOf(level))
  {
    AuthorizationLists.NumberKinds();
    AuthorizationLists.OtherKinds();
    OneNumber(2);
    OneNumber(4);
    HardwareTagsAreKnown();
    hide KindOf, KNOWN_TAGS, NoDuplicates;
  }

  lemma HardwareOrderIs()
    ensures var o := HARDWARE_ORDER;
            && o[0] == PURPOSE && o[1] == ALGORITHM && o[2] == KEY_SIZE && o[3] == DIGEST && o[4] == EC_CURVE
            && o[5] == ORIGIN && o[6] == ROOT_OF_TRUST && o[7] == OS_PATCH_LEVEL && o[8] == VENDOR_PATCH_LEVEL
            && o[9] == BOOT_PATCH_LEVEL
    ensures NoDuplicates(HARDWARE_ORDER)
  {
    assert forall i :: 0 <= i < 9 ==> HARDWARE_ORDER[i] < HARDWARE_ORDER[i + 1];
    Increasing(HARDWARE_ORDER);
  }

  lemma {:induction false} Increasing(s: seq<nat>)
    requires forall i :: 0 <= i < |s| - 1 ==> s[i] < s[i + 1]
    ensures NoDuplicates(s)
  {
    forall i, j | 0 <= i < j < |s| ensures s[i] != s[j] { IncreasingPair(s, i, j); }
  }

  lemma {:induction false} IncreasingPair(s: seq<nat>, i: nat, j: nat)
    requires (forall i :: 0 <= i < |s| - 1 ==> s[i] < s[i + 1]) && i < j < |s|
    ensures s[i] < s[j]
    decreases j
  {
    assert s[j - 1] < s[j - 1 + 1];
    if i < j - 1 { IncreasingPair(s, i, j - 1); }
  }

  lemma HardwareSuits(level: nat)
    ensures Suitable(DEFAULT_LIMITS, HardwareOf(level)) && Orders(HARDWARE_ORDER, HardwareOf(level))
  {
    HardwareIsSuitable(level);
    HardwareOrderIs();
    hide NoDuplicates, Suitable;
  }

  /** The extension can be written, and is parsed back. */
  lemma SpecifiedReads(decode: Decoder, encode: Encoder, challenge: Bytes, package: string, signer: Bytes,
        strongBox: bool, level: nat)
    requires Inverse(decode, encode) && |encode(package)| <= 1000 && |signer| <= 32 && |challenge| <= 1000 && level < 0x100_0000
    ensures var s := Specified(challenge, package, signer, strongBox, level);
            && Writable(DEFAULT_LIMITS, s) && WriteDescription(encode, s).Ok?
            && AuthorizationLists.ParsedDescription(decode, DEFAULT_LIMITS, WriteDescription(encode, s).value.raw) ==
               Ok(DescriptionOf(s))
  {
    var s := Specified(challenge, package, signer, strongBox, level);
    SoftwareSuits(package, signer);
    HardwareSuits(level);
    hide WriteInt, WriteEnumerated, WriteOctets, WriteList, WriteSequence, WellFormed, SoftwareOf, HardwareOf, HARDWARE_ORDER,
      Suitable, Orders, Inverse, DescriptionOf;
    SpecifiedIsSmall(encode, challenge, package, signer, strongBox, level);
    DescriptionRoundTrip(decode, encode, DEFAULT_LIMITS, s);
  }

  lemma SpecifiedIsSmall(encode: Encoder, challenge: Bytes, package: string, signer: Bytes,
        strongBox: bool, level: nat)
    requires |encode(package)| <= 1000 && |signer| <= 32 && |challenge| <= 1000 && level < 0x100_0000
    requires Orders([ATTESTATION_APPLICATION_ID], SoftwareOf(package, signer)) && Orders(HARDWARE_ORDER, HardwareOf(level))
    ensures WriteDescription(encode, Specified(challenge, package, signer, strongBox, level)).Ok?
  {
    hide WriteInt, WriteEnumerated, WriteOctets, WriteList, WriteSequence, WellFormed, SoftwareOf, HardwareOf, SmallValues,
      HARDWARE_ORDER;
    SmallSoftware(encode, package, signer);
    SmallHardware(encode, level);
    TenAttributes();
    SmallNumber(300);
    SmallEnumerated(LevelNumber(LevelFor(strongBox)));
    SmallOctets(challenge, 1000);
    SmallOctets([], 0);
    SmallList(encode, SoftwareOf(package, signer), [ATTESTATION_APPLICATION_ID]);
    SmallList(encode, HardwareOf(level), HARDWARE_ORDER);
    hide Specified;
    DescriptionIsWritten(encode, challenge, package, signer, strongBox, level);
  }

  lemma TenAttributes()
    ensures |HARDWARE_ORDER| == 10
  {
  }

  lemma DescriptionIsWritten(encode: Encoder, challenge: Bytes, package: string, signer: Bytes,
        strongBox: bool, level: nat)
    requires Orders([ATTESTATION_APPLICATION_ID], SoftwareOf(package, signer)) && Orders(HARDWARE_ORDER, HardwareOf(level))
    requires Small(WriteInt(300), 14) && Small(WriteEnumerated(LevelNumber(LevelFor(strongBox))), 14)
    requires Small(WriteOctets(challenge), 1010) && Small(WriteOctets([]), 10)
    requires Small(WriteList(encode, SoftwareOf(package, signer), [ATTESTATION_APPLICATION_ID]), 41430)
    requires Small(WriteList(encode, HardwareOf(level), HARDWARE_ORDER), 41430)
    ensures WriteDescription(encode, Specified(challenge, package, signer, strongBox, level)).Ok?
  {
    hide WriteInt, WriteEnumerated, WriteOctets, WriteList, WriteSequence, WellFormed, SoftwareOf, HardwareOf, NoDuplicates,
      LevelNumber, HARDWARE_ORDER;
    var version, levelItem := WriteInt(300).value, WriteEnumerated(LevelNumber(LevelFor(strongBox))).value;
    var items := [version, levelItem, version, levelItem, WriteOctets(challenge).value, WriteOctets([]).value,
                  WriteList(encode, SoftwareOf(package, signer), [ATTESTATION_APPLICATION_ID]).value,
                  WriteList(encode, HardwareOf(level), HARDWARE_ORDER).value];
    SmallSequence(items, 41430, 331440);
  }
}

/** Requests that are accepted: chains with real names and a parsing attestation. */
module AcceptedRequests {
  import opened Common
  import opened Path
  import opened WrittenNames
  import opened WrittenDescription
  import opened Verifier
  import C = ChainVerification
  import AuthorizationLists
  import Base64
  import ByteStrings
  import Calendar
  import ChainShape
  import KeyDescription
  import KeyDescriptionWriter
  import Names
  import Patches
  import Revocations
  import Verdicts

  // ---- the names of the chain -----------------------------------------------------------------------------

  /** The name that a written name is read as. */
  function ReadName(u: Names.Unicode, first: (Bytes, string), second: (Bytes, string)): Names.Name
    requires IsLatin1(first.1) && IsLatin1(second.1)
  {
    var e := WriteName(first, second);
    if e.Ok? && Names.ParseName(u, e.value).Ok? then Names.ParseName(u, e.value).value else Names.Name([], [])
  }

  function RootName(u: Names.Unicode): Names.Name {
    ReadName(u, (COMMON_NAME_OID, "Attestation root"), (ORGANIZATION_OID, "Google LLC"))
  }

  function IntermediateName(u: Names.Unicode): Names.Name {
    ReadName(u, (COMMON_NAME_OID, "Droid CA2"), (ORGANIZATION_OID, "Google LLC"))
  }

  function ServerName(u: Names.Unicode): Names.Name {
    ReadName(u, (COMMON_NAME_OID, "Droid CA3"), (ORGANIZATION_OID, "Google LLC"))
  }

  function HardwareText(strongBox: bool): string {
    if strongBox then "StrongBox" else "TEE"
  }

  function AttestationName(u: Names.Unicode, strongBox: bool): Names.Name {
    ReadName(u, (COMMON_NAME_OID, "Attestation key"), (ORGANIZATION_OID, HardwareText(strongBox)))
  }

  /** Trimming leaves these texts alone. */
  ghost predicate Trims(u: Names.Unicode) {
    u.trim("Droid CA2") == "Droid CA2" && u.trim("Google LLC") == "Google LLC" && u.trim("TEE") == "TEE"
    && u.trim("StrongBox") == "StrongBox"
  }

  lemma ReadNameReads(u: Names.Unicode, common: string, organization: string)
    requires IsLatin1(common) && IsLatin1(organization)
    ensures ReadsTwo(ReadName(u, (COMMON_NAME_OID, common), (ORGANIZATION_OID, organization)),
                     (Names.COMMON_NAME, common), (Names.ORGANIZATION, organization))
  {
    Identifiers();
    NameReads(u, (COMMON_NAME_OID, common), (ORGANIZATION_OID, organization), Names.COMMON_NAME, Names.ORGANIZATION);
    hide WriteName, Names.ParseName, ReadsTwo;
  }

  lemma IdentifiersDiffer()
    ensures Names.COMMON_NAME != Names.ORGANIZATION && Names.COMMON_NAME != Names.SERIAL_NUMBER
    ensures Names.ORGANIZATION != Names.SERIAL_NUMBER
  {
    assert Names.COMMON_NAME[6] == '3' && Names.SERIAL_NUMBER[6] == '5' && Names.ORGANIZATION[6] == '1';
  }

  /** What a name of these two attributes says. */
  lemma TwoAttributes(u: Names.Unicode, n: Names.Name, common: string, organization: string)
    requires ReadsTwo(n, (Names.COMMON_NAME, common), (Names.ORGANIZATION, organization))
    ensures Names.AttributeText(u, n, Names.COMMON_NAME) == Some(u.trim(common))
    ensures Names.AttributeText(u, n, Names.ORGANIZATION) == Some(u.trim(organization))
    ensures !Names.HasAttribute(n, Names.SERIAL_NUMBER)
  {
    IdentifiersDiffer();
    var a, b := n.rdns[0][0], n.rdns[1][0];
    assert n.rdns[0] == [a] && n.rdns[1] == [b];
    assert n.rdns[..1] == [n.rdns[0]] && [n.rdns[0]][..0] == [];
    assert Names.Flattened([n.rdns[0]]) == [] + [a] == [a];
    assert Names.Flattened(n.rdns) == [a] + [b] == [a, b];
    assert [a, b][..1] == [a] && [a][..0] == [];
    hide Names.SERIAL_NUMBER, Names.COMMON_NAME, Names.ORGANIZATION;
    assert Names.LastText([a], Names.COMMON_NAME) == Some(common);
  }

  // ---- the chain --------------------------------------------------------------------------------------------

  const LEAF_KEY := PublicKey([1], EC_PUBLIC_KEY, Some(P256))
  const OTHER_KEY := PublicKey([2], EC_PUBLIC_KEY, Some(P256))

  function Leaf(issuer: Names.Name, subject: Names.Name, critical: bool, value: Bytes, until: int): Certificate {
    Certificate(1, [0], ECDSA_SHA256, [0], issuer, subject, 0, until, LEAF_KEY,
                map[KEY_ATTESTATION := Extension(critical, value)])
  }

  function Link(issuer: Names.Name, subject: Names.Name, until: int): Certificate {
    Certificate(1, [1], ECDSA_SHA256, [1], issuer, subject, 0, until, OTHER_KEY, map[])
  }

  /** A remotely provisioned chain of n certificates; with five the leaf stands at the target step, with
      fewer its attestation extension is critical. */
  function Chain(u: Names.Unicode, strongBox: bool, n: nat, value: Bytes, until: int): seq<Certificate>
    requires 3 <= n <= 5
  {
    var root, below := Link(RootName(u), RootName(u), until), Link(RootName(u), IntermediateName(u), until);
    if n == 3 then
      [Leaf(IntermediateName(u), ServerName(u), true, value, until), below, root]
    else if n == 4 then
      [Leaf(AttestationName(u, strongBox), ServerName(u), true, value, until),
       Link(IntermediateName(u), AttestationName(u, strongBox), until), below, root]
    else
      [Leaf(AttestationName(u, strongBox), ServerName(u), false, value, until),
       Link(ServerName(u), AttestationName(u, strongBox), until), Link(IntermediateName(u), ServerName(u), until), below, root]
  }

  /** Every certificate's signature checks under the next one's key. */
  ghost predicate Signed(w: World, chain: seq<Certificate>) {
    forall i :: 0 <= i < |chain| - 1 ==> SignedBy(w, chain[i], chain[i + 1].publicKey)
  }

  lemma ChainIsRemote(w: World, strongBox: bool, n: nat, value: Bytes, until: int)
    requires 3 <= n <= 5 && Trims(w.unicode)
    ensures var chain := Chain(w.unicode, strongBox, n, value, until);
            && |chain| == n && ProvisioningMethod(w, chain).RemotelyProvisioned?
            && (n > 3 ==> CertifiedLevel(w, chain) == Some(LevelFor(strongBox)))
  {
    hide RootName, IntermediateName, ServerName, AttestationName, Names.AttributeText, Names.HasAttribute, ReadName, Trims;
    NamesSay(w.unicode, strongBox);
    var chain := Chain(w.unicode, strongBox, n, value, until);
    assert chain[n - 2].subject == IntermediateName(w.unicode);
    assert n > 3 ==> chain[1].subject == AttestationName(w.unicode, strongBox);
  }

  lemma NamesSay(u: Names.Unicode, strongBox: bool)
    requires Trims(u)
    ensures Names.AttributeText(u, IntermediateName(u), Names.COMMON_NAME) == Some(DROID_CA2)
    ensures Names.AttributeText(u, IntermediateName(u), Names.ORGANIZATION) == Some(GOOGLE_LLC)
    ensures !Names.HasAttribute(IntermediateName(u), Names.SERIAL_NUMBER)
    ensures Names.AttributeText(u, AttestationName(u, strongBox), Names.ORGANIZATION) == Some(HardwareText(strongBox))
  {
    hide Names.AttributeText, Names.HasAttribute, ReadName, ReadsTwo;
    ReadNameReads(u, "Droid CA2", "Google LLC");
    TwoAttributes(u, IntermediateName(u), "Droid CA2", "Google LLC");
    ReadNameReads(u, "Attestation key", HardwareText(strongBox));
    TwoAttributes(u, AttestationName(u, strongBox), "Attestation key", HardwareText(strongBox));
  }

  lemma ChainLinks(u: Names.Unicode, strongBox: bool, n: nat, value: Bytes, until: int, i: nat)
    requires 3 <= n <= 5 && i < n - 1
    ensures var chain := Chain(u, strongBox, n, value, until);
            && chain[i].issuer == chain[i + 1].subject && chain[i].notBefore == 0 && chain[i].notAfter == until
            && chain[i].serial == 1 && (i > 0 ==> chain[i].extensions == map[])
            && chain[0].extensions == map[KEY_ATTESTATION := Extension(n < 5, value)]
            && chain[n - 1] == Link(RootName(u), RootName(u), until)
  {
    hide RootName, IntermediateName, ServerName, AttestationName;
  }

  ghost predicate Unlisted(revoked: set<string>) {
    Revocations.SerialHex(1) !in revoked
  }

  lemma ChainIsValid(w: World, strongBox: bool, n: nat, value: Bytes, until: nat, revoked: set<string>)
    requires 3 <= n <= 5 && Trims(w.unicode) && Signed(w, Chain(w.unicode, strongBox, n, value, until)) && Unlisted(revoked)
    ensures var chain := Chain(w.unicode, strongBox, n, value, until);
            IsPath(chain) && ValidPath(Walk(w, chain, chain[n - 1], revoked, until))
  {
    ChainIsRemote(w, strongBox, n, value, until);
    hide Chain, ProvisioningMethod, CertifiedLevel, Names.Equal, Trims;
    var chain := Chain(w.unicode, strongBox, n, value, until);
    var k := Walk(w, chain, chain[n - 1], revoked, until);
    ChainLinks(w.unicode, strongBox, n, value, until, 0);
    SameNameIsEqual(RootName(w.unicode));
    forall i | 0 <= i < n - 1 ensures ValidCertificate(k, i) {
      ChainLinks(w.unicode, strongBox, n, value, until, n - 2 - i);
      SameNameIsEqual(chain[n - 2 - i].issuer);
      hide Signed;
      StepIsValid(k, strongBox, n, value, until, i);
    }
  }

  lemma SameNameIsEqual(n: Names.Name)
    ensures Names.Equal(n, n)
  {
  }

  lemma StepIsValid(k: Walk, strongBox: bool, n: nat, value: Bytes, until: nat, i: nat)
    requires 3 <= n <= 5 && i < n - 1 && k.chain == Chain(k.w.unicode, strongBox, n, value, until) && |k.chain| == n
    requires k.anchor == k.chain[n - 1] && k.nowMs == until && Unlisted(k.revoked) && Signed(k.w, k.chain)
    requires ProvisioningMethod(k.w, k.chain).RemotelyProvisioned?
    ensures ValidCertificate(k, i)
  {
    hide Chain, ProvisioningMethod, Names.Equal, Revocations.SerialHex;
    var j := n - 2 - i;
    ChainLinks(k.w.unicode, strongBox, n, value, until, j);
    SameNameIsEqual(k.chain[j].issuer);
    assert Walked(k, i) == k.chain[j] && Previous(k, i) == k.chain[j + 1];
    assert SignedBy(k.w, k.chain[j], k.chain[j + 1].publicKey);
    hide Signed;
    assert HasAttestationExtension(k.chain[j]) <==> j == 0 && n == 5;
    assert StepsOf(k) == [RkpIntermediate, RkpServer, AttestationKey, Target];
  }

  // ---- the request ------------------------------------------------------------------------------------------

  /** The parts of an accepted input that are free: the hardware, the day and the time, the application, its signer, and
      the challenge. */
  datatype Case = Case(
    n: nat,
    strongBox: bool,
    w: World,
    encode: KeyDescriptionWriter.Encoder,
    package: string,
    signer: Bytes,
    year: nat,
    month: nat,
    day: nat,
    nowMs: nat)

  /** What is asked of them: the encoder inverts the decoder, texts are trimmed already, the application's
      name is not too long, and the time is on the day. */
  ghost predicate Proper(c: Case) {
    && 3 <= c.n <= 5 && KeyDescriptionWriter.Inverse(c.w.decode, c.encode) && Trims(c.w.unicode)
    && |c.encode(c.package)| <= 1000 && |c.signer| <= 32
    && 1970 <= c.year <= 9999 && 1 <= c.month <= 12 && 1 <= c.day <= Calendar.DaysIn(c.year, c.month)
    && var start := Calendar.DayNumber(c.year, c.month, c.day) * Calendar.DAY_MS;
       start <= c.nowMs < start + Calendar.DAY_MS
  }

  function Level(c: Case): nat {
    c.year * 100 + c.month
  }

  /** The attestation extension that answers a challenge. */
  function ExtensionFor(c: Case, challenge: Bytes): Bytes {
    var s := Specified(challenge, c.package, c.signer, c.strongBox, Level(c));
    if KeyDescriptionWriter.WriteDescription(c.encode, s).Ok?
    then KeyDescriptionWriter.WriteDescription(c.encode, s).value.raw else []
  }

  function ChainFor(c: Case, challenge: Bytes): seq<Certificate>
    requires 3 <= c.n <= 5
  {
    Chain(c.w.unicode, c.strongBox, c.n, ExtensionFor(c, challenge), c.nowMs)
  }

  /** The server: it trusts the root of the chain, and reads the one octet k as certificate k of it. */
  function ServerFor(c: Case, challenge: Bytes): Config
    requires 3 <= c.n <= 5
  {
    var chain := ChainFor(c, challenge);
    Config(c.w, der => if |der| == 1 && der[0] < |chain| then Some(chain[der[0]]) else None, [chain[|chain| - 1]],
           c.package, ByteStrings.HexOf(c.signer))
  }

  ghost function Encoded(k: byte): string {
    StandardAlphabet();
    Base64.EncodeOf([k], Base64.STD_ALPHABET, true)
  }

  /** The request body for a token. */
  ghost function BodyFor(c: Case, token: string): AttestRequest
    requires c.n <= 5
  {
    AttestRequest(token, seq(c.n, i requires 0 <= i < c.n => Encoded(i)), Encoded(0))
  }

  ghost function InputFor(c: Case, challenge: Bytes, token: string, revoked: set<string>): Input
    requires 3 <= c.n <= 5
  {
    Input(ServerFor(c, challenge), BodyFor(c, token), challenge, revoked, c.nowMs)
  }

  /** The signatures of the chain check, and so does the proof of possession. */
  ghost predicate SignaturesCheck(c: Case, challenge: Bytes)
    requires 3 <= c.n <= 5
  {
    Signed(c.w, ChainFor(c, challenge)) && c.w.verify(LEAF_KEY, ECDSA_SHA256, [0], challenge)
  }

  lemma EncodedDecodes(k: byte)
    ensures |Encoded(k)| == 4 && Base64.GoodAlphabet(Base64.STD_ALPHABET)
    ensures Base64.DecodeOf(Encoded(k), Base64.STD_ALPHABET) == Ok([k])
  {
    StandardAlphabet();
    hide Base64.DecodeOf;
    Base64.DecodeOfEncode([k], Base64.STD_ALPHABET, true);
    Base64.SextetCountIs(0, 1);
  }

  lemma {:induction false} AllDecode(cfg: Config, encoded: seq<string>, chain: seq<Certificate>)
    requires |encoded| == |chain|
    requires forall i :: 0 <= i < |chain| ==> DecodedCertificate(cfg, encoded[i]) == Some(chain[i])
    ensures DecodedChain(cfg, encoded) == Some(chain)
  {
    hide DecodedCertificate;
    if encoded != [] {
      var n := |chain| - 1;
      AllDecode(cfg, encoded[..n], chain[..n]);
      assert chain == chain[..n] + [chain[n]];
    } else {
      assert chain == [];
    }
  }

  lemma CertificateDecodes(c: Case, challenge: Bytes, k: byte)
    requires 3 <= c.n <= 5 && k < |ChainFor(c, challenge)|
    ensures DecodedCertificate(ServerFor(c, challenge), Encoded(k)) == Some(ChainFor(c, challenge)[k])
  {
    EncodedDecodes(k);
    hide Base64.DecodeOf, Encoded, ChainFor;
  }

  /** What the chain is, apart from its names. */
  lemma ChainFacts(c: Case, challenge: Bytes)
    requires Proper(c)
    ensures var chain := ChainFor(c, challenge);
            && |chain| == c.n && ProvisioningMethod(c.w, chain).RemotelyProvisioned? && IsSelfIssued(chain[c.n - 1])
            && (forall i :: 0 <= i < c.n ==> chain[i].serial == 1)
            && chain[0].publicKey == LEAF_KEY && chain[0].notBefore == 0 && chain[0].notAfter == c.nowMs
            && ExtensionValue(chain[0], KEY_ATTESTATION) == Some(ExtensionFor(c, challenge))
            && (HasAttestationExtension(chain[0]) <==> c.n == 5)
  {
    hide Chain, ProvisioningMethod, CertifiedLevel, ExtensionFor, Names.Equal, Trims, KeyDescriptionWriter.Inverse,
      Calendar.DayNumber, Calendar.DaysIn, RootName, HasAttestationExtension;
    var value := ExtensionFor(c, challenge);
    ChainIsRemote(c.w, c.strongBox, c.n, value, c.nowMs);
    LeafIs(c.w.unicode, c.strongBox, c.n, value, c.nowMs);
    forall i | 0 <= i < c.n ensures ChainFor(c, challenge)[i].serial == 1 {
      ChainLinks(c.w.unicode, c.strongBox, c.n, value, c.nowMs, if i < c.n - 1 then i else 0);
    }
    ChainLinks(c.w.unicode, c.strongBox, c.n, value, c.nowMs, 0);
    SameNameIsEqual(RootName(c.w.unicode));
  }

  lemma ChainIsRead(c: Case, challenge: Bytes, token: string, revoked: set<string>)
    requires Proper(c)
    ensures ChainOf(InputFor(c, challenge, token, revoked)) == Some(ChainFor(c, challenge))
  {
    hide ChainFor, DecodedCertificate, IsSelfIssued, Encoded, ProvisioningMethod, ServerFor, Trims, KeyDescriptionWriter.Inverse,
      Calendar.DayNumber, Calendar.DaysIn, HasAttestationExtension;
    ChainFacts(c, challenge);
    var chain := ChainFor(c, challenge);
    var encoded := BodyFor(c, token).chain;
    forall i | 0 <= i < |chain| ensures DecodedCertificate(ServerFor(c, challenge), encoded[i]) == Some(chain[i]) {
      CertificateDecodes(c, challenge, i);
    }
    AllDecode(ServerFor(c, challenge), encoded, chain);
  }

  lemma ExtensionReads(c: Case, challenge: Bytes)
    requires Proper(c) && |challenge| <= 1000
    ensures AuthorizationLists.ParsedDescription(c.w.decode, KeyDescription.DEFAULT_LIMITS, ExtensionFor(c, challenge)) ==
            Ok(KeyDescriptionWriter.DescriptionOf(Specified(challenge, c.package, c.signer, c.strongBox, Level(c))))
  {
    SpecifiedReads(c.w.decode, c.encode, challenge, c.package, c.signer, c.strongBox, Level(c));
    hide KeyDescriptionWriter.WriteDescription, AuthorizationLists.ParsedDescription, KeyDescriptionWriter.DescriptionOf;
  }

  lemma HardwareSays(level: nat)
    ensures var h := KeyDescriptionWriter.Described(HardwareOf(level));
            && h.purposes == Some([2]) && h.algorithms == Some(3) && h.keySize == Some(256) && h.digests == Some([4])
            && h.ecCurve == Some(1) && h.origin == Some(KeyDescription.Generated)
            && h.rootOfTrust == Some(KeyDescription.RootOfTrust(BOOT_KEY, true, KeyDescription.BootVerified, None))
            && h.osPatchLevel == Some(level) && h.vendorPatchLevel == Some(level) && h.bootPatchLevel == Some(level)
  {
  }

  lemma SoftwareSays(package: string, signer: Bytes)
    ensures KeyDescriptionWriter.Described(SoftwareOf(package, signer)).applicationId ==
            Some(KeyDescription.ApplicationId([KeyDescription.PackageInfo(package, 1)], [ByteStrings.HexOf(signer)]))
  {
    hide ByteStrings.HexOf;
    assert KeyDescriptionWriter.Hexes([signer]) == [ByteStrings.HexOf(signer)];
  }

  /** What the extension says, control by control. */
  lemma DescriptionSays(c: Case, challenge: Bytes)
    ensures var d := KeyDescriptionWriter.DescriptionOf(Specified(challenge, c.package, c.signer, c.strongBox, Level(c)));
            && d.challenge == challenge && d.keyMintLevel == LevelFor(c.strongBox)
            && C.OriginHolds(d) && C.LevelHolds(d) && C.RootHolds(d) && DeviceHolds(d) && SigningKeyHolds(d)
            && d.softwareEnforced.applicationId ==
               Some(KeyDescription.ApplicationId([KeyDescription.PackageInfo(c.package, 1)], [ByteStrings.HexOf(c.signer)]))
            && d.hardwareEnforced.osPatchLevel == Some(Level(c)) && d.hardwareEnforced.vendorPatchLevel == Some(Level(c))
            && d.hardwareEnforced.bootPatchLevel == Some(Level(c))
  {
    hide ByteStrings.HexOf, KeyDescriptionWriter.Described, Level, HardwareOf, SoftwareOf;
    HardwareSays(Level(c));
    SoftwareSays(c.package, c.signer);
  }

  lemma LevelIsNow(c: Case)
    requires Proper(c)
    ensures Patches.LevelIsCurrent(Some(Level(c)), c.nowMs)
  {
    var v := Level(c);
    Patches.PatchMonthIsArithmetic(v);
    var start := Calendar.DayNumber(c.year, c.month, c.day) * Calendar.DAY_MS;
    Patches.CurrentOnADay(v, c.year, c.month, c.day, c.nowMs - start, c.nowMs);
    hide Patches.PatchMonth, Patches.LevelIsCurrent, Calendar.DayNumber, Trims, KeyDescriptionWriter.Inverse;
    assert v / 100 == c.year && v % 100 == c.month;
  }

  // ---- it is accepted -----------------------------------------------------------------------------------------

  lemma AttestationIsRead(c: Case, o: C.Options, challenge: Bytes)
    requires Proper(c) && |challenge| <= 1000 && o.w == c.w && o.limits == KeyDescription.DEFAULT_LIMITS
    ensures ChainFor(c, challenge) != []
    ensures C.Attested(o, ChainFor(c, challenge)) ==
            Ok(KeyDescriptionWriter.DescriptionOf(Specified(challenge, c.package, c.signer, c.strongBox, Level(c))))
  {
    ExtensionReads(c, challenge);
    ChainLinks(c.w.unicode, c.strongBox, c.n, ExtensionFor(c, challenge), c.nowMs, 0);
    ChainIsRemote(c.w, c.strongBox, c.n, ExtensionFor(c, challenge), c.nowMs);
    hide Chain, ExtensionFor, AuthorizationLists.ParsedDescription, KeyDescriptionWriter.DescriptionOf, Trims, ProvisioningMethod,
      CertifiedLevel, Specified, Calendar.DaysIn, Calendar.DayNumber;
  }

  lemma ProperTrims(c: Case)
    requires Proper(c)
    ensures 3 <= c.n <= 5 && Trims(c.w.unicode)
  {
    hide Trims, Calendar.DayNumber, Calendar.DaysIn, KeyDescriptionWriter.Inverse;
  }

  lemma ChainIsAnchored(c: Case, o: C.Options, challenge: Bytes)
    requires Proper(c) && SignaturesCheck(c, challenge) && Unlisted(o.revoked)
    requires var chain := ChainFor(c, challenge);
             chain != [] && o.w == c.w && o.anchors == [chain[|chain| - 1]] && o.nowMs == c.nowMs
    ensures IsPath(ChainFor(c, challenge)) && |ChainFor(c, challenge)| == c.n && C.Anchored(o, ChainFor(c, challenge))
  {
    ProperTrims(c);
    hide Chain, ValidPath, Names.Equal, ExtensionFor, Proper, Trims, ProvisioningMethod, CertifiedLevel, Signed, Unlisted, IsPath,
      C.Anchored;
    var chain := ChainFor(c, challenge);
    ChainIsRemote(c.w, c.strongBox, c.n, ExtensionFor(c, challenge), c.nowMs);
    ChainIsValid(c.w, c.strongBox, c.n, ExtensionFor(c, challenge), c.nowMs, o.revoked);
    ChainLinks(c.w.unicode, c.strongBox, c.n, ExtensionFor(c, challenge), c.nowMs, c.n - 2);
    OneAnchor(o, chain);
  }

  lemma OneAnchor(o: C.Options, chain: seq<Certificate>)
    requires |chain| >= 3 && o.anchors == [chain[|chain| - 1]] && chain[|chain| - 2].issuer == chain[|chain| - 1].subject
    requires ValidPath(Walk(o.w, chain, chain[|chain| - 1], o.revoked, o.nowMs))
    ensures C.Anchored(o, chain)
  {
    SameNameIsEqual(chain[|chain| - 1].subject);
    hide ValidPath, Names.Equal;
    assert C.Anchors(o, chain, o.anchors[0]);
  }

  lemma ChainControlsHold(c: Case, challenge: Bytes, token: string, revoked: set<string>, ctl: Control)
    requires Proper(c) && SignaturesCheck(c, challenge) && Unlisted(revoked)
    ensures ChainFor(c, challenge) != []
    ensures ChainHolds(InputFor(c, challenge, token, revoked), ctl, ChainFor(c, challenge))
  {
    hide ChainFor, ProvisioningMethod, C.Anchored, IsPath, Listed, Proven, Proper, SignaturesCheck, Unlisted,
      HasAttestationExtension, BodyFor, ConstraintsFor;
    ProperSize(c);
    var x := InputFor(c, challenge, token, revoked);
    ChainFacts(c, challenge);
    ChainIsAnchored(c, OptionsOf(x), challenge);
    NoneIsListed(x, ChainFor(c, challenge));
    PossessionIsProven(c, challenge, token, revoked);
  }

  lemma ProperSize(c: Case)
    requires Proper(c)
    ensures 3 <= c.n <= 5
  {
  }

  lemma NoneIsListed(x: Input, chain: seq<Certificate>)
    requires Unlisted(x.revoked) && forall i :: 0 <= i < |chain| ==> chain[i].serial == 1
    ensures !Listed(x, chain)
  {
    hide Revocations.SerialHex;
  }

  lemma PossessionIsProven(c: Case, challenge: Bytes, token: string, revoked: set<string>)
    requires 3 <= c.n <= 5 && SignaturesCheck(c, challenge)
    ensures Proven(InputFor(c, challenge, token, revoked), LEAF_KEY)
  {
    hide ChainFor, Encoded, Base64.DecodeOf, Signed;
    EncodedDecodes(0);
  }

  lemma LeafIs(u: Names.Unicode, strongBox: bool, n: nat, value: Bytes, until: int)
    requires 3 <= n <= 5
    ensures var leaf := Chain(u, strongBox, n, value, until)[0];
            && leaf.publicKey == LEAF_KEY && leaf.notBefore == 0 && leaf.notAfter == until
            && ExtensionValue(leaf, KEY_ATTESTATION) == Some(value) && (HasAttestationExtension(leaf) <==> n == 5)
  {
    hide RootName, IntermediateName, ServerName, AttestationName;
  }

  lemma DescriptionControlsHold(c: Case, challenge: Bytes, token: string, revoked: set<string>, ctl: Control)
    requires Proper(c) && (c.n > 3 || !ctl.LevelCertified?)
    ensures DescriptionHolds(InputFor(c, challenge, token, revoked), ctl, ChainFor(c, challenge),
              KeyDescriptionWriter.DescriptionOf(Specified(challenge, c.package, c.signer, c.strongBox, Level(c))))
  {
    hide Chain, ExtensionFor, KeyDescriptionWriter.DescriptionOf, Specified, CertifiedLevel, ProvisioningMethod,
      Patches.LevelIsCurrent, ByteStrings.HexOf, C.OriginHolds, C.LevelHolds, C.RootHolds, DeviceHolds, SigningKeyHolds, Trims,
      Level, Calendar.DayNumber, Calendar.DaysIn, KeyDescriptionWriter.Inverse;
    ChainIsRemote(c.w, c.strongBox, c.n, ExtensionFor(c, challenge), c.nowMs);
    DescriptionSays(c, challenge);
    LevelIsNow(c);
  }

  /** A request with a chain of four certificates and a critical attestation extension is accepted, and so
      is one with five and a non-critical one, for keys in a trusted environment and in StrongBox. */
  lemma RequestIsAccepted(c: Case, challenge: Bytes, token: string, revoked: set<string>)
    requires Proper(c) && c.n > 3 && |challenge| <= 1000 && SignaturesCheck(c, challenge) && Unlisted(revoked)
    ensures var x := InputFor(c, challenge, token, revoked);
            && Verdict(x, Ok(2)) && ChainOf(x).Some? && |ChainOf(x).value| == c.n
            && (HasAttestationExtension(ChainOf(x).value[0]) <==> c.n == 5)
            && DescriptionOf(x).Some? && DescriptionOf(x).value.keyMintLevel == LevelFor(c.strongBox)
  {
    hide ChainOf, DescriptionOf, Holds, WellShaped, ChainFor, Proper, SignaturesCheck, Unlisted, BodyFor, ConstraintsFor,
      KeyDescriptionWriter.DescriptionOf, Specified, HasAttestationExtension, C.Attested, ProvisioningMethod, ExtensionFor, Level;
    ProperSize(c);
    var x := InputFor(c, challenge, token, revoked);
    var chain := ChainFor(c, challenge);
    var d := KeyDescriptionWriter.DescriptionOf(Specified(challenge, c.package, c.signer, c.strongBox, Level(c)));
    ChainIsRead(c, challenge, token, revoked);
    ChainFacts(c, challenge);
    AttestationIsRead(c, OptionsOf(x), challenge);
    DescriptionIsAttested(x, chain);
    DescriptionSays(c, challenge);
    BodyIsShaped(c, token);
    forall ctl: Control ensures Holds(x, ctl) {
      ChainControlsHold(c, challenge, token, revoked, ctl);
      DescriptionControlsHold(c, challenge, token, revoked, ctl);
      EachHolds(x, chain, d, ctl);
    }
  }

  lemma BodyIsShaped(c: Case, token: string)
    requires 3 <= c.n <= 5
    ensures WellShaped(BodyFor(c, token))
  {
    EncodedDecodes(0);
    hide Encoded, Base64.DecodeOf;
  }

  lemma EachHolds(x: Input, chain: seq<Certificate>, d: KeyDescription.Description, ctl: Control)
    requires ChainOf(x) == Some(chain) && DescriptionOf(x) == Some(d) && WellShaped(x.request)
    requires chain != [] && ChainHolds(x, ctl, chain) && DescriptionHolds(x, ctl, chain, d)
    ensures Holds(x, ctl)
  {
    hide ChainOf, DescriptionOf, WellShaped, ChainHolds, DescriptionHolds;
  }

  // ---- chains of three ------------------------------------------------------------------------------------------

  /** A critical extension is parsed and used: a remotely provisioned chain of three certificates is a valid
      path, and passes the verification of chains with its own constraints. */
  lemma CriticalExtensionShortensChain(c: Case, o: C.Options, challenge: Bytes)
    requires Proper(c) && c.n == 3 && |challenge| <= 1000 && SignaturesCheck(c, challenge) && Unlisted(o.revoked)
    requires var chain := ChainFor(c, challenge);
             chain != [] && o.w == c.w && o.anchors == [chain[|chain| - 1]] && o.nowMs == c.nowMs
    requires o.constraints == [] && o.limits == KeyDescription.DEFAULT_LIMITS
    ensures var chain := ChainFor(c, challenge);
            var d := KeyDescriptionWriter.DescriptionOf(Specified(challenge, c.package, c.signer, c.strongBox, Level(c)));
            && |chain| == 3 && ProvisioningMethod(c.w, chain).RemotelyProvisioned? && !HasAttestationExtension(chain[0])
            && IsPath(chain) && ValidPath(C.WalkFrom(o, chain, chain[2]))
            && C.Outcome(o, chain, Some(challenge), C.Success(LEAF_KEY, d))
  {
    hide ChainFor, ExtensionFor, KeyDescriptionWriter.DescriptionOf, Specified, C.Anchored, IsPath, C.Attested, Proper,
      SignaturesCheck, HasAttestationExtension, C.AllHold, Unlisted, ValidPath, ProvisioningMethod;
    var d := KeyDescriptionWriter.DescriptionOf(Specified(challenge, c.package, c.signer, c.strongBox, Level(c)));
    ChainFacts(c, challenge);
    ChainIsAnchored(c, o, challenge);
    AttestationIsRead(c, o, challenge);
    DescriptionSays(c, challenge);
    DefaultsHold(o, ChainFor(c, challenge), d);
    ThreeIsValid(c, challenge, o.revoked);
  }

  lemma ThreeIsValid(c: Case, challenge: Bytes, revoked: set<string>)
    requires Proper(c) && c.n == 3 && SignaturesCheck(c, challenge) && Unlisted(revoked) && |ChainFor(c, challenge)| == 3
    ensures var chain := ChainFor(c, challenge); ValidPath(Walk(c.w, chain, chain[2], revoked, c.nowMs))
  {
    hide Chain, ValidPath, Calendar.DayNumber, Calendar.DaysIn;
    ChainIsValid(c.w, c.strongBox, c.n, ExtensionFor(c, challenge), c.nowMs, revoked);
  }

  /** The server's constraint on the certified level stops it, with the code for a missing hardware
      attestation: the certificate that should name the level is the one below the root. */
  lemma ThreeIsNotHardware(c: Case, challenge: Bytes, token: string, revoked: set<string>)
    requires Proper(c) && c.n == 3 && |challenge| <= 1000 && SignaturesCheck(c, challenge) && Unlisted(revoked)
    ensures Verdict(InputFor(c, challenge, token, revoked), Err(NoHardwareAttestation))
  {
    hide ChainOf, DescriptionOf, Holds, WellShaped, ChainFor, Proper, SignaturesCheck, Unlisted, BodyFor, ConstraintsFor,
      KeyDescriptionWriter.DescriptionOf, Specified, HasAttestationExtension, C.Attested, ProvisioningMethod, ExtensionFor, Level,
      C.MatchesCertificate;
    var x := InputFor(c, challenge, token, revoked);
    var chain := ChainFor(c, challenge);
    var d := KeyDescriptionWriter.DescriptionOf(Specified(challenge, c.package, c.signer, c.strongBox, Level(c)));
    ChainIsRead(c, challenge, token, revoked);
    ChainFacts(c, challenge);
    AttestationIsRead(c, OptionsOf(x), challenge);
    DescriptionIsAttested(x, chain);
    BodyIsShaped(c, token);
    forall ctl: Control | !ctl.LevelCertified? ensures Holds(x, ctl) {
      ChainControlsHold(c, challenge, token, revoked, ctl);
      DescriptionControlsHold(c, challenge, token, revoked, ctl);
      EachHolds(x, chain, d, ctl);
    }
    DescriptionControl(x, chain, d, LevelCertified);
    ThreeDoesNotMatch(c, challenge);
    Fails(x, LevelCertified);
  }

  lemma ThreeDoesNotMatch(c: Case, challenge: Bytes)
    requires Proper(c) && c.n == 3
    ensures |ChainFor(c, challenge)| == 3
    ensures var d := KeyDescriptionWriter.DescriptionOf(Specified(challenge, c.package, c.signer, c.strongBox, Level(c)));
            !C.MatchesCertificate(c.w, d, ChainFor(c, challenge))
  {
    hide KeyDescriptionWriter.DescriptionOf, Specified, ExtensionFor, Level, Trims, Calendar.DayNumber, Calendar.DaysIn;
    DescriptionSays(c, challenge);
    ThreeIsSoftware(c.w, c.strongBox, ExtensionFor(c, challenge), c.nowMs);
    hide Chain, CertifiedLevel;
  }

  lemma ThreeIsSoftware(w: World, strongBox: bool, value: Bytes, until: int)
    requires Trims(w.unicode)
    ensures |Chain(w.unicode, strongBox, 3, value, until)| == 3
    ensures CertifiedLevel(w, Chain(w.unicode, strongBox, 3, value, until)) == Some(KeyDescription.Software)
  {
    hide RootName, IntermediateName, ServerName, AttestationName, Names.AttributeText, Names.HasAttribute, ReadName, Trims;
    NamesSay(w.unicode, strongBox);
    ChainIsRemote(w, strongBox, 3, value, until);
    assert Chain(w.unicode, strongBox, 3, value, until)[1].subject == IntermediateName(w.unicode);
    assert GOOGLE_LLC != "TEE" && GOOGLE_LLC != "StrongBox";
  }

  lemma DefaultsHold(o: C.Options, chain: seq<Certificate>, d: KeyDescription.Description)
    requires o.constraints == [] && C.OriginHolds(d) && C.LevelHolds(d) && C.RootHolds(d)
    ensures C.AllHold(o, d, chain)
  {
    hide C.OriginHolds, C.LevelHolds, C.RootHolds;
    assert C.AllConstraints(o) == C.DefaultConstraints();
  }

  // ---- such requests exist ----------------------------------------------------------------------------------------

  /** Three octets for each character. */
  function WideOctets(s: string): Bytes {
    if s == "" then []
    else [s[0] as int / 0x1_0000, s[0] as int / 0x100 % 0x100, s[0] as int % 0x100] + WideOctets(s[1..])
  }

  function WideText(b: Bytes): Option<string> {
    if b == [] then Some("")
    else if |b| < 3 then None
    else
      var code := 0x1_0000 * (b[0] as int) + 0x100 * (b[1] as int) + b[2] as int;
      var rest := WideText(b[3..]);
      if rest.None? || 0xD800 <= code < 0xE000 || code >= 0x11_0000 then None else Some([code as char] + rest.value)
  }

  lemma OneCharacter(s: string)
    requires s != ""
    ensures var b, code := WideOctets(s), s[0] as int;
            |b| >= 3 && b[3..] == WideOctets(s[1..]) && 0x1_0000 * (b[0] as int) + 0x100 * (b[1] as int) + b[2] as int == code
  {
    var code := s[0] as int;
    assert code / 0x100 == code / 0x1_0000 * 0x100 + code / 0x100 % 0x100;
    assert code == code / 0x100 * 0x100 + code % 0x100;
    hide WideText;
  }

  lemma {:induction false} WideTextReads(s: string)
    ensures WideText(WideOctets(s)) == Some(s)
  {
    if s != "" {
      OneCharacter(s);
      hide WideOctets;
      WideTextReads(s[1..]);
      assert s == [s[0]] + s[1..];
    }
  }

  /** A world in which every signature checks and text is three octets for each character. */
  function SimpleWorld(): World {
    World((key, algorithm, signature, data) => true,
          Names.Unicode(b => None, (width, b) => None, s => s, s => s, s => s),
          WideText)
  }

  lemma SimpleWorldReads()
    ensures Trims(SimpleWorld().unicode) && KeyDescriptionWriter.Inverse(SimpleWorld().decode, WideOctets)
  {
    hide WideText, WideOctets;
    forall s ensures WideText(WideOctets(s)) == Some(s) {
      WideTextReads(s);
    }
  }

  lemma SimpleWorldSigns(c: Case, challenge: Bytes)
    requires 3 <= c.n <= 5 && c.w == SimpleWorld()
    ensures SignaturesCheck(c, challenge)
  {
    hide ChainFor;
  }

  lemma FirstOf2025()
    ensures Calendar.DayNumber(2025, 1, 1) >= 0
  {
    Calendar.YearsGrow(1970, 2025);
  }

  /** A chain of n certificates at noon of 1 January 2025. */
  lemma SomeCase(n: nat, strongBox: bool) returns (c: Case)
    requires 3 <= n <= 5
    ensures Proper(c) && c.n == n && c.strongBox == strongBox && forall challenge :: SignaturesCheck(c, challenge)
  {
    hide SimpleWorld, Trims, KeyDescriptionWriter.Inverse, Calendar.DayNumber, SignaturesCheck;
    FirstOf2025();
    SimpleWorldReads();
    var noon := Calendar.DayNumber(2025, 1, 1) * Calendar.DAY_MS + Calendar.DAY_MS / 2;
    c := Case(n, strongBox, SimpleWorld(), WideOctets, "", [], 2025, 1, 1, noon);
    assert WideOctets("") == [];
    forall challenge ensures SignaturesCheck(c, challenge) {
      SimpleWorldSigns(c, challenge);
    }
  }
}
