/** The writer of attestation extensions (server/test/corpus/synthetic.ts over der-writer.ts), and the
    round trip through the parser. */
module KeyDescriptionWriter {
  import opened Common
  import opened Der
  import opened DerWriter
  import opened DerBijection
  import opened KeyDescription
  import opened AuthorizationLists
  import Integers
  import ByteStrings

  type Encoder = string -> Bytes

  /** A content of 2^32 octets or more has no length that the reader takes. */
  datatype TooLong = TooLong

  type Element = Result<Tlv, TooLong>

  // ---- the writer -----------------------------------------------------------------------------------

  function WriteTlv(cls: nat, constructed: bool, tag: nat, content: Bytes): (r: Element)
    requires cls < 4 && tag < TAG_LIMIT
    ensures r.Ok? ==> WellFormed(r.value) && r.value.cls == cls && r.value.constructed == constructed
                      && r.value.tag == tag && r.value.content == content
  {
    if |content| >= LENGTH_LIMIT then Err(TooLong) else Ok(Written(cls, constructed, tag, content))
  }

  function WriteSequence(items: seq<Tlv>): (r: Element)
    ensures r.Ok? ==> WellFormed(r.value) && Is(r.value, SEQUENCE, true)
  {
    WriteTlv(UNIVERSAL, true, SEQUENCE, Concatenated(items))
  }

  function WriteSet(items: seq<Tlv>): (r: Element)
    ensures r.Ok? ==> WellFormed(r.value) && Is(r.value, SET, true)
  {
    WriteTlv(UNIVERSAL, true, SET, Concatenated(items))
  }

  function WriteOctets(b: Bytes): (r: Element)
    ensures r.Ok? ==> WellFormed(r.value) && ToBytes(r.value) == Ok(b)
  {
    WriteTlv(UNIVERSAL, false, OCTET_STRING, b)
  }

  function WriteInt(v: int): (r: Element)
    ensures r.Ok? ==> WellFormed(r.value) && ToInt(r.value) == Ok(v) && Is(r.value, INTEGER, false)
  {
    Integers.SignedOfOctets(v);
    WriteTlv(UNIVERSAL, false, INTEGER, Integers.Octets(v))
  }

  function WriteEnumerated(v: int): (r: Element)
    ensures r.Ok? ==> WellFormed(r.value) && ToEnumerated(r.value) == Ok(v)
  {
    Integers.SignedOfOctets(v);
    WriteTlv(UNIVERSAL, false, ENUMERATED, Integers.Octets(v))
  }

  function WriteBoolean(v: bool): (r: Element)
    ensures r.Ok? ==> WellFormed(r.value) && ToBoolean(r.value) == Ok(v)
  {
    WriteTlv(UNIVERSAL, false, BOOLEAN, [if v then 0xff else 0])
  }

  /** A context-specific explicit tag. */
  function WriteExplicit(tag: nat, inner: Tlv): (r: Element)
    requires tag < TAG_LIMIT
    ensures r.Ok? ==> WellFormed(r.value) && r.value.tag == tag
  {
    WriteTlv(CONTEXT_SPECIFIC, true, tag, Concatenated([inner]))
  }

  function WriteInts(values: seq<int>): Result<seq<Tlv>, TooLong> {
    if values == [] then Ok([])
    else
      var before :- WriteInts(values[..|values| - 1]);
      var last :- WriteInt(values[|values| - 1]);
      Ok(before + [last])
  }

  function WriteIntSet(values: seq<int>): Element {
    var items :- WriteInts(values);
    WriteSet(items)
  }

  function StateNumber(s: BootState): (v: int)
    ensures 0 <= v <= 3 && BootStateOf(v) == s
  {
    match s case BootVerified => 0 case SelfSigned => 1 case Unverified => 2 case BootFailed => 3
  }

  function OriginNumber(o: Origin): (v: int)
    ensures 0 <= v <= 4 && OriginOf(v) == o
  {
    match o case Generated => 0 case Derived => 1 case Imported => 2 case Reserved => 3 case SecurelyImported => 4
  }

  function LevelNumber(l: SecurityLevel): (v: int)
    ensures 0 <= v <= 2 && LevelOf(v) == l
  {
    match l case Software => 0 case TrustedEnvironment => 1 case StrongBox => 2
  }

  function WriteRootOfTrust(r: RootOfTrust): Element {
    var bootKey :- WriteOctets(r.bootKey);
    var locked :- WriteBoolean(r.deviceLocked);
    var state :- WriteEnumerated(StateNumber(r.bootState));
    if r.bootHash.None? then WriteSequence([bootKey, locked, state])
    else
      var bootHash :- WriteOctets(r.bootHash.value);
      WriteSequence([bootKey, locked, state, bootHash])
  }

  function WritePackage(encode: Encoder, p: PackageInfo): Element {
    var name :- WriteOctets(encode(p.name));
    var version :- WriteInt(p.version);
    WriteSequence([name, version])
  }

  function WritePackages(encode: Encoder, packages: seq<PackageInfo>): Result<seq<Tlv>, TooLong> {
    if packages == [] then Ok([])
    else
      var before :- WritePackages(encode, packages[..|packages| - 1]);
      var last :- WritePackage(encode, packages[|packages| - 1]);
      Ok(before + [last])
  }

  function WriteSignatures(signatures: seq<Bytes>): Result<seq<Tlv>, TooLong> {
    if signatures == [] then Ok([])
    else
      var before :- WriteSignatures(signatures[..|signatures| - 1]);
      var last :- WriteOctets(signatures[|signatures| - 1]);
      Ok(before + [last])
  }

  function WriteApplicationId(encode: Encoder, packages: seq<PackageInfo>, signatures: seq<Bytes>): Element {
    var packageItems :- WritePackages(encode, packages);
    var signatureItems :- WriteSignatures(signatures);
    var packageSet :- WriteSet(packageItems);
    var signatureSet :- WriteSet(signatureItems);
    var inner :- WriteSequence([packageSet, signatureSet]);
    WriteOctets(inner.raw)
  }

  // ---- reading what was written ---------------------------------------------------------------------

  ghost predicate AllWellFormed(items: seq<Tlv>) {
    forall i :: 0 <= i < |items| ==> WellFormed(items[i])
  }

  lemma ItemsRead(items: seq<Tlv>)
    requires AllWellFormed(items)
    ensures ElementsFrom(Concatenated(items), 0) == Ok(items)
  {
    assert Concatenated(items)[0..] == Concatenated(items);
    ElementsOfConcatenation(Concatenated(items), 0, items);
  }

  lemma SequenceReads(items: seq<Tlv>)
    requires AllWellFormed(items) && WriteSequence(items).Ok?
    ensures SequenceItems(WriteSequence(items).value) == Ok(items)
  {
    ItemsRead(items);
    hide ElementsFrom, Concatenated, WellFormed;
  }

  lemma SetReads(items: seq<Tlv>)
    requires AllWellFormed(items) && WriteSet(items).Ok?
    ensures SetItems(WriteSet(items).value) == Ok(items)
  {
    ItemsRead(items);
    hide ElementsFrom, Concatenated, WellFormed;
  }

  lemma SingleReads(t: Tlv)
    requires WellFormed(t)
    ensures Single(t.raw) == Ok(t)
  {
    hide TlvAt, Encode;
    assert t.raw[0..|t.raw|] == t.raw;
    ReadsWhatWasWritten(t.raw, 0, t.cls, t.constructed, t.tag, t.content);
  }

  lemma {:induction false} IntsRead(values: seq<int>)
    requires WriteInts(values).Ok?
    ensures var items := WriteInts(values).value;
            && AllWellFormed(items) && AllTagged(items, INTEGER) && |items| == |values| && Numbers(items) == Ok(values)
  {
    hide WellFormed, Integers.IntegerOf, WriteInt;
    if values != [] {
      var n := |values| - 1;
      IntsRead(values[..n]);
      var items := WriteInts(values).value;
      assert items[..n] == WriteInts(values[..n]).value;
      assert ToInt(items[n]) == Ok(values[n]);
      assert values == values[..n] + [values[n]];
    } else {
      assert values == [];
    }
  }

  /** A written set reads as its distinct numbers, in order of first occurrence. */
  lemma IntSetReads(values: seq<int>)
    requires WriteIntSet(values).Ok?
    ensures IntSetOf(WriteIntSet(values).value) == Ok(Distinct(values)) && WellFormed(WriteIntSet(values).value)
  {
    IntsRead(values);
    var items := WriteInts(values).value;
    SetReads(items);
    hide WellFormed, WriteInts, Numbers, SetItems, WriteSet, Distinct;
  }

  lemma RootOfTrustReads(r: RootOfTrust)
    requires WriteRootOfTrust(r).Ok?
    ensures ToRootOfTrust(WriteRootOfTrust(r).value) == Ok(r) && WellFormed(WriteRootOfTrust(r).value)
  {
    var bootKey, locked := WriteOctets(r.bootKey).value, WriteBoolean(r.deviceLocked).value;
    var state := WriteEnumerated(StateNumber(r.bootState)).value;
    hide WellFormed, SequenceItems, ToBytes, ToBoolean, ToEnumerated, WriteOctets, WriteBoolean, WriteEnumerated, WriteSequence;
    if r.bootHash.None? {
      SequenceReads([bootKey, locked, state]);
    } else {
      SequenceReads([bootKey, locked, state, WriteOctets(r.bootHash.value).value]);
    }
  }

  ghost predicate Inverse(decode: Decoder, encode: Encoder) {
    forall s :: decode(encode(s)) == Some(s)
  }

  lemma PackageReads(decode: Decoder, encode: Encoder, p: PackageInfo)
    requires WritePackage(encode, p).Ok? && Inverse(decode, encode)
    ensures var t := WritePackage(encode, p).value;
            PackageOf(decode, t) == Ok(p) && WellFormed(t) && IsUniversal(t, SEQUENCE)
  {
    var name, version := WriteOctets(encode(p.name)).value, WriteInt(p.version).value;
    hide WellFormed, SequenceItems, ToBytes, ToInt, WriteOctets, WriteInt, WriteSequence;
    SequenceReads([name, version]);
  }

  lemma {:induction false} PackagesRead(decode: Decoder, encode: Encoder, packages: seq<PackageInfo>)
    requires WritePackages(encode, packages).Ok? && Inverse(decode, encode)
    ensures var items := WritePackages(encode, packages).value;
            && AllWellFormed(items) && AllTagged(items, SEQUENCE) && |items| == |packages|
            && PackagesOf(decode, items) == Ok(packages)
  {
    hide WellFormed, PackageOf, WritePackage, AllWellFormed, AllTagged, Inverse;
    if packages != [] {
      var n := |packages| - 1;
      PackagesRead(decode, encode, packages[..n]);
      var before, last := WritePackages(encode, packages[..n]).value, WritePackage(encode, packages[n]).value;
      assert WritePackages(encode, packages) == Ok(before + [last]);
      PackageReads(decode, encode, packages[n]);
      OneMore(before, last, SEQUENCE);
      OneMorePackage(decode, before, last);
      assert packages == packages[..n] + [packages[n]];
    } else {
      NoItems(SEQUENCE);
      assert packages == [];
    }
  }

  lemma NoItems(tag: nat)
    ensures AllWellFormed([]) && AllTagged([], tag)
  {
  }

  lemma OneMore(items: seq<Tlv>, t: Tlv, tag: nat)
    requires AllWellFormed(items) && AllTagged(items, tag) && WellFormed(t) && IsUniversal(t, tag)
    ensures AllWellFormed(items + [t]) && AllTagged(items + [t], tag)
  {
    hide WellFormed;
  }

  lemma OneMorePackage(decode: Decoder, items: seq<Tlv>, t: Tlv)
    requires PackagesOf(decode, items).Ok? && PackageOf(decode, t).Ok?
    ensures PackagesOf(decode, items + [t]) == Ok(PackagesOf(decode, items).value + [PackageOf(decode, t).value])
  {
    hide PackageOf;
    assert (items + [t])[..|items|] == items;
  }

  /** Digests as the parser keeps them. */
  function Hexes(signatures: seq<Bytes>): (r: seq<string>)
    ensures |r| == |signatures| && forall i :: 0 <= i < |signatures| ==> r[i] == ByteStrings.HexOf(signatures[i])
  {
    seq(|signatures|, i requires 0 <= i < |signatures| => ByteStrings.HexOf(signatures[i]))
  }

  lemma {:induction false} SignaturesRead(signatures: seq<Bytes>)
    requires WriteSignatures(signatures).Ok?
    ensures var items := WriteSignatures(signatures).value;
            && AllWellFormed(items) && AllTagged(items, OCTET_STRING) && |items| == |signatures|
            && Digests(items) == Hexes(signatures)
  {
    hide WellFormed, ByteStrings.HexOf, AllWellFormed, AllTagged, Digests, Hexes;
    if signatures != [] {
      var n := |signatures| - 1;
      SignaturesRead(signatures[..n]);
      var before, last := WriteSignatures(signatures[..n]).value, WriteOctets(signatures[n]).value;
      assert WriteSignatures(signatures) == Ok(before + [last]);
      OneMore(before, last, OCTET_STRING);
      assert Digests(before + [last]) == Digests(before) + [ByteStrings.HexOf(last.content)];
      assert Hexes(signatures) == Hexes(signatures[..n]) + [ByteStrings.HexOf(signatures[n])];
    } else {
      NoItems(OCTET_STRING);
    }
  }

  lemma HexesNoDuplicates(signatures: seq<Bytes>)
    requires NoDuplicates(signatures)
    ensures NoDuplicates(Hexes(signatures))
  {
    forall i, j | 0 <= i < j < |signatures| ensures Hexes(signatures)[i] != Hexes(signatures)[j] {
      if ByteStrings.HexOf(signatures[i]) == ByteStrings.HexOf(signatures[j]) {
        ByteStrings.HexInjective(signatures[i], signatures[j]);
        assert false;
      }
    }
  }

  /** The two sets inside a written application id. */
  lemma ApplicationIdParts(encode: Encoder, packages: seq<PackageInfo>, signatures: seq<Bytes>,
                           packageItems: seq<Tlv>, signatureItems: seq<Tlv>)
    returns (packageSet: Tlv, signatureSet: Tlv, inner: Tlv)
    requires WriteApplicationId(encode, packages, signatures).Ok?
    requires WritePackages(encode, packages) == Ok(packageItems) && WriteSignatures(signatures) == Ok(signatureItems)
    requires AllWellFormed(packageItems) && AllWellFormed(signatureItems)
    ensures WriteApplicationId(encode, packages, signatures) == WriteOctets(inner.raw)
    ensures Single(inner.raw) == Ok(inner) && SequenceItems(inner) == Ok([packageSet, signatureSet])
    ensures Is(packageSet, SET, true) && SetItems(packageSet) == Ok(packageItems)
    ensures Is(signatureSet, SET, true) && SetItems(signatureSet) == Ok(signatureItems)
  {
    hide WellFormed, SequenceItems, SetItems, Single, WritePackages, WriteSignatures, WriteOctets, WriteSequence, WriteSet;
    SetReads(packageItems);
    SetReads(signatureItems);
    packageSet, signatureSet := WriteSet(packageItems).value, WriteSet(signatureItems).value;
    SequenceReads([packageSet, signatureSet]);
    inner := WriteSequence([packageSet, signatureSet]).value;
    SingleReads(inner);
  }

  /** What the parser makes of the two sets inside an application id. */
  lemma SetsRead(decode: Decoder, limits: Limits, t: Tlv, inner: Tlv, packageSet: Tlv, signatureSet: Tlv,
                 packageItems: seq<Tlv>, signatureItems: seq<Tlv>, packages: seq<PackageInfo>)
    requires ToBytes(t) == Ok(inner.raw) && Single(inner.raw) == Ok(inner)
    requires SequenceItems(inner) == Ok([packageSet, signatureSet])
    requires Is(packageSet, SET, true) && SetItems(packageSet) == Ok(packageItems) && AllTagged(packageItems, SEQUENCE)
    requires Is(signatureSet, SET, true) && SetItems(signatureSet) == Ok(signatureItems)
    requires AllTagged(signatureItems, OCTET_STRING)
    requires PackagesOf(decode, packageItems) == Ok(packages)
    ensures ApplicationIdOf(decode, limits, t) ==
            if |packageItems| <= limits.maxPackages && |signatureItems| <= limits.maxSignatures
            then Ok(ApplicationId(Distinct(packages), Distinct(Digests(signatureItems)))) else Err(AttributeError)
  {
    hide SequenceItems, SetItems, Single, PackagesOf, Digests, Distinct, AllTagged;
  }

  /** A written application id reads as its distinct packages and digests when both lists are within the
      limits; otherwise the attribute fails, and only the attribute. */
  lemma ApplicationIdReads(decode: Decoder, encode: Encoder, limits: Limits, packages: seq<PackageInfo>, signatures: seq<Bytes>)
    requires Inverse(decode, encode) && WriteApplicationId(encode, packages, signatures).Ok?
    ensures ApplicationIdOf(decode, limits, WriteApplicationId(encode, packages, signatures).value) ==
            if |packages| <= limits.maxPackages && |signatures| <= limits.maxSignatures
            then Ok(ApplicationId(Distinct(packages), Distinct(Hexes(signatures)))) else Err(AttributeError)
  {
    hide ApplicationIdOf, SequenceItems, SetItems, Single, PackagesOf, Digests, Distinct, AllTagged, Hexes, Inverse,
      AllWellFormed, WriteOctets, ToBytes, WritePackages, WriteSignatures, WellFormed;
    var packageItems, signatureItems := WritePackages(encode, packages).value, WriteSignatures(signatures).value;
    PackagesRead(decode, encode, packages);
    SignaturesRead(signatures);
    var packageSet, signatureSet, inner := ApplicationIdParts(encode, packages, signatures, packageItems, signatureItems);
    hide WriteApplicationId;
    SetsRead(decode, limits, WriteApplicationId(encode, packages, signatures).value, inner, packageSet, signatureSet,
             packageItems, signatureItems, packages);
  }

  /** Numbers outside their enumeration are fatal, not dropped. */
  lemma OutOfRangeIsFatal(v: int)
    requires WriteInt(v).Ok? && WriteEnumerated(v).Ok?
    ensures ToOrigin(WriteInt(v).value) == if 0 <= v <= 4 then Ok(OriginOf(v)) else Err(Fatal)
    ensures ToSecurityLevel(WriteEnumerated(v).value) == if 0 <= v <= 2 then Ok(LevelOf(v)) else Err(Fatal)
  {
    hide WriteInt, WriteEnumerated, ToInt, ToEnumerated, WellFormed, OriginOf, LevelOf;
  }

  // ---- authorization lists ----------------------------------------------------------------------------

  datatype Value =
    | NumberSet(numbers: seq<int>)
    | Number(number: int)
    | Words(text: string)
    | Raw(octets: Bytes)
    | Trust(root: RootOfTrust)
    | Application(packages: seq<PackageInfo>, signatures: seq<Bytes>)

  /** The attributes of a list by number. */
  type Attributes = map<nat, Value>

  /** A value that an attribute of the kind can have. */
  ghost predicate Suits(limits: Limits, kind: Kind, v: Value) {
    match kind
    case IntSetKind => v.NumberSet? && NoDuplicates(v.numbers)
    case IntKind => v.Number?
    case TextKind => v.Words?
    case OctetsKind => v.Raw?
    case OriginKind => v.Number? && 0 <= v.number <= 4
    case RootKind => v.Trust?
    case ApplicationKind =>
      && v.Application? && NoDuplicates(v.packages) && NoDuplicates(v.signatures)
      && |v.packages| <= limits.maxPackages && |v.signatures| <= limits.maxSignatures
    case PatchKind => v.Number?
    case SkippedKind => true
  }

  ghost predicate Suitable(limits: Limits, attributes: Attributes) {
    forall tag :: tag in attributes ==> Schema(tag).Some? && Suits(limits, Schema(tag).value, attributes[tag])
  }

  function WriteValue(encode: Encoder, v: Value): Element {
    match v
    case NumberSet(numbers) => WriteIntSet(numbers)
    case Number(number) => WriteInt(number)
    case Words(text) => WriteOctets(encode(text))
    case Raw(octets) => WriteOctets(octets)
    case Trust(root) => WriteRootOfTrust(root)
    case Application(packages, signatures) => WriteApplicationId(encode, packages, signatures)
  }

  function WriteAttribute(encode: Encoder, tag: nat, v: Value): Element {
    if tag >= TAG_LIMIT then Err(TooLong)
    else
      var inner :- WriteValue(encode, v);
      WriteExplicit(tag, inner)
  }

  /** The tagged elements in the given order. */
  function WriteAttributes(encode: Encoder, attributes: Attributes, order: seq<nat>): Result<seq<Tlv>, TooLong>
    requires forall i :: 0 <= i < |order| ==> order[i] in attributes
  {
    if order == [] then Ok([])
    else
      var n := |order| - 1;
      var before :- WriteAttributes(encode, attributes, order[..n]);
      var last :- WriteAttribute(encode, order[n], attributes[order[n]]);
      Ok(before + [last])
  }

  function WriteList(encode: Encoder, attributes: Attributes, order: seq<nat>): Element
    requires forall i :: 0 <= i < |order| ==> order[i] in attributes
  {
    var items :- WriteAttributes(encode, attributes, order);
    WriteSequence(items)
  }

  /** An order of all the attributes. */
  ghost predicate Orders(order: seq<nat>, attributes: Attributes) {
    && NoDuplicates(order)
    && (forall i :: 0 <= i < |order| ==> order[i] in attributes)
    && (forall tag :: tag in attributes ==> tag in order)
  }

  function NumbersOf(attributes: Attributes, tag: nat): Option<seq<int>> {
    if tag in attributes && attributes[tag].NumberSet? then Some(attributes[tag].numbers) else None
  }

  function NumberOf(attributes: Attributes, tag: nat): Option<int> {
    if tag in attributes && attributes[tag].Number? then Some(attributes[tag].number) else None
  }

  /** The list that the attributes describe. */
  function Described(attributes: Attributes): AuthorizationList {
    AuthorizationList(
      NumbersOf(attributes, 1),
      NumberOf(attributes, 2),
      NumberOf(attributes, 3),
      NumbersOf(attributes, 5),
      NumberOf(attributes, 10),
      (var n := NumberOf(attributes, 702); if n.Some? && 0 <= n.value <= 4 then Some(OriginOf(n.value)) else None),
      (if 704 in attributes && attributes[704].Trust? then Some(attributes[704].root) else None),
      (if 709 in attributes && attributes[709].Application?
       then var v := attributes[709]; Some(ApplicationId(v.packages, Hexes(v.signatures))) else None),
      NumberOf(attributes, 706),
      NumberOf(attributes, 718),
      NumberOf(attributes, 719))
  }

  /** What an element reads as, in the way its kind is read. */
  ghost predicate ReadsAs(decode: Decoder, limits: Limits, kind: Kind, t: Tlv, v: Value) {
    match kind
    case IntSetKind => v.NumberSet? && IntSetOf(t) == Ok(v.numbers)
    case IntKind => v.Number? && ToInt(t) == Ok(v.number)
    case TextKind => v.Words? && ToText(decode, t) == Ok(v.text)
    case OctetsKind => v.Raw? && ToBytes(t) == Ok(v.octets)
    case OriginKind => v.Number? && 0 <= v.number <= 4 && ToOrigin(t) == Ok(OriginOf(v.number))
    case RootKind => v.Trust? && ToRootOfTrust(t) == Ok(v.root)
    case ApplicationKind =>
      v.Application? && ApplicationIdOf(decode, limits, t) == Ok(ApplicationId(v.packages, Hexes(v.signatures)))
    case PatchKind => v.Number? && ToPatchLevel(t) == Ok(v.number)
    case SkippedKind => true
  }

  lemma ValueReads(decode: Decoder, encode: Encoder, limits: Limits, kind: Kind, v: Value)
    requires Inverse(decode, encode) && Suits(limits, kind, v) && WriteValue(encode, v).Ok?
    ensures ReadsAs(decode, limits, kind, WriteValue(encode, v).value, v)
  {
    hide IntSetOf, ToRootOfTrust, ApplicationIdOf, WellFormed, WriteIntSet, WriteRootOfTrust, WriteApplicationId;
    match v
    case NumberSet(numbers) =>
      if kind == IntSetKind {
        IntSetReads(numbers);
        DistinctOfNoDuplicates(numbers);
      }
    case Trust(root) => RootOfTrustReads(root);
    case Application(packages, signatures) =>
      if kind == ApplicationKind {
        ApplicationIdReads(decode, encode, limits, packages, signatures);
        DistinctOfNoDuplicates(packages);
        HexesNoDuplicates(signatures);
        DistinctOfNoDuplicates(Hexes(signatures));
      }
    case _ =>
  }

  lemma ValueIsWellFormed(encode: Encoder, v: Value)
    requires WriteValue(encode, v).Ok?
    ensures WellFormed(WriteValue(encode, v).value)
  {
    hide WellFormed;
  }

  lemma AttributeReads(encode: Encoder, tag: nat, v: Value)
    requires tag in KNOWN_TAGS && WriteAttribute(encode, tag, v).Ok?
    ensures var el := WriteAttribute(encode, tag, v).value;
            WellFormed(el) && el.tag == tag && WriteValue(encode, v).Ok? && Explicit(el) == Ok(WriteValue(encode, v).value)
  {
    var inner := WriteValue(encode, v).value;
    ValueIsWellFormed(encode, v);
    hide WriteValue, WellFormed, ElementsFrom, Concatenated;
    ItemsRead([inner]);
  }

  /** The collection that the written elements give back. */
  ghost predicate Collects(encode: Encoder, attributes: Attributes, order: seq<nat>, objects: Objects) {
    && (forall tag :: tag in objects <==> tag in order)
    && (forall tag :: tag in objects && tag in attributes ==> WriteValue(encode, attributes[tag]) == Ok(objects[tag]))
  }

  lemma OneMoreCollected(encode: Encoder, attributes: Attributes, before: seq<nat>, objects: Objects, tag: nat, inner: Tlv)
    requires Collects(encode, attributes, before, objects)
    requires tag in attributes && WriteValue(encode, attributes[tag]) == Ok(inner)
    ensures Collects(encode, attributes, before + [tag], objects[tag := inner])
  {
    hide WriteValue;
  }

  lemma {:induction false} AttributesCollect(encode: Encoder, attributes: Attributes, order: seq<nat>)
    requires forall i :: 0 <= i < |order| ==> order[i] in attributes && order[i] in KNOWN_TAGS
    requires WriteAttributes(encode, attributes, order).Ok?
    ensures var items := WriteAttributes(encode, attributes, order).value;
            && AllWellFormed(items) && ObjectsOf(items).Ok?
            && Collects(encode, attributes, order, ObjectsOf(items).value)
  {
    hide WellFormed, WriteValue, WriteAttribute, Explicit, KNOWN_TAGS;
    if order != [] {
      hide Collects;
      var n := |order| - 1;
      var before := order[..n];
      AttributesCollect(encode, attributes, before);
      AttributeReads(encode, order[n], attributes[order[n]]);
      var items := WriteAttributes(encode, attributes, order).value;
      var earlier := WriteAttributes(encode, attributes, before).value;
      assert items[..|items| - 1] == earlier;
      assert order == before + [order[n]];
      OneMoreCollected(encode, attributes, before, ObjectsOf(earlier).value, order[n],
                       WriteValue(encode, attributes[order[n]]).value);
    }
  }

  // ---- deleting a failed attribute ------------------------------------------------------------------

  lemma {:induction false} ConcatenatedLast(items: seq<Tlv>)
    requires items != []
    ensures Concatenated(items) == Concatenated(items[..|items| - 1]) + items[|items| - 1].raw
  {
    var n := |items| - 1;
    if n > 0 {
      ConcatenatedLast(items[1..]);
      assert items[1..][..n - 1] == items[..n][1..];
    } else {
      assert items[1..] == [] && items[..n] == [];
    }
  }

  lemma {:induction false} WithoutFits(items: seq<Tlv>, tag: nat)
    requires AllWellFormed(items)
    ensures AllWellFormed(Without(items, tag)) && |Concatenated(Without(items, tag))| <= |Concatenated(items)|
  {
    hide WellFormed, Concatenated;
    if items != [] {
      var before, last := items[..|items| - 1], items[|items| - 1];
      WithoutFits(before, tag);
      ConcatenatedLast(items);
      var kept := Without(before, tag);
      if last.cls != UNIVERSAL && last.tag == tag {
        assert Without(items, tag) == kept + [] == kept;
      } else {
        assert Without(items, tag) == kept + [last];
        assert (kept + [last])[..|kept|] == kept;
        ConcatenatedLast(kept + [last]);
      }
    }
  }

  /** The list without the elements of a number that failed can be written, and parses alike. */
  lemma DeletionParsesAlike(decode: Decoder, limits: Limits, t: Tlv, tag: nat)
    requires Is(t, SEQUENCE, true) && |t.content| < LENGTH_LIMIT && SequenceItems(t).Ok? && ObjectsOf(SequenceItems(t).value).Ok?
    requires var objects := ObjectsOf(SequenceItems(t).value).value;
             tag in objects && Judged(decode, limits, tag, objects[tag]) == Failed
    ensures WriteSequence(Without(SequenceItems(t).value, tag)).Ok?
    ensures var t' := WriteSequence(Without(SequenceItems(t).value, tag)).value;
            && SequenceItems(t') == Ok(Without(SequenceItems(t).value, tag))
            && ParsedList(decode, limits, t') == ParsedList(decode, limits, t)
  {
    hide WellFormed, ElementsFrom, Concatenated, ObjectsOf, ParsedList, Judged;
    var items := SequenceItems(t).value;
    ChildrenAreTheUniqueSplit(t.content, items);
    WithoutFits(items, tag);
    SequenceReads(Without(items, tag));
    FailedIsAbsent(decode, limits, t, WriteSequence(Without(items, tag)).value, tag);
  }

  lemma JudgedAsRead(decode: Decoder, limits: Limits, tag: nat, t: Tlv, v: Value)
    requires ReadsAs(decode, limits, KindOf(tag), t, v)
    ensures Judged(decode, limits, tag, t) == Fine
  {
    hide KindOf, IntSetOf, ToInt, ToText, ToBytes, ToOrigin, ToRootOfTrust, ApplicationIdOf, ToPatchLevel;
  }

  /** Every collected attribute reads as the value it was written from. */
  ghost predicate AllRead(decode: Decoder, limits: Limits, attributes: Attributes, objects: Objects) {
    && objects.Keys == attributes.Keys
    && forall tag :: tag in objects ==> ReadsAs(decode, limits, KindOf(tag), objects[tag], attributes[tag])
  }

  lemma AllReadIsDescribed(decode: Decoder, limits: Limits, attributes: Attributes, objects: Objects)
    requires AllRead(decode, limits, attributes, objects)
    ensures ListOf(decode, limits, objects) == Ok(Described(attributes))
  {
    assert !SomeAborted(decode, limits, objects) by {
      forall tag | tag in objects ensures !Aborted(decode, limits, objects, tag) {
        hide KindOf, ReadsAs, Judged;
        JudgedAsRead(decode, limits, tag, objects[tag], attributes[tag]);
      }
    }
    FieldsAreDescribed(decode, limits, attributes, objects);
    hide Fields, Described, AllRead, SomeAborted;
  }

  lemma FieldsAreDescribed(decode: Decoder, limits: Limits, attributes: Attributes, objects: Objects)
    requires AllRead(decode, limits, attributes, objects)
    ensures Fields(decode, limits, objects) == Described(attributes)
  {
    NumberKinds();
    OtherKinds();
    hide KindOf, IntSetOf, ToInt, ToText, ToBytes, ToOrigin, ToRootOfTrust, ApplicationIdOf, ToPatchLevel;
    forall tag | tag in objects ensures ReadsAs(decode, limits, KindOf(tag), objects[tag], attributes[tag]) {
    }
  }

  /** Writing any suitable attributes, in any order, and parsing gives them back. */
  lemma ListRoundTrip(decode: Decoder, encode: Encoder, limits: Limits, attributes: Attributes, order: seq<nat>)
    requires Inverse(decode, encode) && Suitable(limits, attributes) && Orders(order, attributes)
    requires WriteList(encode, attributes, order).Ok?
    ensures var t := WriteList(encode, attributes, order).value;
            WellFormed(t) && ParsedList(decode, limits, t) == Ok(Described(attributes))
  {
    hide WellFormed, ObjectsOf, KNOWN_TAGS, KindOf, Schema, WriteValue, ReadsAs, Suits, SequenceItems, WriteSequence, ListOf,
      Described, Collects, AllRead;
    var items := WriteAttributes(encode, attributes, order).value;
    forall i | 0 <= i < |order| ensures order[i] in KNOWN_TAGS {
      SchemaIsFollowed(order[i]);
    }
    AttributesCollect(encode, attributes, order);
    hide WriteAttributes;
    SequenceReads(items);
    CollectedReads(decode, encode, limits, attributes, order, ObjectsOf(items).value);
    AllReadIsDescribed(decode, limits, attributes, ObjectsOf(items).value);
  }

  lemma CollectedReads(decode: Decoder, encode: Encoder, limits: Limits, attributes: Attributes,
                       order: seq<nat>, objects: Objects)
    requires Inverse(decode, encode) && Suitable(limits, attributes) && Orders(order, attributes)
    requires Collects(encode, attributes, order, objects)
    ensures AllRead(decode, limits, attributes, objects)
  {
    hide KNOWN_TAGS, KindOf, Schema, WriteValue, ReadsAs, Suits, Inverse, NoDuplicates;
    forall tag | tag in objects ensures ReadsAs(decode, limits, KindOf(tag), objects[tag], attributes[tag]) {
      SchemaIsFollowed(tag);
      ValueReads(decode, encode, limits, KindOf(tag), attributes[tag]);
    }
  }

  // ---- the whole extension ------------------------------------------------------------------------------

  /** A description to write: its fields, and the attributes of both lists with the order they go in. */
  datatype Specification = Specification(
    attestationVersion: int,
    attestationLevel: SecurityLevel,
    keyMintVersion: int,
    keyMintLevel: SecurityLevel,
    challenge: Bytes,
    uniqueId: Bytes,
    software: Attributes,
    softwareOrder: seq<nat>,
    hardware: Attributes,
    hardwareOrder: seq<nat>)

  ghost predicate Writable(limits: Limits, s: Specification) {
    && Suitable(limits, s.software) && Orders(s.softwareOrder, s.software)
    && Suitable(limits, s.hardware) && Orders(s.hardwareOrder, s.hardware)
  }

  function WriteDescription(encode: Encoder, s: Specification): Element
    requires forall i :: 0 <= i < |s.softwareOrder| ==> s.softwareOrder[i] in s.software
    requires forall i :: 0 <= i < |s.hardwareOrder| ==> s.hardwareOrder[i] in s.hardware
  {
    var attestationVersion :- WriteInt(s.attestationVersion);
    var attestationLevel :- WriteEnumerated(LevelNumber(s.attestationLevel));
    var keyMintVersion :- WriteInt(s.keyMintVersion);
    var keyMintLevel :- WriteEnumerated(LevelNumber(s.keyMintLevel));
    var challenge :- WriteOctets(s.challenge);
    var uniqueId :- WriteOctets(s.uniqueId);
    var software :- WriteList(encode, s.software, s.softwareOrder);
    var hardware :- WriteList(encode, s.hardware, s.hardwareOrder);
    WriteSequence([attestationVersion, attestationLevel, keyMintVersion, keyMintLevel, challenge, uniqueId, software, hardware])
  }

  function DescriptionOf(s: Specification): Description {
    Description(s.attestationVersion, s.attestationLevel, s.keyMintVersion, s.keyMintLevel, s.challenge, s.uniqueId,
                Described(s.software), Described(s.hardware))
  }

  lemma LevelReads(l: SecurityLevel)
    requires WriteEnumerated(LevelNumber(l)).Ok?
    ensures ToSecurityLevel(WriteEnumerated(LevelNumber(l)).value) == Ok(l)
    ensures WellFormed(WriteEnumerated(LevelNumber(l)).value)
  {
    hide ToEnumerated, WriteEnumerated, WellFormed;
  }

  /** Any description, with any suitable attributes in any order, is parsed back from what the writer
      makes of it, unless some content is too long to be written. */
  lemma DescriptionRoundTrip(decode: Decoder, encode: Encoder, limits: Limits, s: Specification)
    requires Inverse(decode, encode) && Writable(limits, s) && WriteDescription(encode, s).Ok?
    ensures ParsedDescription(decode, limits, WriteDescription(encode, s).value.raw) == Ok(DescriptionOf(s))
  {
    hide WellFormed, WriteInt, WriteEnumerated, WriteOctets, WriteSequence, WriteList, Suitable, ToInt, ToSecurityLevel, ToBytes,
      ParsedList, SequenceItems, Single, Described, Inverse, LevelNumber;
    ListRoundTrip(decode, encode, limits, s.software, s.softwareOrder);
    ListRoundTrip(decode, encode, limits, s.hardware, s.hardwareOrder);
    LevelReads(s.attestationLevel);
    LevelReads(s.keyMintLevel);
    var items := [
      WriteInt(s.attestationVersion).value, WriteEnumerated(LevelNumber(s.attestationLevel)).value,
      WriteInt(s.keyMintVersion).value, WriteEnumerated(LevelNumber(s.keyMintLevel)).value,
      WriteOctets(s.challenge).value, WriteOctets(s.uniqueId).value,
      WriteList(encode, s.software, s.softwareOrder).value, WriteList(encode, s.hardware, s.hardwareOrder).value];
    SequenceReads(items);
    SingleReads(WriteSequence(items).value);
  }
}
