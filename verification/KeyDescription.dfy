/** The attestation extension (server/src/verifier/keydescription.ts) and its two classes of failure: an
    attribute that cannot be converted is dropped, every other failure fails the whole parse. */
module KeyDescription {
  import opened Common
  import opened Der
  import Integers
  import ByteStrings

  datatype Failure = AttributeError | Fatal

  datatype Limits = Limits(maxPackages: nat, maxSignatures: nat)
  const DEFAULT_LIMITS := Limits(32, 10)

  /** UTF-8 decoding, none when malformed. */
  type Decoder = Bytes -> Option<string>

  datatype SecurityLevel = Software | TrustedEnvironment | StrongBox
  datatype Origin = Generated | Derived | Imported | Reserved | SecurelyImported
  datatype BootState = BootVerified | SelfSigned | Unverified | BootFailed

  datatype RootOfTrust = RootOfTrust(bootKey: Bytes, deviceLocked: bool, bootState: BootState, bootHash: Option<Bytes>)
  datatype PackageInfo = PackageInfo(name: string, version: int)

  /** Signature digests are kept as lowercase hexadecimal. */
  datatype ApplicationId = ApplicationId(packages: seq<PackageInfo>, signatures: seq<string>)

  datatype AuthorizationList = AuthorizationList(
    purposes: Option<seq<int>>,
    algorithms: Option<int>,
    keySize: Option<int>,
    digests: Option<seq<int>>,
    ecCurve: Option<int>,
    origin: Option<Origin>,
    rootOfTrust: Option<RootOfTrust>,
    applicationId: Option<ApplicationId>,
    osPatchLevel: Option<int>,
    vendorPatchLevel: Option<int>,
    bootPatchLevel: Option<int>)

  datatype Description = Description(
    attestationVersion: int,
    attestationLevel: SecurityLevel,
    keyMintVersion: int,
    keyMintLevel: SecurityLevel,
    challenge: Bytes,
    uniqueId: Bytes,
    softwareEnforced: AuthorizationList,
    hardwareEnforced: AuthorizationList)

  const KNOWN_TAGS: set<nat> := {
    1, 2, 3, 4, 5, 6, 10, 11, 200, 203, 400, 401, 402, 405, 503, 504, 505, 506, 507, 508, 509,
    701, 702, 703, 704, 705, 706, 709, 710, 711, 712, 713, 714, 715, 716, 717, 718, 719, 723, 724
  }

  const PURPOSE := 1
  const ALGORITHM := 2
  const KEY_SIZE := 3
  const DIGEST := 5
  const EC_CURVE := 10
  const ORIGIN := 702
  const ROOT_OF_TRUST := 704
  const OS_PATCH_LEVEL := 706
  const ATTESTATION_APPLICATION_ID := 709
  const VENDOR_PATCH_LEVEL := 718
  const BOOT_PATCH_LEVEL := 719
  const MODULE_HASH := 724

  /** Attributes that are converted although nothing reads them. */
  const UNREAD_SETS: seq<nat> := [4, 6, 203]
  const UNREAD_INTEGERS: seq<nat> := [11, 200, 400, 401, 402, 405, 504, 505, 701, 705]
  const UNREAD_TEXTS: seq<nat> := [710, 711, 712, 713, 714, 715, 716, 717, 723]

  // ---- conversions ------------------------------------------------------------------------------

  /** A failure of the reader is fatal. */
  function Lift<T>(r: Result<T, DerError>): Result<T, Failure> {
    if r.Ok? then Ok(r.value) else Err(Fatal)
  }

  function ToInt(t: Tlv): Result<int, Failure> {
    if !Is(t, INTEGER, false) then Err(AttributeError) else Lift(Integers.IntegerOf(t, INTEGER))
  }

  function ToEnumerated(t: Tlv): Result<int, Failure> {
    if !Is(t, ENUMERATED, false) then Err(AttributeError) else Lift(Integers.IntegerOf(t, ENUMERATED))
  }

  function ToBoolean(t: Tlv): Result<bool, Failure> {
    if !Is(t, BOOLEAN, false) then Err(AttributeError)
    else if |t.content| != 1 then Err(Fatal)
    else Ok(t.content[0] != 0)
  }

  function ToBytes(t: Tlv): Result<Bytes, Failure> {
    if !Is(t, OCTET_STRING, false) then Err(AttributeError) else Ok(t.content)
  }

  function ToText(decode: Decoder, t: Tlv): Result<string, Failure> {
    var b :- ToBytes(t);
    if decode(b).None? then Err(AttributeError) else Ok(decode(b).value)
  }

  predicate AllTagged(items: seq<Tlv>, tag: nat) {
    forall i :: 0 <= i < |items| ==> IsUniversal(items[i], tag)
  }

  function ToSetOf(t: Tlv, elementTag: nat): Result<seq<Tlv>, Failure> {
    if !Is(t, SET, true) then Err(AttributeError)
    else
      var items :- Lift(SetItems(t));
      if AllTagged(items, elementTag) then Ok(items) else Err(AttributeError)
  }

  /** The numbers of the items, or the failure of the first item that is not one. */
  function Numbers(items: seq<Tlv>): Result<seq<int>, Failure> {
    if items == [] then Ok([])
    else
      var before :- Numbers(items[..|items| - 1]);
      var last :- Lift(Integers.IntegerOf(items[|items| - 1], INTEGER));
      Ok(before + [last])
  }

  function IntSetOf(t: Tlv): Result<seq<int>, Failure> {
    var items :- ToSetOf(t, INTEGER);
    var values :- Numbers(items);
    Ok(Distinct(values))
  }

  lemma {:induction false} NumbersStop(items: seq<Tlv>, i: nat)
    requires i <= |items| && Numbers(items[..i]).Err?
    ensures Numbers(items) == Numbers(items[..i])
    decreases |items|
  {
    if i == |items| {
      assert items[..i] == items;
    } else {
      assert items[..|items| - 1][..i] == items[..i];
      NumbersStop(items[..|items| - 1], i);
    }
  }

  method ToIntSet(t: Tlv) returns (r: Result<seq<int>, Failure>)
    ensures r == IntSetOf(t)
    ensures r.Ok? ==> NoDuplicates(r.value)
  {
    var items := ToSetOf(t, INTEGER);
    if items.Err? { return Err(items.error); }
    var out: seq<int> := [];
    for i := 0 to |items.value|
      invariant Numbers(items.value[..i]).Ok? && out == Distinct(Numbers(items.value[..i]).value)
    {
      assert items.value[..i + 1][..i] == items.value[..i];
      var v := Integers.IntegerValue(items.value[i], INTEGER);
      if v.Err? {
        NumbersStop(items.value, i + 1);
        return Err(Fatal);
      }
      var before := Numbers(items.value[..i]).value;
      assert (before + [v.value])[..|before|] == before;
      out := Add(out, v.value);
    }
    assert items.value[..|items.value|] == items.value;
    DistinctHasNoDuplicates(Numbers(items.value).value);
    r := Ok(out);
  }

  function BootStateOf(v: int): BootState
    requires 0 <= v <= 3
  {
    if v == 0 then BootVerified else if v == 1 then SelfSigned else if v == 2 then Unverified else BootFailed
  }

  function OriginOf(v: int): Origin
    requires 0 <= v <= 4
  {
    if v == 0 then Generated else if v == 1 then Derived else if v == 2 then Imported
    else if v == 3 then Reserved else SecurelyImported
  }

  function LevelOf(v: int): SecurityLevel
    requires 0 <= v <= 2
  {
    if v == 0 then Software else if v == 1 then TrustedEnvironment else StrongBox
  }

  function ToRootOfTrust(t: Tlv): Result<RootOfTrust, Failure> {
    if !Is(t, SEQUENCE, true) then Err(AttributeError)
    else
      var items :- Lift(SequenceItems(t));
      if |items| != 3 && |items| != 4 then Err(Fatal)
      else
        var state :- ToEnumerated(items[2]);
        var bootKey :- ToBytes(items[0]);
        var deviceLocked :- ToBoolean(items[1]);
        if state < 0 || state > 3 then Err(Fatal)
        else if |items| == 3 then Ok(RootOfTrust(bootKey, deviceLocked, BootStateOf(state), None))
        else
          var bootHash :- ToBytes(items[3]);
          Ok(RootOfTrust(bootKey, deviceLocked, BootStateOf(state), Some(bootHash)))
  }

  function PackageOf(decode: Decoder, t: Tlv): Result<PackageInfo, Failure> {
    var items :- Lift(SequenceItems(t));
    if |items| != 2 then Err(Fatal)
    else
      var name :- ToText(decode, items[0]);
      var version :- ToInt(items[1]);
      Ok(PackageInfo(name, version))
  }

  function PackagesOf(decode: Decoder, items: seq<Tlv>): Result<seq<PackageInfo>, Failure> {
    if items == [] then Ok([])
    else
      var before :- PackagesOf(decode, items[..|items| - 1]);
      var last :- PackageOf(decode, items[|items| - 1]);
      Ok(before + [last])
  }

  function Digests(items: seq<Tlv>): (r: seq<string>)
    ensures |r| == |items| && forall i :: 0 <= i < |items| ==> r[i] == ByteStrings.HexOf(items[i].content)
  {
    seq(|items|, i requires 0 <= i < |items| => ByteStrings.HexOf(items[i].content))
  }

  /** Whether an element is a readable set of more than max items. */
  function Exceeds(t: Tlv, max: nat): Result<bool, Failure> {
    if !Is(t, SET, true) then Ok(false)
    else
      var items :- Lift(SetItems(t));
      Ok(|items| > max)
  }

  function ApplicationIdOf(decode: Decoder, limits: Limits, t: Tlv): Result<ApplicationId, Failure> {
    if !Is(t, OCTET_STRING, false) then Err(AttributeError)
    else
      var inner :- Lift(Single(t.content));
      var items :- Lift(SequenceItems(inner));
      if |items| != 2 then Err(Fatal)
      else
        var tooManyPackages :- Exceeds(items[0], limits.maxPackages);
        if tooManyPackages then Err(AttributeError)
        else
          var tooManySignatures :- Exceeds(items[1], limits.maxSignatures);
          if tooManySignatures then Err(AttributeError)
          else
            var packageItems :- ToSetOf(items[0], SEQUENCE);
            var signatureItems :- ToSetOf(items[1], OCTET_STRING);
            var packages :- PackagesOf(decode, packageItems);
            Ok(ApplicationId(Distinct(packages), Distinct(Digests(signatureItems))))
  }

  lemma {:induction false} PackagesStop(decode: Decoder, items: seq<Tlv>, i: nat)
    requires i <= |items| && PackagesOf(decode, items[..i]).Err?
    ensures PackagesOf(decode, items) == PackagesOf(decode, items[..i])
    decreases |items|
  {
    if i == |items| {
      assert items[..i] == items;
    } else {
      assert items[..|items| - 1][..i] == items[..i];
      PackagesStop(decode, items[..|items| - 1], i);
    }
  }

  method CollectPackages(decode: Decoder, items: seq<Tlv>) returns (r: Result<seq<PackageInfo>, Failure>)
    ensures PackagesOf(decode, items).Ok? ==> r == Ok(Distinct(PackagesOf(decode, items).value))
    ensures PackagesOf(decode, items).Err? ==> r == Err(PackagesOf(decode, items).error)
  {
    var packages: seq<PackageInfo> := [];
    for i := 0 to |items|
      invariant PackagesOf(decode, items[..i]).Ok? && packages == Distinct(PackagesOf(decode, items[..i]).value)
    {
      assert items[..i + 1][..i] == items[..i];
      var info := PackageOf(decode, items[i]);
      if info.Err? {
        PackagesStop(decode, items, i + 1);
        return Err(info.error);
      }
      var before := PackagesOf(decode, items[..i]).value;
      assert (before + [info.value])[..|before|] == before;
      packages := Add(packages, info.value);
    }
    assert items[..|items|] == items;
    r := Ok(packages);
  }

  method CollectSignatures(items: seq<Tlv>) returns (signatures: seq<string>)
    ensures signatures == Distinct(Digests(items))
  {
    signatures := [];
    for i := 0 to |items|
      invariant signatures == Distinct(Digests(items[..i]))
    {
      assert Digests(items[..i + 1])[..i] == Digests(items[..i]);
      var h := ByteStrings.Hex(items[i].content);
      signatures := Add(signatures, h);
    }
    assert items[..|items|] == items;
  }

  method ToApplicationId(decode: Decoder, limits: Limits, t: Tlv) returns (r: Result<ApplicationId, Failure>)
    ensures r == ApplicationIdOf(decode, limits, t)
    ensures r.Ok? ==> NoDuplicates(r.value.packages) && NoDuplicates(r.value.signatures)
  {
    hide Single, SequenceItems, ToSetOf, PackagesOf, Exceeds, Distinct, NoDuplicates;
    if !Is(t, OCTET_STRING, false) { return Err(AttributeError); }
    var inner :- Lift(Single(t.content));
    var items :- Lift(SequenceItems(inner));
    if |items| != 2 { return Err(Fatal); }
    var tooManyPackages :- Exceeds(items[0], limits.maxPackages);
    if tooManyPackages { return Err(AttributeError); }
    var tooManySignatures :- Exceeds(items[1], limits.maxSignatures);
    if tooManySignatures { return Err(AttributeError); }
    var packageItems :- ToSetOf(items[0], SEQUENCE);
    var signatureItems :- ToSetOf(items[1], OCTET_STRING);
    var packages :- CollectPackages(decode, packageItems);
    var signatures := CollectSignatures(signatureItems);
    DistinctHasNoDuplicates(PackagesOf(decode, packageItems).value);
    DistinctHasNoDuplicates(Digests(signatureItems));
    r := Ok(ApplicationId(packages, signatures));
  }

  function ToOrigin(t: Tlv): Result<Origin, Failure> {
    var n :- ToInt(t);
    if n < 0 || n > 4 then Err(Fatal) else Ok(OriginOf(n))
  }

  /** A patch level of the wrong type is fatal too. */
  function ToPatchLevel(t: Tlv): Result<int, Failure> {
    if !Is(t, INTEGER, false) then Err(Fatal) else Lift(Integers.IntegerOf(t, INTEGER))
  }

  function ToSecurityLevel(t: Tlv): Result<SecurityLevel, Failure> {
    var v :- ToEnumerated(t);
    if v < 0 || v > 2 then Err(Fatal) else Ok(LevelOf(v))
  }

  // ---- one attribute ----------------------------------------------------------------------------

  /** What the parser does with a known attribute. */
  datatype Kind = IntSetKind | IntKind | TextKind | OctetsKind | OriginKind | RootKind | ApplicationKind | PatchKind | SkippedKind

  predicate UnreadInteger(tag: nat) {
    tag == 11 || tag == 200 || 400 <= tag <= 402 || tag == 405 || tag == 504 || tag == 505 || tag == 701 || tag == 705
  }

  function KindOf(tag: nat): Kind {
    if tag == PURPOSE || tag == DIGEST || tag == 4 || tag == 6 || tag == 203 then IntSetKind
    else if tag == ALGORITHM || tag == KEY_SIZE || tag == EC_CURVE || UnreadInteger(tag) then IntKind
    else if 710 <= tag <= 717 || tag == 723 then TextKind
    else if tag == MODULE_HASH then OctetsKind
    else if tag == ORIGIN then OriginKind
    else if tag == ROOT_OF_TRUST then RootKind
    else if tag == ATTESTATION_APPLICATION_ID then ApplicationKind
    else if tag == OS_PATCH_LEVEL || tag == VENDOR_PATCH_LEVEL || tag == BOOT_PATCH_LEVEL then PatchKind
    else SkippedKind
  }

  /** The attributes of an authorization list by number: purpose (1), algorithm, key size, block mode, digest,
      padding, curve (10), ML-DSA variant, RSA exponent (200) and digest, dates and usage count (400 to 405), user
      authentication (504, 505), creation time (701), origin, root of trust (704), OS version, OS patch level,
      application (709), device identifiers (710 to 717, 723), vendor and boot patch level, module hash (724).
      The six others have no value. */
  function Schema(tag: nat): Option<Kind> {
    if tag in {1, 4, 5, 6, 203} then Some(IntSetKind)
    else if tag in {2, 3, 10, 11, 200, 400, 401, 402, 405, 504, 505, 701, 705} then Some(IntKind)
    else if tag in {710, 711, 712, 713, 714, 715, 716, 717, 723} then Some(TextKind)
    else if tag == 724 then Some(OctetsKind)
    else if tag == 702 then Some(OriginKind)
    else if tag == 704 then Some(RootKind)
    else if tag == 709 then Some(ApplicationKind)
    else if tag in {706, 718, 719} then Some(PatchKind)
    else if tag in {503, 506, 507, 508, 509, 703} then Some(SkippedKind)
    else None
  }

  /** The numbers that are taken, and how each is read, are those of the schema. */
  lemma SchemaIsFollowed(tag: nat)
    ensures tag in KNOWN_TAGS <==> Schema(tag).Some?
    ensures Schema(tag).Some? ==> KindOf(tag) == Schema(tag).value
  {
  }

  datatype Outcome = Fine | Failed | Aborts

  function OutcomeOf<T>(r: Result<T, Failure>): Outcome {
    if r.Ok? then Fine else if r.error == AttributeError then Failed else Aborts
  }

  /** How converting an attribute ends. */
  function Judged(decode: Decoder, limits: Limits, tag: nat, v: Tlv): Outcome {
    match KindOf(tag)
    case IntSetKind => OutcomeOf(IntSetOf(v))
    case IntKind => OutcomeOf(ToInt(v))
    case TextKind => OutcomeOf(ToText(decode, v))
    case OctetsKind => OutcomeOf(ToBytes(v))
    case OriginKind => OutcomeOf(ToOrigin(v))
    case RootKind => OutcomeOf(ToRootOfTrust(v))
    case ApplicationKind => OutcomeOf(ApplicationIdOf(decode, limits, v))
    case PatchKind => OutcomeOf(ToPatchLevel(v))
    case SkippedKind => Fine
  }
}

/** An authorization list: collecting the tagged elements, then converting every attribute. */
module AuthorizationLists {
  import opened Common
  import opened Der
  import opened KeyDescription
  import Integers

  // ---- collecting -------------------------------------------------------------------------------

  /** The one element inside an explicit tag. */
  function Explicit(el: Tlv): Result<Tlv, Failure> {
    if el.cls == UNIVERSAL then Err(Fatal)
    else if el.tag !in KNOWN_TAGS then Err(Fatal)
    else if !el.constructed then Err(Fatal)
    else
      var inner :- Lift(ChildrenOf(el));
      if |inner| != 1 then Err(Fatal) else Ok(inner[0])
  }

  type Objects = map<nat, Tlv>

  /** The last element of each number. */
  function ObjectsOf(els: seq<Tlv>): Result<Objects, Failure> {
    if els == [] then Ok(map[])
    else
      var before :- ObjectsOf(els[..|els| - 1]);
      var el := els[|els| - 1];
      var inner :- Explicit(el);
      Ok(before[el.tag := inner])
  }

  // ---- converting -------------------------------------------------------------------------------

  /** A converted attribute: none when absent or dropped. */
  function Converted<T>(objects: Objects, tag: nat, convert: Tlv -> Result<T, Failure>): Option<T> {
    if tag in objects && convert(objects[tag]).Ok? then Some(convert(objects[tag]).value) else None
  }

  function Fields(decode: Decoder, limits: Limits, objects: Objects): AuthorizationList {
    AuthorizationList(
      Converted(objects, PURPOSE, IntSetOf),
      Converted(objects, ALGORITHM, ToInt),
      Converted(objects, KEY_SIZE, ToInt),
      Converted(objects, DIGEST, IntSetOf),
      Converted(objects, EC_CURVE, ToInt),
      Converted(objects, ORIGIN, ToOrigin),
      Converted(objects, ROOT_OF_TRUST, ToRootOfTrust),
      Converted(objects, ATTESTATION_APPLICATION_ID, v => ApplicationIdOf(decode, limits, v)),
      Converted(objects, OS_PATCH_LEVEL, ToPatchLevel),
      Converted(objects, VENDOR_PATCH_LEVEL, ToPatchLevel),
      Converted(objects, BOOT_PATCH_LEVEL, ToPatchLevel))
  }

  predicate Aborted(decode: Decoder, limits: Limits, objects: Objects, tag: nat) {
    tag in objects && Judged(decode, limits, tag, objects[tag]) == Aborts
  }

  predicate SomeAborted(decode: Decoder, limits: Limits, objects: Objects) {
    exists tag :: tag in objects && Aborted(decode, limits, objects, tag)
  }

  /** The list that a collection of attributes stands for, unless the conversion of one of them aborts. */
  function ListOf(decode: Decoder, limits: Limits, objects: Objects): Result<AuthorizationList, Failure> {
    if SomeAborted(decode, limits, objects) then Err(Fatal) else Ok(Fields(decode, limits, objects))
  }

  function ParsedList(decode: Decoder, limits: Limits, t: Tlv): Result<AuthorizationList, Failure> {
    if !Is(t, SEQUENCE, true) then Err(AttributeError)
    else
      var els :- Lift(SequenceItems(t));
      var objects :- ObjectsOf(els);
      ListOf(decode, limits, objects)
  }

  // ---- the parser ---------------------------------------------------------------------------------

  function Recovered<T>(r: Result<T, Failure>): Result<Option<T>, Failure> {
    if r.Ok? then Ok(Some(r.value)) else if r.error == AttributeError then Ok(None) else Err(r.error)
  }

  /** Converts one attribute; a failure of the attribute class is recovered from. */
  function Parse<T>(objects: Objects, tag: nat, convert: Tlv -> Result<T, Failure>): Result<Option<T>, Failure> {
    if tag !in objects then Ok(None) else Recovered(convert(objects[tag]))
  }

  lemma {:induction false} ObjectsStop(els: seq<Tlv>, i: nat)
    requires i <= |els| && ObjectsOf(els[..i]).Err?
    ensures ObjectsOf(els) == ObjectsOf(els[..i])
    decreases |els|
  {
    if i == |els| {
      assert els[..i] == els;
    } else {
      assert els[..|els| - 1][..i] == els[..i];
      ObjectsStop(els[..|els| - 1], i);
    }
  }

  method CollectObjects(els: seq<Tlv>) returns (r: Result<Objects, Failure>)
    ensures r == ObjectsOf(els)
  {
    var objects: Objects := map[];
    for i := 0 to |els|
      invariant ObjectsOf(els[..i]) == Ok(objects)
    {
      assert els[..i + 1][..i] == els[..i];
      var el := els[i];
      if el.cls == UNIVERSAL || el.tag !in KNOWN_TAGS || !el.constructed {
        ObjectsStop(els, i + 1);
        return Err(Fatal);
      }
      var inner := Children(el);
      if inner.Err? || |inner.value| != 1 {
        ObjectsStop(els, i + 1);
        return Err(Fatal);
      }
      objects := objects[el.tag := inner.value[0]];
    }
    assert els[..|els|] == els;
    r := Ok(objects);
  }

  /** Converts the attributes of a list of numbers for their fatal failures only. */
  method CheckUnread<T>(objects: Objects, tags: seq<nat>, convert: Tlv -> Result<T, Failure>) returns (ok: bool)
    ensures ok <==> AllParse(objects, tags, convert)
  {
    for i := 0 to |tags|
      invariant forall k :: 0 <= k < i ==> Parse(objects, tags[k], convert).Ok?
    {
      if Parse(objects, tags[i], convert).Err? { return false; }
    }
    ok := true;
  }

  /** Converts the sets of a list of numbers for their fatal failures only. */
  method CheckUnreadSets(objects: Objects, tags: seq<nat>) returns (ok: bool)
    ensures ok <==> AllParse(objects, tags, IntSetOf)
  {
    hide IntSetOf;
    for i := 0 to |tags|
      invariant forall k :: 0 <= k < i ==> Parse(objects, tags[k], IntSetOf).Ok?
    {
      var numbers := ParseIntSet(objects, tags[i]);
      if numbers.Err? { return false; }
    }
    ok := true;
  }

  /** Converts one set of numbers. */
  method ParseIntSet(objects: Objects, tag: nat) returns (r: Result<Option<seq<int>>, Failure>)
    ensures r == Parse(objects, tag, IntSetOf)
  {
    hide IntSetOf;
    if tag !in objects { return Ok(None); }
    var converted := ToIntSet(objects[tag]);
    r := Recovered(converted);
  }

  /** Converts the application id. */
  method ParseApplicationId(decode: Decoder, limits: Limits, objects: Objects) returns (r: Result<Option<ApplicationId>, Failure>)
    ensures r == Parse(objects, ATTESTATION_APPLICATION_ID, v => ApplicationIdOf(decode, limits, v))
  {
    hide ApplicationIdOf;
    if ATTESTATION_APPLICATION_ID !in objects { return Ok(None); }
    var converted := ToApplicationId(decode, limits, objects[ATTESTATION_APPLICATION_ID]);
    r := Recovered(converted);
  }

  /** Only the fatal class survives `recover`. */
  lemma ParseFailsWhenAborted<T>(decode: Decoder, limits: Limits, objects: Objects, tag: nat, convert: Tlv -> Result<T, Failure>)
    requires tag in objects ==> OutcomeOf(convert(objects[tag])) == Judged(decode, limits, tag, objects[tag])
    ensures Parse(objects, tag, convert).Err? <==> Aborted(decode, limits, objects, tag)
    ensures Parse(objects, tag, convert).Err? ==> Parse(objects, tag, convert) == Err(Fatal)
    ensures Parse(objects, tag, convert).Ok? ==> Parse(objects, tag, convert) == Ok(Converted(objects, tag, convert))
  {
    hide Judged;
  }

  method ParseAuthorizationList(decode: Decoder, limits: Limits, t: Tlv) returns (r: Result<AuthorizationList, Failure>)
    ensures r == ParsedList(decode, limits, t)
  {
    if !Is(t, SEQUENCE, true) { return Err(AttributeError); }
    var els := Children(t);
    if els.Err? { return Err(Fatal); }
    var objects := CollectObjects(els.value);
    if objects.Err? { return Err(objects.error); }
    r := ConvertAll(decode, limits, objects.value);
  }

  ghost predicate AllParse<T>(objects: Objects, tags: seq<nat>, convert: Tlv -> Result<T, Failure>) {
    forall k :: 0 <= k < |tags| ==> Parse(objects, tags[k], convert).Ok?
  }

  ghost predicate NoneAborted(decode: Decoder, limits: Limits, objects: Objects, tags: seq<nat>) {
    forall k :: 0 <= k < |tags| ==> !Aborted(decode, limits, objects, tags[k])
  }

  /** The attributes of one kind, all converted the same way. */
  lemma AllParseWhenNoneAborted<T>(decode: Decoder, limits: Limits, objects: Objects, tags: seq<nat>,
              convert: Tlv -> Result<T, Failure>)
    requires forall k, v :: 0 <= k < |tags| ==> OutcomeOf(convert(v)) == Judged(decode, limits, tags[k], v)
    ensures AllParse(objects, tags, convert) <==> NoneAborted(decode, limits, objects, tags)
  {
    hide Judged, Parse, Aborted;
    forall k | 0 <= k < |tags|
      ensures Parse(objects, tags[k], convert).Ok? <==> !Aborted(decode, limits, objects, tags[k])
    {
      ParseFailsWhenAborted(decode, limits, objects, tags[k], convert);
    }
  }

  const READ_TAGS: seq<nat> := [1, 2, 3, 5, 10, 702, 704, 706, 709, 718, 719]

  /** Every attribute that can abort the parse is in one of the lists. */
  lemma EveryAbortIsSeen(decode: Decoder, limits: Limits, objects: Objects)
    ensures SomeAborted(decode, limits, objects) <==>
            !(&& NoneAborted(decode, limits, objects, UNREAD_SETS) && NoneAborted(decode, limits, objects, UNREAD_INTEGERS)
              && NoneAborted(decode, limits, objects, UNREAD_TEXTS) && NoneAborted(decode, limits, objects, [MODULE_HASH])
              && NoneAborted(decode, limits, objects, READ_TAGS))
  {
    forall tag | tag in objects && Aborted(decode, limits, objects, tag)
      ensures tag in UNREAD_SETS || tag in UNREAD_INTEGERS || tag in UNREAD_TEXTS || tag in [MODULE_HASH] || tag in READ_TAGS
    {
      SkippedNeverAborts(decode, limits, tag, objects[tag]);
      KindsAreListed(tag);
    }
    hide Judged, Aborted, KindOf;
  }

  lemma SkippedNeverAborts(decode: Decoder, limits: Limits, tag: nat, v: Tlv)
    ensures KindOf(tag) == SkippedKind ==> Judged(decode, limits, tag, v) == Fine
  {
    hide KindOf;
  }

  lemma KindsAreListed(tag: nat)
    requires KindOf(tag) != SkippedKind
    ensures tag in UNREAD_SETS || tag in UNREAD_INTEGERS || tag in UNREAD_TEXTS || tag in [MODULE_HASH] || tag in READ_TAGS
  {
    ReadTagsListed();
    assert [MODULE_HASH][0] == MODULE_HASH;
    var s, i, t := UNREAD_SETS, UNREAD_INTEGERS, UNREAD_TEXTS;
    assert s[0] == 4 && s[1] == 6 && s[2] == 203;
    assert i[0] == 11 && i[1] == 200 && i[2] == 400 && i[3] == 401 && i[4] == 402;
    assert i[5] == 405 && i[6] == 504 && i[7] == 505 && i[8] == 701 && i[9] == 705;
    assert t[0] == 710 && t[1] == 711 && t[2] == 712 && t[3] == 713 && t[4] == 714;
    assert t[5] == 715 && t[6] == 716 && t[7] == 717 && t[8] == 723;
  }

  /** What the attributes that are read convert to; a failure is always a fatal one. */
  ghost predicate ReadAs(objects: Objects, decode: Decoder, limits: Limits, list: AuthorizationList) {
    && Parse(objects, PURPOSE, IntSetOf) == Ok(list.purposes)
    && Parse(objects, ALGORITHM, ToInt) == Ok(list.algorithms)
    && Parse(objects, KEY_SIZE, ToInt) == Ok(list.keySize)
    && Parse(objects, DIGEST, IntSetOf) == Ok(list.digests)
    && Parse(objects, EC_CURVE, ToInt) == Ok(list.ecCurve)
    && Parse(objects, ORIGIN, ToOrigin) == Ok(list.origin)
    && Parse(objects, ROOT_OF_TRUST, ToRootOfTrust) == Ok(list.rootOfTrust)
    && Parse(objects, ATTESTATION_APPLICATION_ID, v => ApplicationIdOf(decode, limits, v)) == Ok(list.applicationId)
    && Parse(objects, OS_PATCH_LEVEL, ToPatchLevel) == Ok(list.osPatchLevel)
    && Parse(objects, VENDOR_PATCH_LEVEL, ToPatchLevel) == Ok(list.vendorPatchLevel)
    && Parse(objects, BOOT_PATCH_LEVEL, ToPatchLevel) == Ok(list.bootPatchLevel)
  }

  lemma ReadTagsParse(decode: Decoder, limits: Limits, objects: Objects)
    ensures Parse(objects, PURPOSE, IntSetOf).Err? <==> Aborted(decode, limits, objects, PURPOSE)
    ensures Parse(objects, ALGORITHM, ToInt).Err? <==> Aborted(decode, limits, objects, ALGORITHM)
    ensures Parse(objects, KEY_SIZE, ToInt).Err? <==> Aborted(decode, limits, objects, KEY_SIZE)
    ensures Parse(objects, DIGEST, IntSetOf).Err? <==> Aborted(decode, limits, objects, DIGEST)
    ensures Parse(objects, EC_CURVE, ToInt).Err? <==> Aborted(decode, limits, objects, EC_CURVE)
    ensures Parse(objects, ORIGIN, ToOrigin).Err? <==> Aborted(decode, limits, objects, ORIGIN)
    ensures Parse(objects, ROOT_OF_TRUST, ToRootOfTrust).Err? <==> Aborted(decode, limits, objects, ROOT_OF_TRUST)
    ensures Parse(objects, ATTESTATION_APPLICATION_ID, v => ApplicationIdOf(decode, limits, v)).Err? <==>
            Aborted(decode, limits, objects, ATTESTATION_APPLICATION_ID)
    ensures Parse(objects, OS_PATCH_LEVEL, ToPatchLevel).Err? <==> Aborted(decode, limits, objects, OS_PATCH_LEVEL)
    ensures Parse(objects, VENDOR_PATCH_LEVEL, ToPatchLevel).Err? <==> Aborted(decode, limits, objects, VENDOR_PATCH_LEVEL)
    ensures Parse(objects, BOOT_PATCH_LEVEL, ToPatchLevel).Err? <==> Aborted(decode, limits, objects, BOOT_PATCH_LEVEL)
  {
    hide IntSetOf, ToInt, ToOrigin, ToRootOfTrust, ApplicationIdOf, ToPatchLevel, Judged, Parse, Aborted, OutcomeOf;
    JudgedNumbers(decode, limits, objects);
    JudgedOthers(decode, limits, objects);
    ParseFailsWhenAborted(decode, limits, objects, PURPOSE, IntSetOf);
    ParseFailsWhenAborted(decode, limits, objects, ALGORITHM, ToInt);
    ParseFailsWhenAborted(decode, limits, objects, KEY_SIZE, ToInt);
    ParseFailsWhenAborted(decode, limits, objects, DIGEST, IntSetOf);
    ParseFailsWhenAborted(decode, limits, objects, EC_CURVE, ToInt);
    ParseFailsWhenAborted(decode, limits, objects, ORIGIN, ToOrigin);
    ParseFailsWhenAborted(decode, limits, objects, ROOT_OF_TRUST, ToRootOfTrust);
    ParseFailsWhenAborted(decode, limits, objects, ATTESTATION_APPLICATION_ID, v => ApplicationIdOf(decode, limits, v));
    ParseFailsWhenAborted(decode, limits, objects, OS_PATCH_LEVEL, ToPatchLevel);
    ParseFailsWhenAborted(decode, limits, objects, VENDOR_PATCH_LEVEL, ToPatchLevel);
    ParseFailsWhenAborted(decode, limits, objects, BOOT_PATCH_LEVEL, ToPatchLevel);
  }

  lemma JudgedNumbers(decode: Decoder, limits: Limits, objects: Objects)
    ensures PURPOSE in objects ==> Judged(decode, limits, PURPOSE, objects[PURPOSE]) == OutcomeOf(IntSetOf(objects[PURPOSE]))
    ensures DIGEST in objects ==> Judged(decode, limits, DIGEST, objects[DIGEST]) == OutcomeOf(IntSetOf(objects[DIGEST]))
    ensures ALGORITHM in objects ==> Judged(decode, limits, ALGORITHM, objects[ALGORITHM]) == OutcomeOf(ToInt(objects[ALGORITHM]))
    ensures KEY_SIZE in objects ==> Judged(decode, limits, KEY_SIZE, objects[KEY_SIZE]) == OutcomeOf(ToInt(objects[KEY_SIZE]))
    ensures EC_CURVE in objects ==> Judged(decode, limits, EC_CURVE, objects[EC_CURVE]) == OutcomeOf(ToInt(objects[EC_CURVE]))
  {
    NumberKinds();
    hide IntSetOf, ToInt, KindOf, OutcomeOf;
  }

  lemma NumberKinds()
    ensures KindOf(PURPOSE) == IntSetKind && KindOf(DIGEST) == IntSetKind
    ensures KindOf(ALGORITHM) == IntKind && KindOf(KEY_SIZE) == IntKind && KindOf(EC_CURVE) == IntKind
  {
  }

  lemma OtherKinds()
    ensures KindOf(ORIGIN) == OriginKind && KindOf(ROOT_OF_TRUST) == RootKind
    ensures KindOf(ATTESTATION_APPLICATION_ID) == ApplicationKind
    ensures KindOf(OS_PATCH_LEVEL) == PatchKind && KindOf(VENDOR_PATCH_LEVEL) == PatchKind
    ensures KindOf(BOOT_PATCH_LEVEL) == PatchKind
  {
  }

  lemma JudgedOthers(decode: Decoder, limits: Limits, objects: Objects)
    ensures ORIGIN in objects ==> Judged(decode, limits, ORIGIN, objects[ORIGIN]) == OutcomeOf(ToOrigin(objects[ORIGIN]))
    ensures ROOT_OF_TRUST in objects ==>
              Judged(decode, limits, ROOT_OF_TRUST, objects[ROOT_OF_TRUST]) == OutcomeOf(ToRootOfTrust(objects[ROOT_OF_TRUST]))
    ensures ATTESTATION_APPLICATION_ID in objects ==>
              Judged(decode, limits, ATTESTATION_APPLICATION_ID, objects[ATTESTATION_APPLICATION_ID]) ==
              OutcomeOf(ApplicationIdOf(decode, limits, objects[ATTESTATION_APPLICATION_ID]))
    ensures OS_PATCH_LEVEL in objects ==>
              Judged(decode, limits, OS_PATCH_LEVEL, objects[OS_PATCH_LEVEL]) == OutcomeOf(ToPatchLevel(objects[OS_PATCH_LEVEL]))
    ensures VENDOR_PATCH_LEVEL in objects ==>
              Judged(decode, limits, VENDOR_PATCH_LEVEL, objects[VENDOR_PATCH_LEVEL]) ==
              OutcomeOf(ToPatchLevel(objects[VENDOR_PATCH_LEVEL]))
    ensures BOOT_PATCH_LEVEL in objects ==>
              Judged(decode, limits, BOOT_PATCH_LEVEL, objects[BOOT_PATCH_LEVEL]) ==
              OutcomeOf(ToPatchLevel(objects[BOOT_PATCH_LEVEL]))
  {
    OtherKinds();
    hide ToOrigin, ToRootOfTrust, ApplicationIdOf, ToPatchLevel, KindOf, OutcomeOf;
  }

  lemma ParsedIsConverted<T>(objects: Objects, tag: nat, convert: Tlv -> Result<T, Failure>)
    ensures Parse(objects, tag, convert).Ok? ==> Parse(objects, tag, convert) == Ok(Converted(objects, tag, convert))
  {
  }

  lemma ReadIsFields(decode: Decoder, limits: Limits, objects: Objects, list: AuthorizationList)
    requires ReadAs(objects, decode, limits, list)
    ensures list == Fields(decode, limits, objects)
  {
    hide IntSetOf, ToInt, ToOrigin, ToRootOfTrust, ApplicationIdOf, ToPatchLevel;
    ParsedIsConverted(objects, PURPOSE, IntSetOf);
    ParsedIsConverted(objects, ALGORITHM, ToInt);
    ParsedIsConverted(objects, KEY_SIZE, ToInt);
    ParsedIsConverted(objects, DIGEST, IntSetOf);
    ParsedIsConverted(objects, EC_CURVE, ToInt);
    ParsedIsConverted(objects, ORIGIN, ToOrigin);
    ParsedIsConverted(objects, ROOT_OF_TRUST, ToRootOfTrust);
    ParsedIsConverted(objects, ATTESTATION_APPLICATION_ID, v => ApplicationIdOf(decode, limits, v));
    ParsedIsConverted(objects, OS_PATCH_LEVEL, ToPatchLevel);
    ParsedIsConverted(objects, VENDOR_PATCH_LEVEL, ToPatchLevel);
    ParsedIsConverted(objects, BOOT_PATCH_LEVEL, ToPatchLevel);
    hide Parse, Converted;
  }

  lemma UnreadTagsParse(decode: Decoder, limits: Limits, objects: Objects)
    ensures AllParse(objects, UNREAD_SETS, IntSetOf) <==> NoneAborted(decode, limits, objects, UNREAD_SETS)
    ensures AllParse(objects, UNREAD_INTEGERS, ToInt) <==> NoneAborted(decode, limits, objects, UNREAD_INTEGERS)
    ensures AllParse(objects, UNREAD_TEXTS, v => ToText(decode, v)) <==> NoneAborted(decode, limits, objects, UNREAD_TEXTS)
    ensures AllParse(objects, [MODULE_HASH], ToBytes) <==> NoneAborted(decode, limits, objects, [MODULE_HASH])
  {
    hide IntSetOf, ToInt, ToText, ToBytes, AllParse, NoneAborted;
    AllParseWhenNoneAborted(decode, limits, objects, UNREAD_SETS, IntSetOf);
    AllParseWhenNoneAborted(decode, limits, objects, UNREAD_INTEGERS, ToInt);
    AllParseWhenNoneAborted(decode, limits, objects, UNREAD_TEXTS, v => ToText(decode, v));
    AllParseWhenNoneAborted(decode, limits, objects, [MODULE_HASH], ToBytes);
  }

  /** Converts the attributes that are read, patch levels first. */
  method ReadAttributes(decode: Decoder, limits: Limits, objects: Objects) returns (r: Result<AuthorizationList, ()>)
    ensures r.Ok? ==> ReadAs(objects, decode, limits, r.value)
    ensures r.Ok? <==> NoneAborted(decode, limits, objects, READ_TAGS)
  {
    ReadTagsParse(decode, limits, objects);
    ReadTagsAre(decode, limits, objects);
    hide IntSetOf, ToInt, ToOrigin, ToRootOfTrust, ApplicationIdOf, ToPatchLevel, Parse, Aborted, NoneAborted;
    var osPatchLevel := Parse(objects, OS_PATCH_LEVEL, ToPatchLevel);
    if osPatchLevel.Err? { return Err(()); }
    var vendorPatchLevel := Parse(objects, VENDOR_PATCH_LEVEL, ToPatchLevel);
    if vendorPatchLevel.Err? { return Err(()); }
    var bootPatchLevel := Parse(objects, BOOT_PATCH_LEVEL, ToPatchLevel);
    if bootPatchLevel.Err? { return Err(()); }
    var origin := Parse(objects, ORIGIN, ToOrigin);
    if origin.Err? { return Err(()); }
    var purposes := ParseIntSet(objects, PURPOSE);
    if purposes.Err? { return Err(()); }
    var algorithms := Parse(objects, ALGORITHM, ToInt);
    if algorithms.Err? { return Err(()); }
    var keySize := Parse(objects, KEY_SIZE, ToInt);
    if keySize.Err? { return Err(()); }
    var digests := ParseIntSet(objects, DIGEST);
    if digests.Err? { return Err(()); }
    var ecCurve := Parse(objects, EC_CURVE, ToInt);
    if ecCurve.Err? { return Err(()); }
    var rootOfTrust := Parse(objects, ROOT_OF_TRUST, ToRootOfTrust);
    if rootOfTrust.Err? { return Err(()); }
    var applicationId := ParseApplicationId(decode, limits, objects);
    if applicationId.Err? { return Err(()); }
    r := Ok(AuthorizationList(purposes.value, algorithms.value, keySize.value, digests.value, ecCurve.value, origin.value,
                              rootOfTrust.value, applicationId.value,
                              osPatchLevel.value, vendorPatchLevel.value, bootPatchLevel.value));
  }

  lemma ReadTagsAre(decode: Decoder, limits: Limits, objects: Objects)
    ensures NoneAborted(decode, limits, objects, READ_TAGS) <==>
            && !Aborted(decode, limits, objects, PURPOSE) && !Aborted(decode, limits, objects, ALGORITHM)
            && !Aborted(decode, limits, objects, KEY_SIZE) && !Aborted(decode, limits, objects, DIGEST)
            && !Aborted(decode, limits, objects, EC_CURVE) && !Aborted(decode, limits, objects, ORIGIN)
            && !Aborted(decode, limits, objects, ROOT_OF_TRUST) && !Aborted(decode, limits, objects, ATTESTATION_APPLICATION_ID)
            && !Aborted(decode, limits, objects, OS_PATCH_LEVEL) && !Aborted(decode, limits, objects, VENDOR_PATCH_LEVEL)
            && !Aborted(decode, limits, objects, BOOT_PATCH_LEVEL)
  {
    hide Aborted;
    ReadTagsListed();
  }

  lemma ReadTagsListed()
    ensures READ_TAGS[0] == PURPOSE && READ_TAGS[1] == ALGORITHM && READ_TAGS[2] == KEY_SIZE && READ_TAGS[3] == DIGEST
    ensures READ_TAGS[4] == EC_CURVE && READ_TAGS[5] == ORIGIN && READ_TAGS[6] == ROOT_OF_TRUST
    ensures READ_TAGS[7] == OS_PATCH_LEVEL && READ_TAGS[8] == ATTESTATION_APPLICATION_ID
    ensures READ_TAGS[9] == VENDOR_PATCH_LEVEL && READ_TAGS[10] == BOOT_PATCH_LEVEL
  {
  }

  method ConvertAll(decode: Decoder, limits: Limits, objects: Objects) returns (r: Result<AuthorizationList, Failure>)
    ensures r == ListOf(decode, limits, objects)
  {
    EveryAbortIsSeen(decode, limits, objects);
    UnreadTagsParse(decode, limits, objects);
    hide IntSetOf, ToInt, ToText, ToBytes, Parse, SomeAborted, NoneAborted, ReadAs, Fields;
    var sets := CheckUnreadSets(objects, UNREAD_SETS);
    if !sets { return Err(Fatal); }
    var integers := CheckUnread(objects, UNREAD_INTEGERS, ToInt);
    if !integers { return Err(Fatal); }
    var texts := CheckUnread(objects, UNREAD_TEXTS, v => ToText(decode, v));
    if !texts { return Err(Fatal); }
    var hash := CheckUnread(objects, [MODULE_HASH], ToBytes);
    if !hash { return Err(Fatal); }
    var list := ReadAttributes(decode, limits, objects);
    if list.Err? { return Err(Fatal); }
    ReadIsFields(decode, limits, objects, list.value);
    r := Ok(list.value);
  }

  // ---- what the parser accepts -------------------------------------------------------------------

  /** No later element has the number of element k. */
  predicate IsLast(els: seq<Tlv>, k: nat) {
    k < |els| && forall j :: k < j < |els| ==> els[j].tag != els[k].tag
  }

  lemma {:induction false} CollectedWhenExplicit(els: seq<Tlv>)
    ensures ObjectsOf(els).Ok? <==> forall k :: 0 <= k < |els| ==> Explicit(els[k]).Ok?
  {
    hide Explicit;
    if els != [] {
      var before := els[..|els| - 1];
      CollectedWhenExplicit(before);
      assert forall k :: 0 <= k < |before| ==> before[k] == els[k];
    }
  }

  lemma IsLastBefore(els: seq<Tlv>, k: nat)
    requires k < |els| - 1
    ensures IsLast(els, k) <==> IsLast(els[..|els| - 1], k) && els[|els| - 1].tag != els[k].tag
  {
    var before := els[..|els| - 1];
    assert forall j :: 0 <= j < |before| ==> before[j] == els[j];
  }

  lemma {:induction false} LastIsHeld(els: seq<Tlv>, k: nat)
    requires ObjectsOf(els).Ok? && IsLast(els, k)
    ensures Holds(ObjectsOf(els).value, els[k])
    decreases |els|
  {
    hide Explicit;
    if k < |els| - 1 {
      IsLastBefore(els, k);
      LastIsHeld(els[..|els| - 1], k);
    }
  }

  lemma {:induction false} HeldHasLast(els: seq<Tlv>, tag: nat) returns (k: nat)
    requires ObjectsOf(els).Ok? && tag in ObjectsOf(els).value
    ensures IsLast(els, k) && els[k].tag == tag
  {
    hide Explicit;
    var n := |els| - 1;
    if tag == els[n].tag {
      k := n;
    } else {
      k := HeldHasLast(els[..n], tag);
      hide IsLast;
      IsLastBefore(els, k);
    }
  }

  /** The collection holds exactly the last element of each number. */
  lemma ObjectsAreTheLast(els: seq<Tlv>)
    requires ObjectsOf(els).Ok?
    ensures var objects := ObjectsOf(els).value;
            && (forall k :: 0 <= k < |els| && IsLast(els, k) ==> Holds(objects, els[k]))
            && (forall tag :: tag in objects ==> exists k :: 0 <= k < |els| && IsLast(els, k) && els[k].tag == tag)
  {
    var objects := ObjectsOf(els).value;
    hide ObjectsOf, Holds;
    forall k | 0 <= k < |els| && IsLast(els, k) ensures Holds(objects, els[k]) {
      LastIsHeld(els, k);
    }
    forall tag | tag in objects ensures exists k :: 0 <= k < |els| && IsLast(els, k) && els[k].tag == tag {
      var k := HeldHasLast(els, tag);
    }
  }

  predicate Holds(objects: Objects, el: Tlv) {
    el.tag in objects && Explicit(el) == Ok(objects[el.tag])
  }

  /** The element is tagged with an attribute's number, explicitly: it holds one element, `inner`. */
  ghost predicate Wraps(el: Tlv, inner: Tlv) {
    el.cls != 0 && Schema(el.tag).Some? && el.constructed && ElementsFrom(el.content, 0) == Ok([inner])
  }

  ghost predicate Wrapping(el: Tlv) {
    exists inner :: Wraps(el, inner)
  }

  lemma ExplicitIsWrap(el: Tlv, inner: Tlv)
    ensures Explicit(el) == Ok(inner) <==> Wraps(el, inner)
  {
    SchemaIsFollowed(el.tag);
    hide Schema, KNOWN_TAGS, ElementsFrom;
    var items := ElementsFrom(el.content, 0);
    if items.Ok? && |items.value| == 1 { assert items.value == [items.value[0]]; }
  }

  lemma ExplicitWraps(el: Tlv)
    ensures Explicit(el).Ok? <==> Wrapping(el)
    ensures Explicit(el).Ok? ==> Wraps(el, Explicit(el).value)
    ensures forall inner :: Wraps(el, inner) ==> Explicit(el) == Ok(inner)
  {
    hide Explicit, Wraps;
    if Explicit(el).Ok? { ExplicitIsWrap(el, Explicit(el).value); }
    forall inner | Wraps(el, inner) ensures Explicit(el) == Ok(inner) {
      ExplicitIsWrap(el, inner);
    }
  }

  ghost predicate AllWrap(els: seq<Tlv>) {
    forall k :: 0 <= k < |els| ==> Wrapping(els[k])
  }

  ghost predicate LastConvert(decode: Decoder, limits: Limits, els: seq<Tlv>) {
    forall k, inner :: 0 <= k < |els| && IsLast(els, k) && Wraps(els[k], inner) ==>
      Judged(decode, limits, els[k].tag, inner) != Aborts
  }

  /** Each element wraps an attribute of the schema, and the conversion of the last one of each number, read
      or not, does not abort. */
  ghost predicate AllConvert(decode: Decoder, limits: Limits, els: seq<Tlv>) {
    AllWrap(els) && LastConvert(decode, limits, els)
  }

  /** A list is accepted exactly when that is so. */
  lemma ListIsAccepted(decode: Decoder, limits: Limits, t: Tlv)
    ensures ParsedList(decode, limits, t).Ok? <==>
            Is(t, SEQUENCE, true) && SequenceItems(t).Ok? && AllConvert(decode, limits, SequenceItems(t).value)
  {
    ParsesUnlessSomethingAborts(decode, limits, t);
    if Is(t, SEQUENCE, true) && SequenceItems(t).Ok? {
      AllExplicit(decode, limits, SequenceItems(t).value);
    }
    hide ParsedList, SequenceItems, Explicit, Judged, IsLast, AllConvert;
  }

  lemma AllExplicit(decode: Decoder, limits: Limits, els: seq<Tlv>)
    ensures AllConvert(decode, limits, els) <==>
            && (forall k :: 0 <= k < |els| ==> Explicit(els[k]).Ok?)
            && (forall k :: 0 <= k < |els| && IsLast(els, k) ==>
                  Judged(decode, limits, els[k].tag, Explicit(els[k]).value) != Aborts)
  {
    hide Explicit, Wraps, Judged, IsLast, LastConvert;
    WrapsAreExplicit(els);
    hide AllWrap;
    if forall k :: 0 <= k < |els| ==> Explicit(els[k]).Ok? { LastOnesAgree(decode, limits, els); }
  }

  lemma WrapsAreExplicit(els: seq<Tlv>)
    ensures AllWrap(els) <==> forall k :: 0 <= k < |els| ==> Explicit(els[k]).Ok?
  {
    hide Explicit, Wrapping;
    if AllWrap(els) {
      forall k | 0 <= k < |els| ensures Explicit(els[k]).Ok? {
        ExplicitWraps(els[k]);
      }
    } else {
      var k :| 0 <= k < |els| && !Wrapping(els[k]);
      ExplicitWraps(els[k]);
    }
  }

  lemma LastOnesAgree(decode: Decoder, limits: Limits, els: seq<Tlv>)
    requires forall k :: 0 <= k < |els| ==> Explicit(els[k]).Ok?
    ensures LastConvert(decode, limits, els) <==>
            forall k :: 0 <= k < |els| && IsLast(els, k) ==>
              Judged(decode, limits, els[k].tag, Explicit(els[k]).value) != Aborts
  {
    hide Explicit, Wraps, Judged, IsLast;
    if LastConvert(decode, limits, els) {
      forall k | 0 <= k < |els| && IsLast(els, k) ensures Judged(decode, limits, els[k].tag, Explicit(els[k]).value) != Aborts {
        ExplicitWraps(els[k]);
      }
    } else {
      var k, inner :| 0 <= k < |els| && IsLast(els, k) && Wraps(els[k], inner)
        && Judged(decode, limits, els[k].tag, inner) == Aborts;
      ExplicitWraps(els[k]);
    }
  }

  /** A list is accepted exactly when every element is explicit and the conversion of the last one of each
      number, read or not, does not abort. */
  lemma ParsesUnlessSomethingAborts(decode: Decoder, limits: Limits, t: Tlv)
    ensures ParsedList(decode, limits, t).Ok? <==>
            && Is(t, SEQUENCE, true) && SequenceItems(t).Ok?
            && var els := SequenceItems(t).value;
               && (forall k :: 0 <= k < |els| ==> Explicit(els[k]).Ok?)
               && (forall k :: 0 <= k < |els| && IsLast(els, k) ==>
                     Judged(decode, limits, els[k].tag, Explicit(els[k]).value) != Aborts)
  {
    if Is(t, SEQUENCE, true) && SequenceItems(t).Ok? {
      var els := SequenceItems(t).value;
      CollectedWhenExplicit(els);
      hide SequenceItems, Explicit, Judged, Fields;
      if ObjectsOf(els).Ok? {
        ObjectsAreTheLast(els);
        var objects := ObjectsOf(els).value;
        forall k | 0 <= k < |els| && IsLast(els, k)
          ensures Aborted(decode, limits, objects, els[k].tag) <==>
                  Judged(decode, limits, els[k].tag, Explicit(els[k]).value) == Aborts
        {
          assert Holds(objects, els[k]);
        }
        if SomeAborted(decode, limits, objects) {
          var tag :| tag in objects && Aborted(decode, limits, objects, tag);
          var k :| 0 <= k < |els| && IsLast(els, k) && els[k].tag == tag;
        }
      }
    }
  }

  // ---- a failed attribute is an absent one ----------------------------------------------------------

  /** The elements of other numbers, and the universal ones. */
  function Without(els: seq<Tlv>, tag: nat): seq<Tlv> {
    if els == [] then []
    else
      var el := els[|els| - 1];
      Without(els[..|els| - 1], tag) + (if el.cls != UNIVERSAL && el.tag == tag then [] else [el])
  }

  lemma RemovedAgain(objects: Objects, tag: nat, v: Tlv)
    ensures objects[tag := v] - {tag} == objects - {tag}
  {
  }

  lemma KeptAside(objects: Objects, tag: nat, other: nat, v: Tlv)
    requires other != tag
    ensures objects[other := v] - {tag} == (objects - {tag})[other := v]
  {
  }

  lemma {:induction false} ObjectsWithout(els: seq<Tlv>, tag: nat)
    requires ObjectsOf(els).Ok?
    ensures ObjectsOf(Without(els, tag)) == Ok(ObjectsOf(els).value - {tag})
  {
    if els == [] {
      var none: Objects := map[];
      assert none - {tag} == none;
    } else {
      var before, el := els[..|els| - 1], els[|els| - 1];
      assert el.cls != UNIVERSAL;
      var inner := Explicit(el).value;
      hide Explicit;
      ObjectsWithout(before, tag);
      var objects := ObjectsOf(before).value;
      if el.tag == tag {
        RemovedAgain(objects, tag, inner);
        assert Without(els, tag) == Without(before, tag) + [] == Without(before, tag);
      } else {
        assert Without(els, tag) == Without(before, tag) + [el];
        assert Without(els, tag)[..|Without(before, tag)|] == Without(before, tag);
        KeptAside(objects, tag, el.tag, inner);
      }
    }
  }

  lemma FailedConvertsToNone(decode: Decoder, limits: Limits, objects: Objects, tag: nat)
    requires tag in objects && Judged(decode, limits, tag, objects[tag]) == Failed
    ensures Fields(decode, limits, objects) == Fields(decode, limits, objects - {tag})
  {
    JudgedNumbers(decode, limits, objects);
    JudgedOthers(decode, limits, objects);
    hide IntSetOf, ToInt, ToOrigin, ToRootOfTrust, ApplicationIdOf, ToPatchLevel, Judged;
  }

  /** When the last element of a number fails to convert, the list parses as if no element had that
      number. A patch level never fails in this way: its failures are fatal. */
  lemma FailedIsAbsent(decode: Decoder, limits: Limits, t: Tlv, t': Tlv, tag: nat)
    requires Is(t, SEQUENCE, true) && SequenceItems(t).Ok? && ObjectsOf(SequenceItems(t).value).Ok?
    requires var objects := ObjectsOf(SequenceItems(t).value).value;
             tag in objects && Judged(decode, limits, tag, objects[tag]) == Failed
    requires Is(t', SEQUENCE, true) && SequenceItems(t') == Ok(Without(SequenceItems(t).value, tag))
    ensures ParsedList(decode, limits, t') == ParsedList(decode, limits, t)
    ensures KindOf(tag) != PatchKind
  {
    hide SequenceItems, ObjectsOf, Fields, KindOf, Judged, ToPatchLevel, SomeAborted;
    var objects := ObjectsOf(SequenceItems(t).value).value;
    ObjectsWithout(SequenceItems(t).value, tag);
    FailedConvertsToNone(decode, limits, objects, tag);
    FailedNeverAborts(decode, limits, objects, tag);
    PatchLevelsNeverFail(objects[tag]);
    if KindOf(tag) == PatchKind { PatchJudgement(decode, limits, tag, objects[tag]); }
  }

  lemma FailedNeverAborts(decode: Decoder, limits: Limits, objects: Objects, tag: nat)
    requires tag in objects && Judged(decode, limits, tag, objects[tag]) == Failed
    ensures SomeAborted(decode, limits, objects) <==> SomeAborted(decode, limits, objects - {tag})
  {
    hide Judged;
    var fewer := objects - {tag};
    forall other | other in objects ensures Aborted(decode, limits, objects, other) <==> Aborted(decode, limits, fewer, other) {
    }
    assert forall other :: other in fewer ==> other in objects;
  }

  lemma PatchLevelsNeverFail(v: Tlv)
    ensures OutcomeOf(ToPatchLevel(v)) != Failed
  {
  }

  lemma PatchJudgement(decode: Decoder, limits: Limits, tag: nat, v: Tlv)
    requires KindOf(tag) == PatchKind
    ensures Judged(decode, limits, tag, v) == OutcomeOf(ToPatchLevel(v))
  {
    hide KindOf, ToPatchLevel;
  }

  // ---- the whole extension ------------------------------------------------------------------------

  function ParsedDescription(decode: Decoder, limits: Limits, bytes: Bytes): Result<Description, Failure> {
    var outer :- Lift(Single(bytes));
    var items :- Lift(SequenceItems(outer));
    if |items| != 8 then Err(Fatal)
    else
      var attestationVersion :- ToInt(items[0]);
      var attestationLevel :- ToSecurityLevel(items[1]);
      var keyMintVersion :- ToInt(items[2]);
      var keyMintLevel :- ToSecurityLevel(items[3]);
      var challenge :- ToBytes(items[4]);
      var uniqueId :- ToBytes(items[5]);
      var softwareEnforced :- ParsedList(decode, limits, items[6]);
      var hardwareEnforced :- ParsedList(decode, limits, items[7]);
      Ok(Description(attestationVersion, attestationLevel, keyMintVersion, keyMintLevel, challenge, uniqueId,
                     softwareEnforced, hardwareEnforced))
  }

  /** The eight elements of a description: two versions, each with a level, the challenge, the unique id, and
      the software and hardware lists. */
  ghost predicate IsDescription(decode: Decoder, limits: Limits, items: seq<Tlv>, d: Description) {
    && |items| == 8
    && ToInt(items[0]) == Ok(d.attestationVersion) && ToSecurityLevel(items[1]) == Ok(d.attestationLevel)
    && ToInt(items[2]) == Ok(d.keyMintVersion) && ToSecurityLevel(items[3]) == Ok(d.keyMintLevel)
    && ToBytes(items[4]) == Ok(d.challenge) && ToBytes(items[5]) == Ok(d.uniqueId)
    && ParsedList(decode, limits, items[6]) == Ok(d.softwareEnforced)
    && ParsedList(decode, limits, items[7]) == Ok(d.hardwareEnforced)
  }

  /** The extension is accepted exactly as one SEQUENCE of such elements that fills it. */
  lemma DescriptionIsRead(decode: Decoder, limits: Limits, bytes: Bytes, d: Description)
    ensures ParsedDescription(decode, limits, bytes) == Ok(d) <==>
            && Single(bytes).Ok? && SequenceItems(Single(bytes).value).Ok?
            && IsDescription(decode, limits, SequenceItems(Single(bytes).value).value, d)
  {
    hide Single, SequenceItems, ToInt, ToSecurityLevel, ToBytes, ParsedList;
  }

  method ParseKeyDescription(decode: Decoder, limits: Limits, bytes: Bytes) returns (r: Result<Description, Failure>)
    ensures r == ParsedDescription(decode, limits, bytes)
  {
    hide Single, SequenceItems, ToInt, ToSecurityLevel, ToBytes, ParsedList;
    var outer :- Lift(Single(bytes));
    var items :- Lift(SequenceItems(outer));
    if |items| != 8 { return Err(Fatal); }
    var attestationVersion :- ToInt(items[0]);
    var attestationLevel :- ToSecurityLevel(items[1]);
    var keyMintVersion :- ToInt(items[2]);
    var keyMintLevel :- ToSecurityLevel(items[3]);
    var challenge :- ToBytes(items[4]);
    var uniqueId :- ToBytes(items[5]);
    var softwareEnforced :- ParseAuthorizationList(decode, limits, items[6]);
    var hardwareEnforced :- ParseAuthorizationList(decode, limits, items[7]);
    r := Ok(Description(attestationVersion, attestationLevel, keyMintVersion, keyMintLevel, challenge, uniqueId,
                        softwareEnforced, hardwareEnforced));
  }
}

/** Which malformed attributes are dropped, and which fail the whole parse, by the elements they consist of:
    2 is INTEGER, 4 OCTET STRING, 10 ENUMERATED, 16 SEQUENCE, 17 SET and 1 BOOLEAN. */
module AttributeOutcomes {
  import opened Common
  import opened Der
  import opened KeyDescription
  import Integers

  predicate Element(t: Tlv, number: nat, constructed: bool) {
    t.cls == 0 && t.tag == number && t.constructed == constructed
  }

  predicate AllOf(items: seq<Tlv>, number: nat) {
    forall i :: 0 <= i < |items| ==> items[i].cls == 0 && items[i].tag == number
  }

  /** An INTEGER that is not one is dropped, one with redundant octets is fatal. */
  function IntOutcome(v: Tlv): Outcome {
    if !Element(v, 2, false) then Failed else if Integers.MinimalInteger(v.content) then Fine else Aborts
  }

  function OriginOutcome(v: Tlv): Outcome {
    if !Element(v, 2, false) then Failed
    else if Integers.MinimalInteger(v.content) && 0 <= Integers.Signed(v.content) <= 4 then Fine else Aborts
  }

  function TextOutcome(decode: Decoder, v: Tlv): Outcome {
    if Element(v, 4, false) && decode(v.content).Some? then Fine else Failed
  }

  function SetOutcome(v: Tlv): Outcome {
    if !Element(v, 17, true) then Failed
    else
      match ElementsFrom(v.content, 0)
      case Err(_) => Aborts
      case Ok(items) =>
        if !AllOf(items, 2) then Failed
        else if forall i :: 0 <= i < |items| ==> IntOutcome(items[i]) == Fine then Fine else Aborts
  }

  function RootOutcome(v: Tlv): Outcome {
    if !Element(v, 16, true) then Failed
    else
      match ElementsFrom(v.content, 0)
      case Err(_) => Aborts
      case Ok(items) =>
        if |items| < 3 || |items| > 4 then Aborts
        else if !Element(items[2], 10, false) then Failed
        else if !Integers.MinimalInteger(items[2].content) then Aborts
        else if !Element(items[0], 4, false) || !Element(items[1], 1, false) then Failed
        else if |items[1].content| != 1 || !(0 <= Integers.Signed(items[2].content) <= 3) then Aborts
        else if |items| == 4 && !Element(items[3], 4, false) then Failed
        else Fine
  }

  function PackageOutcome(decode: Decoder, t: Tlv): Outcome {
    if !Element(t, 16, true) then Aborts
    else
      match ElementsFrom(t.content, 0)
      case Err(_) => Aborts
      case Ok(items) =>
        if |items| != 2 then Aborts
        else if TextOutcome(decode, items[0]) != Fine then TextOutcome(decode, items[0])
        else IntOutcome(items[1])
  }

  /** The outcome of the first package that is not fine. */
  function PackagesOutcome(decode: Decoder, items: seq<Tlv>): Outcome {
    if items == [] then Fine
    else if PackageOutcome(decode, items[0]) != Fine then PackageOutcome(decode, items[0])
    else PackagesOutcome(decode, items[1..])
  }

  /** A SET in the place of the packages or the signatures: whether it can be read and is not too long. */
  function SizeOutcome(t: Tlv, max: nat): Outcome {
    if !Element(t, 17, true) then Fine
    else
      match ElementsFrom(t.content, 0)
      case Err(_) => Aborts
      case Ok(items) => if |items| > max then Failed else Fine
  }

  predicate IsSetOf(t: Tlv, number: nat) {
    && Element(t, 17, true) && ElementsFrom(t.content, 0).Ok? && AllOf(ElementsFrom(t.content, 0).value, number)
  }

  function ApplicationOutcome(decode: Decoder, limits: Limits, v: Tlv): Outcome {
    if !Element(v, 4, false) then Failed
    else
      match Single(v.content)
      case Err(_) => Aborts
      case Ok(inner) =>
        if !Element(inner, 16, true) then Aborts
        else
          match ElementsFrom(inner.content, 0)
          case Err(_) => Aborts
          case Ok(items) =>
            if |items| != 2 then Aborts
            else if SizeOutcome(items[0], limits.maxPackages) != Fine then SizeOutcome(items[0], limits.maxPackages)
            else if SizeOutcome(items[1], limits.maxSignatures) != Fine then SizeOutcome(items[1], limits.maxSignatures)
            else if !IsSetOf(items[0], 16) || !IsSetOf(items[1], 4) then Failed
            else PackagesOutcome(decode, ElementsFrom(items[0].content, 0).value)
  }

  /** How an attribute of the schema ends. */
  function ByShape(decode: Decoder, limits: Limits, kind: Kind, v: Tlv): Outcome {
    match kind
    case IntSetKind => SetOutcome(v)
    case IntKind => IntOutcome(v)
    case TextKind => TextOutcome(decode, v)
    case OctetsKind => if Element(v, 4, false) then Fine else Failed
    case OriginKind => OriginOutcome(v)
    case RootKind => RootOutcome(v)
    case ApplicationKind => ApplicationOutcome(decode, limits, v)
    case PatchKind => if IntOutcome(v) == Fine then Fine else Aborts
    case SkippedKind => Fine
  }

  lemma {:induction false} NumbersEnd(items: seq<Tlv>)
    ensures Numbers(items).Ok? <==> forall i :: 0 <= i < |items| ==> Integers.IntegerOf(items[i], INTEGER).Ok?
    ensures Numbers(items).Err? ==> Numbers(items) == Err(Fatal)
  {
    hide Integers.IntegerOf;
    if items != [] {
      var before := items[..|items| - 1];
      NumbersEnd(before);
      assert forall i :: 0 <= i < |before| ==> before[i] == items[i];
    }
  }

  lemma SetEnds(v: Tlv)
    ensures OutcomeOf(IntSetOf(v)) == SetOutcome(v)
  {
    hide Numbers, Distinct, ElementsFrom;
    if Element(v, 17, true) && ElementsFrom(v.content, 0).Ok? { NumbersEnd(ElementsFrom(v.content, 0).value); }
  }

  lemma RootEnds(v: Tlv)
    ensures OutcomeOf(ToRootOfTrust(v)) == RootOutcome(v)
  {
    hide ElementsFrom, Integers.Signed;
  }

  lemma PackageEnds(decode: Decoder, t: Tlv)
    ensures OutcomeOf(PackageOf(decode, t)) == PackageOutcome(decode, t)
  {
    hide ElementsFrom, Integers.Signed;
  }

  lemma {:induction false} PackagesEnd(decode: Decoder, items: seq<Tlv>)
    ensures OutcomeOf(PackagesOf(decode, items)) == PackagesOutcome(decode, items)
    decreases |items|
  {
    hide PackageOf, PackageOutcome;
    if items != [] {
      var n := |items| - 1;
      PackagesEnd(decode, items[..n]);
      PackageEnds(decode, items[n]);
      PackagesBefore(decode, items);
    }
  }

  lemma {:induction false} PackagesBefore(decode: Decoder, items: seq<Tlv>)
    requires items != []
    ensures var n := |items| - 1;
            PackagesOutcome(decode, items) ==
            if PackagesOutcome(decode, items[..n]) != Fine then PackagesOutcome(decode, items[..n])
            else PackageOutcome(decode, items[n])
    decreases |items|
  {
    hide PackageOutcome;
    var n := |items| - 1;
    if n > 0 {
      PackagesBefore(decode, items[1..]);
      assert items[1..][..n - 1] == items[..n][1..];
    } else {
      assert items[1..] == [] && items[..n] == [];
    }
  }

  lemma ApplicationEnds(decode: Decoder, limits: Limits, v: Tlv)
    ensures OutcomeOf(ApplicationIdOf(decode, limits, v)) == ApplicationOutcome(decode, limits, v)
  {
    hide ElementsFrom, TlvAt, PackagesOf, PackagesOutcome, Distinct, Digests;
    if Element(v, 4, false) && Single(v.content).Ok? && ElementsFrom(Single(v.content).value.content, 0).Ok? {
      var items := ElementsFrom(Single(v.content).value.content, 0).value;
      if |items| == 2 && ElementsFrom(items[0].content, 0).Ok? { PackagesEnd(decode, ElementsFrom(items[0].content, 0).value); }
    }
  }

  /** Every attribute of the schema, converted, ends as the shape of its elements says. */
  lemma JudgedByShape(decode: Decoder, limits: Limits, tag: nat, v: Tlv)
    requires Schema(tag).Some?
    ensures Judged(decode, limits, tag, v) == ByShape(decode, limits, Schema(tag).value, v)
  {
    SchemaIsFollowed(tag);
    hide Schema, KindOf, IntSetOf, ToRootOfTrust, ApplicationIdOf, SetOutcome, RootOutcome, ApplicationOutcome;
    match Schema(tag).value
    case IntSetKind => SetEnds(v);
    case RootKind => RootEnds(v);
    case ApplicationKind => ApplicationEnds(decode, limits, v);
    case _ =>
  }

  // ---- values ---------------------------------------------------------------------------------------

  lemma SmallNumber(c: Bytes, k: nat)
    requires k < 128
    ensures Integers.MinimalInteger(c) && Integers.Signed(c) == k <==> c == [k]
  {
    if Integers.MinimalInteger(c) && Integers.Signed(c) == k { Integers.OctetsOfSigned(c); }
  }

  /** Origins and security levels by the one octet of their element. */
  lemma OriginByOctet(t: Tlv, o: Origin)
    ensures ToOrigin(t) == Ok(o) <==>
            Element(t, 2, false) &&
            t.content == [match o case Generated => 0 case Derived => 1 case Imported => 2 case Reserved => 3
                                  case SecurelyImported => 4]
  {
    hide Integers.MinimalInteger, Integers.Signed;
    SmallNumber(t.content, 0);
    SmallNumber(t.content, 1);
    SmallNumber(t.content, 2);
    SmallNumber(t.content, 3);
    SmallNumber(t.content, 4);
    IntegerIs(t, INTEGER);
  }

  lemma IntegerIs(t: Tlv, tag: nat)
    ensures Integers.IntegerOf(t, tag).Ok? <==> Is(t, tag, false) && Integers.MinimalInteger(t.content)
    ensures Integers.IntegerOf(t, tag).Ok? ==> Integers.IntegerOf(t, tag).value == Integers.Signed(t.content)
  {
  }

  lemma LevelByOctet(t: Tlv, l: SecurityLevel)
    ensures ToSecurityLevel(t) == Ok(l) <==>
            Element(t, 10, false) && t.content == [match l case Software => 0 case TrustedEnvironment => 1 case StrongBox => 2]
  {
    hide Integers.MinimalInteger, Integers.Signed;
    SmallNumber(t.content, 0);
    SmallNumber(t.content, 1);
    SmallNumber(t.content, 2);
    IntegerIs(t, ENUMERATED);
  }

  /** The elements of a root of trust: the boot key, whether the device is locked, the boot state and, perhaps,
      the boot hash. */
  predicate IsRoot(items: seq<Tlv>, r: RootOfTrust) {
    && 3 <= |items| <= 4
    && Element(items[0], 4, false) && items[0].content == r.bootKey
    && Element(items[1], 1, false) && |items[1].content| == 1 && (r.deviceLocked <==> items[1].content[0] != 0)
    && Element(items[2], 10, false)
    && items[2].content == [match r.bootState case BootVerified => 0 case SelfSigned => 1 case Unverified => 2
                                              case BootFailed => 3]
    && (|items| == 3 ==> r.bootHash == None)
    && (|items| == 4 ==> Element(items[3], 4, false) && r.bootHash == Some(items[3].content))
  }

  lemma RootByElements(t: Tlv, r: RootOfTrust)
    ensures ToRootOfTrust(t) == Ok(r) <==>
            Element(t, 16, true) && ElementsFrom(t.content, 0).Ok? && IsRoot(ElementsFrom(t.content, 0).value, r)
  {
    hide ElementsFrom, Integers.MinimalInteger, Integers.Signed, Integers.IntegerOf;
    if Element(t, 16, true) && ElementsFrom(t.content, 0).Ok? && 3 <= |ElementsFrom(t.content, 0).value| <= 4 {
      var state := ElementsFrom(t.content, 0).value[2];
      SmallNumber(state.content, 0);
      SmallNumber(state.content, 1);
      SmallNumber(state.content, 2);
      SmallNumber(state.content, 3);
      IntegerIs(state, ENUMERATED);
    }
  }
}
