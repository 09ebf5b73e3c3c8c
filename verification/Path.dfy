/** Certification paths (server/src/verifier/path.ts): the walk from the anchor to the leaf, the steps it
    may take, and the constraints on what the leaf attests. */
module Path {
  import opened Common
  import Names
  import KeyDescription
  import AuthorizationLists
  import Revocations

  const KEY_ATTESTATION: string := "1.3.6.1.4.1.1" + "1129.2.1.17"
  const DROID_CA2 := "Droid CA2"
  const GOOGLE_LLC := "Google LLC"

  datatype PublicKey = PublicKey(spki: Bytes, algorithm: string, curve: Option<string>)
  datatype Extension = Extension(critical: bool, value: Bytes)
  datatype Certificate = Certificate(
    serial: int,
    tbs: Bytes,
    signatureAlgorithm: string,
    signature: Bytes,
    issuer: Names.Name,
    subject: Names.Name,
    notBefore: int,
    notAfter: int,
    publicKey: PublicKey,
    extensions: map<string, Extension>)

  /** What stays abstract: whether a signature of an algorithm checks under a key, text handling, and
      the decoding of UTF-8 inside the attestation extension. */
  datatype World = World(
    verify: (PublicKey, string, Bytes, Bytes) -> bool,
    unicode: Names.Unicode,
    decode: KeyDescription.Decoder)

  function SerialHex(c: Certificate): string {
    Revocations.SerialHex(c.serial)
  }

  predicate IsSelfIssued(c: Certificate) {
    Names.Equal(c.issuer, c.subject)
  }

  predicate SignedBy(w: World, c: Certificate, key: PublicKey) {
    w.verify(key, c.signatureAlgorithm, c.signature, c.tbs)
  }

  function ExtensionValue(c: Certificate, oid: string): Option<Bytes> {
    if oid in c.extensions then Some(c.extensions[oid].value) else None
  }

  /** A critical attestation extension does not count here. */
  predicate HasAttestationExtension(c: Certificate) {
    KEY_ATTESTATION in c.extensions && !c.extensions[KEY_ATTESTATION].critical
  }

  // ---- the chain ----------------------------------------------------------------------------------

  /** Leaf first, root last. */
  predicate IsPath(chain: seq<Certificate>) {
    |chain| >= 3 && IsSelfIssued(chain[|chain| - 1])
  }

  datatype Provisioning = UnknownProvisioning | FactoryProvisioned | RemotelyProvisioned

  /** By the subject of the certificate below the root. */
  function ProvisioningMethod(w: World, chain: seq<Certificate>): Provisioning
    requires |chain| >= 3
  {
    var subject := chain[|chain| - 2].subject;
    if Names.HasAttribute(subject, Names.SERIAL_NUMBER) then FactoryProvisioned
    else if && Names.AttributeText(w.unicode, subject, Names.COMMON_NAME) == Some(DROID_CA2)
            && Names.AttributeText(w.unicode, subject, Names.ORGANIZATION) == Some(GOOGLE_LLC)
    then RemotelyProvisioned
    else UnknownProvisioning
  }

  /** The security level that the certificates themselves claim. */
  function CertifiedLevel(w: World, chain: seq<Certificate>): Option<KeyDescription.SecurityLevel>
    requires |chain| >= 3
  {
    match ProvisioningMethod(w, chain)
    case UnknownProvisioning => None
    case RemotelyProvisioned =>
      var o := Names.AttributeText(w.unicode, chain[1].subject, Names.ORGANIZATION);
      if o == Some("TEE") then Some(KeyDescription.TrustedEnvironment)
      else if o == Some("StrongBox") then Some(KeyDescription.StrongBox)
      else Some(KeyDescription.Software)
    case FactoryProvisioned =>
      if || Names.Contains(w.unicode, chain[1].subject, "strongbox")
         || Names.Contains(w.unicode, chain[|chain| - 2].subject, "strongbox")
      then Some(KeyDescription.StrongBox) else None
  }

  // ---- the steps of the walk ------------------------------------------------------------------------

  datatype Step = FactoryIntermediate | RkpIntermediate | RkpServer | AttestationKey | Target

  /** The steps in order; `total` counts the chain with its root. */
  function Steps(provisioning: Provisioning, total: nat): (steps: seq<Step>)
    ensures 2 <= |steps| <= 4 && steps[|steps| - 1] == Target
    ensures forall i :: 0 <= i < |steps| - 1 ==> steps[i] != Target
  {
    if provisioning.RemotelyProvisioned? then [RkpIntermediate, RkpServer, AttestationKey, Target]
    else if provisioning.FactoryProvisioned? || total == 4 then [FactoryIntermediate, AttestationKey, Target]
    else [AttestationKey, Target]
  }

  datatype PathError =
    | UnexpectedExtension | UnexpectedCertificate | NameChaining | BadSignature
    | NotYetValid | Expired | MissingExtension | StrayExtension | Revoked

  /** What a walk depends on. */
  datatype Walk = Walk(w: World, chain: seq<Certificate>, anchor: Certificate, revoked: set<string>, nowMs: int)

  /** Certificate i of the walk, counted from the one below the root. */
  function Walked(k: Walk, i: nat): Certificate
    requires |k.chain| >= 3 && i < |k.chain| - 1
  {
    k.chain[|k.chain| - 2 - i]
  }

  /** The certificate before it: the anchor for the first. */
  function Previous(k: Walk, i: nat): Certificate
    requires |k.chain| >= 3 && i < |k.chain| - 1
  {
    if i == 0 then k.anchor else Walked(k, i - 1)
  }

  function MethodOf(k: Walk): Provisioning
    requires |k.chain| >= 3
  {
    ProvisioningMethod(k.w, k.chain)
  }

  function StepsOf(k: Walk): seq<Step>
    requires |k.chain| >= 3
  {
    Steps(MethodOf(k), |k.chain|)
  }

  /** Certificates other than the leaf must be valid now; a factory chain may have expired. */
  function ValidityProblem(k: Walk, i: nat): Option<PathError>
    requires |k.chain| >= 3 && i < |k.chain| - 1
  {
    var c := Walked(k, i);
    if i == |k.chain| - 2 then None
    else if k.nowMs < c.notBefore then Some(NotYetValid)
    else if k.nowMs > c.notAfter && !MethodOf(k).FactoryProvisioned? then Some(Expired)
    else None
  }

  /** The first check that certificate i fails. */
  function Problem(k: Walk, i: nat): Option<PathError>
    requires |k.chain| >= 3 && i < |k.chain| - 1
  {
    var c := Walked(k, i);
    if i >= |StepsOf(k)| then Some(if HasAttestationExtension(c) then UnexpectedExtension else UnexpectedCertificate)
    else if !Names.Equal(c.issuer, Previous(k, i).subject) then Some(NameChaining)
    else if !SignedBy(k.w, c, Previous(k, i).publicKey) then Some(BadSignature)
    else if ValidityProblem(k, i).Some? then ValidityProblem(k, i)
    else if StepsOf(k)[i] == Target && !HasAttestationExtension(c) then Some(MissingExtension)
    else if StepsOf(k)[i] != Target && HasAttestationExtension(c) then Some(StrayExtension)
    else if SerialHex(c) in k.revoked then Some(Revoked)
    else None
  }

  /** What an accepted path is, certificate by certificate (compare section 6.1 of RFC 5280). */
  ghost predicate ValidPath(k: Walk)
    requires |k.chain| >= 3
  {
    && |k.chain| - 1 <= |StepsOf(k)|
    && forall i :: 0 <= i < |k.chain| - 1 ==> ValidCertificate(k, i)
  }

  ghost predicate ValidCertificate(k: Walk, i: nat)
    requires |k.chain| >= 3 && i < |k.chain| - 1
  {
    var c := Walked(k, i);
    && i < |StepsOf(k)|
    && Names.Equal(c.issuer, Previous(k, i).subject)
    && SignedBy(k.w, c, Previous(k, i).publicKey)
    && (i < |k.chain| - 2 ==> c.notBefore <= k.nowMs && (k.nowMs <= c.notAfter || MethodOf(k).FactoryProvisioned?))
    && (HasAttestationExtension(c) <==> StepsOf(k)[i] == Target)
    && SerialHex(c) !in k.revoked
  }

  /** Certificate i is the first with a problem. */
  ghost predicate FirstProblem(k: Walk, i: nat, e: PathError)
    requires |k.chain| >= 3
  {
    && i < |k.chain| - 1 && Problem(k, i) == Some(e)
    && forall j :: 0 <= j < i ==> Problem(k, j) == None
  }

  lemma NoProblemIsValid(k: Walk, i: nat)
    requires |k.chain| >= 3 && i < |k.chain| - 1
    ensures Problem(k, i) == None <==> ValidCertificate(k, i)
  {
    hide Names.Equal, HasAttestationExtension, SerialHex;
  }

  method ValidateWithAnchor(k: Walk) returns (r: Result<PublicKey, PathError>)
    requires |k.chain| >= 3
    ensures r.Ok? <==> ValidPath(k)
    ensures r.Ok? ==> r.value == k.chain[0].publicKey
    ensures r.Err? ==> exists i :: FirstProblem(k, i, r.error)
  {
    hide Names.Equal, HasAttestationExtension, SerialHex, ValidCertificate, ProvisioningMethod;
    ghost var steps := StepsOf(k);
    var count := |k.chain| - 1;
    var prevKey := k.anchor.publicKey;
    var prevSubject := k.anchor.subject;
    var step: Option<Step> := None;
    var remaining := count;
    var provisioning := ProvisioningMethod(k.w, k.chain);
    for i := 0 to count
      invariant remaining == count - i
      invariant i <= |steps| && step == (if i == 0 then None else Some(steps[i - 1]))
      invariant prevKey == (if i == 0 then k.anchor else Walked(k, i - 1)).publicKey
      invariant prevSubject == (if i == 0 then k.anchor else Walked(k, i - 1)).subject
      invariant forall j :: 0 <= j < i ==> Problem(k, j) == None
    {
      var cert := k.chain[|k.chain| - 2 - i];
      assert cert == Walked(k, i);
      NoProblemIsValid(k, i);
      ghost var problem := Problem(k, i);
      if step.None? {
        if provisioning.RemotelyProvisioned? { step := Some(RkpIntermediate); }
        else if provisioning.FactoryProvisioned? || |k.chain| == 4 { step := Some(FactoryIntermediate); }
        else { step := Some(AttestationKey); }
      } else if step.value.RkpIntermediate? { step := Some(RkpServer); }
      else if step.value.RkpServer? { step := Some(AttestationKey); }
      else if step.value.FactoryIntermediate? { step := Some(AttestationKey); }
      else if step.value.AttestationKey? { step := Some(Target); }
      else {
        r := Err(if HasAttestationExtension(cert) then UnexpectedExtension else UnexpectedCertificate);
        assert FirstProblem(k, i, r.error);
        return;
      }
      assert i < |steps| && step == Some(steps[i]);
      remaining := remaining - 1;
      r := CheckCertificate(k, i, step.value, remaining, prevKey, prevSubject);
      if r.Err? {
        assert FirstProblem(k, i, r.error);
        return;
      }
      prevKey := cert.publicKey;
      prevSubject := cert.subject;
    }
    forall i | 0 <= i < count ensures ValidCertificate(k, i) {
      NoProblemIsValid(k, i);
    }
    r := Ok(prevKey);
  }

  /** The checks of one certificate, after its step is known. */
  method CheckCertificate(k: Walk, i: nat, step: Step, remaining: nat, prevKey: PublicKey, prevSubject: Names.Name)
    returns (r: Result<PublicKey, PathError>)
    requires |k.chain| >= 3 && i < |k.chain| - 1 && i < |StepsOf(k)| && step == StepsOf(k)[i]
    requires remaining == |k.chain| - 2 - i
    requires prevKey == Previous(k, i).publicKey && prevSubject == Previous(k, i).subject
    ensures Problem(k, i) == if r.Ok? then None else Some(r.error)
  {
    hide Names.Equal, HasAttestationExtension, SerialHex, ProvisioningMethod, Steps;
    var cert := k.chain[|k.chain| - 2 - i];
    assert cert == Walked(k, i);
    var chains := Names.NamesEqual(cert.issuer, prevSubject);
    if !chains { return Err(NameChaining); }
    if !SignedBy(k.w, cert, prevKey) { return Err(BadSignature); }
    if remaining != 0 {
      if k.nowMs < cert.notBefore { return Err(NotYetValid); }
      if k.nowMs > cert.notAfter && !ProvisioningMethod(k.w, k.chain).FactoryProvisioned? { return Err(Expired); }
    }
    if step.Target? {
      if !HasAttestationExtension(cert) { return Err(MissingExtension); }
    } else if HasAttestationExtension(cert) {
      return Err(StrayExtension);
    }
    if SerialHex(cert) in k.revoked { return Err(Revoked); }
    r := Ok(cert.publicKey);
  }
}

/** How long an accepted chain is. */
module ChainShape {
  import opened Common
  import opened Path
  import Names

  /** The leaf of an accepted path stands at the target step exactly when its attestation extension is
      there and not critical; then the number of certificates follows from the provisioning. */
  lemma ChainLength(k: Walk)
    requires |k.chain| >= 3 && ValidPath(k)
    ensures HasAttestationExtension(k.chain[0]) <==> |k.chain| - 1 == |StepsOf(k)|
    ensures HasAttestationExtension(k.chain[0]) ==>
              match MethodOf(k)
              case RemotelyProvisioned => |k.chain| == 5
              case FactoryProvisioned => |k.chain| == 4
              case UnknownProvisioning => |k.chain| == 3 || |k.chain| == 4
  {
    hide Names.Equal, HasAttestationExtension, SerialHex, ProvisioningMethod;
    var last := |k.chain| - 2;
    assert ValidCertificate(k, last) && Walked(k, last) == k.chain[0];
  }

  lemma NoLongerThanSteps(k: Walk)
    requires |k.chain| >= 3 && ValidPath(k)
    ensures |k.chain| - 1 <= |StepsOf(k)|
  {
    hide ValidCertificate, StepsOf;
  }
}

/** Choosing an anchor, reading the attestation and checking the constraints. */
module ChainVerification {
  import opened Common
  import opened Path
  import opened KeyDescription
  import AuthorizationLists
  import ByteStrings
  import Names

  datatype Label = OriginLabel | LevelLabel | RootLabel | AppIdentityLabel | DeviceLabel | SigningKeyLabel

  datatype Constraint = Constraint(title: Label, holds: (Description, seq<Certificate>) -> bool)

  datatype Verification =
    | Success(publicKey: PublicKey, description: Description)
    | ChallengeMismatch
    | PathFailure
    | ChainFailure
    | ExtensionFailure
    | Violation(title: Label)

  /** What the chain is verified against. */
  datatype Options = Options(
    w: World,
    anchors: seq<Certificate>,
    revoked: set<string>,
    nowMs: int,
    constraints: seq<Constraint>,
    limits: Limits)

  predicate OriginHolds(d: Description) {
    d.hardwareEnforced.origin == Some(Generated)
  }

  predicate LevelHolds(d: Description) {
    d.keyMintLevel == d.attestationLevel && d.attestationLevel != Software
  }

  predicate RootHolds(d: Description) {
    d.hardwareEnforced.rootOfTrust.Some?
  }

  function DefaultConstraints(): seq<Constraint> {
    [Constraint(OriginLabel, (d, chain) => OriginHolds(d)),
     Constraint(LevelLabel, (d, chain) => LevelHolds(d)),
     Constraint(RootLabel, (d, chain) => RootHolds(d))]
  }

  /** The level of the key agrees with what the certificates claim; without a claim it is not StrongBox. */
  predicate MatchesCertificate(w: World, d: Description, chain: seq<Certificate>)
    requires |chain| >= 3
  {
    var level := CertifiedLevel(w, chain);
    match d.keyMintLevel
    case Software => level == None || level == Some(Software)
    case TrustedEnvironment => level == None || level == Some(TrustedEnvironment)
    case StrongBox => level == Some(StrongBox)
  }

  function WalkFrom(o: Options, chain: seq<Certificate>, anchor: Certificate): Walk {
    Walk(o.w, chain, anchor, o.revoked, o.nowMs)
  }

  /** An anchor that the chain leads to. */
  ghost predicate Anchors(o: Options, chain: seq<Certificate>, anchor: Certificate)
    requires |chain| >= 3
  {
    Names.Equal(anchor.subject, chain[|chain| - 2].issuer) && ValidPath(WalkFrom(o, chain, anchor))
  }

  ghost predicate Anchored(o: Options, chain: seq<Certificate>)
    requires |chain| >= 3
  {
    exists i :: 0 <= i < |o.anchors| && Anchors(o, chain, o.anchors[i])
  }

  /** The attestation of the leaf; critical or not makes no difference here. */
  function Attested(o: Options, chain: seq<Certificate>): Result<Description, Failure>
    requires chain != []
  {
    var value := ExtensionValue(chain[0], KEY_ATTESTATION);
    if value.None? then Err(Fatal) else AuthorizationLists.ParsedDescription(o.w.decode, o.limits, value.value)
  }

  function AllConstraints(o: Options): seq<Constraint> {
    DefaultConstraints() + o.constraints
  }

  predicate HoldsAt(o: Options, d: Description, chain: seq<Certificate>, i: nat)
    requires i < |AllConstraints(o)|
  {
    AllConstraints(o)[i].holds(d, chain)
  }

  /** Constraint i is the first that fails. */
  ghost predicate ViolatesFirst(o: Options, d: Description, chain: seq<Certificate>, i: nat, title: Label) {
    && i < |AllConstraints(o)| && !HoldsAt(o, d, chain, i) && AllConstraints(o)[i].title == title
    && forall j :: 0 <= j < i ==> HoldsAt(o, d, chain, j)
  }

  ghost predicate AllHold(o: Options, d: Description, chain: seq<Certificate>) {
    forall i :: 0 <= i < |AllConstraints(o)| ==> HoldsAt(o, d, chain, i)
  }

  /** The outcome for a chain that is anchored and an attestation that answers the challenge. */
  ghost predicate Judged(o: Options, d: Description, chain: seq<Certificate>, r: Verification)
    requires chain != []
  {
    match r
    case Success(publicKey, description) => AllHold(o, d, chain) && publicKey == chain[0].publicKey && description == d
    case Violation(title) => exists i :: ViolatesFirst(o, d, chain, i, title)
    case _ => false
  }

  /** The outcome of a verification, by what it depends on: which anchor was found makes no difference. */
  ghost predicate Outcome(o: Options, chain: seq<Certificate>, challenge: Option<Bytes>, r: Verification) {
    if !IsPath(chain) then r == ChainFailure
    else if !Anchored(o, chain) then r == PathFailure
    else if Attested(o, chain).Err? then r == ExtensionFailure
    else
      var d := Attested(o, chain).value;
      if challenge.Some? && d.challenge != challenge.value then r == ChallengeMismatch else Judged(o, d, chain, r)
  }

  lemma OutcomeCases(o: Options, chain: seq<Certificate>, challenge: Option<Bytes>, r: Verification)
    requires Outcome(o, chain, challenge, r)
    ensures !IsPath(chain) ==> r == ChainFailure
    ensures IsPath(chain) && !Anchored(o, chain) ==> r == PathFailure
    ensures IsPath(chain) && Anchored(o, chain) && Attested(o, chain).Err? ==> r == ExtensionFailure
    ensures IsPath(chain) && Anchored(o, chain) && Attested(o, chain).Ok? ==>
              var d := Attested(o, chain).value;
              if challenge.Some? && d.challenge != challenge.value then r == ChallengeMismatch else Judged(o, d, chain, r)
  {
    hide Anchored, Attested, Judged;
  }

  /** The public key of the leaf, when some anchor accepts the chain. */
  method FindAnchor(o: Options, chain: seq<Certificate>) returns (publicKey: Option<PublicKey>)
    requires |chain| >= 3
    ensures publicKey == if Anchored(o, chain) then Some(chain[0].publicKey) else None
  {
    hide ValidPath, Names.Equal;
    var first := chain[|chain| - 2];
    publicKey := None;
    for i := 0 to |o.anchors|
      invariant publicKey == None && forall j :: 0 <= j < i ==> !Anchors(o, chain, o.anchors[j])
    {
      var anchor := o.anchors[i];
      var matches := Names.NamesEqual(anchor.subject, first.issuer);
      if matches {
        var validated := ValidateWithAnchor(WalkFrom(o, chain, anchor));
        if validated.Ok? {
          assert Anchors(o, chain, o.anchors[i]);
          return Some(validated.value);
        }
      }
    }
  }

  method VerifyChain(o: Options, chain: seq<Certificate>, challenge: Option<Bytes>) returns (r: Verification)
    ensures Outcome(o, chain, challenge, r)
  {
    hide Anchored, AuthorizationLists.ParsedDescription, Names.Equal, AllConstraints;
    if |chain| < 3 { return ChainFailure; }
    var selfIssued := Names.NamesEqual(chain[|chain| - 1].issuer, chain[|chain| - 1].subject);
    if !selfIssued { return ChainFailure; }
    var publicKey := FindAnchor(o, chain);
    if publicKey.None? { return PathFailure; }
    var value := ExtensionValue(chain[0], KEY_ATTESTATION);
    if value.None? { return ExtensionFailure; }
    var parsed := AuthorizationLists.ParseKeyDescription(o.w.decode, o.limits, value.value);
    if parsed.Err? { return ExtensionFailure; }
    var d := parsed.value;
    if challenge.Some? {
      var answers := ByteStrings.BytesEqual(d.challenge, challenge.value);
      if !answers { return ChallengeMismatch; }
    }
    var constraints := AllConstraints(o);
    for i := 0 to |constraints|
      invariant forall j :: 0 <= j < i ==> HoldsAt(o, d, chain, j)
    {
      if !constraints[i].holds(d, chain) {
        assert ViolatesFirst(o, d, chain, i, constraints[i].title);
        return Violation(constraints[i].title);
      }
    }
    r := Success(publicKey.value, d);
  }
}
