/** The verdict on an attestation request (server/src/verifier/verifier.ts): the controls of a request in
    their fixed order, and the code of the first that fails. */
module Verifier {
  import opened Common
  import opened Path
  import opened KeyDescription
  import C = ChainVerification
  import Base64
  import Names
  import Patches

  const EC_PUBLIC_KEY := "1.2.840.10045.2.1"
  const P256 := "1.2.840.10045.3.1.7"
  const ECDSA_SHA256 := "1.2.840.10045.4.3.2"

  /** What the server is configured with; `parse` reads a certificate. */
  datatype Config = Config(
    w: World,
    parse: Bytes -> Option<Certificate>,
    anchors: seq<Certificate>,
    packageName: string,
    signerHex: string)

  /** Everything a verdict depends on. */
  datatype Input = Input(cfg: Config, request: AttestRequest, challenge: Bytes, revoked: set<string>, nowMs: nat)

  // ---- constraints of this server -------------------------------------------------------------------

  predicate AppHolds(cfg: Config, d: Description) {
    && d.softwareEnforced.applicationId.Some?
    && var app := d.softwareEnforced.applicationId.value;
       && |app.packages| == 1 && app.packages[0].name == cfg.packageName
       && app.signatures == [cfg.signerHex]
  }

  predicate DeviceHolds(d: Description) {
    && d.hardwareEnforced.rootOfTrust.Some?
    && d.hardwareEnforced.rootOfTrust.value.deviceLocked
    && d.hardwareEnforced.rootOfTrust.value.bootState == BootVerified
  }

  /** A P-256 key for signing with SHA-256 and nothing else. */
  predicate SigningKeyHolds(d: Description) {
    var a := d.hardwareEnforced;
    a.purposes == Some([2]) && a.algorithms == Some(3) && a.keySize == Some(256) && a.ecCurve == Some(1) && a.digests == Some([4])
  }

  function ConstraintsFor(cfg: Config): seq<C.Constraint> {
    [C.Constraint(C.LevelLabel, (d, chain) => |chain| >= 3 && C.MatchesCertificate(cfg.w, d, chain)),
     C.Constraint(C.AppIdentityLabel, (d, chain) => AppHolds(cfg, d)),
     C.Constraint(C.DeviceLabel, (d, chain) => DeviceHolds(d)),
     C.Constraint(C.SigningKeyLabel, (d, chain) => SigningKeyHolds(d))]
  }

  function OptionsOf(x: Input): C.Options {
    C.Options(x.cfg.w, x.cfg.anchors, x.revoked, x.nowMs, ConstraintsFor(x.cfg), DEFAULT_LIMITS)
  }

  // ---- the chain of a request -------------------------------------------------------------------------

  predicate WellShaped(request: AttestRequest) {
    2 <= |request.chain| <= 6 && 1 <= |request.pop| <= 128
  }

  lemma StandardAlphabet()
    ensures |Base64.STD_ALPHABET| == 64 && Base64.GoodAlphabet(Base64.STD_ALPHABET)
  {
    Base64.AlphabetsAreGood();
  }

  ghost function DecodedCertificate(cfg: Config, encoded: string): Option<Certificate> {
    StandardAlphabet();
    if |encoded| < 1 || |encoded| > 5464 then None
    else
      var der := Base64.DecodeOf(encoded, Base64.STD_ALPHABET);
      if der.Err? || |der.value| > 4096 then None else cfg.parse(der.value)
  }

  ghost function DecodedChain(cfg: Config, chain: seq<string>): (r: Option<seq<Certificate>>)
    ensures r.Some? ==> |r.value| == |chain|
  {
    if chain == [] then Some([])
    else
      var before := DecodedChain(cfg, chain[..|chain| - 1]);
      var last := DecodedCertificate(cfg, chain[|chain| - 1]);
      if before.None? || last.None? then None else Some(before.value + [last.value])
  }

  predicate Completes(w: World, tail: Certificate, root: Certificate) {
    Names.Equal(tail.issuer, root.subject) && SignedBy(w, tail, root.publicKey)
  }

  /** The configured roots that complete a chain ending in `tail`. */
  function Candidates(w: World, tail: Certificate, anchors: seq<Certificate>): seq<Certificate> {
    if anchors == [] then []
    else
      var last := anchors[|anchors| - 1];
      Candidates(w, tail, anchors[..|anchors| - 1]) + (if Completes(w, tail, last) then [last] else [])
  }

  /** A chain that does not bring its own root is completed by the one root that fits. */
  function Completed(cfg: Config, chain: seq<Certificate>): Option<seq<Certificate>>
    requires chain != []
  {
    var tail := chain[|chain| - 1];
    if IsSelfIssued(tail) then Some(chain)
    else
      var candidates := Candidates(cfg.w, tail, cfg.anchors);
      if |candidates| != 1 then None else Some(chain + [candidates[0]])
  }

  ghost function ChainOf(x: Input): (r: Option<seq<Certificate>>)
    ensures r.Some? ==> r.value != []
  {
    var decoded := DecodedChain(x.cfg, x.request.chain);
    if x.request.chain == [] || decoded.None? then None else Completed(x.cfg, decoded.value)
  }

  ghost predicate Listed(x: Input, chain: seq<Certificate>) {
    exists i :: 0 <= i < |chain| && SerialHex(chain[i]) in x.revoked
  }

  ghost function DescriptionOf(x: Input): Option<Description> {
    var chain := ChainOf(x);
    if chain.None? then None
    else
      var attested := C.Attested(OptionsOf(x), chain.value);
      if attested.Err? then None else Some(attested.value)
  }

  // ---- the controls -----------------------------------------------------------------------------------

  datatype Control =
    | RequestShape | ChainDecodes | NothingListed | PathShape | PathAnchored | AttestationParses | AnswersChallenge
    | KeyGenerated | LevelsAgree | TrustRooted | LevelCertified | AppIdentified | DeviceIntact | KeyForSigning
    | LeafValid | LeafKeyIsP256 | PossessionProven | RemoteProvisioning | PatchesCurrent

  function Rank(c: Control): (k: nat)
    ensures k < 19
  {
    match c
    case RequestShape => 0 case ChainDecodes => 1 case NothingListed => 2 case PathShape => 3 case PathAnchored => 4
    case AttestationParses => 5 case AnswersChallenge => 6 case KeyGenerated => 7 case LevelsAgree => 8 case TrustRooted => 9
    case LevelCertified => 10 case AppIdentified => 11 case DeviceIntact => 12 case KeyForSigning => 13
    case LeafValid => 14 case LeafKeyIsP256 => 15 case PossessionProven => 16
    case RemoteProvisioning => 17 case PatchesCurrent => 18
  }

  function CodeOf(c: Control): Code {
    match c
    case LevelsAgree => NoHardwareAttestation
    case LevelCertified => NoHardwareAttestation
    case AppIdentified => AppIntegrity
    case DeviceIntact => DeviceIntegrity
    case RemoteProvisioning => NoRemoteProvisioning
    case PatchesCurrent => SecurityPatchOutdated
    case _ => AttestationInvalid
  }

  /** A control of the chain. */
  ghost predicate ChainHolds(x: Input, c: Control, chain: seq<Certificate>)
    requires chain != []
  {
    match c
    case NothingListed => !Listed(x, chain)
    case PathShape => IsPath(chain)
    case PathAnchored => |chain| >= 3 && C.Anchored(OptionsOf(x), chain)
    case LeafValid => chain[0].notBefore <= x.nowMs <= chain[0].notAfter
    case LeafKeyIsP256 => chain[0].publicKey.algorithm == EC_PUBLIC_KEY && chain[0].publicKey.curve == Some(P256)
    case PossessionProven => Proven(x, chain[0].publicKey)
    case RemoteProvisioning => |chain| >= 3 && ProvisioningMethod(x.cfg.w, chain).RemotelyProvisioned?
    case _ => true
  }

  /** The proof of possession is the leaf key's signature over the challenge. */
  ghost predicate Proven(x: Input, key: PublicKey) {
    StandardAlphabet();
    var signature := Base64.DecodeOf(x.request.pop, Base64.STD_ALPHABET);
    signature.Ok? && x.cfg.w.verify(key, ECDSA_SHA256, signature.value, x.challenge)
  }

  predicate PatchedAt(d: Description, nowMs: nat) {
    var hw := d.hardwareEnforced;
    && Patches.LevelIsCurrent(hw.osPatchLevel, nowMs)
    && Patches.LevelIsCurrent(hw.vendorPatchLevel, nowMs)
    && Patches.LevelIsCurrent(hw.bootPatchLevel, nowMs)
  }

  /** A control of what the leaf attests. */
  predicate DescriptionHolds(x: Input, c: Control, chain: seq<Certificate>, d: Description) {
    match c
    case AnswersChallenge => d.challenge == x.challenge
    case KeyGenerated => C.OriginHolds(d)
    case LevelsAgree => C.LevelHolds(d)
    case TrustRooted => C.RootHolds(d)
    case LevelCertified => |chain| >= 3 && C.MatchesCertificate(x.cfg.w, d, chain)
    case AppIdentified => AppHolds(x.cfg, d)
    case DeviceIntact => DeviceHolds(d)
    case KeyForSigning => SigningKeyHolds(d)
    case PatchesCurrent => PatchedAt(d, x.nowMs)
    case _ => true
  }

  /** Whether a control is satisfied; one whose subject is missing fails with the control that says so. */
  ghost predicate Holds(x: Input, c: Control) {
    if c.RequestShape? then WellShaped(x.request)
    else if c.ChainDecodes? then ChainOf(x).Some?
    else if c.AttestationParses? then DescriptionOf(x).Some?
    else
      && (ChainOf(x).Some? ==> ChainHolds(x, c, ChainOf(x).value))
      && (ChainOf(x).Some? && DescriptionOf(x).Some? ==> DescriptionHolds(x, c, ChainOf(x).value, DescriptionOf(x).value))
  }

  // ---- the verdict ------------------------------------------------------------------------------------

  /** Every control but the dropped ones that comes before rank k holds. */
  ghost predicate PassedBefore(x: Input, dropped: set<Control>, k: nat) {
    forall c :: c !in dropped && Rank(c) < k ==> Holds(x, c)
  }

  ghost predicate FailsFirst(x: Input, dropped: set<Control>, c: Control) {
    c !in dropped && !Holds(x, c) && PassedBefore(x, dropped, Rank(c))
  }

  /** Tier 2 when every control holds, otherwise the code of the first that does not. */
  ghost predicate VerdictWithout(x: Input, dropped: set<Control>, r: Result<nat, Code>) {
    match r
    case Ok(tier) => tier == 2 && PassedBefore(x, dropped, 19)
    case Err(code) => exists c :: FailsFirst(x, dropped, c) && CodeOf(c) == code
  }

  ghost predicate Verdict(x: Input, r: Result<nat, Code>) {
    VerdictWithout(x, {}, r)
  }

  lemma NextPassed(x: Input, dropped: set<Control>, c: Control)
    requires PassedBefore(x, dropped, Rank(c)) && (c in dropped || Holds(x, c))
    ensures PassedBefore(x, dropped, Rank(c) + 1)
  {
    hide Holds;
    forall b | b !in dropped && Rank(b) < Rank(c) + 1 ensures Holds(x, b) {
      if Rank(b) == Rank(c) { RankInjective(b, c); }
    }
  }

  lemma RankInjective(b: Control, c: Control)
    requires Rank(b) == Rank(c)
    ensures b == c
  {
  }

  // ---- the program --------------------------------------------------------------------------------------

  method DecodeCertificate(cfg: Config, encoded: string) returns (r: Option<Certificate>)
    ensures r == DecodedCertificate(cfg, encoded)
  {
    StandardAlphabet();
    if |encoded| < 1 || |encoded| > 5464 { return None; }
    var table := Base64.Table(Base64.STD_ALPHABET);
    var der := Base64.Decode(encoded, table, Base64.STD_ALPHABET);
    if der.Err? || |der.value| > 4096 { return None; }
    r := cfg.parse(der.value);
  }

  lemma {:induction false} DecodingStops(cfg: Config, chain: seq<string>, i: nat)
    requires i <= |chain| && DecodedChain(cfg, chain[..i]).None?
    ensures DecodedChain(cfg, chain).None?
    decreases |chain|
  {
    if i == |chain| {
      assert chain[..i] == chain;
    } else {
      assert chain[..|chain| - 1][..i] == chain[..i];
      DecodingStops(cfg, chain[..|chain| - 1], i);
    }
  }

  /** The certificates of a request, and the root that completes them. */
  method ReadChain(x: Input) returns (r: Option<seq<Certificate>>)
    requires x.request.chain != []
    ensures r == ChainOf(x)
  {
    hide DecodedCertificate, Names.Equal;
    var encoded := x.request.chain;
    var chain: seq<Certificate> := [];
    for i := 0 to |encoded|
      invariant DecodedChain(x.cfg, encoded[..i]) == Some(chain)
    {
      assert encoded[..i + 1][..i] == encoded[..i];
      var c := DecodeCertificate(x.cfg, encoded[i]);
      if c.None? {
        DecodingStops(x.cfg, encoded, i + 1);
        return None;
      }
      chain := chain + [c.value];
    }
    assert encoded[..|encoded|] == encoded;
    var tail := chain[|chain| - 1];
    var selfIssued := Names.NamesEqual(tail.issuer, tail.subject);
    if selfIssued { return Some(chain); }
    var anchors := x.cfg.anchors;
    var candidates: seq<Certificate> := [];
    for i := 0 to |anchors|
      invariant candidates == Candidates(x.cfg.w, tail, anchors[..i])
    {
      assert anchors[..i + 1][..i] == anchors[..i];
      var issued := Names.NamesEqual(tail.issuer, anchors[i].subject);
      if issued && SignedBy(x.cfg.w, tail, anchors[i].publicKey) { candidates := candidates + [anchors[i]]; }
    }
    assert anchors[..|anchors|] == anchors;
    if |candidates| != 1 { return None; }
    r := Some(chain + [candidates[0]]);
  }

  method AnyListed(x: Input, chain: seq<Certificate>) returns (listed: bool)
    ensures listed == Listed(x, chain)
  {
    hide SerialHex;
    for i := 0 to |chain|
      invariant forall j :: 0 <= j < i ==> SerialHex(chain[j]) !in x.revoked
    {
      if SerialHex(chain[i]) in x.revoked { return true; }
    }
    listed := false;
  }

  /** The code of a verification that did not succeed. */
  function CodeOfFailure(v: C.Verification): Code {
    match v
    case Violation(title) =>
      (match title
       case AppIdentityLabel => AppIntegrity
       case DeviceLabel => DeviceIntegrity
       case LevelLabel => NoHardwareAttestation
       case _ => AttestationInvalid)
    case _ => AttestationInvalid
  }

  /** Constraint i of the verification is the control of rank 7 + i. */
  function ConstraintControl(i: nat): Control
    requires i < 7
  {
    [KeyGenerated, LevelsAgree, TrustRooted, LevelCertified, AppIdentified, DeviceIntact, KeyForSigning][i]
  }

  lemma ConstraintsAreControls(x: Input, chain: seq<Certificate>, d: Description, i: nat)
    requires i < 7 && |chain| >= 3
    ensures |C.AllConstraints(OptionsOf(x))| == 7
    ensures var c := ConstraintControl(i);
            && Rank(c) == 7 + i
            && C.HoldsAt(OptionsOf(x), d, chain, i) == DescriptionHolds(x, c, chain, d)
            && CodeOf(c) == CodeOfFailure(C.Violation(C.AllConstraints(OptionsOf(x))[i].title))
  {
    hide C.OriginHolds, C.LevelHolds, C.RootHolds, C.MatchesCertificate, AppHolds, DeviceHolds, SigningKeyHolds;
  }

  /** What the controls of the attestation say once the chain is known. */
  lemma DescriptionControl(x: Input, chain: seq<Certificate>, d: Description, c: Control)
    requires ChainOf(x) == Some(chain) && DescriptionOf(x) == Some(d) && 6 <= Rank(c) <= 13
    ensures Holds(x, c) <==> DescriptionHolds(x, c, chain, d)
  {
    hide ChainOf, DescriptionOf, DescriptionHolds;
  }

  lemma ChainControl(x: Input, chain: seq<Certificate>, c: Control)
    requires ChainOf(x) == Some(chain) && (2 <= Rank(c) <= 4 || 14 <= Rank(c) <= 17)
    ensures Holds(x, c) <==> ChainHolds(x, c, chain)
  {
    hide ChainOf, DescriptionOf, ChainHolds;
  }

  lemma Fails(x: Input, c: Control)
    requires PassedBefore(x, {}, Rank(c)) && !Holds(x, c)
    ensures Verdict(x, Err(CodeOf(c)))
  {
    hide Holds, PassedBefore;
    assert FailsFirst(x, {}, c);
  }

  lemma Passes(x: Input, c: Control)
    requires PassedBefore(x, {}, Rank(c)) && Holds(x, c)
    ensures PassedBefore(x, {}, Rank(c) + 1)
  {
    NextPassed(x, {}, c);
  }

  /** The first i constraints hold: so do their controls. */
  lemma {:induction false} ConstraintsPass(x: Input, chain: seq<Certificate>, d: Description, i: nat)
    requires ChainOf(x) == Some(chain) && DescriptionOf(x) == Some(d) && |chain| >= 3 && i <= 7
    requires |C.AllConstraints(OptionsOf(x))| == 7 && forall j :: 0 <= j < i ==> C.HoldsAt(OptionsOf(x), d, chain, j)
    requires PassedBefore(x, {}, 7)
    ensures PassedBefore(x, {}, 7 + i)
  {
    hide Holds, PassedBefore, DescriptionHolds, C.HoldsAt, C.AllConstraints, ChainOf, DescriptionOf;
    if i > 0 {
      ConstraintsPass(x, chain, d, i - 1);
      ConstraintsAreControls(x, chain, d, i - 1);
      DescriptionControl(x, chain, d, ConstraintControl(i - 1));
      Passes(x, ConstraintControl(i - 1));
    }
  }

  lemma ConstraintFails(x: Input, chain: seq<Certificate>, d: Description, i: nat, title: C.Label)
    requires ChainOf(x) == Some(chain) && DescriptionOf(x) == Some(d) && |chain| >= 3
    requires C.ViolatesFirst(OptionsOf(x), d, chain, i, title) && PassedBefore(x, {}, 7)
    ensures Verdict(x, Err(CodeOfFailure(C.Violation(title))))
  {
    hide Holds, PassedBefore, DescriptionHolds, C.HoldsAt, C.AllConstraints, ChainOf, DescriptionOf, Verdict;
    ConstraintsAreControls(x, chain, d, 0);
    ConstraintsAreControls(x, chain, d, i);
    ConstraintsPass(x, chain, d, i);
    DescriptionControl(x, chain, d, ConstraintControl(i));
    Fails(x, ConstraintControl(i));
  }

  /** A verification that judges the constraints. */
  lemma JudgedVerdict(x: Input, chain: seq<Certificate>, d: Description, v: C.Verification)
    requires ChainOf(x) == Some(chain) && DescriptionOf(x) == Some(d) && |chain| >= 3
    requires C.Judged(OptionsOf(x), d, chain, v) && PassedBefore(x, {}, 7)
    ensures v.Success? ==> v.publicKey == chain[0].publicKey && v.description == d && PassedBefore(x, {}, 14)
    ensures !v.Success? ==> Verdict(x, Err(CodeOfFailure(v)))
  {
    hide Holds, PassedBefore, C.HoldsAt, C.AllConstraints, ChainOf, DescriptionOf, Verdict, C.ViolatesFirst;
    ConstraintsAreControls(x, chain, d, 0);
    if v.Success? {
      ConstraintsPass(x, chain, d, 7);
    } else {
      var i :| C.ViolatesFirst(OptionsOf(x), d, chain, i, v.title);
      ConstraintFails(x, chain, d, i, v.title);
    }
  }

  lemma PathControls(x: Input, chain: seq<Certificate>)
    requires ChainOf(x) == Some(chain)
    ensures Holds(x, PathShape) <==> IsPath(chain)
    ensures IsPath(chain) ==> |chain| >= 3 && (Holds(x, PathAnchored) <==> C.Anchored(OptionsOf(x), chain))
  {
    ChainControl(x, chain, PathShape);
    ChainControl(x, chain, PathAnchored);
    hide ChainOf, Holds, C.Anchored;
  }

  lemma DescriptionIsAttested(x: Input, chain: seq<Certificate>)
    requires ChainOf(x) == Some(chain)
    ensures chain != []
    ensures DescriptionOf(x) == if C.Attested(OptionsOf(x), chain).Err? then None else Some(C.Attested(OptionsOf(x), chain).value)
    ensures Holds(x, AttestationParses) <==> C.Attested(OptionsOf(x), chain).Ok?
  {
    hide ChainOf, C.Attested;
  }

  /** What a verification of the chain means for the verdict. */
  lemma VerificationVerdict(x: Input, chain: seq<Certificate>, v: C.Verification)
    requires ChainOf(x) == Some(chain) && PassedBefore(x, {}, 3)
    requires C.Outcome(OptionsOf(x), chain, Some(x.challenge), v)
    ensures v.Success? ==> |chain| >= 3 && v.publicKey == chain[0].publicKey && DescriptionOf(x) == Some(v.description)
                           && PassedBefore(x, {}, 14)
    ensures !v.Success? ==> Verdict(x, Err(CodeOfFailure(v)))
  {
    hide Holds, PassedBefore, ChainOf, DescriptionOf, Verdict, OptionsOf, C.Attested, C.Anchored, C.Judged, C.Outcome, IsPath;
    C.OutcomeCases(OptionsOf(x), chain, Some(x.challenge), v);
    PathControls(x, chain);
    if !IsPath(chain) {
      Fails(x, PathShape);
    } else {
      Passes(x, PathShape);
      if !C.Anchored(OptionsOf(x), chain) {
        Fails(x, PathAnchored);
      } else {
        Passes(x, PathAnchored);
        AttestedVerdict(x, chain, v);
      }
    }
  }

  lemma AttestedVerdict(x: Input, chain: seq<Certificate>, v: C.Verification)
    requires ChainOf(x) == Some(chain) && PassedBefore(x, {}, 5) && |chain| >= 3
    requires IsPath(chain) && C.Anchored(OptionsOf(x), chain) && C.Outcome(OptionsOf(x), chain, Some(x.challenge), v)
    ensures v.Success? ==> v.publicKey == chain[0].publicKey && DescriptionOf(x) == Some(v.description) && PassedBefore(x, {}, 14)
    ensures !v.Success? ==> Verdict(x, Err(CodeOfFailure(v)))
  {
    hide Holds, PassedBefore, ChainOf, DescriptionOf, Verdict, OptionsOf, C.Attested, C.Anchored, C.Judged, C.Outcome, IsPath;
    C.OutcomeCases(OptionsOf(x), chain, Some(x.challenge), v);
    DescriptionIsAttested(x, chain);
    if DescriptionOf(x).None? {
      Fails(x, AttestationParses);
    } else {
      var d := DescriptionOf(x).value;
      Passes(x, AttestationParses);
      DescriptionControl(x, chain, d, AnswersChallenge);
      if d.challenge != x.challenge {
        Fails(x, AnswersChallenge);
      } else {
        Passes(x, AnswersChallenge);
        JudgedVerdict(x, chain, d, v);
      }
    }
  }

  /** Tier 2, or the code of a rejection. */
  method Verify(x: Input) returns (r: Result<nat, Code>)
    ensures Verdict(x, r)
  {
    hide Holds, PassedBefore, ChainOf, DescriptionOf, Verdict, C.Outcome, ChainHolds, Listed;
    NothingBeforeFirst(x);
    ShapeControl(x);
    if |x.request.chain| < 2 || |x.request.chain| > 6 { Fails(x, RequestShape); return Err(AttestationInvalid); }
    if |x.request.pop| < 1 || |x.request.pop| > 128 { Fails(x, RequestShape); return Err(AttestationInvalid); }
    Passes(x, RequestShape);
    var read := ReadChain(x);
    if read.None? { Fails(x, ChainDecodes); return Err(AttestationInvalid); }
    Passes(x, ChainDecodes);
    var chain := read.value;
    var listed := AnyListed(x, chain);
    ListedControl(x, chain);
    if listed { Fails(x, NothingListed); return Err(AttestationInvalid); }
    Passes(x, NothingListed);
    var v := C.VerifyChain(OptionsOf(x), chain, Some(x.challenge));
    VerificationVerdict(x, chain, v);
    if !v.Success? { return Err(CodeOfFailure(v)); }
    r := CheckPossession(x, chain, v.publicKey);
    if r.Err? { return; }
    r := CheckPolicy(x, chain, v.description);
    if r.Err? { return; }
    // The closing look at the list: it was the same list before, so it never rejects.
    var again := AnyListed(x, chain);
    assert !again;
  }

  lemma NothingBeforeFirst(x: Input)
    ensures PassedBefore(x, {}, 0)
  {
  }

  lemma ShapeControl(x: Input)
    ensures Holds(x, RequestShape) <==> WellShaped(x.request)
    ensures Holds(x, ChainDecodes) <==> ChainOf(x).Some?
  {
    hide ChainOf, WellShaped;
  }

  lemma ListedControl(x: Input, chain: seq<Certificate>)
    requires ChainOf(x) == Some(chain)
    ensures Holds(x, NothingListed) <==> !Listed(x, chain)
  {
    ChainControl(x, chain, NothingListed);
    hide Listed, Holds, ChainOf;
  }

  /** The validity of the leaf, the type of its key and the proof of possession. */
  method CheckPossession(x: Input, chain: seq<Certificate>, key: PublicKey) returns (r: Result<nat, Code>)
    requires ChainOf(x) == Some(chain) && chain != [] && key == chain[0].publicKey && PassedBefore(x, {}, 14)
    ensures r.Ok? ==> PassedBefore(x, {}, 17)
    ensures r.Err? ==> Verdict(x, r)
  {
    hide Holds, PassedBefore, ChainOf, DescriptionOf, Verdict;
    var leaf := chain[0];
    ChainControl(x, chain, LeafValid);
    if x.nowMs < leaf.notBefore || x.nowMs > leaf.notAfter { Fails(x, LeafValid); return Err(AttestationInvalid); }
    Passes(x, LeafValid);
    ChainControl(x, chain, LeafKeyIsP256);
    if key.algorithm != EC_PUBLIC_KEY || key.curve != Some(P256) { Fails(x, LeafKeyIsP256); return Err(AttestationInvalid); }
    Passes(x, LeafKeyIsP256);
    ChainControl(x, chain, PossessionProven);
    StandardAlphabet();
    var table := Base64.Table(Base64.STD_ALPHABET);
    var signature := Base64.Decode(x.request.pop, table, Base64.STD_ALPHABET);
    if signature.Err? || !x.cfg.w.verify(key, ECDSA_SHA256, signature.value, x.challenge) {
      Fails(x, PossessionProven);
      return Err(AttestationInvalid);
    }
    Passes(x, PossessionProven);
    r := Ok(2);
  }

  /** Remote provisioning and current patches. */
  method CheckPolicy(x: Input, chain: seq<Certificate>, d: Description) returns (r: Result<nat, Code>)
    requires ChainOf(x) == Some(chain) && DescriptionOf(x) == Some(d) && |chain| >= 3 && PassedBefore(x, {}, 17)
    ensures Verdict(x, r)
  {
    hide Holds, PassedBefore, ChainOf, DescriptionOf, ProvisioningMethod, PatchedAt, Verdict;
    ChainControl(x, chain, RemoteProvisioning);
    if !ProvisioningMethod(x.cfg.w, chain).RemotelyProvisioned? {
      Fails(x, RemoteProvisioning);
      return Err(NoRemoteProvisioning);
    }
    Passes(x, RemoteProvisioning);
    PatchControl(x, chain, d);
    if !PatchedAt(d, x.nowMs) {
      Fails(x, PatchesCurrent);
      return Err(SecurityPatchOutdated);
    }
    Passes(x, PatchesCurrent);
    AllPassed(x);
    r := Ok(2);
  }

  lemma AllPassed(x: Input)
    requires PassedBefore(x, {}, 19)
    ensures Verdict(x, Ok(2))
  {
    hide Holds, PassedBefore;
  }

  lemma PatchControl(x: Input, chain: seq<Certificate>, d: Description)
    requires ChainOf(x) == Some(chain) && DescriptionOf(x) == Some(d)
    ensures Holds(x, PatchesCurrent) <==> PatchedAt(d, x.nowMs)
  {
    hide ChainOf, DescriptionOf, PatchedAt;
  }
}

/** What the verdict says, and what it does not depend on. */
module Verdicts {
  import opened Common
  import opened Path
  import opened KeyDescription
  import opened Verifier
  import C = ChainVerification
  import ChainShape
  import Names

  lemma FirstIsUnique(x: Input, dropped: set<Control>, b: Control, c: Control)
    requires FailsFirst(x, dropped, b) && FailsFirst(x, dropped, c)
    ensures b == c
  {
    hide Holds, Rank;
    if Rank(b) == Rank(c) { RankInjective(b, c); }
  }

  /** The verdict is a function of the request and what it is judged against: tier 2 exactly when every
      control holds, a code exactly when it is the code of the first control that fails. */
  lemma VerdictIsExact(x: Input, r: Result<nat, Code>)
    requires Verdict(x, r)
    ensures r == Ok(2) <==> forall c :: Holds(x, c)
    ensures forall c :: FailsFirst(x, {}, c) ==> r == Err(CodeOf(c))
    ensures r == Ok(2) || exists c :: FailsFirst(x, {}, c) && r == Err(CodeOf(c))
  {
    hide Holds, Rank, CodeOf;
    if r.Ok? {
      assert forall c :: Rank(c) < 19;
    } else {
      var b :| FailsFirst(x, {}, b) && CodeOf(b) == r.error;
      forall c | FailsFirst(x, {}, c) ensures c == b {
        FirstIsUnique(x, {}, b, c);
      }
    }
  }

  const POLICY: set<Control> := {RemoteProvisioning, PatchesCurrent}

  /** Dropping the two policy controls changes no verdict except that of a request which the others
      accept, and those it rejects with one of the policy codes. */
  lemma PolicyOnlyNarrows(x: Input, r: Result<nat, Code>, reference: Result<nat, Code>)
    requires Verdict(x, r) && VerdictWithout(x, POLICY, reference)
    ensures if reference.Err? then r == reference
            else r == Ok(2) || r == Err(NoRemoteProvisioning) || r == Err(SecurityPatchOutdated)
  {
    hide Holds, PassedBefore, Rank, CodeOf, POLICY;
    VerdictIsExact(x, r);
    if reference.Err? {
      var c :| FailsFirst(x, POLICY, c) && CodeOf(c) == reference.error;
      FirstWithoutPolicy(x, c);
    } else if r.Err? {
      var c :| FailsFirst(x, {}, c) && CodeOf(c) == r.error;
      OnlyPolicyFails(x, c);
    }
  }

  lemma FirstWithoutPolicy(x: Input, c: Control)
    requires FailsFirst(x, POLICY, c)
    ensures FailsFirst(x, {}, c)
  {
    PolicyIsLast(c);
    hide Holds, Rank;
  }

  lemma OnlyPolicyFails(x: Input, c: Control)
    requires PassedBefore(x, POLICY, 19) && !Holds(x, c)
    ensures CodeOf(c) == NoRemoteProvisioning || CodeOf(c) == SecurityPatchOutdated
  {
    hide Holds;
    assert Rank(c) < 19;
  }

  lemma PolicyIsLast(c: Control)
    requires c !in POLICY
    ensures forall b :: b in POLICY ==> Rank(b) > Rank(c)
  {
  }

  // ---- the root that completes a chain ------------------------------------------------------------------

  /** Anchor i completes the chain and no other does. */
  ghost predicate OnlyOne(w: World, tail: Certificate, anchors: seq<Certificate>, i: int) {
    && 0 <= i < |anchors| && Completes(w, tail, anchors[i])
    && forall j :: 0 <= j < |anchors| && j != i ==> !Completes(w, tail, anchors[j])
  }

  lemma {:induction false} NoCandidates(w: World, tail: Certificate, anchors: seq<Certificate>)
    ensures Candidates(w, tail, anchors) == [] <==> forall j :: 0 <= j < |anchors| ==> !Completes(w, tail, anchors[j])
  {
    hide Completes;
    if anchors != [] {
      var before := anchors[..|anchors| - 1];
      NoCandidates(w, tail, before);
      assert forall j :: 0 <= j < |before| ==> before[j] == anchors[j];
    }
  }

  lemma {:induction false} OneCandidate(w: World, tail: Certificate, anchors: seq<Certificate>, root: Certificate)
    ensures Candidates(w, tail, anchors) == [root] <==> exists i :: OnlyOne(w, tail, anchors, i) && anchors[i] == root
  {
    hide Completes, OnlyOne;
    forall i | OnlyOne(w, tail, anchors, i) ensures 0 <= i < |anchors| { OnlyOneInRange(w, tail, anchors, i); }
    if anchors == [] {
      NothingIsOnly(w, tail);
    } else {
      var n := |anchors| - 1;
      var before, last := anchors[..n], anchors[n];
      if Completes(w, tail, last) {
        NoCandidates(w, tail, before);
        LastIsOnly(w, tail, anchors);
        EndsWith(Candidates(w, tail, before), last, root);
      } else {
        assert Candidates(w, tail, before) + [] == Candidates(w, tail, before);
        OneCandidate(w, tail, before, root);
        EarlierIsOnly(w, tail, anchors);
        forall i | OnlyOne(w, tail, before, i) ensures 0 <= i < n && OnlyOne(w, tail, anchors, i) && anchors[i] == before[i] {
          OnlyOneInRange(w, tail, before, i);
        }
        forall i | OnlyOne(w, tail, anchors, i) ensures 0 <= i < n && OnlyOne(w, tail, before, i) && anchors[i] == before[i] {
          OnlyOneInRange(w, tail, before, i);
        }
      }
    }
  }

  lemma EndsWith(before: seq<Certificate>, last: Certificate, root: Certificate)
    ensures before + [last] == [root] <==> before == [] && last == root
  {
    if before + [last] == [root] { assert |before + [last]| == |before| + 1 && (before + [last])[0] == root; }
  }

  lemma NothingIsOnly(w: World, tail: Certificate)
    ensures forall i :: !OnlyOne(w, tail, [], i)
  {
  }

  lemma LastIsOnly(w: World, tail: Certificate, anchors: seq<Certificate>)
    requires anchors != [] && Completes(w, tail, anchors[|anchors| - 1])
    ensures var n := |anchors| - 1;
            && (forall i :: OnlyOne(w, tail, anchors, i) ==> i == n)
            && (OnlyOne(w, tail, anchors, n) <==> forall j :: 0 <= j < n ==> !Completes(w, tail, anchors[..n][j]))
  {
    hide Completes;
    var n := |anchors| - 1;
    assert forall j :: 0 <= j < n ==> anchors[..n][j] == anchors[j];
  }

  lemma EarlierIsOnly(w: World, tail: Certificate, anchors: seq<Certificate>)
    requires anchors != [] && !Completes(w, tail, anchors[|anchors| - 1])
    ensures var n := |anchors| - 1;
            forall i :: (OnlyOne(w, tail, anchors, i) <==> OnlyOne(w, tail, anchors[..n], i))
                        && (0 <= i < n ==> anchors[..n][i] == anchors[i])
  {
    hide Completes;
    var n := |anchors| - 1;
    assert forall j :: 0 <= j < n ==> anchors[..n][j] == anchors[j];
  }

  /** A chain is completed by itself when it ends in a self-issued certificate, and otherwise exactly when
      one anchor, and only one, has the missing name and checks the last signature. */
  lemma RootCompletion(cfg: Config, chain: seq<Certificate>, whole: seq<Certificate>)
    requires chain != []
    ensures Completed(cfg, chain) == Some(whole) <==>
            var tail := chain[|chain| - 1];
            if IsSelfIssued(tail) then whole == chain
            else exists i :: OnlyOne(cfg.w, tail, cfg.anchors, i) && whole == chain + [cfg.anchors[i]]
  {
    hide Candidates, OnlyOne, IsSelfIssued;
    var tail := chain[|chain| - 1];
    var candidates := Candidates(cfg.w, tail, cfg.anchors);
    if |candidates| == 1 {
      assert candidates == [candidates[0]];
      OneCandidate(cfg.w, tail, cfg.anchors, candidates[0]);
    }
    forall i | OnlyOne(cfg.w, tail, cfg.anchors, i) ensures 0 <= i < |cfg.anchors| && candidates == [cfg.anchors[i]] {
      OnlyOneInRange(cfg.w, tail, cfg.anchors, i);
      OneCandidate(cfg.w, tail, cfg.anchors, cfg.anchors[i]);
    }
  }

  lemma OnlyOneInRange(w: World, tail: Certificate, anchors: seq<Certificate>, i: int)
    requires OnlyOne(w, tail, anchors, i)
    ensures 0 <= i < |anchors|
  {
  }

  // ---- the order of the anchors -----------------------------------------------------------------------

  /** The same input with the anchors in another order. */
  ghost predicate Reordered(x: Input, y: Input) {
    multiset(x.cfg.anchors) == multiset(y.cfg.anchors) && y == x.(cfg := x.cfg.(anchors := y.cfg.anchors))
  }

  function Occurrences(w: World, tail: Certificate, anchors: multiset<Certificate>, root: Certificate): nat {
    if Completes(w, tail, root) then anchors[root] else 0
  }

  lemma {:induction false} CandidatesCount(w: World, tail: Certificate, anchors: seq<Certificate>, root: Certificate)
    ensures multiset(Candidates(w, tail, anchors))[root] == Occurrences(w, tail, multiset(anchors), root)
  {
    hide Completes;
    if anchors != [] {
      var before, last := anchors[..|anchors| - 1], anchors[|anchors| - 1];
      CandidatesCount(w, tail, before, root);
      assert anchors == before + [last];
      assert multiset(anchors) == multiset(before) + multiset{last};
      var kept := Candidates(w, tail, before);
      assert multiset(Candidates(w, tail, anchors)) ==
             multiset(kept) + (if Completes(w, tail, last) then multiset{last} else multiset{});
    }
  }

  lemma SameCandidates(w: World, tail: Certificate, a: seq<Certificate>, b: seq<Certificate>)
    requires multiset(a) == multiset(b)
    ensures multiset(Candidates(w, tail, a)) == multiset(Candidates(w, tail, b))
  {
    forall root: Certificate ensures multiset(Candidates(w, tail, a))[root] == multiset(Candidates(w, tail, b))[root] {
      CandidatesCount(w, tail, a, root);
      CandidatesCount(w, tail, b, root);
    }
  }

  lemma SameOnly(a: seq<Certificate>, b: seq<Certificate>)
    requires multiset(a) == multiset(b)
    ensures |a| == |b| && (|a| == 1 ==> a == b)
  {
    assert |multiset(a)| == |a| && |multiset(b)| == |b|;
    if |a| == 1 {
      assert a[0] in multiset(b);
    }
  }

  lemma {:induction false} SameDecoding(x: Input, y: Input, chain: seq<string>)
    requires Reordered(x, y)
    ensures DecodedChain(x.cfg, chain) == DecodedChain(y.cfg, chain)
  {
    if chain != [] {
      SameDecoding(x, y, chain[..|chain| - 1]);
      assert DecodedCertificate(x.cfg, chain[|chain| - 1]) == DecodedCertificate(y.cfg, chain[|chain| - 1]);
    }
  }

  lemma SameChain(x: Input, y: Input)
    requires Reordered(x, y)
    ensures ChainOf(x) == ChainOf(y)
  {
    SameDecoding(x, y, x.request.chain);
    hide DecodedChain, Candidates, IsSelfIssued;
    var decoded := DecodedChain(x.cfg, x.request.chain);
    if x.request.chain != [] && decoded.Some? {
      var tail := decoded.value[|decoded.value| - 1];
      SameCandidates(x.cfg.w, tail, x.cfg.anchors, y.cfg.anchors);
      SameOnly(Candidates(x.cfg.w, tail, x.cfg.anchors), Candidates(x.cfg.w, tail, y.cfg.anchors));
    }
  }

  lemma AnchoredEitherWay(x: Input, y: Input, chain: seq<Certificate>)
    requires Reordered(x, y) && |chain| >= 3
    requires C.Anchored(OptionsOf(x), chain)
    ensures C.Anchored(OptionsOf(y), chain)
  {
    hide ValidPath, Names.Equal;
    var i :| 0 <= i < |x.cfg.anchors| && C.Anchors(OptionsOf(x), chain, x.cfg.anchors[i]);
    assert x.cfg.anchors[i] in multiset(y.cfg.anchors);
    var j :| 0 <= j < |y.cfg.anchors| && y.cfg.anchors[j] == x.cfg.anchors[i];
    assert C.Anchors(OptionsOf(y), chain, y.cfg.anchors[j]);
  }

  lemma SameDescription(x: Input, y: Input)
    requires Reordered(x, y)
    ensures DescriptionOf(x) == DescriptionOf(y)
  {
    SameChain(x, y);
    hide ChainOf;
  }

  lemma SameChainControl(x: Input, y: Input, c: Control, chain: seq<Certificate>)
    requires Reordered(x, y) && chain != [] && ChainHolds(x, c, chain)
    ensures ChainHolds(y, c, chain)
  {
    SameProof(x, y, chain[0].publicKey);
    if c.PathAnchored? { AnchoredEitherWay(x, y, chain); }
    hide C.Anchored, Proven, ProvisioningMethod, IsPath, SerialHex;
  }

  lemma SameProof(x: Input, y: Input, key: PublicKey)
    requires Reordered(x, y)
    ensures Proven(x, key) == Proven(y, key)
  {
  }

  lemma SameDescriptionControl(x: Input, y: Input, c: Control, chain: seq<Certificate>, d: Description)
    requires Reordered(x, y) && DescriptionHolds(x, c, chain, d)
    ensures DescriptionHolds(y, c, chain, d)
  {
    hide C.MatchesCertificate, DeviceHolds, SigningKeyHolds, PatchedAt, C.OriginHolds, C.LevelHolds, C.RootHolds;
  }

  lemma SameControl(x: Input, y: Input, c: Control)
    requires Reordered(x, y) && Holds(x, c)
    ensures Holds(y, c)
  {
    SameChain(x, y);
    SameDescription(x, y);
    assert x.request == y.request;
    hide ChainOf, DescriptionOf, ChainHolds, DescriptionHolds, WellShaped, Reordered;
    if ChainOf(x).Some? {
      var chain := ChainOf(x).value;
      if ChainHolds(x, c, chain) { SameChainControl(x, y, c, chain); }
      if DescriptionOf(x).Some? && DescriptionHolds(x, c, chain, DescriptionOf(x).value) {
        SameDescriptionControl(x, y, c, chain, DescriptionOf(x).value);
      }
    }
  }

  /** The verdict does not depend on the order of the configured anchors. */
  lemma AnchorOrderDoesNotMatter(x: Input, y: Input, r: Result<nat, Code>, r': Result<nat, Code>)
    requires Reordered(x, y) && Verdict(x, r) && Verdict(y, r')
    ensures r == r'
  {
    forall c ensures Holds(x, c) <==> Holds(y, c) {
      hide Holds;
      if Holds(x, c) { SameControl(x, y, c); }
      if Holds(y, c) { SameControl(y, x, c); }
    }
    hide Holds, CodeOf, Rank;
    VerdictIsExact(x, r);
    VerdictIsExact(y, r');
    forall c ensures FailsFirst(x, {}, c) <==> FailsFirst(y, {}, c) {
    }
  }

  // ---- what tier 2 stands for ---------------------------------------------------------------------------

  /** An accepted request came with a remotely provisioned chain, whose attestation certificate names the
      level of the key. The chain has five certificates if and only if the leaf's attestation extension is
      not critical, and four otherwise; three, which the path rules allow, are never accepted, because the
      attestation certificate would be the one below the root. */
  lemma TierTwoIsRemotelyProvisionedHardware(x: Input)
    requires Verdict(x, Ok(2))
    ensures ChainOf(x).Some? && DescriptionOf(x).Some?
    ensures |ChainOf(x).value| == if HasAttestationExtension(ChainOf(x).value[0]) then 5 else 4
    ensures var o := Names.AttributeText(x.cfg.w.unicode, ChainOf(x).value[1].subject, Names.ORGANIZATION);
            match DescriptionOf(x).value.keyMintLevel
            case Software => false
            case TrustedEnvironment => o == Some("TEE")
            case StrongBox => o == Some("StrongBox")
  {
    hide Holds, ChainOf, DescriptionOf, Verdict, HasAttestationExtension, ValidPath;
    VerdictIsExact(x, Ok(2));
    AllControls(x);
    var chain, d := ChainOf(x).value, DescriptionOf(x).value;
    LevelIsNamed(x.cfg.w, chain, d);
    hide ProvisioningMethod, C.LevelHolds, C.MatchesCertificate;
    var i :| 0 <= i < |x.cfg.anchors| && C.Anchors(OptionsOf(x), chain, x.cfg.anchors[i]);
    var k := C.WalkFrom(OptionsOf(x), chain, x.cfg.anchors[i]);
    ChainShape.ChainLength(k);
    assert |chain| - 1 <= |StepsOf(k)| by { ChainShape.NoLongerThanSteps(k); }
  }

  lemma LevelIsNamed(w: World, chain: seq<Certificate>, d: Description)
    requires |chain| >= 3 && ProvisioningMethod(w, chain).RemotelyProvisioned?
    requires C.LevelHolds(d) && C.MatchesCertificate(w, d, chain)
    ensures var o := Names.AttributeText(w.unicode, chain[1].subject, Names.ORGANIZATION);
            && (match d.keyMintLevel
                case Software => false
                case TrustedEnvironment => o == Some("TEE")
                case StrongBox => o == Some("StrongBox"))
            && |chain| != 3
  {
    assert GOOGLE_LLC != "TEE" && GOOGLE_LLC != "StrongBox";
    hide Names.AttributeText, Names.HasAttribute;
  }

  lemma AllControls(x: Input)
    requires forall c :: Holds(x, c)
    ensures ChainOf(x).Some? && DescriptionOf(x).Some? && |ChainOf(x).value| >= 3
    ensures var chain, d := ChainOf(x).value, DescriptionOf(x).value;
            && C.Anchored(OptionsOf(x), chain) && ProvisioningMethod(x.cfg.w, chain).RemotelyProvisioned?
            && C.LevelHolds(d) && C.MatchesCertificate(x.cfg.w, d, chain)
  {
    hide Holds, ChainOf, DescriptionOf, C.Anchored, C.LevelHolds, C.MatchesCertificate, ProvisioningMethod, C.Attested;
    ShapeControl(x);
    var chain := ChainOf(x).value;
    DescriptionIsAttested(x, chain);
    var d := DescriptionOf(x).value;
    ChainControl(x, chain, PathAnchored);
    ChainControl(x, chain, RemoteProvisioning);
    DescriptionControl(x, chain, d, LevelsAgree);
    DescriptionControl(x, chain, d, LevelCertified);
  }
}
