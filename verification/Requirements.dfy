/** What the verifier asks of a request, over its fields: the whole verdict as one decision, apart from the
    program's controls and constraints (server/src/verifier/verifier.ts and path.ts). */
module Requirements {
  import opened Common
  import opened KeyDescription
  import opened Path
  import opened Verifier
  import AuthorizationLists
  import Base64
  import C = ChainVerification
  import Calendar
  import Names
  import Patches
  import Revocations
  import Verdicts

  // ---- what names say -----------------------------------------------------------------------------

  /** The last text of a type in a name, trimmed, is this one. */
  ghost predicate Says(u: Names.Unicode, n: Names.Name, oid: string, text: string) {
    exists k, t :: Names.LastAt(Names.Flattened(n.rdns), oid, k, t) && u.trim(t) == text
  }

  lemma AttributeIsSaid(u: Names.Unicode, n: Names.Name, oid: string, text: string)
    ensures Says(u, n, oid, text) <==> Names.AttributeText(u, n, oid) == Some(text)
  {
    var attributes := Names.Flattened(n.rdns);
    Names.LastTextIsLast(attributes, oid);
    hide Names.LastText, Names.Flattened;
    var last := Names.LastText(attributes, oid);
    if Says(u, n, oid, text) {
      var k, t :| Names.LastAt(attributes, oid, k, t) && u.trim(t) == text;
      var j :| last.Some? && Names.LastAt(attributes, oid, j, last.value);
      assert j == k;
    }
  }

  /** Some text of the name, in lower case, has "strongbox" in it. */
  ghost predicate MentionsStrongBox(u: Names.Unicode, n: Names.Name) {
    exists i, j, before, after :: Mentions(u, n, i, j, before, after)
  }

  ghost predicate Mentions(u: Names.Unicode, n: Names.Name, i: int, j: int, before: string, after: string) {
    && 0 <= i < |n.rdns| && 0 <= j < |n.rdns[i]| && n.rdns[i][j].text.Some?
    && u.lower(n.rdns[i][j].text.value) == before + u.lower("strongbox") + after
  }

  lemma ContainsIsMention(u: Names.Unicode, n: Names.Name)
    ensures Names.Contains(u, n, "strongbox") <==> MentionsStrongBox(u, n)
  {
    var needle := u.lower("strongbox");
    if Names.Contains(u, n, "strongbox") {
      var i, j :| 0 <= i < |n.rdns| && 0 <= j < |n.rdns[i]|
        && n.rdns[i][j].text.Some? && Names.Includes(u.lower(n.rdns[i][j].text.value), needle);
      var s := u.lower(n.rdns[i][j].text.value);
      var k :| 0 <= k <= |s| && Names.OccursAt(s, needle, k);
      assert s == s[..k] + needle + s[k + |needle|..];
      assert Mentions(u, n, i, j, s[..k], s[k + |needle|..]);
    }
    if MentionsStrongBox(u, n) {
      var i, j, before, after :| Mentions(u, n, i, j, before, after);
      var s := u.lower(n.rdns[i][j].text.value);
      assert s[|before|..|before| + |needle|] == needle;
      assert Names.OccursAt(s, needle, |before|);
    }
  }

  // ---- provisioning and the level of the certificates -----------------------------------------------

  ghost predicate HasSerialNumber(n: Names.Name) {
    exists i, j :: 0 <= i < |n.rdns| && 0 <= j < |n.rdns[i]| && n.rdns[i][j].oid == "2.5.4.5"
  }

  /** The certificate below the root has a serial number in its subject. */
  ghost predicate Factory(chain: seq<Certificate>)
    requires |chain| >= 3
  {
    HasSerialNumber(chain[|chain| - 2].subject)
  }

  /** It has none, and names the remote provisioning authority. */
  ghost predicate Remote(w: World, chain: seq<Certificate>)
    requires |chain| >= 3
  {
    var subject := chain[|chain| - 2].subject;
    !Factory(chain) && Says(w.unicode, subject, "2.5.4.3", "Droid CA2") && Says(w.unicode, subject, "2.5.4.10", "Google LLC")
  }

  lemma ProvisioningIs(w: World, chain: seq<Certificate>)
    requires |chain| >= 3
    ensures ProvisioningMethod(w, chain).FactoryProvisioned? <==> Factory(chain)
    ensures ProvisioningMethod(w, chain).RemotelyProvisioned? <==> Remote(w, chain)
  {
    var subject := chain[|chain| - 2].subject;
    AttributeIsSaid(w.unicode, subject, "2.5.4.3", "Droid CA2");
    AttributeIsSaid(w.unicode, subject, "2.5.4.10", "Google LLC");
    hide Says, Names.AttributeText;
  }

  /** The level of the key is the one that the certificates name. Remotely provisioned certificates always
      name one, by the organization of the attestation certificate; factory certificates can only name
      StrongBox; without a name the key must not claim StrongBox. */
  ghost predicate LevelIsNamed(w: World, chain: seq<Certificate>, level: SecurityLevel)
    requires |chain| >= 3
  {
    var attestation, u := chain[1].subject, w.unicode;
    if Remote(w, chain) then
      || (level == TrustedEnvironment && Says(u, attestation, "2.5.4.10", "TEE"))
      || (level == StrongBox && Says(u, attestation, "2.5.4.10", "StrongBox"))
      || (level == Software && !Says(u, attestation, "2.5.4.10", "TEE") && !Says(u, attestation, "2.5.4.10", "StrongBox"))
    else if Factory(chain) && (MentionsStrongBox(u, attestation) || MentionsStrongBox(u, chain[|chain| - 2].subject)) then
      level == StrongBox
    else
      level != StrongBox
  }

  lemma LevelControl(w: World, d: Description, chain: seq<Certificate>)
    requires |chain| >= 3
    ensures C.MatchesCertificate(w, d, chain) <==> LevelIsNamed(w, chain, d.keyMintLevel)
  {
    ProvisioningIs(w, chain);
    AttributeIsSaid(w.unicode, chain[1].subject, "2.5.4.10", "TEE");
    AttributeIsSaid(w.unicode, chain[1].subject, "2.5.4.10", "StrongBox");
    ContainsIsMention(w.unicode, chain[1].subject);
    ContainsIsMention(w.unicode, chain[|chain| - 2].subject);
    hide Says, Remote, Factory, MentionsStrongBox, Names.AttributeText, Names.Contains, ProvisioningMethod;
    var o := Names.AttributeText(w.unicode, chain[1].subject, Names.ORGANIZATION);
    assert "TEE" != "StrongBox";
  }

  // ---- the path -------------------------------------------------------------------------------------

  /** How many certificates a chain has at most; with that many the leaf carries a non-critical attestation
      extension, with fewer it does not. */
  ghost function Longest(w: World, chain: seq<Certificate>): nat
    requires |chain| >= 3
  {
    if Remote(w, chain) then 5 else if Factory(chain) || |chain| == 4 then 4 else 3
  }

  ghost predicate AttestsOpenly(c: Certificate) {
    KEY_ATTESTATION in c.extensions && !c.extensions[KEY_ATTESTATION].critical
  }

  /** The certificate above certificate i: the next one, or the anchor in the place of the root. */
  function Issuer(chain: seq<Certificate>, anchor: Certificate, i: nat): Certificate
    requires i < |chain| - 1
  {
    if i == |chain| - 2 then anchor else chain[i + 1]
  }

  /** Certificate i was issued by the one above it, is valid now unless it is the leaf or an expired factory
      certificate, and is not listed. */
  ghost predicate IsLink(x: Input, chain: seq<Certificate>, anchor: Certificate, i: nat)
    requires 3 <= |chain| && i < |chain| - 1
  {
    var c, issuer := chain[i], Issuer(chain, anchor, i);
    && Names.Equal(c.issuer, issuer.subject)
    && x.cfg.w.verify(issuer.publicKey, c.signatureAlgorithm, c.signature, c.tbs)
    && (i > 0 ==> c.notBefore <= x.nowMs && (x.nowMs <= c.notAfter || Factory(chain)) && !AttestsOpenly(c))
    && Revocations.SerialHex(c.serial) !in x.revoked
  }

  /** The chain leads from the leaf, link by link, to this anchor in the place of the root. */
  ghost predicate LeadsTo(x: Input, chain: seq<Certificate>, anchor: Certificate)
    requires 3 <= |chain|
  {
    && Names.Equal(anchor.subject, chain[|chain| - 2].issuer)
    && |chain| <= Longest(x.cfg.w, chain) && (AttestsOpenly(chain[0]) <==> |chain| == Longest(x.cfg.w, chain))
    && forall i :: 0 <= i < |chain| - 1 ==> IsLink(x, chain, anchor, i)
  }

  ghost predicate Leads(x: Input, chain: seq<Certificate>) {
    && |chain| >= 3 && Names.Equal(chain[|chain| - 1].issuer, chain[|chain| - 1].subject)
    && exists j :: 0 <= j < |x.cfg.anchors| && LeadsTo(x, chain, x.cfg.anchors[j])
  }

  lemma StepsCount(w: World, chain: seq<Certificate>)
    requires |chain| >= 3
    ensures |Steps(ProvisioningMethod(w, chain), |chain|)| == Longest(w, chain) - 1
  {
    ProvisioningIs(w, chain);
    hide ProvisioningMethod, Remote, Factory;
  }

  /** The step of certificate i asks for what its link asks for. */
  lemma StepOfLink(k: Walk, i: nat)
    requires 3 <= |k.chain| <= |StepsOf(k)| + 1 && i < |k.chain| - 1
    requires AttestsOpenly(k.chain[0]) <==> |k.chain| == |StepsOf(k)| + 1
    ensures var j := |k.chain| - 2 - i;
            j < |StepsOf(k)| && ((HasAttestationExtension(k.chain[i]) <==> StepsOf(k)[j] == Target) <==>
                                 (i > 0 ==> !AttestsOpenly(k.chain[i])))
  {
    hide ProvisioningMethod, Steps;
    var steps, j := StepsOf(k), |k.chain| - 2 - i;
    assert steps == Steps(MethodOf(k), |k.chain|);
    assert steps[j] == Target <==> j == |steps| - 1;
  }

  lemma LinkIsValid(x: Input, chain: seq<Certificate>, anchor: Certificate, i: nat)
    requires 3 <= |chain| <= Longest(x.cfg.w, chain) && i < |chain| - 1
    requires AttestsOpenly(chain[0]) <==> |chain| == Longest(x.cfg.w, chain)
    ensures ValidCertificate(Walk(x.cfg.w, chain, anchor, x.revoked, x.nowMs), |chain| - 2 - i) <==>
            IsLink(x, chain, anchor, i)
  {
    ProvisioningIs(x.cfg.w, chain);
    StepsCount(x.cfg.w, chain);
    var k := Walk(x.cfg.w, chain, anchor, x.revoked, x.nowMs);
    assert StepsOf(k) == Steps(ProvisioningMethod(x.cfg.w, chain), |chain|);
    StepOfLink(k, i);
    hide ProvisioningMethod, Remote, Factory, Longest, Names.Equal, Revocations.SerialHex, Steps, StepsOf,
      HasAttestationExtension, AttestsOpenly;
    assert Walked(k, |chain| - 2 - i) == chain[i];
    assert Previous(k, |chain| - 2 - i) == Issuer(chain, anchor, i);
  }

  lemma LeadingIsValid(x: Input, chain: seq<Certificate>, anchor: Certificate)
    requires 3 <= |chain|
    ensures C.Anchors(OptionsOf(x), chain, anchor) <==> LeadsTo(x, chain, anchor)
  {
    StepsCount(x.cfg.w, chain);
    var k := Walk(x.cfg.w, chain, anchor, x.revoked, x.nowMs);
    hide Names.Equal, Longest, ValidCertificate, IsLink, ConstraintsFor, Steps, ProvisioningMethod, AttestsOpenly;
    if ValidPath(k) { LeafStands(x, chain, anchor); }
    if |chain| <= Longest(x.cfg.w, chain) && (AttestsOpenly(chain[0]) <==> |chain| == Longest(x.cfg.w, chain)) {
      LinksAreValid(x, chain, anchor);
    }
  }

  lemma LinksAreValid(x: Input, chain: seq<Certificate>, anchor: Certificate)
    requires 3 <= |chain| <= Longest(x.cfg.w, chain)
    requires AttestsOpenly(chain[0]) <==> |chain| == Longest(x.cfg.w, chain)
    ensures var k := Walk(x.cfg.w, chain, anchor, x.revoked, x.nowMs);
            (forall i :: 0 <= i < |chain| - 1 ==> ValidCertificate(k, i)) <==>
            (forall i :: 0 <= i < |chain| - 1 ==> IsLink(x, chain, anchor, i))
  {
    hide ValidCertificate, IsLink, Longest, AttestsOpenly;
    var k := Walk(x.cfg.w, chain, anchor, x.revoked, x.nowMs);
    var n := |chain|;
    forall i | 0 <= i < n - 1 ensures ValidCertificate(k, n - 2 - i) <==> IsLink(x, chain, anchor, i) {
      LinkIsValid(x, chain, anchor, i);
    }
    if forall i :: 0 <= i < n - 1 ==> ValidCertificate(k, i) {
      forall i | 0 <= i < n - 1 ensures IsLink(x, chain, anchor, i) {
        assert ValidCertificate(k, n - 2 - i);
      }
    }
    if forall i :: 0 <= i < n - 1 ==> IsLink(x, chain, anchor, i) {
      forall i | 0 <= i < n - 1 ensures ValidCertificate(k, i) {
        assert IsLink(x, chain, anchor, n - 2 - i);
      }
    }
  }

  lemma LeafStands(x: Input, chain: seq<Certificate>, anchor: Certificate)
    requires 3 <= |chain| && ValidPath(Walk(x.cfg.w, chain, anchor, x.revoked, x.nowMs))
    ensures AttestsOpenly(chain[0]) <==> |chain| == Longest(x.cfg.w, chain)
  {
    StepsCount(x.cfg.w, chain);
    hide Longest, Names.Equal, ProvisioningMethod, Revocations.SerialHex;
    var k := Walk(x.cfg.w, chain, anchor, x.revoked, x.nowMs);
    assert ValidCertificate(k, |chain| - 2) && Walked(k, |chain| - 2) == chain[0];
    var steps := StepsOf(k);
    assert steps[|chain| - 2] == Target <==> |chain| - 2 == |steps| - 1;
  }

  /** The walk and its step automaton accept exactly the chains that lead to some anchor. */
  lemma PathControl(x: Input, chain: seq<Certificate>)
    ensures Leads(x, chain) <==> IsPath(chain) && C.Anchored(OptionsOf(x), chain)
  {
    hide C.Anchors, LeadsTo, Names.Equal, ConstraintsFor;
    if |chain| >= 3 {
      forall j | 0 <= j < |x.cfg.anchors|
        ensures C.Anchors(OptionsOf(x), chain, x.cfg.anchors[j]) <==> LeadsTo(x, chain, x.cfg.anchors[j])
      {
        LeadingIsValid(x, chain, x.cfg.anchors[j]);
      }
      if C.Anchored(OptionsOf(x), chain) {
        var i :| 0 <= i < |x.cfg.anchors| && C.Anchors(OptionsOf(x), chain, x.cfg.anchors[i]);
        assert LeadsTo(x, chain, x.cfg.anchors[i]);
      }
    }
  }

  // ---- the attestation --------------------------------------------------------------------------------

  /** One package with the configured name, and one signer with the configured digest. */
  ghost predicate IsTheApp(cfg: Config, id: Option<ApplicationId>) {
    && id.Some? && |id.value.packages| == 1 && id.value.packages[0].name == cfg.packageName
    && |id.value.signatures| == 1 && id.value.signatures[0] == cfg.signerHex
  }

  /** Booted from a verified image with a locked boot loader. */
  ghost predicate BootedSafely(root: Option<RootOfTrust>) {
    root.Some? && root.value.deviceLocked && root.value.bootState == BootVerified
  }

  /** For signing only (2), with EC (3) of 256 bits on P-256 (1), and SHA-256 only (4). */
  ghost predicate SignsOnP256(a: AuthorizationList) {
    && a.purposes == Some([2]) && a.digests == Some([4])
    && a.algorithms == Some(3) && a.keySize == Some(256) && a.ecCurve == Some(1)
  }

  /** A level YYYYMM or YYYYMMDD of month `month` (1 to 12) of `year`. */
  ghost predicate IsPatchOf(level: int, year: int, month: int) {
    && 1000 <= year <= 9999 && 1 <= month <= 12
    && (level == 100 * year + month || 0 <= level - 10000 * year - 100 * month < 100)
  }

  /** The month of the level is at most twelve before, and at most one after, the month of the time. */
  ghost predicate RecentlyPatched(level: Option<int>, nowMs: nat) {
    exists year, month, y, m, d :: PatchedNear(level, nowMs, year, month, y, m, d)
  }

  /** All three levels are there and recent. */
  ghost predicate AllPatched(hw: AuthorizationList, nowMs: nat) {
    && RecentlyPatched(hw.osPatchLevel, nowMs) && RecentlyPatched(hw.vendorPatchLevel, nowMs)
    && RecentlyPatched(hw.bootPatchLevel, nowMs)
  }

  ghost predicate PatchedNear(level: Option<int>, nowMs: nat, year: int, month: int, y: nat, m: nat, d: nat) {
    && level.Some? && IsPatchOf(level.value, year, month)
    && 1 <= m <= 12 && 1 <= d <= Calendar.DaysIn(y, m)
    && Calendar.DayNumber(y, m, d) == nowMs / 86400000
    && -12 <= (12 * year + month) - (12 * y + m) <= 1
  }

  lemma PatchMonthOf(v: int, year: int, month: int)
    requires IsPatchOf(v, year, month)
    ensures Patches.PatchMonth(Some(v)) == Some(12 * year + month - 1)
  {
    Patches.PatchMonthIsArithmetic(v);
    hide Patches.PatchMonth;
    if v == 100 * year + month {
      assert v / 100 == year && v % 100 == month;
    } else {
      assert v / 100 == 100 * year + month;
      assert v / 100 / 100 == year && v / 100 % 100 == month;
    }
  }

  lemma MonthOfPatch(v: int) returns (year: int, month: int)
    requires Patches.PatchMonth(Some(v)).Some?
    ensures IsPatchOf(v, year, month)
  {
    Patches.PatchMonthIsArithmetic(v);
    hide Patches.PatchMonth;
    if v < 1000000 {
      year, month := v / 100, v % 100;
    } else {
      year, month := v / 100 / 100, v / 100 % 100;
      assert v == v / 100 * 100 + v % 100 && v / 100 == v / 100 / 100 * 100 + v / 100 % 100;
    }
  }

  lemma DayIs(nowMs: nat) returns (y: nat, m: nat, d: nat)
    ensures 1 <= m <= 12 && 1 <= d <= Calendar.DaysIn(y, m) && Calendar.DayNumber(y, m, d) == nowMs / 86400000
  {
    var day := nowMs / 86400000;
    Calendar.YearsGrow(0, 1970);
    Calendar.DateExists(day);
    hide Calendar.DateOf, Calendar.DaysIn, Calendar.DayFromYear, Calendar.DaysBefore;
    var date := Calendar.DateOf(day);
    y, m, d := date.year, date.month + 1, date.day;
  }

  lemma NoLevelIsCurrent(nowMs: nat)
    ensures !Patches.LevelIsCurrent(None, nowMs)
  {
  }

  lemma PatchIsRecent(level: Option<int>, nowMs: nat)
    ensures Patches.LevelIsCurrent(level, nowMs) <==> RecentlyPatched(level, nowMs)
  {
    NoLevelIsCurrent(nowMs);
    hide Calendar.DayNumber, Calendar.DaysIn, Patches.PatchMonth, Patches.CurrentMonth, IsPatchOf;
    if level.Some? && Patches.LevelIsCurrent(level, nowMs) {
      var year, month := MonthOfPatch(level.value);
      PatchMonthOf(level.value, year, month);
      var y, m, d := DayIs(nowMs);
      Patches.CurrentOnADay(level.value, y, m, d, nowMs % 86400000, nowMs);
      assert PatchedNear(level, nowMs, year, month, y, m, d);
    }
    forall year, month, y, m, d | PatchedNear(level, nowMs, year, month, y, m, d)
      ensures Patches.LevelIsCurrent(level, nowMs)
    {
      PatchMonthOf(level.value, year, month);
      Patches.CurrentOnADay(level.value, y, m, d, nowMs % 86400000, nowMs);
    }
  }

  // ---- the verdict ------------------------------------------------------------------------------------

  /** The leaf is valid, its key is a P-256 key, and `pop` is its ECDSA signature with SHA-256 of the challenge. */
  ghost predicate Possessed(x: Input, leaf: Certificate) {
    StandardAlphabet();
    && leaf.notBefore <= x.nowMs <= leaf.notAfter
    && leaf.publicKey.algorithm == "1.2.840.10045.2.1" && leaf.publicKey.curve == Some("1.2.840.10045.3.1.7")
    && exists signature :: Base64.DecodeOf(x.request.pop, Base64.STD_ALPHABET) == Ok(signature)
         && x.cfg.w.verify(leaf.publicKey, "1.2.840.10045.4.3.2", signature, x.challenge)
  }

  /** The verdict, once the chain leads to an anchor and its attestation is read. */
  ghost function KeyDecision(x: Input, chain: seq<Certificate>, d: Description): Result<nat, Code>
    requires |chain| >= 3
  {
    var hw := d.hardwareEnforced;
    if d.challenge != x.challenge || hw.origin != Some(Generated) then Err(AttestationInvalid)
    else if d.keyMintLevel != d.attestationLevel || d.attestationLevel == Software then Err(NoHardwareAttestation)
    else if hw.rootOfTrust.None? then Err(AttestationInvalid)
    else if !LevelIsNamed(x.cfg.w, chain, d.keyMintLevel) then Err(NoHardwareAttestation)
    else if !IsTheApp(x.cfg, d.softwareEnforced.applicationId) then Err(AppIntegrity)
    else if !BootedSafely(hw.rootOfTrust) then Err(DeviceIntegrity)
    else if !SignsOnP256(hw) || !Possessed(x, chain[0]) then Err(AttestationInvalid)
    else if !Remote(x.cfg.w, chain) then Err(NoRemoteProvisioning)
    else if !AllPatched(hw, x.nowMs) then Err(SecurityPatchOutdated)
    else Ok(2)
  }

  /** The verdict on a request. */
  ghost function Decision(x: Input): Result<nat, Code> {
    var chain := ChainOf(x);
    if !(2 <= |x.request.chain| <= 6) || !(1 <= |x.request.pop| <= 128) || chain.None? then Err(AttestationInvalid)
    else if (exists i :: 0 <= i < |chain.value| && Revocations.SerialHex(chain.value[i].serial) in x.revoked)
            || !Leads(x, chain.value) || KEY_ATTESTATION !in chain.value[0].extensions
    then Err(AttestationInvalid)
    else
      var value := chain.value[0].extensions[KEY_ATTESTATION].value;
      var d := AuthorizationLists.ParsedDescription(x.cfg.w.decode, Limits(32, 10), value);
      if d.Err? then Err(AttestationInvalid) else KeyDecision(x, chain.value, d.value)
  }

  // ---- the chain of a request -------------------------------------------------------------------------

  /** A string of the request is the standard Base64, of at most 5464 characters, of a certificate of at most
      4096 octets. */
  ghost predicate Carries(cfg: Config, encoded: string, c: Certificate) {
    StandardAlphabet();
    && 1 <= |encoded| <= 5464
    && exists der :: Base64.DecodeOf(encoded, Base64.STD_ALPHABET) == Ok(der) && |der| <= 4096 && cfg.parse(der) == Some(c)
  }

  ghost predicate Fits(w: World, tail: Certificate, root: Certificate) {
    Names.Equal(tail.issuer, root.subject) && w.verify(root.publicKey, tail.signatureAlgorithm, tail.signature, tail.tbs)
  }

  /** The certificates sent, and the one configured root that fits when the last is not its own issuer. */
  ghost predicate IsCompletion(cfg: Config, sent: seq<Certificate>, whole: seq<Certificate>) {
    && sent != []
    && var tail := sent[|sent| - 1];
       if Names.Equal(tail.issuer, tail.subject) then whole == sent
       else exists i :: FitsAlone(cfg, tail, i) && whole == sent + [cfg.anchors[i]]
  }

  ghost predicate FitsAlone(cfg: Config, tail: Certificate, i: int) {
    0 <= i < |cfg.anchors| && forall j :: 0 <= j < |cfg.anchors| ==> (Fits(cfg.w, tail, cfg.anchors[j]) <==> j == i)
  }

  lemma DecodedIsCarried(cfg: Config, encoded: string, c: Certificate)
    ensures DecodedCertificate(cfg, encoded) == Some(c) <==> Carries(cfg, encoded, c)
  {
    hide Base64.DecodeOf;
  }

  lemma {:induction false} ChainIsCarried(cfg: Config, encoded: seq<string>, sent: seq<Certificate>)
    ensures DecodedChain(cfg, encoded) == Some(sent) <==>
            |sent| == |encoded| && forall i :: 0 <= i < |sent| ==> Carries(cfg, encoded[i], sent[i])
  {
    hide DecodedCertificate, Carries;
    if |sent| == |encoded| && encoded != [] {
      var n := |sent| - 1;
      ChainIsCarried(cfg, encoded[..n], sent[..n]);
      DecodedIsCarried(cfg, encoded[n], sent[n]);
      assert sent == sent[..n] + [sent[n]];
      assert forall i :: 0 <= i < n ==> encoded[..n][i] == encoded[i] && sent[..n][i] == sent[i];
      LastDecoded(cfg, encoded, sent);
    }
  }

  lemma LastDecoded(cfg: Config, encoded: seq<string>, sent: seq<Certificate>)
    requires |sent| == |encoded| && encoded != []
    ensures var n := |sent| - 1;
            DecodedChain(cfg, encoded) == Some(sent) <==>
            DecodedChain(cfg, encoded[..n]) == Some(sent[..n]) && DecodedCertificate(cfg, encoded[n]) == Some(sent[n])
  {
    hide DecodedCertificate;
    var n := |sent| - 1;
    assert sent == sent[..n] + [sent[n]];
  }

  /** The chain that is judged is the chain that was sent, completed by the one root that fits. */
  lemma ChainIsSent(x: Input, whole: seq<Certificate>)
    ensures ChainOf(x) == Some(whole) <==>
            exists sent :: IsCompletion(x.cfg, sent, whole) && Sent(x, sent)
  {
    hide DecodedChain, Completed, IsCompletion, Sent;
    forall sent ensures Sent(x, sent) <==> DecodedChain(x.cfg, x.request.chain) == Some(sent) {
      ChainIsCarried(x.cfg, x.request.chain, sent);
      SentIs(x, sent);
    }
    forall sent | sent != [] ensures Completed(x.cfg, sent) == Some(whole) <==> IsCompletion(x.cfg, sent, whole) {
      CompletionIs(x.cfg, sent, whole);
    }
    NothingCompletes(x.cfg, whole);
  }

  ghost predicate Sent(x: Input, sent: seq<Certificate>) {
    |sent| == |x.request.chain| && forall i :: 0 <= i < |sent| ==> Carries(x.cfg, x.request.chain[i], sent[i])
  }

  lemma SentIs(x: Input, sent: seq<Certificate>)
    ensures Sent(x, sent) <==>
            |sent| == |x.request.chain| && forall i :: 0 <= i < |sent| ==> Carries(x.cfg, x.request.chain[i], sent[i])
  {
  }

  lemma NothingCompletes(cfg: Config, whole: seq<Certificate>)
    ensures !IsCompletion(cfg, [], whole)
  {
  }

  lemma CompletionIs(cfg: Config, sent: seq<Certificate>, whole: seq<Certificate>)
    requires sent != []
    ensures Completed(cfg, sent) == Some(whole) <==> IsCompletion(cfg, sent, whole)
  {
    Verdicts.RootCompletion(cfg, sent, whole);
    hide Completed, Names.Equal;
    var tail := sent[|sent| - 1];
    forall i ensures Verdicts.OnlyOne(cfg.w, tail, cfg.anchors, i) <==> FitsAlone(cfg, tail, i) {
    }
  }

  // ---- the decision is the verdict ----------------------------------------------------------------------

  lemma Ends(x: Input, c: Control, code: Code)
    requires PassedBefore(x, {}, Rank(c)) && !Holds(x, c) && CodeOf(c) == code
    ensures Verdict(x, Err(code))
  {
    hide Holds, PassedBefore, Verdict;
    Fails(x, c);
  }

  lemma DecisionIsVerdict(x: Input)
    ensures Verdict(x, Decision(x))
  {
    NothingBeforeFirst(x);
    ShapeControl(x);
    hide Holds, PassedBefore, ChainOf, DescriptionOf, Verdict, Leads, KeyDecision, AuthorizationLists.ParsedDescription,
      Revocations.SerialHex, OptionsOf, C.Anchored, IsPath;
    if !WellShaped(x.request) {
      Ends(x, RequestShape, AttestationInvalid);
    } else {
      Passes(x, RequestShape);
      if ChainOf(x).None? {
        Ends(x, ChainDecodes, AttestationInvalid);
      } else {
        Passes(x, ChainDecodes);
        ChainDecision(x, ChainOf(x).value);
      }
    }
  }

  lemma ChainDecision(x: Input, chain: seq<Certificate>)
    requires ChainOf(x) == Some(chain) && WellShaped(x.request) && PassedBefore(x, {}, 2)
    ensures Verdict(x, Decision(x))
  {
    hide Holds, PassedBefore, ChainOf, DescriptionOf, Verdict, Leads, KeyDecision, AuthorizationLists.ParsedDescription,
      Revocations.SerialHex, ConstraintsFor, C.Anchored, IsPath;
    ListedControl(x, chain);
    PathControls(x, chain);
    PathControl(x, chain);
    DescriptionIsAttested(x, chain);
    if Listed(x, chain) {
      Ends(x, NothingListed, AttestationInvalid);
    } else {
      Passes(x, NothingListed);
      if !IsPath(chain) {
        Ends(x, PathShape, AttestationInvalid);
      } else {
        Passes(x, PathShape);
        if !Leads(x, chain) {
          Ends(x, PathAnchored, AttestationInvalid);
        } else {
          Passes(x, PathAnchored);
          if DescriptionOf(x).None? {
            Ends(x, AttestationParses, AttestationInvalid);
          } else {
            Passes(x, AttestationParses);
            KeyDecisionIsVerdict(x, chain, DescriptionOf(x).value);
          }
        }
      }
    }
  }

  lemma PossessedIs(x: Input, leaf: Certificate)
    ensures Possessed(x, leaf) <==>
            && leaf.notBefore <= x.nowMs <= leaf.notAfter && Proven(x, leaf.publicKey)
            && leaf.publicKey.algorithm == EC_PUBLIC_KEY && leaf.publicKey.curve == Some(P256)
  {
    hide Base64.DecodeOf;
  }

  /** The controls of the attestation, over its fields. */
  lemma AttestedControls(x: Input, chain: seq<Certificate>, d: Description)
    requires ChainOf(x) == Some(chain) && DescriptionOf(x) == Some(d) && |chain| >= 3
    ensures Holds(x, AnswersChallenge) <==> d.challenge == x.challenge
    ensures Holds(x, KeyGenerated) <==> d.hardwareEnforced.origin == Some(Generated)
    ensures Holds(x, LevelsAgree) <==> d.keyMintLevel == d.attestationLevel && d.attestationLevel != Software
    ensures Holds(x, TrustRooted) <==> d.hardwareEnforced.rootOfTrust.Some?
    ensures Holds(x, LevelCertified) <==> LevelIsNamed(x.cfg.w, chain, d.keyMintLevel)
    ensures Holds(x, AppIdentified) <==> IsTheApp(x.cfg, d.softwareEnforced.applicationId)
    ensures Holds(x, DeviceIntact) <==> BootedSafely(d.hardwareEnforced.rootOfTrust)
    ensures Holds(x, KeyForSigning) <==> SignsOnP256(d.hardwareEnforced)
  {
    hide Holds, ChainOf, DescriptionOf, C.MatchesCertificate, LevelIsNamed;
    DescriptionControl(x, chain, d, AnswersChallenge);
    DescriptionControl(x, chain, d, KeyGenerated);
    DescriptionControl(x, chain, d, LevelsAgree);
    DescriptionControl(x, chain, d, TrustRooted);
    DescriptionControl(x, chain, d, LevelCertified);
    LevelControl(x.cfg.w, d, chain);
    DescriptionControl(x, chain, d, AppIdentified);
    DescriptionControl(x, chain, d, DeviceIntact);
    DescriptionControl(x, chain, d, KeyForSigning);
  }

  /** The proof of possession, in its three controls. */
  lemma LeafControls(x: Input, chain: seq<Certificate>)
    requires ChainOf(x) == Some(chain) && |chain| >= 3
    ensures Possessed(x, chain[0]) <==> Holds(x, LeafValid) && Holds(x, LeafKeyIsP256) && Holds(x, PossessionProven)
  {
    hide Holds, ChainOf, Possessed, Proven;
    ChainControl(x, chain, LeafValid);
    ChainControl(x, chain, LeafKeyIsP256);
    ChainControl(x, chain, PossessionProven);
    PossessedIs(x, chain[0]);
  }

  lemma PolicyControls(x: Input, chain: seq<Certificate>, d: Description)
    requires ChainOf(x) == Some(chain) && DescriptionOf(x) == Some(d) && |chain| >= 3
    ensures Holds(x, RemoteProvisioning) <==> Remote(x.cfg.w, chain)
    ensures Holds(x, PatchesCurrent) <==> AllPatched(d.hardwareEnforced, x.nowMs)
  {
    hide Holds, ChainOf, DescriptionOf, Remote, Factory, RecentlyPatched, Patches.LevelIsCurrent, ProvisioningMethod;
    ChainControl(x, chain, RemoteProvisioning);
    ProvisioningIs(x.cfg.w, chain);
    PatchControl(x, chain, d);
    var hw := d.hardwareEnforced;
    PatchIsRecent(hw.osPatchLevel, x.nowMs);
    PatchIsRecent(hw.vendorPatchLevel, x.nowMs);
    PatchIsRecent(hw.bootPatchLevel, x.nowMs);
  }

  lemma KeyDecisionIsVerdict(x: Input, chain: seq<Certificate>, d: Description)
    requires ChainOf(x) == Some(chain) && DescriptionOf(x) == Some(d) && |chain| >= 3 && PassedBefore(x, {}, 6)
    ensures Verdict(x, KeyDecision(x, chain, d))
  {
    hide Holds, PassedBefore, ChainOf, DescriptionOf, Verdict, LevelIsNamed, IsTheApp, BootedSafely, SignsOnP256, Possessed,
      Remote, AllPatched;
    AttestedControls(x, chain, d);
    if !Holds(x, AnswersChallenge) { Ends(x, AnswersChallenge, AttestationInvalid); return; }
    Passes(x, AnswersChallenge);
    if !Holds(x, KeyGenerated) { Ends(x, KeyGenerated, AttestationInvalid); return; }
    Passes(x, KeyGenerated);
    if !Holds(x, LevelsAgree) { Ends(x, LevelsAgree, NoHardwareAttestation); return; }
    Passes(x, LevelsAgree);
    if !Holds(x, TrustRooted) { Ends(x, TrustRooted, AttestationInvalid); return; }
    Passes(x, TrustRooted);
    if !Holds(x, LevelCertified) { Ends(x, LevelCertified, NoHardwareAttestation); return; }
    Passes(x, LevelCertified);
    if !Holds(x, AppIdentified) { Ends(x, AppIdentified, AppIntegrity); return; }
    Passes(x, AppIdentified);
    if !Holds(x, DeviceIntact) { Ends(x, DeviceIntact, DeviceIntegrity); return; }
    Passes(x, DeviceIntact);
    if !Holds(x, KeyForSigning) { Ends(x, KeyForSigning, AttestationInvalid); return; }
    Passes(x, KeyForSigning);
    PossessionDecision(x, chain, d);
  }

  lemma PossessionDecision(x: Input, chain: seq<Certificate>, d: Description)
    requires ChainOf(x) == Some(chain) && DescriptionOf(x) == Some(d) && |chain| >= 3 && PassedBefore(x, {}, 14)
    ensures Verdict(x, KeyDecision(x, chain, d))
  {
    hide Holds, PassedBefore, ChainOf, DescriptionOf, Verdict, LevelIsNamed, IsTheApp, BootedSafely, SignsOnP256, Possessed,
      Remote, AllPatched;
    AttestedControls(x, chain, d);
    LeafControls(x, chain);
    PolicyControls(x, chain, d);
    AllBefore(x);
    if !Holds(x, LeafValid) { Ends(x, LeafValid, AttestationInvalid); return; }
    Passes(x, LeafValid);
    if !Holds(x, LeafKeyIsP256) { Ends(x, LeafKeyIsP256, AttestationInvalid); return; }
    Passes(x, LeafKeyIsP256);
    if !Holds(x, PossessionProven) { Ends(x, PossessionProven, AttestationInvalid); return; }
    Passes(x, PossessionProven);
    if !Holds(x, RemoteProvisioning) { Ends(x, RemoteProvisioning, NoRemoteProvisioning); return; }
    Passes(x, RemoteProvisioning);
    if !Holds(x, PatchesCurrent) { Ends(x, PatchesCurrent, SecurityPatchOutdated); return; }
    Passes(x, PatchesCurrent);
    AllPassed(x);
  }

  lemma AllBefore(x: Input)
    requires PassedBefore(x, {}, 14)
    ensures Holds(x, AnswersChallenge) && Holds(x, KeyGenerated) && Holds(x, LevelsAgree) && Holds(x, TrustRooted)
    ensures Holds(x, LevelCertified) && Holds(x, AppIdentified) && Holds(x, DeviceIntact) && Holds(x, KeyForSigning)
  {
    hide Holds;
  }

  /** Every verdict is the decision over the fields, and so is the one that the program computes. */
  lemma VerdictIsDecision(x: Input, r: Result<nat, Code>)
    ensures Verdict(x, r) <==> r == Decision(x)
  {
    DecisionIsVerdict(x);
    if Verdict(x, r) {
      Verdicts.VerdictIsExact(x, r);
      Verdicts.VerdictIsExact(x, Decision(x));
    }
    hide Verdict, Decision, FailsFirst, Holds, CodeOf;
  }
}
