/** The whole server: the protocol with the verifier in the place of its abstract attestation. */
module EndToEnd {
  import opened Common
  import opened State
  import P = Protocol
  import S = ProtocolSnapshots
  import R = ProtocolRuns
  import Claims = ProtocolClaims
  import A = AcceptedRequests
  import Challenges
  import Calendar
  import G = ProtocolGrants
  import L = ProtocolLimits
  import V = Verifier
  import Verdicts
  import Path
  import Requirements
  import Revocations
  import Text

  // ---- the verdict as a function ------------------------------------------------------------------

  /** Among controls that do not all hold, one fails first. */
  lemma {:induction false} SomeFailsFirst(x: V.Input, k: nat)
    ensures V.PassedBefore(x, {}, k) || exists c :: V.FailsFirst(x, {}, c)
  {
    hide V.Holds, V.Rank;
    if k > 0 {
      SomeFailsFirst(x, k - 1);
      if V.PassedBefore(x, {}, k - 1) && !V.PassedBefore(x, {}, k) {
        var c :| !V.Holds(x, c) && V.Rank(c) < k;
        assert V.Rank(c) == k - 1;
        assert V.FailsFirst(x, {}, c);
      }
    }
  }

  ghost function VerdictOf(x: V.Input): (r: Result<nat, Code>)
    ensures V.Verdict(x, r)
  {
    SomeFailsFirst(x, 19);
    if V.PassedBefore(x, {}, 19) then Ok(2)
    else
      var c :| V.FailsFirst(x, {}, c);
      Err(V.CodeOf(c))
  }

  /** Whatever verdict the verifier gives is this one. */
  lemma VerdictIsFunction(x: V.Input, r: Result<nat, Code>)
    requires V.Verdict(x, r)
    ensures r == VerdictOf(x)
  {
    Verdicts.VerdictIsExact(x, r);
    Verdicts.VerdictIsExact(x, VerdictOf(x));
    hide V.Verdict, V.FailsFirst, V.Holds, V.CodeOf, VerdictOf;
  }

  // ---- the deployed server ------------------------------------------------------------------------

  function InputOf(cfg: V.Config, body: AttestRequest, bytes: Bytes, serials: set<string>, nowMs: nat): V.Input {
    V.Input(cfg, body, bytes, serials, nowMs)
  }

  /** The attestation of the protocol is the verifier's; no time is before the epoch. */
  ghost predicate Deployed(env: P.Env, cfg: V.Config) {
    forall body, bytes, serials, ms :: env.attest(body, bytes, serials, ms) ==
      if ms < 0 then Err(AttestationInvalid) else VerdictOf(InputOf(cfg, body, bytes, serials, ms))
  }

  /** A serial that a feed lists, by its number. */
  ghost predicate Lists(f: P.Fetch, serial: int) {
    serial >= 0 && exists e :: e in f.response.entries && Text.NumeralValue(16, e.serial) == serial
  }

  lemma ShownListsByNumber(f: P.Fetch, serials: seq<string>, c: Path.Certificate)
    requires Serials(f.response) == Some(serials)
    ensures Path.SerialHex(c) in P.Elements(serials) <==> Lists(f, c.serial)
  {
    var parsed := Revocations.ParsedFeed(f.response.entries).value;
    Revocations.RevokedByNumber(f.response.entries, c.serial);
    Text.SortSorts(parsed);
    hide Revocations.ParsedFeed, Revocations.SerialHex, Text.NumeralValue, Text.Sort;
    var hex := Revocations.SerialHex(c.serial);
    assert hex in serials <==> hex in multiset(serials);
    assert hex in parsed <==> hex in multiset(parsed);
  }

  /** What a feed was used for: it was fresh at the query, and lists no certificate of the chain. */
  ghost predicate Clears(f: P.Fetch, q: P.Request, chain: seq<Path.Certificate>) {
    S.FreshFrom(f, q.query, q.serials) && forall i :: 0 <= i < |chain| ==> !Lists(f, chain[i].serial)
  }

  lemma UnlistedIsCleared(x: V.Input, f: P.Fetch, q: P.Request, chain: seq<Path.Certificate>)
    requires S.FreshFrom(f, q.query, q.serials) && x.revoked == P.Elements(q.serials) && !V.Listed(x, chain)
    ensures Clears(f, q, chain)
  {
    forall i | 0 <= i < |chain| ensures !Lists(f, chain[i].serial) {
      ShownListsByNumber(f, q.serials, chain[i]);
      hide Path.SerialHex, Lists, P.Elements, Serials;
    }
  }

  /** Every request that is answered 200 brought a chain that passes every control at the moment it was
      judged, and no certificate of which is listed, by number, in a feed whose refresh started less than
      its time to live before the request asked for it. */
  lemma GrantedIsSoundAndUnrevoked(env: P.Env, cfg: V.Config, t: int, actions: seq<P.Action>, i: nat)
    requires P.GoodEnv(env) && Deployed(env, cfg) && S.NoCollisions(env, P.Run(env, t, actions).log)
    requires i < |P.Run(env, t, actions).requests| && Claims.IsGranted(P.Run(env, t, actions).requests[i])
    ensures var s := P.Run(env, t, actions);
            var q := s.requests[i];
            && q.attestedAt >= 0
            && var x := InputOf(cfg, q.body, q.bytes, P.Elements(q.serials), q.attestedAt);
               && (forall c :: V.Holds(x, c)) && V.ChainOf(x).Some?
               && exists k :: 0 <= k < |s.log| && Clears(s.log[k], q, V.ChainOf(x).value)
  {
    R.GrantsWereVetted(env, t, actions, i);
    hide V.Holds, V.ChainOf, V.Listed, V.Verdict, VerdictOf, P.Run, P.GoodEnv, P.Elements,
      S.NoCollisions, S.FreshFrom, R.Live, Clears;
    var s := P.Run(env, t, actions);
    var q := s.requests[i];
    assert env.attest(q.body, q.bytes, P.Elements(q.serials), q.attestedAt) == Ok(2);
    var x := InputOf(cfg, q.body, q.bytes, P.Elements(q.serials), q.attestedAt);
    Verdicts.VerdictIsExact(x, Ok(2));
    V.ShapeControl(x);
    V.ListedControl(x, V.ChainOf(x).value);
    var k :| 0 <= k < |s.log| && S.FreshFrom(s.log[k], q.query, q.serials);
    UnlistedIsCleared(x, s.log[k], q, V.ChainOf(x).value);
  }

  /** The deployed attestation is the decision over the fields of the request. */
  lemma DeployedDecides(env: P.Env, cfg: V.Config, body: AttestRequest, bytes: Bytes, serials: set<string>, ms: nat)
    requires Deployed(env, cfg)
    ensures env.attest(body, bytes, serials, ms) == Requirements.Decision(InputOf(cfg, body, bytes, serials, ms))
  {
    var x := InputOf(cfg, body, bytes, serials, ms);
    Requirements.VerdictIsDecision(x, VerdictOf(x));
    hide V.Verdict, VerdictOf, Requirements.Decision;
  }

  /** Every request that is answered 200 met every requirement at the moment it was judged. */
  lemma GrantedMeetsRequirements(env: P.Env, cfg: V.Config, t: int, actions: seq<P.Action>, i: nat)
    requires P.GoodEnv(env) && Deployed(env, cfg)
    requires i < |P.Run(env, t, actions).requests| && Claims.IsGranted(P.Run(env, t, actions).requests[i])
    ensures var q := P.Run(env, t, actions).requests[i];
            && q.attestedAt >= 0
            && Requirements.Decision(InputOf(cfg, q.body, q.bytes, P.Elements(q.serials), q.attestedAt)) == Ok(2)
  {
    R.GrantsWereVetted(env, t, actions, i);
    hide VerdictOf, P.Run, P.GoodEnv, P.Elements, S.ShownFresh, R.Live, Requirements.Decision;
    var q := P.Run(env, t, actions).requests[i];
    assert env.attest(q.body, q.bytes, P.Elements(q.serials), q.attestedAt) == Ok(2);
    hide Deployed;
    AttestedAfterEpoch(env, cfg, q.body, q.bytes, P.Elements(q.serials), q.attestedAt);
    DeployedDecides(env, cfg, q.body, q.bytes, P.Elements(q.serials), q.attestedAt);
  }

  lemma AttestedAfterEpoch(env: P.Env, cfg: V.Config, body: AttestRequest, bytes: Bytes, serials: set<string>, ms: int)
    requires Deployed(env, cfg) && env.attest(body, bytes, serials, ms) == Ok(2)
    ensures ms >= 0
  {
    hide VerdictOf;
  }

  // ---- single use of the deployed server ------------------------------------------------------------

  /** The verifier accepts a body that answers a challenge, against some feed, at a time that the readings
      of the challenge's life allow. */
  ghost predicate Acceptable(env: P.Env, cfg: V.Config, body: AttestRequest, bytes: Bytes, serials: seq<string>, ms: int) {
    && ms >= 0 && G.Answers(env, body, bytes) && G.IsFeed(serials)
    && V.Verdict(InputOf(cfg, body, bytes, P.Elements(serials), ms), Ok(2))
    && Challenges.IssuedAt(bytes) - env.skew <= ms / 1000 < Challenges.ExpiresAtSeconds(bytes) + env.skew
  }

  lemma AcceptableIsGrantable(env: P.Env, cfg: V.Config, body: AttestRequest, bytes: Bytes, serials: seq<string>, ms: int)
    requires Deployed(env, cfg)
    ensures Acceptable(env, cfg, body, bytes, serials, ms) <==> G.Grantable(env, body, bytes, serials, ms)
  {
    hide V.Verdict, VerdictOf, G.Answers, G.IsFeed, P.Elements, Challenges.IssuedAt, Challenges.ExpiresAtSeconds;
    if ms >= 0 {
      var x := InputOf(cfg, body, bytes, P.Elements(serials), ms);
      if V.Verdict(x, Ok(2)) { VerdictIsFunction(x, Ok(2)); }
      assert VerdictOf(x) == Ok(2) ==> V.Verdict(x, Ok(2));
    }
    assert G.Answers(env, body, bytes) ==> |bytes| == 57 by { AnswersLength(env, body, bytes); }
  }

  lemma AnswersLength(env: P.Env, body: AttestRequest, bytes: Bytes)
    ensures G.Answers(env, body, bytes) ==> |bytes| == 57
  {
  }

  /** With the verifier in place, single use holds in every run exactly when the clock never steps back by
      more than 61 seconds, or the verifier accepts no answer to any challenge around its life. */
  lemma DeployedSingleUse(env: P.Env, cfg: V.Config)
    requires P.GoodEnv(env) && Deployed(env, cfg)
    ensures L.GrantsOnce(env) <==>
            env.skew <= 61 || !exists body, bytes, serials, ms :: Acceptable(env, cfg, body, bytes, serials, ms)
  {
    hide L.GrantsOnce, P.GoodEnv, Deployed, Acceptable, G.Grantable;
    L.SingleUseExactlyWithin61Seconds(env);
    forall body, bytes, serials, ms
      ensures Acceptable(env, cfg, body, bytes, serials, ms) <==> G.Grantable(env, body, bytes, serials, ms)
    {
      AcceptableIsGrantable(env, cfg, body, bytes, serials, ms);
    }
    if L.CanGrant(env) {
      var body, bytes, serials, ms :| G.Grantable(env, body, bytes, serials, ms);
      assert Acceptable(env, cfg, body, bytes, serials, ms);
    }
    if exists body, bytes, serials, ms :: Acceptable(env, cfg, body, bytes, serials, ms) {
      var body, bytes, serials, ms :| Acceptable(env, cfg, body, bytes, serials, ms);
      assert G.Grantable(env, body, bytes, serials, ms);
    }
  }

  lemma NothingListedIsAFeed()
    ensures G.IsFeed([]) && P.Elements([]) == {}
  {
    assert Revocations.ParsedFeed([]) == Some([]);
    assert Serials(Response(Revocations.Headers(false, None, None), [])) == Some([]);
  }

  lemma TimeFits(c: A.Case)
    requires A.Proper(c)
    ensures c.nowMs / 1000 < 0x8000_0000_0000_0000
  {
    hide A.Trims;
  }

  /** The server of a case, for a challenge issued in the second of the request. */
  ghost predicate Serves(env: P.Env, c: A.Case, nonce: Bytes) {
    && |nonce| == 32 && A.Proper(c) && c.n > 3
    && var challenge := Challenges.ChallengeBytes(env.mac, c.nowMs / 1000, nonce);
       A.SignaturesCheck(c, challenge) && Deployed(env, A.ServerFor(c, challenge))
  }

  /** It accepts the request of the case. */
  lemma CaseIsAcceptable(env: P.Env, c: A.Case, nonce: Bytes)
    returns (cfg: V.Config, body: AttestRequest, challenge: Bytes)
    requires Serves(env, c, nonce)
    ensures Deployed(env, cfg) && Acceptable(env, cfg, body, challenge, [], c.nowMs)
  {
    hide A.Proper, A.SignaturesCheck, A.ServerFor, A.BodyFor, Deployed, Challenges.Token, Challenges.ChallengeBytes,
      Challenges.IssuedAt, Challenges.ExpiresAtSeconds, V.Verdict, G.Answers, G.IsFeed;
    var issued := c.nowMs / 1000;
    challenge := Challenges.ChallengeBytes(env.mac, issued, nonce);
    var token := Challenges.Token(env.mac, issued, nonce);
    TimeFits(c);
    A.ProperSize(c);
    cfg, body := A.ServerFor(c, challenge), A.BodyFor(c, token);
    TokenIsAnswer(env, c, nonce);
    NothingListedIsAFeed();
    A.RequestIsAccepted(c, challenge, token, {});
  }

  lemma CaseIsGrantable(env: P.Env, c: A.Case, nonce: Bytes)
    requires Serves(env, c, nonce)
    ensures L.CanGrant(env)
  {
    hide Serves, Deployed, Acceptable, G.Grantable;
    var cfg, body, challenge := CaseIsAcceptable(env, c, nonce);
    AcceptableIsGrantable(env, cfg, body, challenge, [], c.nowMs);
  }

  lemma TokenIsAnswer(env: P.Env, c: A.Case, nonce: Bytes)
    requires c.n <= 5 && |nonce| == 32 && c.nowMs / 1000 < 0x8000_0000_0000_0000
    ensures var issued := c.nowMs / 1000;
            var challenge := Challenges.ChallengeBytes(env.mac, issued, nonce);
            && |challenge| == 57 && G.Answers(env, A.BodyFor(c, Challenges.Token(env.mac, issued, nonce)), challenge)
            && Challenges.IssuedAt(challenge) <= issued < Challenges.ExpiresAtSeconds(challenge)
  {
    var issued := c.nowMs / 1000;
    var challenge := Challenges.ChallengeBytes(env.mac, issued, nonce);
    var token := Challenges.Token(env.mac, issued, nonce);
    Challenges.IssuedTokenLivesTwoMinutes(env.mac, issued, nonce, issued);
    hide A.BodyFor, Challenges.Verified, Challenges.Token, Challenges.ChallengeBytes, Challenges.IssuedAt,
      Challenges.ExpiresAtSeconds;
    Challenges.AcceptsExactlyLiveTokens(env.mac, token, issued, challenge);
    TokenOf(c, token);
  }

  lemma TokenOf(c: A.Case, token: string)
    requires c.n <= 5
    ensures A.BodyFor(c, token).challenge == token
  {
  }

  /** A deployed server. */
  ghost function ServerEnv(cfg: V.Config, mac: Challenges.Mac, sha256: Bytes -> Bytes, digest: string -> string,
                           skew: nat): P.Env
  {
    P.Env(mac, sha256, digest,
          (body, bytes, serials, ms) =>
            if ms < 0 then Err(AttestationInvalid) else VerdictOf(InputOf(cfg, body, bytes, serials, ms)),
          skew)
  }

  lemma ServerEnvIsDeployed(cfg: V.Config, mac: Challenges.Mac, sha256: Bytes -> Bytes, digest: string -> string, skew: nat)
    requires forall b :: |sha256(b)| == 32
    ensures P.GoodEnv(ServerEnv(cfg, mac, sha256, digest, skew))
    ensures Deployed(ServerEnv(cfg, mac, sha256, digest, skew), cfg)
  {
    hide VerdictOf;
  }

  /** Whatever the key and the hashes, and however far the clock may step back, there is a deployed server
      that grants something, for which 61 seconds is exactly what single use tolerates. */
  lemma SixtyOneIsExactForTheVerifier(mac: Challenges.Mac, sha256: Bytes -> Bytes, digest: string -> string, skew: nat)
    returns (cfg: V.Config, env: P.Env)
    requires forall b :: |sha256(b)| == 32
    ensures P.GoodEnv(env) && Deployed(env, cfg)
    ensures env.mac == mac && env.sha256 == sha256 && env.digest == digest && env.skew == skew
    ensures L.CanGrant(env) && (L.GrantsOnce(env) <==> skew <= 61)
  {
    hide Deployed, P.GoodEnv, A.Proper, A.SignaturesCheck, A.ServerFor, Challenges.ChallengeBytes, L.CanGrant, L.GrantsOnce;
    var c := A.SomeCase(4, false);
    var nonce: Bytes := seq(32, _ => 0);
    var challenge := Challenges.ChallengeBytes(mac, c.nowMs / 1000, nonce);
    cfg := A.ServerFor(c, challenge);
    env := ServerEnv(cfg, mac, sha256, digest, skew);
    ServerEnvIsDeployed(cfg, mac, sha256, digest, skew);
    CaseIsGrantable(env, c, nonce);
    L.SingleUseExactlyWithin61Seconds(env);
  }
}
