/** Runs that do happen: an undisturbed request is granted; a clock that steps back by 62 seconds lets
    every challenge that can be granted be granted twice; one that steps back at all lets a response that
    forbids storing be stored and shown. */
module ProtocolLimits {
  import opened Common
  import opened State
  import opened Protocol
  import opened ProtocolClaims
  import opened ProtocolGrants
  import opened ProtocolRuns
  import opened ProtocolSnapshots
  import Challenges
  import Revocations
  import Text

  lemma Extend(env: Env, t: int, actions: seq<Action>, a: Action)
    ensures Run(env, t, actions + [a]) == Apply(env, Run(env, t, actions), a)
  {
    hide Apply;
    assert (actions + [a])[..|actions|] == actions;
  }

  /** A state with one more request, the last. */
  function Top(s: System, q: Request): System {
    s.(requests := s.requests + [q])
  }

  lemma TopWorkerStep(env: Env, s: System, q: Request, a: Action)
    requires a.CallBudget? || a.FirstCheck? || a.CallRevocations? || a.Attest? || a.SecondCheck? || a.CallConsume?
    requires a.r == |s.requests| && Ready(q, a) && Plausible(env, s, Reading(a))
    ensures Apply(env, Top(s, q), a) == Top(Read(s, Reading(a)), Stepped(env, q, a))
  {
    hide Challenges.Verified, WithVerdict, FirstChecked, SecondChecked;
    assert Top(s, q).requests[a.r := Stepped(env, q, a)] == Top(s, Stepped(env, q, a)).requests;
  }

  predicate HasBudget(s: System, now: int) {
    Count(Kept(s.store.budget, Minute(now)), Minute(now)) < RATE_LIMIT_PER_MINUTE
  }

  lemma TopBudget(env: Env, s: System, q: Request, now: int)
    requires q.place == Budgeting(now) && HasBudget(s, now)
    ensures Apply(env, Top(s, q), RunBudget(|s.requests|)) ==
            Top(s.(store := s.store.(budget := Allowed(s.store.budget, now).0)), q.(place := Admitted))
  {
    hide Minute, Kept;
    var q' := q.(place := Admitted);
    assert Top(s, q).requests[|s.requests| := q'] == Top(s, q').requests;
  }

  lemma TopView(env: Env, s: System, q: Request)
    requires q.place == Querying && Fresh(s.store, q.query)
    ensures Apply(env, Top(s, q), RunRevocations(|s.requests|)) ==
            Top(s.(store := Synced(s.store)), q.(place := Viewed, serials := Synced(s.store).cache.value.serials))
  {
    var q' := q.(place := Viewed, serials := Synced(s.store).cache.value.serials);
    assert Top(s, q).requests[|s.requests| := q'] == Top(s, q').requests;
  }

  predicate NotReplayed(s: System, id: string, now: int) {
    ValidId(id) && !(id in s.store.used && s.store.used[id] >= now - PRUNE_MARGIN_SECONDS)
  }

  lemma TopConsume(env: Env, s: System, q: Request, now: int)
    requires q.place == Consuming(now) && NotReplayed(s, Id(env, q), now)
    ensures Apply(env, Top(s, q), RunConsume(|s.requests|, false)) ==
            Top(s.(store := s.store.(used := Consumption(s.store.used, Id(env, q), Expiry(q), now).0)),
                q.(place := Claimed, claimed := true))
  {
    ConsumptionIs(s.store.used, Id(env, q), Expiry(q), now);
    hide Consumption, ValidId, Id, Expiry;
    var q' := q.(place := Claimed, claimed := true);
    assert Top(s, q).requests[|s.requests| := q'] == Top(s, q').requests;
  }

  lemma TopFinalCheck(env: Env, s: System, q: Request, now: int)
    requires q.place == Claimed && Plausible(env, s, now) && Challenges.Verified(env.mac, q.body.challenge, now).Ok?
    ensures Apply(env, Top(s, q), FinalCheck(|s.requests|, now)) ==
            Top(Read(s, now), q.(place := Done(Granted), finalCheck := now))
  {
    hide Challenges.Verified;
    var q' := q.(place := Done(Granted), finalCheck := now);
    assert Top(s, q).requests[|s.requests| := q'] == Top(s, q').requests;
  }

  function Arrival(body: AttestRequest): Request {
    Request(body, Arrived, [], 0, 0, [], 0, 0, 0, false)
  }

  /** What a request needs so that it gets as far as seeing the snapshot. */
  ghost predicate MayEnter(env: Env, s: System, body: AttestRequest, bytes: Bytes, t: int) {
    && Plausible(env, s, t) && HasBudget(s, t) && Fresh(s.store, t)
    && Challenges.Verified(env.mac, body.challenge, t) == Ok(bytes)
  }

  /** The state in which it has. */
  function Entered(s: System, t: int): System
    requires s.store.row.Some?
  {
    Read(s, t).(store := Synced(s.store.(budget := Allowed(s.store.budget, t).0)))
  }

  function Seen(s: System, t: int): seq<string>
    requires Fresh(s.store, t)
  {
    Synced(s.store).cache.value.serials
  }

  lemma Enters(env: Env, t0: int, before: seq<Action>, body: AttestRequest, bytes: Bytes, t: int)
    returns (after: seq<Action>)
    requires MayEnter(env, Run(env, t0, before), body, bytes, t)
    ensures var s := Run(env, t0, before);
            Run(env, t0, after) == Top(Entered(s, t), Request(body, Viewed, bytes, t, t, Seen(s, t), 0, 0, 0, false))
  {
    hide Challenges.Verified, Allowed, HasBudget, Apply;
    var s := Run(env, t0, before);
    var r := |s.requests|;
    var q := Arrival(body);
    after := before + [Arrive(body)];
    Extend(env, t0, before, Arrive(body));
    assert Apply(env, s, Arrive(body)) == Top(s, q) by { Arrives(env, s, body); }
    Extend(env, t0, after, CallBudget(r, t));
    TopWorkerStep(env, s, q, CallBudget(r, t));
    after := after + [CallBudget(r, t)];
    var s1 := Read(s, t);
    Extend(env, t0, after, RunBudget(r));
    SameBudget(s, s1, t);
    TopBudget(env, s1, q.(place := Budgeting(t)), t);
    after := after + [RunBudget(r)];
    var s2 := s1.(store := s.store.(budget := Allowed(s.store.budget, t).0));
    Extend(env, t0, after, FirstCheck(r, t));
    TopWorkerStep(env, s2, q.(place := Admitted), FirstCheck(r, t));
    after := after + [FirstCheck(r, t)];
    Extend(env, t0, after, CallRevocations(r, t));
    TopWorkerStep(env, s2, q.(place := Checked, bytes := bytes, firstCheck := t), CallRevocations(r, t));
    after := after + [CallRevocations(r, t)];
    Extend(env, t0, after, RunRevocations(r));
    TopView(env, s2, q.(place := Querying, bytes := bytes, firstCheck := t, query := t));
    after := after + [RunRevocations(r)];
  }

  lemma Arrives(env: Env, s: System, body: AttestRequest)
    ensures Apply(env, s, Arrive(body)) == Top(s, Arrival(body))
  {
  }

  lemma SameBudget(s: System, s': System, t: int)
    requires HasBudget(s, t) && s'.store == s.store
    ensures HasBudget(s', t)
  {
  }

  /** Four readings, none more than `skew` below an earlier one. */
  predicate ReadingsAllowed(skew: nat, latest: int, a: int, b: int, c: int, d: int) {
    && latest - skew <= a && Max(latest, a) - skew <= b
    && Max(Max(latest, a), b) - skew <= c && Max(Max(Max(latest, a), b), c) - skew <= d
  }

  /** The readings of the second half: the attestation's, the second check's, the consume call's and the
      last check's. */
  ghost predicate MayFinish(env: Env, s: System, q: Request, ms: int, t: int, consumeAt: int, last: int) {
    && q.place == Viewed && ReadingsAllowed(env.skew, s.latest, ms / 1000, t, consumeAt, last)
    && env.attest(q.body, q.bytes, Elements(q.serials), ms) == Ok(2)
    && Challenges.Verified(env.mac, q.body.challenge, t) == Ok(q.bytes)
    && Challenges.Verified(env.mac, q.body.challenge, last) == Ok(q.bytes)
    && NotReplayed(s, Id(env, q), consumeAt)
  }

  function Max(a: int, b: int): int {
    if a < b then b else a
  }

  function Finished(env: Env, s: System, q: Request, ms: int, t: int, consumeAt: int, last: int): System {
    var read := s.(latest := Max(Max(Max(Max(s.latest, ms / 1000), t), consumeAt), last),
                   store := s.store.(used := Consumption(s.store.used, Id(env, q), Expiry(q), consumeAt).0));
    Top(read, q.(place := Done(Granted), attestedAt := ms, secondCheck := t, finalCheck := last, claimed := true))
  }

  /** The attestation and the second check. */
  lemma Rechecks(env: Env, t0: int, before: seq<Action>, s: System, q: Request, ms: int, t: int) returns (after: seq<Action>)
    requires Run(env, t0, before) == Top(s, q) && q.place == Viewed
    requires s.latest - env.skew <= ms / 1000 && Max(s.latest, ms / 1000) - env.skew <= t
    requires env.attest(q.body, q.bytes, Elements(q.serials), ms) == Ok(2)
    requires Challenges.Verified(env.mac, q.body.challenge, t) == Ok(q.bytes)
    ensures Run(env, t0, after) ==
            Top(s.(latest := Max(Max(s.latest, ms / 1000), t)), q.(place := Rechecked, attestedAt := ms, secondCheck := t))
  {
    hide Challenges.Verified, Apply, Run;
    var r := |s.requests|;
    Extend(env, t0, before, Attest(r, ms));
    TopWorkerStep(env, s, q, Attest(r, ms));
    after := before + [Attest(r, ms)];
    Extend(env, t0, after, SecondCheck(r, t));
    TopWorkerStep(env, Read(s, ms / 1000), q.(place := Attested, attestedAt := ms), SecondCheck(r, t));
    after := after + [SecondCheck(r, t)];
  }

  /** The consume call and the last check. */
  lemma Concludes(env: Env, t0: int, before: seq<Action>, s: System, q: Request, consumeAt: int, last: int)
    returns (after: seq<Action>)
    requires Run(env, t0, before) == Top(s, q) && q.place == Rechecked
    requires s.latest - env.skew <= consumeAt && Max(s.latest, consumeAt) - env.skew <= last
    requires Challenges.Verified(env.mac, q.body.challenge, last) == Ok(q.bytes) && NotReplayed(s, Id(env, q), consumeAt)
    ensures Run(env, t0, after) ==
            Top(s.(latest := Max(Max(s.latest, consumeAt), last),
                   store := s.store.(used := Consumption(s.store.used, Id(env, q), Expiry(q), consumeAt).0)),
                q.(place := Done(Granted), finalCheck := last, claimed := true))
  {
    hide Challenges.Verified, Apply, Id, Expiry, Consumption, ValidId, Run;
    var r := |s.requests|;
    Extend(env, t0, before, CallConsume(r, consumeAt));
    TopWorkerStep(env, s, q, CallConsume(r, consumeAt));
    after := before + [CallConsume(r, consumeAt)];
    var s2 := Read(s, consumeAt);
    var q3 := q.(place := Consuming(consumeAt));
    RowOfClaim(env, q3, q);
    Extend(env, t0, after, RunConsume(r, false));
    TopConsume(env, s2, q3, consumeAt);
    after := after + [RunConsume(r, false)];
    var s3 := s2.(store := s.store.(used := Consumption(s.store.used, Id(env, q), Expiry(q), consumeAt).0));
    Extend(env, t0, after, FinalCheck(r, last));
    TopFinalCheck(env, s3, q3.(place := Claimed, claimed := true), last);
    after := after + [FinalCheck(r, last)];
  }

  lemma Finishes(env: Env, t0: int, before: seq<Action>, s: System, q: Request,
                 ms: int, t: int, consumeAt: int, last: int)
    returns (after: seq<Action>)
    requires Run(env, t0, before) == Top(s, q) && MayFinish(env, s, q, ms, t, consumeAt, last)
    ensures Run(env, t0, after) == Finished(env, s, q, ms, t, consumeAt, last)
  {
    hide Challenges.Verified, Id, Expiry, Consumption, ValidId, Run;
    after := Rechecks(env, t0, before, s, q, ms, t);
    var s1 := s.(latest := Max(Max(s.latest, ms / 1000), t));
    var q1 := q.(place := Rechecked, attestedAt := ms, secondCheck := t);
    RowOfClaim(env, q1, q);
    after := Concludes(env, t0, after, s1, q1, consumeAt, last);
  }

  /** A request that has seen the snapshot of its query. */
  function Entrant(body: AttestRequest, bytes: Bytes, t: int, serials: seq<string>): Request {
    Request(body, Viewed, bytes, t, t, serials, 0, 0, 0, false)
  }

  /** A request that meets a fresh snapshot, a budget that is not spent, a live challenge that nobody
      has consumed and an attestation that is accepted is granted, unless others disturb it. */
  lemma UndisturbedRequestIsGranted(env: Env, t0: int, before: seq<Action>, body: AttestRequest, bytes: Bytes,
                                    t: int, ms: int, consumeAt: int, last: int)
    returns (after: seq<Action>)
    requires MayEnter(env, Run(env, t0, before), body, bytes, t)
    requires var s := Run(env, t0, before);
             MayFinish(env, Entered(s, t), Entrant(body, bytes, t, Seen(s, t)), ms, t, consumeAt, last)
    ensures var s := Run(env, t0, before);
            Run(env, t0, after) == Finished(env, Entered(s, t), Entrant(body, bytes, t, Seen(s, t)), ms, t, consumeAt, last)
  {
    hide MayFinish, Finished, Apply, Run, HasBudget, Challenges.Verified;
    var s := Run(env, t0, before);
    var entered := Enters(env, t0, before, body, bytes, t);
    after := Finishes(env, t0, entered, Entered(s, t), Entrant(body, bytes, t, Seen(s, t)), ms, t, consumeAt, last);
  }

  // ---- a first snapshot -----------------------------------------------------------------------------

  /** An alarm whose download reads `checkedAt` has brought a snapshot. */
  lemma FirstSnapshot(env: Env, t: int, checkedAt: int, response: Response) returns (actions: seq<Action>)
    requires Commits(t, checkedAt, Some(response)) && checkedAt >= t - env.skew
    ensures var s := Run(env, t, actions);
            && s.requests == [] && s.latest == Max(t, checkedAt) && s.store.used == map[] && s.store.budget == map[]
            && s.store.row.Some? && s.store.row.value.expiresAt == t + Ttl(response.headers)
            && s.store.cache == Some(Cache(s.store.row.value.digest, Serials(response).value))
            && s.log == [Fetch(t, response)]
  {
    hide Serials, Ttl, Text.Join;
    actions := [] + [Alarm(t)];
    Extend(env, t, [], Alarm(t));
    assert Run(env, t, actions) == System([], [Refresh(t, Running)], Start(t).store, t, []);
    Extend(env, t, actions, Download(0, Some(response), checkedAt));
    actions := actions + [Download(0, Some(response), checkedAt)];
    var s := Run(env, t, actions);
    assert s == System([], [Refresh(t, Downloaded(Some(response), checkedAt))], Start(t).store, Max(t, checkedAt), []);
    Extend(env, t, actions, Commit(0));
    actions := actions + [Commit(0)];
    assert [] + [Fetch(t, response)] == [Fetch(t, response)];
  }

  /** A feed that may be stored, with the same serials. */
  function Storable(response: Response): Response {
    response.(headers := Revocations.Headers(false, None, None))
  }

  lemma StorableFeed(response: Response, t: int)
    requires Serials(response).Some?
    ensures Serials(Storable(response)) == Serials(response) && Ttl(Storable(response).headers) == 300
    ensures Commits(t, t, Some(Storable(response)))
  {
  }

  lemma EmptyBudget(s: System, t: int)
    requires s.store.budget == map[] || s.store.budget == Allowed(map[], t).0
    ensures HasBudget(s, t)
  {
    hide Minute;
  }

  lemma EnteredIs(s: System, t: int)
    requires s.store.row.Some? && s.store.cache.Some? && s.store.cache.value.digest == s.store.row.value.digest
    ensures var e := Entered(s, t);
            && e.requests == s.requests && e.latest == Max(s.latest, t) && e.store.used == s.store.used
            && e.store.row == s.store.row && e.store.cache == s.store.cache && e.store.budget == Allowed(s.store.budget, t).0
  {
  }

  // ---- how far the clock may step back ---------------------------------------------------------

  ghost predicate GrantedTwice(s: System) {
    exists i, j :: 0 <= i < j < |s.requests| && IsGranted(s.requests[i]) && IsGranted(s.requests[j])
                   && s.requests[i].bytes == s.requests[j].bytes
  }

  /** A reading in the life of the challenge, as close to the attestation's as it gets. */
  function CheckReading(bytes: Bytes, ms: int): int
    requires |bytes| >= 9
  {
    var issued := Challenges.IssuedAt(bytes);
    if ms / 1000 < issued then issued else if ms / 1000 < issued + 120 then ms / 1000 else issued + 119
  }

  lemma LiveAt(env: Env, body: AttestRequest, bytes: Bytes, t: int)
    requires Answers(env, body, bytes) && Challenges.IssuedAt(bytes) <= t < Challenges.ExpiresAtSeconds(bytes)
    ensures Challenges.Verified(env.mac, body.challenge, t) == Ok(bytes)
  {
    Challenges.AcceptsExactlyLiveTokens(env.mac, body.challenge, t, bytes);
  }

  /** The state in which the challenge has been granted once, and the first snapshot is still there. */
  ghost predicate GrantedOnceIn(env: Env, s: System, body: AttestRequest, bytes: Bytes, serials: seq<string>,
                                t: int, latest: int) {
    && |bytes| >= 9 && |s.requests| == 1 && IsGranted(s.requests[0]) && s.requests[0].bytes == bytes
    && s.latest == latest && s.store.budget == Allowed(map[], t).0
    && s.store.row.Some? && t < s.store.row.value.expiresAt
    && s.store.cache == Some(Cache(s.store.row.value.digest, serials))
    && var id := Challenges.Id(env.sha256, bytes);
       id in s.store.used && s.store.used[id] == Challenges.ExpiresAtSeconds(bytes)
  }

  /** The state after a first snapshot of these serials. */
  ghost predicate Warm(s: System, serials: seq<string>, t: int) {
    && s.requests == [] && s.latest == t && s.store.used == map[] && s.store.budget == map[]
    && s.store.row.Some? && t < s.store.row.value.expiresAt
    && s.store.cache == Some(Cache(s.store.row.value.digest, serials))
  }

  lemma FirstMayEnter(env: Env, s: System, body: AttestRequest, bytes: Bytes, serials: seq<string>, ms: int)
    requires Grantable(env, body, bytes, serials, ms) && |bytes| == 57
    requires Warm(s, serials, CheckReading(bytes, ms))
    ensures var t := CheckReading(bytes, ms); Fresh(s.store, t) && MayEnter(env, s, body, bytes, t) && Seen(s, t) == serials
  {
    var t := CheckReading(bytes, ms);
    LiveAt(env, body, bytes, t);
    EmptyBudget(s, t);
    hide Answers, Challenges.Verified, Challenges.IssuedAt, Allowed, HasBudget, IsFeed;
  }

  lemma FirstMayFinish(env: Env, s: System, body: AttestRequest, bytes: Bytes, serials: seq<string>, ms: int)
    requires GoodEnv(env) && Grantable(env, body, bytes, serials, ms) && |bytes| == 57
    requires Warm(s, serials, CheckReading(bytes, ms))
    ensures var t := CheckReading(bytes, ms);
            MayFinish(env, Entered(s, t), Entrant(body, bytes, t, serials), ms, t, t, t)
  {
    var t := CheckReading(bytes, ms);
    LiveAt(env, body, bytes, t);
    EnteredIs(s, t);
    IdsAreGood(env, Entrant(body, bytes, t, serials));
    FirstReadings(env, body, bytes, serials, ms);
    hide Answers, Challenges.Verified, Challenges.IssuedAt, IsFeed, Id, ValidId, Entered, GoodEnv, CheckReading, ReadingsAllowed;
  }

  lemma FirstReadings(env: Env, body: AttestRequest, bytes: Bytes, serials: seq<string>, ms: int)
    requires Grantable(env, body, bytes, serials, ms) && |bytes| == 57
    ensures var t := CheckReading(bytes, ms); ReadingsAllowed(env.skew, t, ms / 1000, t, t, t)
  {
    hide Answers, Challenges.IssuedAt, IsFeed;
  }

  lemma FirstIsGranted(env: Env, s: System, body: AttestRequest, bytes: Bytes, serials: seq<string>, ms: int)
    requires GoodEnv(env) && |bytes| == 57 && Warm(s, serials, CheckReading(bytes, ms))
    ensures var t := CheckReading(bytes, ms);
            GrantedOnceIn(env, Finished(env, Entered(s, t), Entrant(body, bytes, t, serials), ms, t, t, t),
                          body, bytes, serials, t, Max(t, ms / 1000))
  {
    var t := CheckReading(bytes, ms);
    var q := Entrant(body, bytes, t, serials);
    EnteredIs(s, t);
    IdsAreGood(env, q);
    ExpiryIs(env, q);
    hide CheckReading, Allowed, Id, Challenges.Id, ValidId, Expiry, Consumption, Entered, GoodEnv, Challenges.ExpiresAtSeconds;
    ConsumptionIs(map[], Id(env, q), Expiry(q), t);
  }

  lemma FirstGrant(env: Env, body: AttestRequest, bytes: Bytes, serials: seq<string>, ms: int)
    returns (actions: seq<Action>)
    requires GoodEnv(env) && Grantable(env, body, bytes, serials, ms) && |bytes| == 57
    ensures var t := CheckReading(bytes, ms);
            GrantedOnceIn(env, Run(env, t, actions), body, bytes, serials, t, Max(t, ms / 1000))
  {
    var t := CheckReading(bytes, ms);
    var response: Response :| Serials(response) == Some(serials);
    StorableFeed(response, t);
    hide Grantable, CheckReading, GoodEnv, MayFinish, Run, Serials, Ttl, Storable, GrantedOnceIn, Finished, Challenges.Verified,
      Entered, Seen, MayEnter;
    actions := FirstSnapshot(env, t, t, Storable(response));
    var s0 := Run(env, t, actions);
    FirstMayEnter(env, s0, body, bytes, serials, ms);
    FirstMayFinish(env, s0, body, bytes, serials, ms);
    FirstIsGranted(env, s0, body, bytes, serials, ms);
    actions := UndisturbedRequestIsGranted(env, t, actions, body, bytes, t, ms, t, t);
  }

  lemma ExpiryIs(env: Env, q: Request)
    requires |q.bytes| >= 9
    ensures Expiry(q) == Challenges.ExpiresAtSeconds(q.bytes) && Id(env, q) == Challenges.Id(env.sha256, q.bytes)
  {
  }

  /** Then a second request for it can enter. */
  lemma SecondMayEnter(env: Env, s: System, body: AttestRequest, bytes: Bytes, serials: seq<string>, ms: int)
    requires Grantable(env, body, bytes, serials, ms) && |bytes| == 57
    requires var t := CheckReading(bytes, ms); GrantedOnceIn(env, s, body, bytes, serials, t, Max(t, ms / 1000))
    ensures var t := CheckReading(bytes, ms); Fresh(s.store, t) && MayEnter(env, s, body, bytes, t) && Seen(s, t) == serials
  {
    var t := CheckReading(bytes, ms);
    LiveAt(env, body, bytes, t);
    EmptyBudget(s, t);
    hide Answers, Challenges.Verified, Challenges.IssuedAt, Allowed, HasBudget, IsFeed, Challenges.Id;
  }

  /** And when its consume call reads 61 seconds past the expiry, the row is gone; the last check, 62
      seconds back, is still in time. */
  lemma SecondMayFinish(env: Env, s: System, body: AttestRequest, bytes: Bytes, serials: seq<string>, ms: int)
    requires GoodEnv(env) && env.skew >= 62 && Grantable(env, body, bytes, serials, ms) && |bytes| == 57
    requires var t := CheckReading(bytes, ms); GrantedOnceIn(env, s, body, bytes, serials, t, Max(t, ms / 1000))
    ensures var t, expiry := CheckReading(bytes, ms), Challenges.ExpiresAtSeconds(bytes);
            MayFinish(env, Entered(s, t), Entrant(body, bytes, t, serials), ms, t, expiry + 61, expiry - 1)
  {
    var t := CheckReading(bytes, ms);
    var expiry := Challenges.ExpiresAtSeconds(bytes);
    LiveAt(env, body, bytes, t);
    LiveAt(env, body, bytes, expiry - 1);
    EnteredIs(s, t);
    var q := Entrant(body, bytes, t, serials);
    IdsAreGood(env, q);
    ExpiryIs(env, q);
    SecondReadings(env, body, bytes, serials, ms);
    hide Answers, Challenges.Verified, Challenges.IssuedAt, Entered, IsFeed, Id, Challenges.Id, ValidId, GoodEnv,
      CheckReading, ReadingsAllowed;
  }

  lemma SecondReadings(env: Env, body: AttestRequest, bytes: Bytes, serials: seq<string>, ms: int)
    requires env.skew >= 62 && Grantable(env, body, bytes, serials, ms) && |bytes| == 57
    ensures var t, expiry := CheckReading(bytes, ms), Challenges.ExpiresAtSeconds(bytes);
            ReadingsAllowed(env.skew, Max(t, ms / 1000), ms / 1000, t, expiry + 61, expiry - 1)
  {
    hide Answers, Challenges.IssuedAt, IsFeed;
  }

  /** With a step back of 62 seconds the row of a granted request can be pruned and the challenge still
      pass the last check: whatever can be granted can be granted twice. */
  lemma StepBackGrantsTwice(env: Env, body: AttestRequest, bytes: Bytes, serials: seq<string>, ms: int)
    returns (t: int, actions: seq<Action>)
    requires GoodEnv(env) && env.skew >= 62 && Grantable(env, body, bytes, serials, ms)
    ensures GrantedTwice(Run(env, t, actions))
  {
    hide CheckReading, Grantable, GoodEnv, MayEnter, MayFinish, Run, Challenges.ExpiresAtSeconds, Finished, GrantedTwice,
      Entered, Seen, GrantedOnceIn;
    GrantableLength(env, body, bytes, serials, ms);
    t := CheckReading(bytes, ms);
    var expiry := Challenges.ExpiresAtSeconds(bytes);
    actions := FirstGrant(env, body, bytes, serials, ms);
    var s1 := Run(env, t, actions);
    SecondMayEnter(env, s1, body, bytes, serials, ms);
    SecondMayFinish(env, s1, body, bytes, serials, ms);
    actions := UndisturbedRequestIsGranted(env, t, actions, body, bytes, t, ms, expiry + 61, expiry - 1);
    SecondIsGranted(env, s1, body, bytes, serials, ms, t, expiry + 61, expiry - 1);
  }

  lemma GrantableLength(env: Env, body: AttestRequest, bytes: Bytes, serials: seq<string>, ms: int)
    requires Grantable(env, body, bytes, serials, ms)
    ensures |bytes| == 57
  {
    hide IsFeed, Challenges.IssuedAt;
  }

  lemma SecondIsGranted(env: Env, s: System, body: AttestRequest, bytes: Bytes, serials: seq<string>,
                        ms: int, t: int, consumeAt: int, last: int)
    requires GrantedOnceIn(env, s, body, bytes, serials, t, Max(t, ms / 1000))
    ensures GrantedTwice(Finished(env, Entered(s, t), Entrant(body, bytes, t, serials), ms, t, consumeAt, last))
  {
    EnteredIs(s, t);
    hide Entered, Consumption, Id, Expiry, Allowed, Challenges.Id, Challenges.ExpiresAtSeconds;
    var s2 := Finished(env, Entered(s, t), Entrant(body, bytes, t, serials), ms, t, consumeAt, last);
    assert IsGranted(s2.requests[0]) && IsGranted(s2.requests[1]) && s2.requests[0].bytes == s2.requests[1].bytes;
  }

  /** Whether every run grants each challenge at most once. */
  ghost predicate GrantsOnce(env: Env) {
    forall t, actions :: !GrantedTwice(Run(env, t, actions))
  }

  /** Whether some challenge can be granted at all. */
  ghost predicate CanGrant(env: Env) {
    exists body, bytes, serials, ms :: Grantable(env, body, bytes, serials, ms)
  }

  /** Something is granted in some run exactly when it can be. */
  lemma GrantsExactlyTheGrantable(env: Env)
    requires GoodEnv(env)
    ensures CanGrant(env) <==> exists t, actions, i :: GrantedIn(env, t, actions, i)
  {
    if CanGrant(env) {
      var body, bytes, serials, ms :| Grantable(env, body, bytes, serials, ms);
      GrantableLength(env, body, bytes, serials, ms);
      var actions := FirstGrant(env, body, bytes, serials, ms);
      assert GrantedIn(env, CheckReading(bytes, ms), actions, 0);
    }
    hide Run, Grantable;
    if exists t, actions, i :: GrantedIn(env, t, actions, i) {
      var t, actions, i :| GrantedIn(env, t, actions, i);
      GrantedIsGrantable(env, t, actions, i);
    }
  }

  ghost predicate GrantedIn(env: Env, t: int, actions: seq<Action>, i: nat) {
    i < |Run(env, t, actions).requests| && IsGranted(Run(env, t, actions).requests[i])
  }

  /** The tolerance is exact, for every server: single use holds in every run exactly when the clock
      never steps back by more than 61 seconds, or nothing can be granted at all. */
  lemma SingleUseExactlyWithin61Seconds(env: Env)
    requires GoodEnv(env)
    ensures GrantsOnce(env) <==> env.skew <= 61 || !CanGrant(env)
  {
    if env.skew <= 61 {
      forall t, actions ensures !GrantedTwice(Run(env, t, actions)) {
        var s := Run(env, t, actions);
        forall i, j | 0 <= i < j < |s.requests| && IsGranted(s.requests[i]) && IsGranted(s.requests[j])
          ensures s.requests[i].bytes != s.requests[j].bytes
        {
          ChallengeIsGrantedOnce(env, t, actions, i, j);
        }
      }
    } else if CanGrant(env) {
      hide Grantable, GrantedTwice, Run;
      var body, bytes, serials, ms :| Grantable(env, body, bytes, serials, ms);
      var t, actions := StepBackGrantsTwice(env, body, bytes, serials, ms);
    } else {
      NothingGrantable(env);
    }
  }

  lemma NothingGrantable(env: Env)
    requires GoodEnv(env) && !CanGrant(env)
    ensures GrantsOnce(env)
  {
    forall t, actions ensures !GrantedTwice(Run(env, t, actions)) {
      hide Grantable, Run, GoodEnv;
      if GrantedTwice(Run(env, t, actions)) {
        var i, j :| 0 <= i < j < |Run(env, t, actions).requests| && IsGranted(Run(env, t, actions).requests[i])
                    && IsGranted(Run(env, t, actions).requests[j])
                    && Run(env, t, actions).requests[i].bytes == Run(env, t, actions).requests[j].bytes;
        GrantedIsGrantable(env, t, actions, i);
        assert false;
      }
    }
  }
}

/** When a response that forbids storing can be stored, and shown. */
module ProtocolStoring {
  import opened Common
  import opened State
  import opened Protocol
  import opened ProtocolLimits
  import opened ProtocolSnapshots
  import Challenges
  import Revocations

  ghost predicate NothingForbidden(log: seq<Fetch>) {
    forall k :: 0 <= k < |log| ==> !log[k].response.headers.noStoreOrNoCache
  }

  predicate RefreshOrdered(f: Refresh, latest: int) {
    f.start <= latest && (f.phase.Downloaded? ==> f.phase.checkedAt >= f.start)
  }

  /** What a clock that never steps back keeps. */
  ghost predicate Ordered(s: System) {
    && NothingForbidden(s.log)
    && (forall k :: 0 <= k < |s.refreshes| ==> RefreshOrdered(s.refreshes[k], s.latest))
    && (forall i :: 0 <= i < |s.requests| && s.requests[i].place.Querying? ==> s.requests[i].query <= s.latest)
  }

  /** A step of one request that sends no query, with a later or the same reading. */
  lemma OrderedOfOne(s: System, s': System, r: nat)
    requires Ordered(s) && r < |s.requests| && |s'.requests| == |s.requests| && s'.requests == s.requests[r := s'.requests[r]]
    requires s'.refreshes == s.refreshes && s'.log == s.log && s'.latest >= s.latest
    requires s'.requests[r].place.Querying? ==> s'.requests[r].query <= s'.latest
    ensures Ordered(s')
  {
    forall k | 0 <= k < |s'.refreshes| ensures RefreshOrdered(s'.refreshes[k], s'.latest) {
      assert RefreshOrdered(s.refreshes[k], s.latest);
    }
  }

  lemma RequestStepIsOrdered(env: Env, s: System, a: Action)
    requires Ordered(s)
    requires !(a.Arrive? || a.RunRevocations? || a.Alarm? || a.Download? || a.Commit? || a.Restart?)
    ensures Ordered(Apply(env, s, a))
  {
    hide Ordered, FirstChecked, SecondChecked, FinallyChecked, WithVerdict, View, Allowed, Consumption, Id, Expiry;
    var s' := Apply(env, s, a);
    if s' != s {
      StepOfOneRequest(env, s, a);
      OrderedOfOne(s, s', a.r);
    }
  }

  lemma StepOfOneRequest(env: Env, s: System, a: Action)
    requires !(a.Arrive? || a.RunRevocations? || a.Alarm? || a.Download? || a.Commit? || a.Restart?)
    ensures var s' := Apply(env, s, a);
            s' == s ||
            (&& a.r < |s.requests| && |s'.requests| == |s.requests| && s'.requests == s.requests[a.r := s'.requests[a.r]]
             && s'.refreshes == s.refreshes && s'.log == s.log && s'.latest >= s.latest
             && (s'.requests[a.r].place.Querying? ==> s'.requests[a.r].query <= s'.latest))
  {
    hide View, Allowed, Consumption, Id, Expiry, Challenges.Verified;
  }

  lemma RefreshStarts(s: System, s': System, start: int)
    requires Ordered(s) && s'.refreshes == s.refreshes + [Refresh(start, Running)]
    requires s'.log == s.log && start <= s'.latest && s.latest <= s'.latest
    requires |s'.requests| == |s.requests|
    requires forall i :: 0 <= i < |s.requests| ==> s'.requests[i] == s.requests[i] || s'.requests[i].place.Waiting?
    ensures Ordered(s')
  {
    forall k | 0 <= k < |s'.refreshes| ensures RefreshOrdered(s'.refreshes[k], s'.latest) {
      if k < |s.refreshes| { assert RefreshOrdered(s.refreshes[k], s.latest); }
    }
  }

  lemma QueryIsOrdered(env: Env, s: System, r: nat)
    requires Ordered(s)
    ensures Ordered(Apply(env, s, RunRevocations(r)))
  {
    hide View;
    if At(s, r, Querying) {
      var s' := Queried(s, r);
      if Fresh(s.store, s.requests[r].query) { OrderedOfOne(s, s', r); } else { RefreshStarts(s, s', s.requests[r].query); }
    }
  }

  lemma AlarmIsOrdered(env: Env, s: System, now: int)
    requires Ordered(s)
    ensures Ordered(Apply(env, s, Alarm(now)))
  {
    if Plausible(env, s, now) { RefreshStarts(s, Apply(env, s, Alarm(now)), now); }
  }

  /** Without a step back no download ends before it started. */
  lemma DownloadIsOrdered(env: Env, s: System, k: nat, response: Option<Response>, now: int)
    requires Ordered(s) && env.skew == 0
    ensures Ordered(Apply(env, s, Download(k, response, now)))
  {
    var s' := Apply(env, s, Download(k, response, now));
    if s' != s {
      forall j | 0 <= j < |s'.refreshes| ensures RefreshOrdered(s'.refreshes[j], s'.latest) {
        assert RefreshOrdered(s.refreshes[j], s.latest);
      }
    }
  }

  /** Then a response that is committed has time to live, so it does not forbid storing. */
  lemma CommitIsOrdered(env: Env, s: System, k: nat)
    requires Ordered(s)
    ensures Ordered(Apply(env, s, Commit(k)))
  {
    hide Refreshed, Serials;
    if k < |s.refreshes| && s.refreshes[k].phase.Downloaded? {
      var s' := Apply(env, s, Commit(k));
      assert RefreshOrdered(s.refreshes[k], s.latest);
      forall j | 0 <= j < |s'.refreshes| ensures RefreshOrdered(s'.refreshes[j], s'.latest) {
        assert RefreshOrdered(s.refreshes[j], s.latest);
      }
    }
  }

  lemma RestartIsOrdered(env: Env, s: System)
    requires Ordered(s)
    ensures Ordered(Apply(env, s, Restart))
  {
    var s' := Apply(env, s, Restart);
    forall j | 0 <= j < |s'.refreshes| ensures RefreshOrdered(s'.refreshes[j], s'.latest) {
      assert RefreshOrdered(s.refreshes[j], s.latest);
    }
  }

  lemma {:induction false} RunIsOrdered(env: Env, t: int, actions: seq<Action>)
    requires env.skew == 0
    ensures Ordered(Run(env, t, actions))
  {
    hide Apply;
    if actions != [] {
      var before, a := actions[..|actions| - 1], actions[|actions| - 1];
      RunIsOrdered(env, t, before);
      hide Ordered;
      var s := Run(env, t, before);
      match a
      case Arrive(body) => ArrivalIsOrdered(env, s, body);
      case RunRevocations(r) => QueryIsOrdered(env, s, r);
      case Alarm(now) => AlarmIsOrdered(env, s, now);
      case Download(k, response, now) => DownloadIsOrdered(env, s, k, response, now);
      case Commit(k) => CommitIsOrdered(env, s, k);
      case Restart => RestartIsOrdered(env, s);
      case _ => RequestStepIsOrdered(env, s, a);
    }
  }

  lemma ArrivalIsOrdered(env: Env, s: System, body: AttestRequest)
    requires Ordered(s)
    ensures Ordered(Apply(env, s, Arrive(body)))
  {
    hide NothingForbidden;
  }

  /** Any response that forbids storing is stored, and shown to a request, in a run where the clock steps
      back by one second during its download: it started at t, and the request asks at t - 1. */
  lemma StepBackShowsForbidden(env: Env, issued: nat, nonce: Bytes, response: Response, chain: seq<string>, pop: string)
    returns (actions: seq<Action>)
    requires env.skew >= 1 && |nonce| == 32 && issued < 0x8000_0000_0000_0000
    requires response.headers.noStoreOrNoCache && Serials(response).Some?
    ensures var s := Run(env, issued + 1, actions);
            && s.log == [Fetch(issued + 1, response)]
            && |s.requests| == 1 && s.requests[0].place == Viewed && s.requests[0].serials == Serials(response).value
  {
    var t := issued + 1;
    var bytes := Challenges.ChallengeBytes(env.mac, issued, nonce);
    var body := AttestRequest(Challenges.Token(env.mac, issued, nonce), chain, pop);
    Challenges.IssuedTokenLivesTwoMinutes(env.mac, issued, nonce, issued);
    assert Ttl(response.headers) == 0;
    hide Challenges.Verified, Challenges.Token, Challenges.ChallengeBytes, Challenges.ExpiresAtSeconds, Challenges.IssuedAt,
      Apply, Run, Allowed, Serials, Ttl;
    actions := FirstSnapshot(env, t, issued, response);
    var s0 := Run(env, t, actions);
    EmptyBudget(s0, issued);
    EnteredIs(s0, issued);
    hide HasBudget;
    actions := Enters(env, t, actions, body, bytes, issued);
  }

  /** No run stores a response that forbids it if and only if the clock never steps back. */
  lemma ForbiddenIsNeverStoredExactlyWithoutStepBack(env: Env)
    ensures (forall t, actions :: NothingForbidden(Run(env, t, actions).log)) <==> env.skew == 0
  {
    hide Run, NothingForbidden;
    if env.skew == 0 {
      forall t, actions ensures NothingForbidden(Run(env, t, actions).log) {
        RunIsOrdered(env, t, actions);
      }
    } else {
      var actions := StepBackStoresForbidden(env);
    }
  }

  lemma StepBackStoresForbidden(env: Env) returns (actions: seq<Action>)
    requires env.skew >= 1
    ensures !NothingForbidden(Run(env, 1, actions).log)
  {
    hide Run;
    var response := Response(Revocations.Headers(true, None, None), []);
    assert Revocations.ParsedFeed([]) == Some([]);
    actions := StepBackShowsForbidden(env, 0, seq(32, _ => 0), response, [], "");
    assert Run(env, 1, actions).log[0].response == response;
  }
}
