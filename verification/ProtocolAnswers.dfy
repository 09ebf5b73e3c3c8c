/** What a request is answered, over runs (server/src/worker.ts): the budget, the checks, the replay table and
    the snapshot, each against what other requests and refreshes have done. */
module ProtocolAnswers {
  import opened Common
  import opened State
  import opened Protocol
  import opened ProtocolClaims
  import opened ProtocolLimits
  import opened ProtocolRuns
  import opened ProtocolSnapshots
  import BudgetRuns
  import ByteStrings
  import Challenges
  import Revocations
  import Text

  // ---- the request budget -----------------------------------------------------------------------------

  predicate CallsBudget(s: System, a: Action) {
    a.RunBudget? && a.r < |s.requests| && s.requests[a.r].place.Budgeting?
  }

  /** The readings of the budget calls of a run, in the order in which they were executed. */
  ghost function BudgetCalls(env: Env, t: int, actions: seq<Action>): seq<int> {
    if actions == [] then []
    else
      var before, a := actions[..|actions| - 1], actions[|actions| - 1];
      var s := Run(env, t, before);
      BudgetCalls(env, t, before) + (if CallsBudget(s, a) then [s.requests[a.r].place.at] else [])
  }

  lemma OtherActionsLeaveBudget(env: Env, s: System, a: Action)
    requires !CallsBudget(s, a)
    ensures Apply(env, s, a).store.budget == s.store.budget
  {
    hide Serials, Ttl, Stored, Challenges.Verified, Allowed, ValidId;
  }

  lemma BudgetCallExtends(env: Env, s: System, a: Action)
    requires CallsBudget(s, a)
    ensures Apply(env, s, a).store.budget == Allowed(s.store.budget, s.requests[a.r].place.at).0
  {
    hide Allowed;
  }

  /** The budget table of every run is that of its calls. */
  lemma {:induction false} BudgetIsOfCalls(env: Env, t: int, actions: seq<Action>)
    ensures Run(env, t, actions).store.budget == BudgetRuns.Table(BudgetCalls(env, t, actions))
  {
    hide Apply, Allowed;
    if actions != [] {
      var before, a := actions[..|actions| - 1], actions[|actions| - 1];
      BudgetIsOfCalls(env, t, before);
      var s, calls := Run(env, t, before), BudgetCalls(env, t, before);
      if CallsBudget(s, a) {
        BudgetCallExtends(env, s, a);
        assert (calls + [s.requests[a.r].place.at])[..|calls|] == calls;
      } else {
        OtherActionsLeaveBudget(env, s, a);
        assert calls + [] == calls;
      }
    }
  }

  /** In every run a request is admitted exactly when its minute has had fewer than sixty calls since one
      that was more than two minutes later; otherwise it is answered 429. */
  lemma RateLimitedExactly(env: Env, t: int, actions: seq<Action>, r: nat)
    requires r < |Run(env, t, actions).requests| && Run(env, t, actions).requests[r].place.Budgeting?
    ensures var at := Run(env, t, actions).requests[r].place.at;
            var q := Run(env, t, actions + [RunBudget(r)]).requests[r];
            q.place == if BudgetRuns.EpochCalls(BudgetCalls(env, t, actions), at / 60) < 60 then Admitted else Done(RateLimited)
  {
    var calls, at := BudgetCalls(env, t, actions), Run(env, t, actions).requests[r].place.at;
    BudgetIsOfCalls(env, t, actions);
    Extend(env, t, actions, RunBudget(r));
    BudgetRuns.GrantedExactlyWithinEpoch(calls + [at]);
    assert (calls + [at])[..|calls|] == calls;
    hide Run, BudgetCalls, BudgetRuns.EpochCalls, BudgetRuns.Table, Allowed;
  }

  // ---- the replay table -------------------------------------------------------------------------------

  /** Requests with different challenges have different digests. */
  ghost predicate NoSharedDigest(env: Env, s: System) {
    forall i, j :: 0 <= i < |s.requests| && 0 <= j < |s.requests| && s.requests[i].bytes != s.requests[j].bytes ==>
      env.sha256(s.requests[i].bytes) != env.sha256(s.requests[j].bytes)
  }

  lemma SameIdIsSameChallenge(env: Env, p: Request, q: Request)
    requires p.bytes != q.bytes ==> env.sha256(p.bytes) != env.sha256(q.bytes)
    ensures Id(env, p) == Id(env, q) <==> p.bytes == q.bytes
  {
    if Id(env, p) == Id(env, q) { ByteStrings.HexInjective(env.sha256(p.bytes), env.sha256(q.bytes)); }
  }

  lemma IdsAreChallenges(env: Env, s: System, r: nat, i: int)
    requires NoSharedDigest(env, s)
    ensures ClaimsId(env, s, r, i) <==> ClaimsChallenge(s, r, i)
  {
    if r < |s.requests| && 0 <= i < |s.requests| { SameIdIsSameChallenge(env, s.requests[i], s.requests[r]); }
    hide Id;
  }

  /** In every run without digest collisions a consume call that is answered is told "replayed" only when another
      request has claimed the same challenge, and, up to a minute after its expiry, exactly then; otherwise the
      request has claimed it. */
  lemma ReplayedExactly(env: Env, t: int, actions: seq<Action>, r: nat)
    requires GoodEnv(env) && NoSharedDigest(env, Run(env, t, actions))
    requires r < |Run(env, t, actions).requests| && Run(env, t, actions).requests[r].place.Consuming?
    ensures var s := Run(env, t, actions);
            var place := Run(env, t, actions + [RunConsume(r, false)]).requests[r].place;
            && (place == Claimed || place == Done(Rejected(ChallengeReplayed)))
            && (place != Claimed ==> exists i :: ClaimsChallenge(s, r, i))
            && (s.latest <= Expiry(s.requests[r]) + 60 ==> (place != Claimed <==> exists i :: ClaimsChallenge(s, r, i)))
  {
    var s := Run(env, t, actions);
    ReplaysAreGenuine(env, t, actions, r);
    Extend(env, t, actions, RunConsume(r, false));
    hide Run, Consumption, Id, Expiry, ClaimsId, ClaimsChallenge, NoSharedDigest;
    forall i ensures ClaimsId(env, s, r, i) <==> ClaimsChallenge(s, r, i) {
      IdsAreChallenges(env, s, r, i);
    }
  }

  /** Nobody has claimed the challenge, and its digest is not that of a claimed one. */
  ghost predicate Unclaimed(env: Env, s: System, bytes: Bytes) {
    forall i :: 0 <= i < |s.requests| && s.requests[i].claimed ==>
      s.requests[i].bytes != bytes && env.sha256(s.requests[i].bytes) != env.sha256(bytes)
  }

  lemma UnclaimedHasNoRow(env: Env, s: System, q: Request)
    requires RowsAreClaimed(env, s) && Unclaimed(env, s, q.bytes)
    ensures Id(env, q) !in s.store.used
  {
    hide Id, Expiry;
    var id := Id(env, q);
    if id in s.store.used {
      var i :| 0 <= i < |s.requests| && ClaimOf(env, s.requests[i], id, s.store.used[id]);
      SameIdIsSameChallenge(env, s.requests[i], q);
    }
  }

  lemma UnclaimedIsNotReplayed(env: Env, t: int, actions: seq<Action>, q: Request, now: int)
    requires GoodEnv(env) && Unclaimed(env, Run(env, t, actions), q.bytes)
    ensures NotReplayed(Run(env, t, actions), Id(env, q), now)
  {
    hide GoodEnv, Run, Id, ValidId, Unclaimed, RowsAreClaimed, SnapshotOk, RequestsOk, ClaimsAreHeld, ClaimsAreRare, GrantsOk;
    RunKeeps(env, t, actions);
    IdsAreGood(env, q);
    UnclaimedHasNoRow(env, Run(env, t, actions), q);
  }

  /** A request for a live challenge that nobody has claimed, with an accepted attestation, is granted: in every
      run it can be followed to its answer 200, from a state with a fresh snapshot and fewer than sixty calls in
      its minute. */
  lemma UnclaimedIsGranted(env: Env, t0: int, before: seq<Action>, body: AttestRequest, bytes: Bytes,
                           t: int, ms: int, consumeAt: int, last: int)
    returns (after: seq<Action>)
    requires GoodEnv(env) && MayEnter(env, Run(env, t0, before), body, bytes, t)
    requires var s := Run(env, t0, before);
             && Unclaimed(env, s, bytes) && env.attest(body, bytes, Elements(Seen(s, t)), ms) == Ok(2)
             && ReadingsAllowed(env.skew, Max(s.latest, t), ms / 1000, t, consumeAt, last)
             && Challenges.Verified(env.mac, body.challenge, last) == Ok(bytes)
    ensures var n, s' := |Run(env, t0, before).requests|, Run(env, t0, after);
            |s'.requests| == n + 1 && s'.requests[n].place == Done(Granted) && s'.requests[n].bytes == bytes
  {
    var s := Run(env, t0, before);
    var q := Entrant(body, bytes, t, Seen(s, t));
    UnclaimedIsNotReplayed(env, t0, before, q, consumeAt);
    hide Run, Id, ValidId, Challenges.Verified, HasBudget, Allowed, Consumption, Expiry, ReadingsAllowed, Unclaimed;
    after := UndisturbedRequestIsGranted(env, t0, before, body, bytes, t, ms, consumeAt, last);
  }

  // ---- the checks and the attestation -------------------------------------------------------------------

  /** The action is one of the three checks of the challenge of request r, at a reading that the clock allows. */
  predicate Checks(env: Env, s: System, a: Action, r: nat, now: int) {
    && r < |s.requests| && Plausible(env, s, now)
    && (|| (a == FirstCheck(r, now) && s.requests[r].place == Admitted)
        || (a == SecondCheck(r, now) && s.requests[r].place == Attested)
        || (a == FinalCheck(r, now) && s.requests[r].place == Claimed))
  }

  /** A check lets a request on exactly when its token encodes an authentic challenge that is live; the token of an
      authentic challenge that is not live is answered challenge_expired, any other attestation_invalid. */
  lemma CheckIsAnswered(env: Env, t: int, actions: seq<Action>, a: Action, r: nat, now: int)
    requires Checks(env, Run(env, t, actions), a, r, now)
    ensures var q := Run(env, t, actions).requests[r];
            var place := Run(env, t, actions + [a]).requests[r].place;
            if Challenges.IsLive(env.mac, q.body.challenge, now)
            then place == (if a.FirstCheck? then Checked else if a.SecondCheck? then Rechecked else Done(Granted))
            else place == Done(Rejected(if Challenges.IsAuthentic(env.mac, q.body.challenge) then ChallengeExpired
                                        else AttestationInvalid))
  {
    hide Run, Apply, Challenges.Verified, Challenges.IsLive, Challenges.IsAuthentic;
    Extend(env, t, actions, a);
    CheckedPlace(env, Run(env, t, actions), a, r, now);
    Challenges.ChecksExactly(env.mac, Run(env, t, actions).requests[r].body.challenge, now);
  }

  lemma CheckedPlace(env: Env, s: System, a: Action, r: nat, now: int)
    requires Checks(env, s, a, r, now)
    ensures r < |Apply(env, s, a).requests|
    ensures var v, place := Challenges.Verified(env.mac, s.requests[r].body.challenge, now), Apply(env, s, a).requests[r].place;
            place == if v.Err? then Done(Rejected(v.error))
                     else if a.FirstCheck? then Checked else if a.SecondCheck? then Rechecked else Done(Granted)
  {
    hide Challenges.Verified;
  }

  /** A verdict lets a request on when it is 2, and is answered with its code, or with device_integrity for any
      other tier. */
  lemma AttestIsAnswered(env: Env, t: int, actions: seq<Action>, r: nat, ms: int)
    requires r < |Run(env, t, actions).requests| && Run(env, t, actions).requests[r].place == Viewed
    requires Plausible(env, Run(env, t, actions), ms / 1000)
    ensures var q := Run(env, t, actions).requests[r];
            var place := Run(env, t, actions + [Attest(r, ms)]).requests[r].place;
            match env.attest(q.body, q.bytes, Elements(q.serials), ms)
            case Ok(tier) => place == if tier == 2 then Attested else Done(Rejected(DeviceIntegrity))
            case Err(code) => place == Done(Rejected(code))
  {
    Extend(env, t, actions, Attest(r, ms));
    hide Run;
  }

  // ---- the snapshot -------------------------------------------------------------------------------------

  /** A refresh whose response is still fresh when its download ends is served: once it is committed, every query
      for which it is fresh is shown its serials, whatever was stored before. */
  lemma CommittedIsServed(env: Env, t: int, actions: seq<Action>, k: nat, response: Response, query: int, serials: seq<string>)
    requires GoodEnv(env) && k < |Run(env, t, actions).refreshes|
    requires var f := Run(env, t, actions).refreshes[k];
             && f.phase.Downloaded? && f.phase.response == Some(response)
             && FreshFrom(Fetch(f.start, response), f.phase.checkedAt, serials)
             && FreshFrom(Fetch(f.start, response), query, serials)
    requires NoCollisions(env, Run(env, t, actions + [Commit(k)]).log)
    ensures View(Run(env, t, actions + [Commit(k)]).store, query).1 == Some(serials)
  {
    var s := Run(env, t, actions);
    RunKeeps(env, t, actions);
    RunKeeps(env, t, actions + [Commit(k)]);
    Extend(env, t, actions, Commit(k));
    hide GoodEnv, Run, Apply, RequestsOk, ClaimsOk, GrantsOk, FreshFrom, SnapshotOk, NoCollisions, View;
    CommitIsServed(env, s, k, response, query, serials);
  }

  lemma CommitIsServed(env: Env, s: System, k: nat, response: Response, query: int, serials: seq<string>)
    requires k < |s.refreshes|
    requires var f := s.refreshes[k];
             && f.phase.Downloaded? && f.phase.response == Some(response)
             && FreshFrom(Fetch(f.start, response), f.phase.checkedAt, serials)
             && FreshFrom(Fetch(f.start, response), query, serials)
    requires var s' := Apply(env, s, Commit(k));
             SnapshotOk(env, s.store, s.log) && SnapshotOk(env, s'.store, s'.log) && NoCollisions(env, s'.log)
    ensures View(Apply(env, s, Commit(k)).store, query).1 == Some(serials)
  {
    hide SnapshotOk, NoCollisions, Serials, Ttl, View, Refreshed;
    var f, s' := s.refreshes[k], Apply(env, s, Commit(k));
    var fetch := Fetch(f.start, response);
    assert Commits(f.start, f.phase.checkedAt, f.phase.response);
    assert s'.log == s.log + [fetch] && s'.store == Refreshed(env.digest, s.store, f.start, f.phase.checkedAt, Some(response));
    RowIsTheFetch(env, s.store, s.log, fetch, f.phase.checkedAt);
    RowIsServed(env, s'.store, s'.log, fetch, query);
  }

  /** The row after a commit is the fetch that was committed, whether its digest changed or not. */
  lemma RowIsTheFetch(env: Env, store: Store, log: seq<Fetch>, f: Fetch, checkedAt: int)
    requires SnapshotOk(env, store, log) && NoCollisions(env, log + [f]) && Commits(f.start, checkedAt, Some(f.response))
    ensures var after := Refreshed(env.digest, store, f.start, checkedAt, Some(f.response));
            after.row.Some? && FromFetch(f, after.row.value)
  {
    NoCollisionsBefore(env, log, f);
    var longer := log + [f];
    hide Serials, Ttl, Text.Join, Revocations.SnapshotTtl;
    if store.row.Some? && store.row.value.digest == env.digest(StoredText(f)) {
      var i :| 0 <= i < |log| && FromFetch(log[i], store.row.value);
      assert longer[i] == log[i] && longer[|log|] == f;
      assert StoredText(longer[i]) == StoredText(longer[|log|]);
    }
  }

  lemma RowIsServed(env: Env, store: Store, log: seq<Fetch>, f: Fetch, query: int)
    requires SnapshotOk(env, store, log) && NoCollisions(env, log) && store.row.Some? && FromFetch(f, store.row.value)
    requires query < f.start + Ttl(f.response.headers)
    ensures View(store, query).1 == Some(Serials(f.response).value)
  {
    var serials := Serials(f.response).value;
    SerialsAreStorable(f.response);
    hide Serials, Ttl, Stored, NoCollisions, Joined, SnapshotOk;
    StoredRecovers(serials);
    if store.cache.Some? && store.cache.value.digest == store.row.value.digest { AgreesWhenDigestsDo(env, store, log); }
  }

  /** Without a fresh snapshot, or without an answer of the Durable Object, a request is answered 503. */
  lemma UnavailableIsAnswered(env: Env, t: int, actions: seq<Action>, r: nat)
    requires r < |Run(env, t, actions).requests|
    ensures var s := Run(env, t, actions);
            var place := s.requests[r].place;
            && (place.Consuming? ==> Run(env, t, actions + [RunConsume(r, true)]).requests[r].place == Done(Unavailable))
            && (place.Waiting? && place.refresh < |s.refreshes| && s.refreshes[place.refresh].phase.Finished? ==>
                 (Run(env, t, actions + [Resume(r)]).requests[r].place == if Fresh(s.store, s.requests[r].query) then Viewed
                                                                          else Done(Unavailable)))
            && (!place.Done? ==>
                 (Run(env, t, actions + [Fail(r)]).requests[r].place ==
                    Done(if place.Budgeting? || place.Querying? || place.Waiting? || place.Consuming? then Unavailable
                         else OtherError)))
  {
    Extend(env, t, actions, RunConsume(r, true));
    Extend(env, t, actions, Resume(r));
    Extend(env, t, actions, Fail(r));
    hide Run, Consumption, Id, Expiry, Stored;
  }

  // ---- queries, refreshes and restarts --------------------------------------------------------------------

  /** A query is answered at once exactly when the row is fresh for it; otherwise it waits for a refresh that
      starts with it. */
  lemma QueryIsAnswered(env: Env, t: int, actions: seq<Action>, r: nat)
    requires At(Run(env, t, actions), r, Querying)
    ensures var s, s' := Run(env, t, actions), Run(env, t, actions + [RunRevocations(r)]);
            var q, view := s.requests[r], View(s.store, s.requests[r].query).1;
            if view.Some? then s'.requests[r] == q.(place := Viewed, serials := view.value) && s'.refreshes == s.refreshes
            else && s'.requests[r] == q.(place := Waiting(|s.refreshes|))
                 && s'.refreshes == s.refreshes + [Refresh(q.query, Running)] && s'.store == s.store
  {
    Extend(env, t, actions, RunRevocations(r));
    hide Run, Stored, Synced;
  }

  /** A refresh that has committed or was lost is not touched any more. */
  predicate Settled(s: System, k: nat) {
    k < |s.refreshes| && (s.refreshes[k].phase.Finished? || s.refreshes[k].phase.Lost?)
  }

  predicate AwaitsStarted(s: System, r: nat) {
    r < |s.requests| && (s.requests[r].place.Waiting? ==> s.requests[r].place.refresh < |s.refreshes|)
  }

  /** What a step may do to a request: what is answered stays answered, and who waits for a refresh goes on waiting
      until it has committed, or fails. */
  predicate MayBecome(s: System, p: Place, p': Place) {
    && (p.Done? ==> p' == p)
    && (p.Waiting? ==>
         || p' == p || p' == Done(Unavailable)
         || (p.refresh < |s.refreshes| && s.refreshes[p.refresh].phase.Finished?))
  }

  lemma RequestSteps(env: Env, s: System, a: Action, r: nat)
    requires r < |s.requests|
    ensures r < |Apply(env, s, a).requests| && MayBecome(s, s.requests[r].place, Apply(env, s, a).requests[r].place)
  {
    hide Apply;
    if a.Fail? || a.Resume? { AnswerSteps(env, s, a, r); } else { OtherSteps(env, s, a, r); }
  }

  lemma AnswerSteps(env: Env, s: System, a: Action, r: nat)
    requires r < |s.requests| && (a.Fail? || a.Resume?)
    ensures r < |Apply(env, s, a).requests| && MayBecome(s, s.requests[r].place, Apply(env, s, a).requests[r].place)
  {
    hide View;
  }

  lemma OtherSteps(env: Env, s: System, a: Action, r: nat)
    requires r < |s.requests| && !a.Fail? && !a.Resume?
    ensures var p := s.requests[r].place;
            && r < |Apply(env, s, a).requests|
            && (p.Done? || p.Waiting? ==> Apply(env, s, a).requests[r].place == p)
  {
    hide Challenges.Verified, Allowed, Consumption, View, Refreshed, Id, Expiry, Fresh, Commits, FirstChecked, SecondChecked,
      FinallyChecked, WithVerdict, AfterConsume, Shown, Plausible, Abandoned;
  }

  lemma RefreshSteps(env: Env, s: System, a: Action, k: nat)
    requires Settled(s, k)
    ensures k < |Apply(env, s, a).refreshes| && Apply(env, s, a).refreshes[k] == s.refreshes[k]
  {
    hide Challenges.Verified, Allowed, Consumption, View, Refreshed, Id, Expiry, Fresh, Commits;
  }

  /** An answer is final. */
  lemma {:induction false} AnsweredOnce(env: Env, t: int, actions: seq<Action>, more: seq<Action>, r: nat)
    requires r < |Run(env, t, actions).requests| && Run(env, t, actions).requests[r].place.Done?
    ensures r < |Run(env, t, actions + more).requests|
    ensures Run(env, t, actions + more).requests[r].place == Run(env, t, actions).requests[r].place
  {
    hide Run, Apply;
    if more == [] {
      assert actions + more == actions;
    } else {
      var less, a := more[..|more| - 1], more[|more| - 1];
      AnsweredOnce(env, t, actions, less, r);
      assert actions + more == actions + less + [a];
      Extend(env, t, actions + less, a);
      RequestSteps(env, Run(env, t, actions + less), a, r);
    }
  }

  lemma {:induction false} SettledStays(env: Env, t: int, actions: seq<Action>, more: seq<Action>, k: nat)
    requires Settled(Run(env, t, actions), k)
    ensures k < |Run(env, t, actions + more).refreshes|
    ensures Run(env, t, actions + more).refreshes[k] == Run(env, t, actions).refreshes[k]
  {
    hide Run, Apply;
    if more == [] {
      assert actions + more == actions;
    } else {
      var less, a := more[..|more| - 1], more[|more| - 1];
      SettledStays(env, t, actions, less, k);
      assert actions + more == actions + less + [a];
      Extend(env, t, actions + less, a);
      RefreshSteps(env, Run(env, t, actions + less), a, k);
    }
  }

  /** Still waiting for refresh k, or failed, or the refresh has committed. */
  predicate HasWaited(s: System, r: nat, k: nat) {
    && r < |s.requests|
    && (|| s.requests[r].place == Waiting(k) || s.requests[r].place == Done(Unavailable)
        || (k < |s.refreshes| && s.refreshes[k].phase.Finished?))
  }

  lemma WaitStep(env: Env, s: System, a: Action, r: nat, k: nat)
    requires HasWaited(s, r, k)
    ensures HasWaited(Apply(env, s, a), r, k)
  {
    hide Apply;
    RequestSteps(env, s, a, r);
    if Settled(s, k) { RefreshSteps(env, s, a, k); }
  }

  lemma {:induction false} WaitsForItsRefresh(env: Env, t: int, actions: seq<Action>, more: seq<Action>, r: nat, k: nat)
    requires r < |Run(env, t, actions).requests| && Run(env, t, actions).requests[r].place == Waiting(k)
    ensures HasWaited(Run(env, t, actions + more), r, k)
  {
    hide Run, Apply;
    if more == [] {
      assert actions + more == actions;
    } else {
      var less, a := more[..|more| - 1], more[|more| - 1];
      WaitsForItsRefresh(env, t, actions, less, r, k);
      hide HasWaited;
      assert actions + more == actions + less + [a];
      Extend(env, t, actions + less, a);
      WaitStep(env, Run(env, t, actions + less), a, r, k);
    }
  }

  lemma {:induction false} AwaitedIsStarted(env: Env, t: int, actions: seq<Action>, r: nat)
    requires r < |Run(env, t, actions).requests|
    ensures AwaitsStarted(Run(env, t, actions), r)
  {
    if actions != [] {
      var before, a := actions[..|actions| - 1], actions[|actions| - 1];
      if r < |Run(env, t, before).requests| { AwaitedIsStarted(env, t, before, r); }
      AwaitStep(env, Run(env, t, before), a, r);
      hide Apply;
    }
  }

  lemma AwaitStep(env: Env, s: System, a: Action, r: nat)
    requires r < |s.requests| ==> AwaitsStarted(s, r)
    ensures r < |Apply(env, s, a).requests| ==> AwaitsStarted(Apply(env, s, a), r)
  {
    hide Apply;
    if a.FirstCheck? || a.Attest? || a.SecondCheck? || a.RunConsume? || a.FinalCheck? || a.Fail? {
      AnsweringStep(env, s, a, r);
    } else {
      AskingStep(env, s, a, r);
    }
  }

  lemma AnsweringStep(env: Env, s: System, a: Action, r: nat)
    requires a.FirstCheck? || a.Attest? || a.SecondCheck? || a.RunConsume? || a.FinalCheck? || a.Fail?
    requires r < |s.requests| ==> AwaitsStarted(s, r)
    ensures r < |Apply(env, s, a).requests| ==> AwaitsStarted(Apply(env, s, a), r)
  {
    hide Challenges.Verified, Consumption, Id, Expiry, Plausible;
  }

  lemma AskingStep(env: Env, s: System, a: Action, r: nat)
    requires !a.FirstCheck? && !a.Attest? && !a.SecondCheck? && !a.RunConsume? && !a.FinalCheck? && !a.Fail?
    requires r < |s.requests| ==> AwaitsStarted(s, r)
    ensures r < |Apply(env, s, a).requests| ==> AwaitsStarted(Apply(env, s, a), r)
  {
    hide Allowed, View, Refreshed, Fresh, Commits, FirstChecked, SecondChecked, FinallyChecked, WithVerdict, ConsumedBy,
      Plausible;
  }

  /** A restart keeps the tables and forgets the cache; no refresh that was under way commits after it, so a
      request that was waiting for one is answered 503 or never. */
  lemma RestartLosesRefreshes(env: Env, t: int, actions: seq<Action>, more: seq<Action>, r: nat, k: nat)
    requires r < |Run(env, t, actions).requests| && Run(env, t, actions).requests[r].place == Waiting(k)
    ensures var s := Run(env, t, actions);
            var s', later := Run(env, t, actions + [Restart]), Run(env, t, actions + [Restart] + more);
            && k < |s.refreshes|
            && s'.store == s.store.(cache := None) && s'.requests == s.requests
            && (!s.refreshes[k].phase.Finished? ==>
                 && r < |later.requests|
                 && (later.requests[r].place == Waiting(k) || later.requests[r].place == Done(Unavailable)))
  {
    AwaitedIsStarted(env, t, actions, r);
    Extend(env, t, actions, Restart);
    SettledStays(env, t, actions + [Restart], more, k);
    WaitsForItsRefresh(env, t, actions + [Restart], more, r, k);
    hide Run;
  }
}
