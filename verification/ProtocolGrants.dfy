/** When a request can be granted at all: what the readings of a granted request say about the challenge
    and the attestation it brought. */
module ProtocolGrants {
  import opened Common
  import opened State
  import opened Protocol
  import opened ProtocolSnapshots
  import opened ProtocolClaims
  import opened ProtocolRuns
  import Base64
  import Challenges
  import Text

  /** The serials of some feed. */
  ghost predicate IsFeed(serials: seq<string>) {
    exists r: Response :: Serials(r) == Some(serials)
  }

  /** The snapshot is some feed, whatever digests do. */
  ghost predicate StoreFed(store: Store) {
    && (store.row.Some? ==> IsFeed(Stored(store.row.value.serials)))
    && (store.cache.Some? ==> IsFeed(store.cache.value.serials))
  }

  /** The readings of a request, against the clock, and what it was shown. */
  ghost predicate Timed(env: Env, q: Request, latest: int) {
    && (Stage(q) >= 3 ==> q.firstCheck <= latest)
    && (Stage(q) >= 6 ==> IsFeed(q.serials))
    && (Stage(q) >= 7 ==> q.firstCheck - env.skew <= q.attestedAt / 1000 <= latest)
    && (Stage(q) >= 8 ==> q.attestedAt / 1000 - env.skew <= q.secondCheck)
  }

  ghost predicate AllTimed(env: Env, s: System) {
    StoreFed(s.store) && forall i :: 0 <= i < |s.requests| ==> Timed(env, s.requests[i], s.latest)
  }

  lemma TimedOfOne(env: Env, s: System, s': System, r: nat)
    requires AllTimed(env, s) && r < |s.requests| && |s'.requests| == |s.requests|
    requires s'.requests == s.requests[r := s'.requests[r]] && s'.latest >= s.latest
    requires StoreFed(s'.store) && Timed(env, s'.requests[r], s'.latest)
    ensures AllTimed(env, s')
  {
    hide StoreFed, IsFeed;
    forall i | 0 <= i < |s'.requests| ensures Timed(env, s'.requests[i], s'.latest) {
      assert Timed(env, s.requests[i], s.latest);
    }
  }

  lemma TimedOfNone(env: Env, s: System, s': System)
    requires AllTimed(env, s) && s'.requests == s.requests && s'.latest >= s.latest && StoreFed(s'.store)
    ensures AllTimed(env, s')
  {
    hide StoreFed, IsFeed;
    forall i | 0 <= i < |s'.requests| ensures Timed(env, s'.requests[i], s'.latest) {
      assert Timed(env, s.requests[i], s.latest);
    }
  }

  lemma WorkerStepIsTimed(env: Env, s: System, a: Action)
    requires AllTimed(env, s) && RequestsOk(env, s)
    requires a.CallBudget? || a.FirstCheck? || a.CallRevocations? || a.Attest? || a.SecondCheck? || a.CallConsume?
    ensures AllTimed(env, Apply(env, s, a))
  {
    hide StoreFed, IsFeed, Timed, Stepped, Vetted, Apply;
    var s' := Apply(env, s, a);
    SteppedIs(env, s, a);
    if s' != s {
      var q := s.requests[a.r];
      assert RequestOk(env, q, s.log, s.latest);
      SteppedReading(env, s, a);
      SteppedIsTimed(env, q, a, s.latest, s'.latest);
      TimedOfOne(env, s, s', a.r);
    }
  }

  lemma SteppedReading(env: Env, s: System, a: Action)
    requires a.CallBudget? || a.FirstCheck? || a.CallRevocations? || a.Attest? || a.SecondCheck? || a.CallConsume?
    ensures Apply(env, s, a) != s ==> Plausible(env, s, Reading(a))
  {
    hide FirstChecked, SecondChecked, WithVerdict;
  }

  lemma SteppedIsTimed(env: Env, q: Request, a: Action, latest: int, latest': int)
    requires Timed(env, q, latest) && ClaimPlaced(q, latest) && Ready(q, a) && latest' >= latest && latest' >= Reading(a)
    requires Reading(a) >= latest - env.skew
    ensures Timed(env, Stepped(env, q, a), latest')
  {
    hide IsFeed, Challenges.Verified;
  }

  lemma ViewIsFed(store: Store, query: int)
    requires StoreFed(store)
    ensures var (after, view) := View(store, query); StoreFed(after) && (view.Some? ==> IsFeed(view.value))
  {
    hide IsFeed, Stored;
  }

  lemma RefreshIsFed(env: Env, store: Store, start: int, checkedAt: int, response: Option<Response>)
    requires StoreFed(store)
    ensures StoreFed(Refreshed(env.digest, store, start, checkedAt, response))
  {
    if Commits(start, checkedAt, response) {
      var serials := Serials(response.value).value;
      SerialsAreStorable(response.value);
      StoredRecovers(serials);
      assert IsFeed(serials);
      hide IsFeed, Stored, Serials, Ttl;
    }
  }

  lemma ResumedIsTimed(env: Env, s: System, r: nat)
    requires AllTimed(env, s) && RequestsOk(env, s) && r < |s.requests|
    requires s.requests[r].place.Querying? || s.requests[r].place.Waiting?
    ensures AllTimed(env, Resumed(s, r))
  {
    hide StoreFed, IsFeed, Vetted, View, Timed, Shown;
    var q := s.requests[r];
    assert RequestOk(env, q, s.log, s.latest);
    ViewIsFed(s.store, q.query);
    ShownIsTimed(env, q, View(s.store, q.query).1, s.latest);
    TimedOfOne(env, s, Resumed(s, r), r);
  }

  lemma ShownIsTimed(env: Env, q: Request, view: Option<seq<string>>, latest: int)
    requires Timed(env, q, latest) && (q.place.Querying? || q.place.Waiting?) && !q.claimed
    requires view.Some? ==> IsFeed(view.value)
    ensures Timed(env, Shown(q, view), latest)
  {
    hide IsFeed;
  }

  lemma SameFeed(store: Store, store': Store)
    requires StoreFed(store) && store'.row == store.row && (store'.cache == store.cache || store'.cache == None)
    ensures StoreFed(store')
  {
    hide IsFeed, Stored;
  }

  /** A request that moves on without a reading, to its claim or to an answer. */
  lemma MovedIsTimed(env: Env, q: Request, q': Request, latest: int)
    requires Timed(env, q, latest) && q' == q.(place := q'.place, claimed := q'.claimed)
    requires Stage(q') <= Stage(q) || (Stage(q) == 9 && Stage(q') == 10)
    ensures Timed(env, q', latest)
  {
    hide IsFeed;
  }

  lemma StepIsTimed(env: Env, s: System, a: Action)
    requires AllTimed(env, s) && RequestsOk(env, s)
    ensures AllTimed(env, Apply(env, s, a))
  {
    match a
    case CallBudget(_, _) => WorkerStepIsTimed(env, s, a);
    case FirstCheck(_, _) => WorkerStepIsTimed(env, s, a);
    case CallRevocations(_, _) => WorkerStepIsTimed(env, s, a);
    case Attest(_, _) => WorkerStepIsTimed(env, s, a);
    case SecondCheck(_, _) => WorkerStepIsTimed(env, s, a);
    case CallConsume(_, _) => WorkerStepIsTimed(env, s, a);
    case RunRevocations(r) => RevocationsAreTimed(env, s, r);
    case Resume(r) =>
      if Apply(env, s, a) != s {
        assert Apply(env, s, a) == Resumed(s, r);
        ResumedIsTimed(env, s, r);
      }
    case Arrive(_) => ArrivalIsTimed(env, s, a);
    case RunBudget(r) => AnswerIsTimed(env, s, a, r);
    case RunConsume(r, _) => AnswerIsTimed(env, s, a, r);
    case Fail(r) => AnswerIsTimed(env, s, a, r);
    case FinalCheck(r, _) => FinalCheckIsTimed(env, s, a, r);
    case Commit(k) => CommitIsTimed(env, s, k);
    case Alarm(_) => RefreshStepIsTimed(env, s, a);
    case Download(_, _, _) => RefreshStepIsTimed(env, s, a);
    case Restart => RefreshStepIsTimed(env, s, a);
  }

  lemma RevocationsAreTimed(env: Env, s: System, r: nat)
    requires AllTimed(env, s) && RequestsOk(env, s)
    ensures AllTimed(env, Apply(env, s, RunRevocations(r)))
  {
    hide StoreFed, IsFeed, Vetted, Resumed;
    if At(s, r, Querying) {
      if Fresh(s.store, s.requests[r].query) {
        ResumedIsTimed(env, s, r);
      } else {
        assert RequestOk(env, s.requests[r], s.log, s.latest);
        TimedOfOne(env, s, Queried(s, r), r);
      }
    }
  }

  lemma ArrivalIsTimed(env: Env, s: System, a: Action)
    requires AllTimed(env, s) && a.Arrive?
    ensures AllTimed(env, Apply(env, s, a))
  {
    hide StoreFed, IsFeed;
  }

  lemma AnswerIsTimed(env: Env, s: System, a: Action, r: nat)
    requires AllTimed(env, s) && RequestsOk(env, s)
    requires a == RunBudget(r) || a == Fail(r) || (a.RunConsume? && a.r == r)
    ensures AllTimed(env, Apply(env, s, a))
  {
    hide StoreFed, IsFeed, Vetted, Timed, Allowed, Consumption, Id, Expiry;
    var s' := Apply(env, s, a);
    if s' != s {
      assert RequestOk(env, s.requests[r], s.log, s.latest);
      SameFeed(s.store, s'.store);
      MovedIsTimed(env, s.requests[r], s'.requests[r], s.latest);
      TimedOfOne(env, s, s', r);
    }
  }

  lemma FinalCheckIsTimed(env: Env, s: System, a: Action, r: nat)
    requires AllTimed(env, s) && RequestsOk(env, s) && a.FinalCheck? && a.r == r
    ensures AllTimed(env, Apply(env, s, a))
  {
    hide StoreFed, IsFeed, Vetted, Challenges.Verified;
    var s' := Apply(env, s, a);
    if s' != s {
      assert RequestOk(env, s.requests[r], s.log, s.latest);
      TimedOfOne(env, s, s', r);
    }
  }

  lemma CommitIsTimed(env: Env, s: System, k: nat)
    requires AllTimed(env, s)
    ensures AllTimed(env, Apply(env, s, Commit(k)))
  {
    hide StoreFed, IsFeed, Timed, Refreshed, Commits;
    if k < |s.refreshes| && s.refreshes[k].phase.Downloaded? {
      var f := s.refreshes[k];
      RefreshIsFed(env, s.store, f.start, f.phase.checkedAt, f.phase.response);
      TimedOfNone(env, s, Committed(env, s, k));
    }
  }

  lemma RefreshStepIsTimed(env: Env, s: System, a: Action)
    requires AllTimed(env, s) && (a.Alarm? || a.Download? || a.Restart?)
    ensures AllTimed(env, Apply(env, s, a))
  {
    hide StoreFed, IsFeed, Timed, Abandoned;
    var s' := Apply(env, s, a);
    SameFeed(s.store, s'.store);
    TimedOfNone(env, s, s');
  }

  lemma {:induction false} RunIsTimed(env: Env, t: int, actions: seq<Action>)
    requires GoodEnv(env)
    ensures AllTimed(env, Run(env, t, actions))
  {
    hide Apply, GoodEnv;
    if actions != [] {
      var before := actions[..|actions| - 1];
      RunIsTimed(env, t, before);
      RunKeeps(env, t, before);
      StepIsTimed(env, Run(env, t, before), actions[|actions| - 1]);
    }
  }

  // ---- what can be granted ------------------------------------------------------------------------

  /** The body carries the token of an authentic challenge. */
  ghost predicate Answers(env: Env, body: AttestRequest, bytes: Bytes) {
    Challenges.AlphabetLength();
    Challenges.Authentic(env.mac, bytes) && body.challenge == Base64.EncodeOf(bytes, Base64.URL_ALPHABET, false)
  }

  /** The attestation of the body is accepted, against some feed, at a time that the readings of the
      challenge's life allow. */
  ghost predicate Grantable(env: Env, body: AttestRequest, bytes: Bytes, serials: seq<string>, ms: int) {
    && Answers(env, body, bytes) && IsFeed(serials)
    && env.attest(body, bytes, Elements(serials), ms) == Ok(2)
    && Challenges.IssuedAt(bytes) - env.skew <= ms / 1000 < Challenges.ExpiresAtSeconds(bytes) + env.skew
  }

  lemma LiveIsAnswer(env: Env, q: Request, at: int)
    requires Live(env, q, at)
    ensures Answers(env, q.body, q.bytes) && Challenges.IssuedAt(q.bytes) <= at < Challenges.ExpiresAtSeconds(q.bytes)
  {
    Challenges.AcceptsExactlyLiveTokens(env.mac, q.body.challenge, at, q.bytes);
  }

  /** A request is granted only if it can be. */
  lemma GrantedIsGrantable(env: Env, t: int, actions: seq<Action>, i: nat)
    requires GoodEnv(env) && i < |Run(env, t, actions).requests| && IsGranted(Run(env, t, actions).requests[i])
    ensures var q := Run(env, t, actions).requests[i]; Grantable(env, q.body, q.bytes, q.serials, q.attestedAt)
  {
    RunKeeps(env, t, actions);
    RunIsTimed(env, t, actions);
    GrantsWereVetted(env, t, actions, i);
    var s := Run(env, t, actions);
    var q := s.requests[i];
    assert RequestOk(env, q, s.log, s.latest) && Timed(env, q, s.latest);
    LiveIsAnswer(env, q, q.firstCheck);
    LiveIsAnswer(env, q, q.secondCheck);
    hide Run, Live, Answers, IsFeed, Challenges.IssuedAt, ShownFresh, Vetted, RequestsOk, SnapshotOk, ClaimsOk, GrantsOk;
  }
}
