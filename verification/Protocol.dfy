/** The attestation endpoint (server/src/worker.ts) with the Durable Object of server/src/state.ts, as a
    transition system. Requests, refreshes, alarms and restarts interleave at every await. A run is any
    sequence of actions; an action that is not enabled changes nothing. */
module Protocol {
  import opened Common
  import opened State
  import Revocations
  import Challenges

  /** What the model leaves abstract, and how far the clock may step back: no reading is more than
      `skew` seconds below an earlier one. `attest` gives the tier or the code of a rejection. */
  datatype Env = Env(
    mac: Challenges.Mac,
    sha256: Bytes -> Bytes,
    digest: string -> string,
    attest: (AttestRequest, Bytes, set<string>, int) -> Result<nat, Code>,
    skew: nat)

  /** SHA-256 gives 32 octets. */
  ghost predicate GoodEnv(env: Env) {
    forall b :: |env.sha256(b)| == 32
  }

  datatype Answer = Granted | Rejected(code: Code) | Unavailable | RateLimited | OtherError

  /** Where a request is. A clock reading that travels in a message belongs to the place. */
  datatype Place =
    | Arrived
    | Budgeting(at: int)
    | Admitted
    | Checked
    | Querying
    | Waiting(refresh: nat)
    | Viewed
    | Attested
    | Rechecked
    | Consuming(at: int)
    | Claimed
    | Done(answer: Answer)

  /** A request with the values it has captured; `claimed` records that its consume call inserted the row. */
  datatype Request = Request(
    body: AttestRequest,
    place: Place,
    bytes: Bytes,
    firstCheck: int,
    query: int,
    serials: seq<string>,
    attestedAt: int,
    secondCheck: int,
    finalCheck: int,
    claimed: bool)

  datatype Phase = Running | Downloaded(response: Option<Response>, checkedAt: int) | Finished | Lost
  datatype Refresh = Refresh(start: int, phase: Phase)

  /** A refresh that replaced the snapshot: when it started and what it read. */
  datatype Fetch = Fetch(start: int, response: Response)

  /** `latest` is the largest clock reading so far and `log` the refreshes that were committed. */
  datatype System = System(
    requests: seq<Request>,
    refreshes: seq<Refresh>,
    store: Store,
    latest: int,
    log: seq<Fetch>)

  datatype Action =
    | Arrive(body: AttestRequest)
    | CallBudget(r: nat, now: int)
    | RunBudget(r: nat)
    | FirstCheck(r: nat, now: int)
    | CallRevocations(r: nat, now: int)
    | RunRevocations(r: nat)
    | Resume(r: nat)
    | Attest(r: nat, nowMs: int)
    | SecondCheck(r: nat, now: int)
    | CallConsume(r: nat, now: int)
    | RunConsume(r: nat, replyLost: bool)
    | FinalCheck(r: nat, now: int)
    | Fail(r: nat)
    | Alarm(now: int)
    | Download(k: nat, response: Option<Response>, now: int)
    | Commit(k: nat)
    | Restart

  function Start(t: int): System {
    System([], [], Store(map[], map[], None, None), t, [])
  }

  predicate Plausible(env: Env, s: System, now: int) {
    now >= s.latest - env.skew
  }

  function Read(s: System, now: int): System {
    if now > s.latest then s.(latest := now) else s
  }

  predicate At(s: System, r: nat, place: Place) {
    r < |s.requests| && s.requests[r].place == place
  }

  function Put(s: System, r: nat, q: Request): System
    requires r < |s.requests|
  {
    s.(requests := s.requests[r := q])
  }

  function Elements(serials: seq<string>): set<string> {
    set x | x in serials
  }

  predicate AwaitsReply(p: Place) {
    p.Budgeting? || p.Querying? || p.Waiting? || p.Consuming?
  }

  // ---- the steps of a request -----------------------------------------------------------------

  ghost function FirstChecked(env: Env, q: Request, now: int): Request {
    var v := Challenges.Verified(env.mac, q.body.challenge, now);
    if v.Err? then q.(place := Done(Rejected(v.error)))
    else q.(place := Checked, bytes := v.value, firstCheck := now)
  }

  function Shown(q: Request, view: Option<seq<string>>): Request {
    if view.None? then q.(place := Done(Unavailable)) else q.(place := Viewed, serials := view.value)
  }

  function WithVerdict(env: Env, q: Request, nowMs: int): Request {
    var tier := env.attest(q.body, q.bytes, Elements(q.serials), nowMs);
    if tier.Err? then q.(place := Done(Rejected(tier.error)))
    else if tier.value != 2 then q.(place := Done(Rejected(DeviceIntegrity)))
    else q.(place := Attested, attestedAt := nowMs)
  }

  ghost function SecondChecked(env: Env, q: Request, now: int): Request {
    var v := Challenges.Verified(env.mac, q.body.challenge, now);
    if v.Err? then q.(place := Done(Rejected(v.error))) else q.(place := Rechecked, secondCheck := now)
  }

  ghost function FinallyChecked(env: Env, q: Request, now: int): Request {
    var v := Challenges.Verified(env.mac, q.body.challenge, now);
    if v.Err? then q.(place := Done(Rejected(v.error))) else q.(place := Done(Granted), finalCheck := now)
  }

  function Id(env: Env, q: Request): string {
    Challenges.Id(env.sha256, q.bytes)
  }

  function Expiry(q: Request): int {
    if |q.bytes| < 9 then 0 else Challenges.ExpiresAtSeconds(q.bytes)
  }

  function AfterConsume(q: Request, outcome: ConsumeOutcome, replyLost: bool): Request {
    q.(claimed := q.claimed || outcome == Consumed,
       place :=
         if replyLost || outcome == BadId then Done(Unavailable)
         else if outcome == Replayed then Done(Rejected(ChallengeReplayed))
         else Claimed)
  }

  function StartRefresh(s: System, start: int): System {
    s.(refreshes := s.refreshes + [Refresh(start, Running)])
  }

  function Abandoned(refreshes: seq<Refresh>): (r: seq<Refresh>)
    ensures |r| == |refreshes|
  {
    seq(|refreshes|, k requires 0 <= k < |refreshes| =>
      if refreshes[k].phase.Finished? then refreshes[k] else refreshes[k].(phase := Lost))
  }

  function Committed(env: Env, s: System, k: nat): System
    requires k < |s.refreshes| && s.refreshes[k].phase.Downloaded?
  {
    var f := s.refreshes[k];
    var finished := s.(refreshes := s.refreshes[k := f.(phase := Finished)],
                       store := Refreshed(env.digest, s.store, f.start, f.phase.checkedAt, f.phase.response));
    if Commits(f.start, f.phase.checkedAt, f.phase.response)
    then finished.(log := s.log + [Fetch(f.start, f.phase.response.value)])
    else finished
  }

  /** The query of a request: answered from a fresh row, or after a refresh that starts now. */
  function Queried(s: System, r: nat): System
    requires r < |s.requests|
  {
    var q := s.requests[r];
    if Fresh(s.store, q.query) then Resumed(s, r)
    else Put(StartRefresh(s, q.query), r, q.(place := Waiting(|s.refreshes|)))
  }

  function Resumed(s: System, r: nat): System
    requires r < |s.requests|
  {
    var q := s.requests[r];
    var (store, view) := View(s.store, q.query);
    Put(s, r, Shown(q, view)).(store := store)
  }

  function Budgeted(s: System, r: nat, now: int): System
    requires r < |s.requests|
  {
    var (budget, granted) := Allowed(s.store.budget, now);
    Put(s, r, s.requests[r].(place := if granted then Admitted else Done(RateLimited)))
      .(store := s.store.(budget := budget))
  }

  function ConsumedBy(env: Env, s: System, r: nat, now: int, replyLost: bool): System
    requires r < |s.requests|
  {
    var q := s.requests[r];
    var (used, outcome) := Consumption(s.store.used, Id(env, q), Expiry(q), now);
    Put(s, r, AfterConsume(q, outcome, replyLost)).(store := s.store.(used := used))
  }

  ghost function Apply(env: Env, s: System, a: Action): System {
    match a
    case Arrive(body) =>
      s.(requests := s.requests + [Request(body, Arrived, [], 0, 0, [], 0, 0, 0, false)])
    case CallBudget(r, now) =>
      if At(s, r, Arrived) && Plausible(env, s, now)
      then Put(Read(s, now), r, s.requests[r].(place := Budgeting(now))) else s
    case RunBudget(r) =>
      if r < |s.requests| && s.requests[r].place.Budgeting? then Budgeted(s, r, s.requests[r].place.at) else s
    case FirstCheck(r, now) =>
      if At(s, r, Admitted) && Plausible(env, s, now)
      then Put(Read(s, now), r, FirstChecked(env, s.requests[r], now)) else s
    case CallRevocations(r, now) =>
      if At(s, r, Checked) && Plausible(env, s, now)
      then Put(Read(s, now), r, s.requests[r].(place := Querying, query := now)) else s
    case RunRevocations(r) =>
      if At(s, r, Querying) then Queried(s, r) else s
    case Resume(r) =>
      if && r < |s.requests| && s.requests[r].place.Waiting?
         && s.requests[r].place.refresh < |s.refreshes| && s.refreshes[s.requests[r].place.refresh].phase.Finished?
      then Resumed(s, r) else s
    case Attest(r, nowMs) =>
      if At(s, r, Viewed) && Plausible(env, s, nowMs / 1000)
      then Put(Read(s, nowMs / 1000), r, WithVerdict(env, s.requests[r], nowMs)) else s
    case SecondCheck(r, now) =>
      if At(s, r, Attested) && Plausible(env, s, now)
      then Put(Read(s, now), r, SecondChecked(env, s.requests[r], now)) else s
    case CallConsume(r, now) =>
      if At(s, r, Rechecked) && Plausible(env, s, now)
      then Put(Read(s, now), r, s.requests[r].(place := Consuming(now))) else s
    case RunConsume(r, replyLost) =>
      if r < |s.requests| && s.requests[r].place.Consuming?
      then ConsumedBy(env, s, r, s.requests[r].place.at, replyLost) else s
    case FinalCheck(r, now) =>
      if At(s, r, Claimed) && Plausible(env, s, now)
      then Put(Read(s, now), r, FinallyChecked(env, s.requests[r], now)) else s
    case Fail(r) =>
      if r < |s.requests| && !s.requests[r].place.Done?
      then Put(s, r, s.requests[r].(place := Done(if AwaitsReply(s.requests[r].place) then Unavailable else OtherError)))
      else s
    case Alarm(now) =>
      if Plausible(env, s, now) then StartRefresh(Read(s, now), now) else s
    case Download(k, response, now) =>
      if k < |s.refreshes| && s.refreshes[k].phase.Running? && Plausible(env, s, now)
      then Read(s, now).(refreshes := s.refreshes[k := s.refreshes[k].(phase := Downloaded(response, now))]) else s
    case Commit(k) =>
      if k < |s.refreshes| && s.refreshes[k].phase.Downloaded? then Committed(env, s, k) else s
    case Restart =>
      s.(store := s.store.(cache := None), refreshes := Abandoned(s.refreshes))
  }

  ghost function Run(env: Env, t: int, actions: seq<Action>): System {
    if actions == [] then Start(t) else Apply(env, Run(env, t, actions[..|actions| - 1]), actions[|actions| - 1])
  }
}
