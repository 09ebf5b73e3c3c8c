/** What every reachable state of the protocol keeps about the revocation snapshot. */
module ProtocolSnapshots {
  import opened Common
  import opened State
  import opened Protocol
  import Revocations
  import Text

  ghost predicate AllStorable(serials: seq<string>) {
    forall i :: 0 <= i < |serials| ==> Revocations.Storable(serials[i])
  }

  function Joined(serials: seq<string>): string {
    Text.Join(serials, '\n')
  }

  /** The storage format loses nothing; in particular an empty text is the empty list. */
  lemma StoredRecovers(serials: seq<string>)
    requires AllStorable(serials)
    ensures Stored(Joined(serials)) == serials
    ensures Joined(serials) == "" <==> serials == []
  {
    if serials != [] {
      forall i | 0 <= i < |serials| ensures Text.Free(serials[i], '\n') {
        assert Revocations.Storable(serials[i]);
      }
      Text.SplitOfJoin(serials, '\n');
      assert serials[0] != "";
    }
  }

  lemma SerialsAreStorable(r: Response)
    requires Serials(r).Some?
    ensures AllStorable(Serials(r).value)
  {
    var parsed := Revocations.ParsedFeed(r.entries).value;
    Revocations.ParsedIsStorable(r.entries, []);
    Text.SortSorts(parsed);
    hide Text.Sort, Revocations.ParsedFeed, Revocations.Storable;
    forall i | 0 <= i < |Text.Sort(parsed)| ensures Revocations.Storable(Text.Sort(parsed)[i]) {
      assert Text.Sort(parsed)[i] in multiset(Text.Sort(parsed));
    }
  }

  /** The text that a fetch stores. */
  function StoredText(f: Fetch): string {
    if Serials(f.response).None? then "" else Joined(Serials(f.response).value)
  }

  /** No two of the texts that were committed have the same digest without being the same. */
  ghost predicate NoCollisions(env: Env, log: seq<Fetch>) {
    forall i, j :: 0 <= i < |log| && 0 <= j < |log| && env.digest(StoredText(log[i])) == env.digest(StoredText(log[j])) ==>
      StoredText(log[i]) == StoredText(log[j])
  }

  lemma NoCollisionsBefore(env: Env, log: seq<Fetch>, f: Fetch)
    requires NoCollisions(env, log + [f])
    ensures NoCollisions(env, log)
  {
    hide StoredText;
    var longer := log + [f];
    forall i, j | 0 <= i < |log| && 0 <= j < |log| && env.digest(StoredText(log[i])) == env.digest(StoredText(log[j]))
      ensures StoredText(log[i]) == StoredText(log[j])
    {
      assert longer[i] == log[i] && longer[j] == log[j];
    }
  }

  /** The row is what a committed refresh stored. */
  ghost predicate FromFetch(f: Fetch, row: Row) {
    && Serials(f.response).Some? && row.serials == StoredText(f)
    && row.fetchedAt == f.start && row.expiresAt == f.start + Ttl(f.response.headers)
  }

  ghost predicate RowOk(env: Env, row: Option<Row>, log: seq<Fetch>) {
    row.Some? ==>
      && row.value.digest == env.digest(row.value.serials)
      && exists k :: 0 <= k < |log| && FromFetch(log[k], row.value)
  }

  ghost predicate CachesFetch(f: Fetch, cache: Cache) {
    Serials(f.response) == Some(cache.serials)
  }

  ghost predicate CacheOk(env: Env, cache: Option<Cache>, log: seq<Fetch>) {
    cache.Some? ==>
      && cache.value.digest == env.digest(Joined(cache.value.serials))
      && exists k :: 0 <= k < |log| && CachesFetch(log[k], cache.value)
  }

  ghost predicate SnapshotOk(env: Env, store: Store, log: seq<Fetch>) {
    NoCollisions(env, log) ==> RowOk(env, store.row, log) && CacheOk(env, store.cache, log)
  }

  /** The serials of one feed, whose refresh started less than its time to live before the query. */
  ghost predicate FreshFrom(f: Fetch, query: int, serials: seq<string>) {
    Serials(f.response) == Some(serials) && query - f.start < Ttl(f.response.headers)
  }

  ghost predicate FreshFromLog(log: seq<Fetch>, query: int, serials: seq<string>) {
    exists k :: 0 <= k < |log| && FreshFrom(log[k], query, serials)
  }

  /** A response may be used d seconds after its refresh started. */
  predicate Usable(h: Revocations.Headers, d: nat) {
    var age := if h.age.Some? then h.age.value else 0;
    && !h.noStoreOrNoCache && d < 300 && d + age < (if h.maxAge.Some? then h.maxAge.value else 300)
  }

  /** Fresh means, exactly: asked for by a query that reads earlier than the refresh started, or less
      than 300 seconds old and no older than the origin still allows. */
  lemma FreshIsWithinLimits(f: Fetch, query: int, serials: seq<string>)
    ensures FreshFrom(f, query, serials) <==>
            Serials(f.response) == Some(serials) && (query < f.start || Usable(f.response.headers, query - f.start))
  {
    if query >= f.start { Revocations.TtlIsTheTightestLimit(f.response.headers, query - f.start); }
    hide Serials;
  }

  /** What a request was shown is fresh, unless digests collide. */
  ghost predicate ShownFresh(env: Env, log: seq<Fetch>, query: int, serials: seq<string>) {
    NoCollisions(env, log) ==> FreshFromLog(log, query, serials)
  }

  lemma LogGrows(env: Env, log: seq<Fetch>, f: Fetch, query: int, serials: seq<string>)
    requires ShownFresh(env, log, query, serials)
    ensures ShownFresh(env, log + [f], query, serials)
  {
    hide FreshFrom, NoCollisions;
    if NoCollisions(env, log + [f]) {
      NoCollisionsBefore(env, log, f);
      var k :| 0 <= k < |log| && FreshFrom(log[k], query, serials);
      assert (log + [f])[k] == log[k];
    }
  }

  /** A cache with the row's digest holds the row's serials. */
  lemma AgreesWhenDigestsDo(env: Env, store: Store, log: seq<Fetch>)
    requires NoCollisions(env, log) && SnapshotOk(env, store, log)
    requires store.row.Some? && store.cache.Some? && store.cache.value.digest == store.row.value.digest
    ensures store.cache.value.serials == Stored(store.row.value.serials)
  {
    var k :| 0 <= k < |log| && FromFetch(log[k], store.row.value);
    var j :| 0 <= j < |log| && CachesFetch(log[j], store.cache.value);
    SerialsAreStorable(log[j].response);
    hide Stored, Serials, Ttl, Joined;
    StoredRecovers(store.cache.value.serials);
    assert StoredText(log[j]) == Joined(store.cache.value.serials);
  }

  lemma ViewIsFresh(env: Env, store: Store, log: seq<Fetch>, query: int)
    requires SnapshotOk(env, store, log)
    ensures var (after, view) := View(store, query);
            && SnapshotOk(env, after, log)
            && (view.Some? ==> ShownFresh(env, log, query, view.value))
  {
    if Fresh(store, query) && NoCollisions(env, log) {
      var row := store.row.value;
      var k :| 0 <= k < |log| && FromFetch(log[k], row);
      var serials := Serials(log[k].response).value;
      SerialsAreStorable(log[k].response);
      hide Serials, Ttl, Stored, NoCollisions, Joined;
      StoredRecovers(serials);
      assert Stored(row.serials) == serials;
      if store.cache.Some? && store.cache.value.digest == row.digest { AgreesWhenDigestsDo(env, store, log); }
      else { assert CachesFetch(log[k], Synced(store).cache.value); }
      assert FreshFrom(log[k], query, serials);
    }
  }

  lemma CommitKeepsSnapshot(env: Env, store: Store, log: seq<Fetch>, start: int, checkedAt: int, response: Option<Response>)
    requires SnapshotOk(env, store, log)
    ensures var after := Refreshed(env.digest, store, start, checkedAt, response);
            && after.used == store.used
            && (!Commits(start, checkedAt, response) ==> after == store)
            && (Commits(start, checkedAt, response) ==> SnapshotOk(env, after, log + [Fetch(start, response.value)]))
  {
    if Commits(start, checkedAt, response) {
      var f := Fetch(start, response.value);
      if NoCollisions(env, log + [f]) { CommittedIsOk(env, store, log, f, checkedAt); }
    }
  }

  lemma CommittedIsOk(env: Env, store: Store, log: seq<Fetch>, f: Fetch, checkedAt: int)
    requires SnapshotOk(env, store, log) && NoCollisions(env, log + [f]) && Commits(f.start, checkedAt, Some(f.response))
    ensures var after := Refreshed(env.digest, store, f.start, checkedAt, Some(f.response));
            RowOk(env, after.row, log + [f]) && CacheOk(env, after.cache, log + [f])
  {
    NoCollisionsBefore(env, log, f);
    var longer := log + [f];
    var after := Refreshed(env.digest, store, f.start, checkedAt, Some(f.response));
    assert longer[|log|] == f && forall k :: 0 <= k < |log| ==> longer[k] == log[k];
    hide Serials, Ttl, Text.Join, Revocations.SnapshotTtl;
    if store.row.Some? && store.row.value.digest == env.digest(StoredText(f)) {
      var k :| 0 <= k < |log| && FromFetch(log[k], store.row.value);
      assert longer[k] == log[k];
      assert StoredText(longer[k]) == StoredText(longer[|log|]);
      assert FromFetch(longer[|log|], after.row.value);
      if store.cache.Some? {
        var j :| 0 <= j < |log| && CachesFetch(log[j], store.cache.value);
        assert CachesFetch(longer[j], store.cache.value);
      }
    } else {
      assert FromFetch(longer[|log|], after.row.value);
      assert CachesFetch(longer[|log|], after.cache.value);
    }
  }
}

/** What every reachable state keeps about claimed challenges. */
module ProtocolClaims {
  import opened Common
  import opened State
  import opened Protocol
  import Challenges
  import ByteStrings

  predicate IsGranted(q: Request) {
    q.place == Done(Granted)
  }

  /** A claim that the request made and that gives the row of an id. */
  ghost predicate ClaimOf(env: Env, q: Request, id: string, expiry: int) {
    q.claimed && Id(env, q) == id && Expiry(q) == expiry
  }

  ghost predicate RowsAreClaimed(env: Env, s: System) {
    forall id :: id in s.store.used ==>
      exists i :: 0 <= i < |s.requests| && ClaimOf(env, s.requests[i], id, s.store.used[id])
  }

  /** A claimed challenge has its row until more than a minute after its expiry. */
  ghost predicate Held(env: Env, s: System, q: Request) {
    q.claimed ==>
      || (Id(env, q) in s.store.used && s.store.used[Id(env, q)] == Expiry(q))
      || s.latest > Expiry(q) + PRUNE_MARGIN_SECONDS
  }

  ghost predicate ClaimsAreHeld(env: Env, s: System) {
    forall i :: 0 <= i < |s.requests| ==> Held(env, s, s.requests[i])
  }

  /** A challenge is claimed a second time only more than a minute after its expiry. */
  ghost predicate Rare(s: System, p: Request, q: Request) {
    p.claimed && q.claimed && p.bytes == q.bytes ==> s.latest > Expiry(q) + PRUNE_MARGIN_SECONDS
  }

  ghost predicate ClaimsAreRare(s: System) {
    forall i, j :: 0 <= i < j < |s.requests| ==> Rare(s, s.requests[i], s.requests[j])
  }

  ghost predicate DistinctGrants(p: Request, q: Request) {
    IsGranted(p) && IsGranted(q) ==> p.bytes != q.bytes
  }

  ghost predicate GrantsAreUnique(s: System) {
    forall i, j :: 0 <= i < j < |s.requests| ==> DistinctGrants(s.requests[i], s.requests[j])
  }

  ghost predicate GrantsAreClaimed(s: System) {
    forall i :: 0 <= i < |s.requests| && IsGranted(s.requests[i]) ==> s.requests[i].claimed
  }

  ghost predicate ClaimsOk(env: Env, s: System) {
    RowsAreClaimed(env, s) && ClaimsAreHeld(env, s) && ClaimsAreRare(s)
  }

  ghost predicate GrantsOk(s: System) {
    GrantsAreClaimed(s) && GrantsAreUnique(s)
  }

  // ---- steps that claim and grant nothing -----------------------------------------------------

  ghost predicate SameClaim(p: Request, q: Request) {
    q.claimed == p.claimed && (p.claimed ==> q.bytes == p.bytes)
  }

  ghost predicate NoNewGrant(p: Request, q: Request) {
    IsGranted(q) ==> IsGranted(p) && q.bytes == p.bytes
  }

  /** The old requests keep their claims, new ones have none, and time goes on. */
  ghost predicate Quiet(s: System, s': System) {
    && |s.requests| <= |s'.requests| && s'.latest >= s.latest && s'.store.used == s.store.used
    && (forall i :: 0 <= i < |s.requests| ==> SameClaim(s.requests[i], s'.requests[i]))
    && (forall i :: |s.requests| <= i < |s'.requests| ==> !s'.requests[i].claimed)
  }

  ghost predicate Ungranting(s: System, s': System) {
    && |s.requests| <= |s'.requests|
    && (forall i :: 0 <= i < |s.requests| ==> NoNewGrant(s.requests[i], s'.requests[i]))
    && (forall i :: |s.requests| <= i < |s'.requests| ==> !IsGranted(s'.requests[i]))
    && (forall i :: 0 <= i < |s.requests| && s.requests[i].claimed ==> s'.requests[i].claimed)
  }

  lemma QuietKeepsClaims(env: Env, s: System, s': System)
    requires ClaimsOk(env, s) && Quiet(s, s')
    ensures ClaimsOk(env, s')
  {
    hide Id, Expiry;
    assert RowsAreClaimed(env, s') by {
      forall id | id in s'.store.used
        ensures exists i :: 0 <= i < |s'.requests| && ClaimOf(env, s'.requests[i], id, s'.store.used[id])
      {
        var i :| 0 <= i < |s.requests| && ClaimOf(env, s.requests[i], id, s.store.used[id]);
        SameClaimIsSameRow(env, s.requests[i], s'.requests[i]);
      }
    }
    forall i | 0 <= i < |s'.requests| ensures Held(env, s', s'.requests[i]) {
      if i < |s.requests| {
        SameClaimIsSameRow(env, s.requests[i], s'.requests[i]);
        assert Held(env, s, s.requests[i]);
      }
    }
    forall i, j | 0 <= i < j < |s'.requests| ensures Rare(s', s'.requests[i], s'.requests[j]) {
      if j < |s.requests| {
        SameClaimIsSameRow(env, s.requests[j], s'.requests[j]);
        assert Rare(s, s.requests[i], s.requests[j]);
      }
    }
  }

  lemma SameClaimIsSameRow(env: Env, p: Request, q: Request)
    requires SameClaim(p, q)
    ensures p.claimed ==> Id(env, p) == Id(env, q) && Expiry(p) == Expiry(q)
  {
  }

  lemma UngrantingKeepsGrants(s: System, s': System)
    requires GrantsOk(s) && Ungranting(s, s')
    ensures GrantsOk(s')
  {
    forall i, j | 0 <= i < j < |s'.requests| ensures DistinctGrants(s'.requests[i], s'.requests[j]) {
      if j < |s.requests| { assert DistinctGrants(s.requests[i], s.requests[j]); }
    }
  }

  // ---- claiming -------------------------------------------------------------------------------

  lemma {:induction false} HexIsHex(b: Bytes)
    ensures forall c :: c in ByteStrings.HexOf(b) ==> '0' <= c <= '9' || 'a' <= c <= 'f'
  {
    if b != [] {
      HexIsHex(b[..|b| - 1]);
      var x := b[|b| - 1];
      assert x / 16 < 16 && x % 16 < 16;
      forall c | c in ByteStrings.HexPair(x) ensures '0' <= c <= '9' || 'a' <= c <= 'f' {
      }
    }
  }

  /** The id of a challenge is always one the table takes. */
  lemma IdsAreGood(env: Env, q: Request)
    requires GoodEnv(env)
    ensures ValidId(Id(env, q))
  {
    ByteStrings.HexLength(env.sha256(q.bytes));
    HexIsHex(env.sha256(q.bytes));
    assert forall i :: 0 <= i < |Id(env, q)| ==> Id(env, q)[i] in Id(env, q);
  }

  lemma ConsumptionIs(used: map<string, int>, id: string, expiry: int, now: int)
    requires ValidId(id)
    ensures var (after, outcome) := Consumption(used, id, expiry, now);
            && outcome == (if id in used && used[id] >= now - PRUNE_MARGIN_SECONDS then Replayed else Consumed)
            && (forall i :: i in after ==>
                  if i == id && outcome == Consumed then after[i] == expiry else i in used && after[i] == used[i])
            && (forall i :: i in used && used[i] >= now - PRUNE_MARGIN_SECONDS ==> i in after)
            && id in after
  {
    hide ValidId;
  }

  lemma ConsumeKeepsClaims(env: Env, s: System, r: nat, now: int, replyLost: bool)
    requires GoodEnv(env) && ClaimsOk(env, s)
    requires r < |s.requests| && !s.requests[r].claimed && now <= s.latest
    ensures ClaimsOk(env, ConsumedBy(env, s, r, now, replyLost))
  {
    var s' := ConsumedBy(env, s, r, now, replyLost);
    hide Consumption, ValidId, Id, Expiry, Held, Rare;
    ConsumeKeepsRows(env, s, r, now, replyLost);
    forall i | 0 <= i < |s'.requests| ensures Held(env, s', s'.requests[i]) {
      ConsumeKeepsHeld(env, s, r, now, replyLost, i);
    }
    forall i, j | 0 <= i < j < |s'.requests| ensures Rare(s', s'.requests[i], s'.requests[j]) {
      ConsumeKeepsRare(env, s, r, now, replyLost, i, j);
    }
  }

  lemma ConsumeKeepsRows(env: Env, s: System, r: nat, now: int, replyLost: bool)
    requires GoodEnv(env) && ClaimsOk(env, s)
    requires r < |s.requests| && !s.requests[r].claimed && now <= s.latest
    ensures RowsAreClaimed(env, ConsumedBy(env, s, r, now, replyLost))
  {
    var q := s.requests[r];
    var s' := ConsumedBy(env, s, r, now, replyLost);
    IdsAreGood(env, q);
    ConsumptionIs(s.store.used, Id(env, q), Expiry(q), now);
    RowOfClaim(env, q, s'.requests[r]);
    hide Consumption, ValidId, Id, Expiry;
    forall id | id in s'.store.used
      ensures exists i :: 0 <= i < |s'.requests| && ClaimOf(env, s'.requests[i], id, s'.store.used[id])
    {
      if s'.requests[r].claimed && id == Id(env, q) {
        assert ClaimOf(env, s'.requests[r], id, s'.store.used[id]);
      } else {
        var i :| 0 <= i < |s.requests| && ClaimOf(env, s.requests[i], id, s.store.used[id]);
        assert s'.requests[i] == s.requests[i];
      }
    }
  }

  lemma RowOfClaim(env: Env, p: Request, q: Request)
    requires p.bytes == q.bytes
    ensures Id(env, p) == Id(env, q) && Expiry(p) == Expiry(q)
  {
  }

  lemma ConsumeKeepsHeld(env: Env, s: System, r: nat, now: int, replyLost: bool, i: nat)
    requires GoodEnv(env) && ClaimsOk(env, s)
    requires r < |s.requests| && !s.requests[r].claimed && now <= s.latest
    requires i < |s.requests|
    ensures var s' := ConsumedBy(env, s, r, now, replyLost); Held(env, s', s'.requests[i])
  {
    var q := s.requests[r];
    var p := s.requests[i];
    var s' := ConsumedBy(env, s, r, now, replyLost);
    IdsAreGood(env, q);
    ConsumptionIs(s.store.used, Id(env, q), Expiry(q), now);
    RowOfClaim(env, q, s'.requests[r]);
    hide Consumption, ValidId, Id, Expiry;
    assert Held(env, s, p);
  }

  lemma ConsumeKeepsRare(env: Env, s: System, r: nat, now: int, replyLost: bool, i: nat, j: nat)
    requires GoodEnv(env) && ClaimsOk(env, s)
    requires r < |s.requests| && !s.requests[r].claimed && now <= s.latest
    requires i < j < |s.requests|
    ensures var s' := ConsumedBy(env, s, r, now, replyLost); Rare(s', s'.requests[i], s'.requests[j])
  {
    var q := s.requests[r];
    var s' := ConsumedBy(env, s, r, now, replyLost);
    RowOfClaim(env, q, s'.requests[r]);
    if i == r || j == r {
      var p := s.requests[if i == r then j else i];
      IdsAreGood(env, q);
      ConsumptionIs(s.store.used, Id(env, q), Expiry(q), now);
      if p.bytes == q.bytes { RowOfClaim(env, p, q); }
      hide Consumption, ValidId, Id, Expiry;
      assert Held(env, s, p);
    } else {
      assert Rare(s, s.requests[i], s.requests[j]);
    }
  }

  // ---- granting -------------------------------------------------------------------------------

  /** A claimed request is granted only while its challenge is live; then nobody else has claimed it,
      provided the clock has not stepped back by more than a second beyond the pruning margin. */
  lemma GrantKeepsUnique(env: Env, s: System, r: nat, now: int, s': System)
    requires env.skew <= PRUNE_MARGIN_SECONDS + 1
    requires ClaimsAreRare(s) && GrantsOk(s)
    requires r < |s.requests| && s.requests[r].claimed && Plausible(env, s, now) && now < Expiry(s.requests[r])
    requires |s'.requests| == |s.requests| && s'.requests == s.requests[r := s'.requests[r]]
    requires IsGranted(s'.requests[r])
    requires s'.requests[r].bytes == s.requests[r].bytes && s'.requests[r].claimed
    ensures GrantsOk(s')
  {
    var q := s.requests[r];
    forall i, j | 0 <= i < j < |s'.requests| ensures DistinctGrants(s'.requests[i], s'.requests[j]) {
      if i == r || j == r {
        var p := s.requests[if i == r then j else i];
        if p.bytes == q.bytes { SameBytesSameExpiry(p, q); }
        hide Expiry;
        assert Rare(s, s.requests[i], s.requests[j]);
      } else {
        assert DistinctGrants(s.requests[i], s.requests[j]);
      }
    }
  }

  lemma SameBytesSameExpiry(p: Request, q: Request)
    requires p.bytes == q.bytes
    ensures Expiry(p) == Expiry(q)
  {
  }
}

/** Every run of the protocol: the invariant and what follows from it. */
module ProtocolRuns {
  import opened Common
  import opened State
  import opened Protocol
  import opened ProtocolSnapshots
  import opened ProtocolClaims
  import Challenges
  import Text

  /** How far the request has come; a claim stays after the answer is given. */
  function Stage(q: Request): nat {
    if q.claimed then 10
    else match q.place
      case Checked => 3 case Querying => 4 case Waiting(_) => 5 case Viewed => 6
      case Attested => 7 case Rechecked => 8 case Consuming(_) => 9 case Claimed => 10
      case _ => 0
  }

  ghost predicate Live(env: Env, q: Request, at: int) {
    Challenges.Verified(env.mac, q.body.challenge, at) == Ok(q.bytes)
  }

  /** The values a request has captured passed their checks, in order. */
  ghost predicate Vetted(env: Env, q: Request, log: seq<Fetch>) {
    && (Stage(q) >= 3 ==> Live(env, q, q.firstCheck))
    && (Stage(q) >= 6 ==> ShownFresh(env, log, q.query, q.serials))
    && (Stage(q) >= 7 ==> env.attest(q.body, q.bytes, Elements(q.serials), q.attestedAt) == Ok(2))
    && (Stage(q) >= 8 ==> Live(env, q, q.secondCheck))
    && (IsGranted(q) ==> Live(env, q, q.finalCheck))
  }

  /** A claim is made by the last consume call before the answer. */
  predicate ClaimPlaced(q: Request, latest: int) {
    && (q.place.Consuming? ==> q.place.at <= latest)
    && (q.place.Claimed? || q.place == Done(Granted) ==> q.claimed)
    && (q.claimed ==> q.place.Claimed? || q.place.Done?)
  }

  ghost predicate RequestOk(env: Env, q: Request, log: seq<Fetch>, latest: int) {
    Vetted(env, q, log) && ClaimPlaced(q, latest)
  }

  ghost predicate RequestsOk(env: Env, s: System) {
    forall i :: 0 <= i < |s.requests| ==> RequestOk(env, s.requests[i], s.log, s.latest)
  }

  ghost predicate Inv(env: Env, s: System) {
    && SnapshotOk(env, s.store, s.log)
    && RequestsOk(env, s)
    && ClaimsOk(env, s)
    && (env.skew <= PRUNE_MARGIN_SECONDS + 1 ==> GrantsOk(s))
  }

  /** A step of one request that leaves the replay table, the row and the log alone, claims nothing and
      grants nothing. */
  lemma StepOfOne(env: Env, s: System, s': System, r: nat)
    requires Inv(env, s) && r < |s.requests| && |s'.requests| == |s.requests|
    requires s'.requests == s.requests[r := s'.requests[r]]
    requires s'.store.used == s.store.used && s'.log == s.log && s'.latest >= s.latest
    requires SnapshotOk(env, s'.store, s'.log)
    requires RequestOk(env, s'.requests[r], s.log, s'.latest)
    requires SameClaim(s.requests[r], s'.requests[r]) && NoNewGrant(s.requests[r], s'.requests[r])
    ensures Inv(env, s')
  {
    hide ClaimsOk, GrantsOk, SnapshotOk, Vetted, IsGranted;
    QuietKeepsClaims(env, s, s');
    if env.skew <= PRUNE_MARGIN_SECONDS + 1 { UngrantingKeepsGrants(s, s'); }
    forall i | 0 <= i < |s'.requests| ensures RequestOk(env, s'.requests[i], s'.log, s'.latest) {
      assert RequestOk(env, s.requests[i], s.log, s.latest);
    }
  }

  /** A step that leaves every request alone. */
  lemma StepOfNone(env: Env, s: System, s': System)
    requires Inv(env, s) && s'.requests == s.requests
    requires s'.store.used == s.store.used && s'.latest >= s.latest
    requires s'.log == s.log || exists f :: s'.log == s.log + [f]
    requires SnapshotOk(env, s'.store, s'.log)
    ensures Inv(env, s')
  {
    hide ClaimsOk, GrantsOk, SnapshotOk, IsGranted;
    QuietKeepsClaims(env, s, s');
    if env.skew <= PRUNE_MARGIN_SECONDS + 1 { UngrantingKeepsGrants(s, s'); }
    forall i | 0 <= i < |s'.requests| ensures RequestOk(env, s'.requests[i], s'.log, s'.latest) {
      assert RequestOk(env, s.requests[i], s.log, s.latest);
      VettedInLongerLog(env, s.requests[i], s.log, s'.log);
    }
  }

  lemma VettedInLongerLog(env: Env, q: Request, log: seq<Fetch>, log': seq<Fetch>)
    requires Vetted(env, q, log) && (log' == log || exists f :: log' == log + [f])
    ensures Vetted(env, q, log')
  {
    hide ShownFresh, Live;
    if log' != log && Stage(q) >= 6 {
      var f :| log' == log + [f];
      LogGrows(env, log, f, q.query, q.serials);
    }
  }

  lemma ArriveKeeps(env: Env, s: System, body: AttestRequest)
    requires Inv(env, s)
    ensures Inv(env, Apply(env, s, Arrive(body)))
  {
    var s' := Apply(env, s, Arrive(body));
    hide ClaimsOk, GrantsOk, SnapshotOk, Vetted;
    QuietKeepsClaims(env, s, s');
    if env.skew <= PRUNE_MARGIN_SECONDS + 1 { UngrantingKeepsGrants(s, s'); }
    forall i | 0 <= i < |s'.requests| ensures RequestOk(env, s'.requests[i], s'.log, s'.latest) {
      if i < |s.requests| { assert RequestOk(env, s.requests[i], s.log, s.latest); }
      else { assert Vetted(env, s'.requests[i], s'.log) by { NewIsVetted(env, body, s.log); } }
    }
  }

  lemma NewIsVetted(env: Env, body: AttestRequest, log: seq<Fetch>)
    ensures Vetted(env, Request(body, Arrived, [], 0, 0, [], 0, 0, 0, false), log)
  {
  }

  /** The request after a step of the worker itself, between its calls. */
  ghost function Stepped(env: Env, q: Request, a: Action): Request {
    match a
    case CallBudget(_, now) => q.(place := Budgeting(now))
    case FirstCheck(_, now) => FirstChecked(env, q, now)
    case CallRevocations(_, now) => q.(place := Querying, query := now)
    case Attest(_, nowMs) => WithVerdict(env, q, nowMs)
    case SecondCheck(_, now) => SecondChecked(env, q, now)
    case CallConsume(_, now) => q.(place := Consuming(now))
    case _ => q
  }

  predicate Ready(q: Request, a: Action) {
    match a
    case CallBudget(_, _) => q.place.Arrived?
    case FirstCheck(_, _) => q.place.Admitted?
    case CallRevocations(_, _) => q.place.Checked?
    case Attest(_, _) => q.place.Viewed?
    case SecondCheck(_, _) => q.place.Attested?
    case CallConsume(_, _) => q.place.Rechecked?
    case _ => false
  }

  function Reading(a: Action): int {
    match a
    case CallBudget(_, now) => now
    case FirstCheck(_, now) => now
    case CallRevocations(_, now) => now
    case Attest(_, nowMs) => nowMs / 1000
    case SecondCheck(_, now) => now
    case CallConsume(_, now) => now
    case _ => 0
  }

  lemma SteppedIsOk(env: Env, q: Request, a: Action, log: seq<Fetch>, latest: int, latest': int)
    requires RequestOk(env, q, log, latest) && Ready(q, a) && latest' >= latest && latest' >= Reading(a)
    ensures var q' := Stepped(env, q, a);
            RequestOk(env, q', log, latest') && SameClaim(q, q') && NoNewGrant(q, q')
  {
    hide ShownFresh, Challenges.Verified;
    if a.SecondCheck? && Challenges.Verified(env.mac, q.body.challenge, a.now).Ok? { SameBytesAgain(env, q, a.now); }
  }

  lemma WorkerStepKeeps(env: Env, s: System, a: Action)
    requires Inv(env, s)
    requires a.CallBudget? || a.FirstCheck? || a.CallRevocations? || a.Attest? || a.SecondCheck? || a.CallConsume?
    ensures Inv(env, Apply(env, s, a))
  {
    hide SnapshotOk, ClaimsOk, GrantsOk, RequestOk, Stepped, SameClaim, NoNewGrant, FirstChecked, SecondChecked, WithVerdict;
    var s' := Apply(env, s, a);
    if s' != s {
      var q := s.requests[a.r];
      SteppedIs(env, s, a);
      SteppedIsOk(env, q, a, s.log, s.latest, s'.latest);
      StepOfOne(env, s, s', a.r);
    }
  }

  lemma SteppedIs(env: Env, s: System, a: Action)
    requires a.CallBudget? || a.FirstCheck? || a.CallRevocations? || a.Attest? || a.SecondCheck? || a.CallConsume?
    ensures var s' := Apply(env, s, a);
            s' == s ||
            (&& a.r < |s.requests| && Ready(s.requests[a.r], a)
             && s' == Put(Read(s, Reading(a)), a.r, Stepped(env, s.requests[a.r], a)))
  {
    hide Challenges.Verified, WithVerdict, FirstChecked, SecondChecked;
  }

  /** The second check decodes the same bytes. */
  lemma SameBytesAgain(env: Env, q: Request, now: int)
    requires Live(env, q, q.firstCheck) && Challenges.Verified(env.mac, q.body.challenge, now).Ok?
    ensures Live(env, q, now)
  {
    Challenges.TokensAndBytesAreOneToOne(env.mac, q.body.challenge, q.body.challenge, q.firstCheck, now);
  }

  lemma BudgetedIsOk(env: Env, q: Request, granted: bool, log: seq<Fetch>, latest: int)
    requires RequestOk(env, q, log, latest) && q.place.Budgeting?
    ensures var q' := q.(place := if granted then Admitted else Done(RateLimited));
            RequestOk(env, q', log, latest) && SameClaim(q, q') && NoNewGrant(q, q')
  {
    hide ShownFresh, Challenges.Verified;
  }

  lemma BudgetKeeps(env: Env, s: System, r: nat, now: int)
    requires Inv(env, s) && r < |s.requests| && s.requests[r].place.Budgeting?
    ensures Inv(env, Budgeted(s, r, now))
  {
    hide SnapshotOk, ClaimsOk, GrantsOk, Allowed, RequestOk, SameClaim, NoNewGrant;
    var s' := Budgeted(s, r, now);
    BudgetedIsOk(env, s.requests[r], Allowed(s.store.budget, now).1, s.log, s.latest);
    assert SnapshotOk(env, s'.store, s'.log) by { SameSnapshot(env, s.store, s'.store, s.log); }
    StepOfOne(env, s, s', r);
  }

  lemma SameSnapshot(env: Env, store: Store, store': Store, log: seq<Fetch>)
    requires SnapshotOk(env, store, log) && store'.row == store.row && (store'.cache == store.cache || store'.cache == None)
    ensures SnapshotOk(env, store', log)
  {
  }

  lemma ShownIsOk(env: Env, q: Request, view: Option<seq<string>>, log: seq<Fetch>, latest: int)
    requires RequestOk(env, q, log, latest) && (q.place.Querying? || q.place.Waiting?)
    requires view.Some? ==> ShownFresh(env, log, q.query, view.value)
    ensures var q' := Shown(q, view); RequestOk(env, q', log, latest) && SameClaim(q, q') && NoNewGrant(q, q')
  {
    hide ShownFresh, Challenges.Verified;
  }

  /** A request that waits, or that gets an error for an answer. */
  lemma MovedIsOk(env: Env, q: Request, place: Place, log: seq<Fetch>, latest: int)
    requires RequestOk(env, q, log, latest)
    requires place == Done(Unavailable) || place == Done(OtherError) || (place.Waiting? && q.place.Querying?)
    ensures var q' := q.(place := place); RequestOk(env, q', log, latest) && SameClaim(q, q') && NoNewGrant(q, q')
  {
    hide ShownFresh, Challenges.Verified;
  }

  lemma ResumedKeeps(env: Env, s: System, r: nat)
    requires GoodEnv(env) && Inv(env, s) && r < |s.requests|
    requires s.requests[r].place.Querying? || s.requests[r].place.Waiting?
    ensures Inv(env, Resumed(s, r))
  {
    hide SnapshotOk, ClaimsOk, GrantsOk, ShownFresh, RequestOk, Shown, SameClaim, NoNewGrant;
    var q := s.requests[r];
    var (store, view) := View(s.store, q.query);
    ViewIsFresh(env, s.store, s.log, q.query);
    assert store.used == s.store.used;
    hide View;
    ShownIsOk(env, q, view, s.log, s.latest);
    StepOfOne(env, s, Resumed(s, r), r);
  }

  lemma RevocationsKeep(env: Env, s: System, r: nat)
    requires GoodEnv(env) && Inv(env, s) && r < |s.requests| && s.requests[r].place.Querying?
    ensures Inv(env, Queried(s, r))
  {
    hide SnapshotOk, ClaimsOk, GrantsOk, RequestOk, Fresh, SameClaim, NoNewGrant, Resumed;
    if Fresh(s.store, s.requests[r].query) {
      ResumedKeeps(env, s, r);
    } else {
      MovedIsOk(env, s.requests[r], Waiting(|s.refreshes|), s.log, s.latest);
      StepOfOne(env, s, Queried(s, r), r);
    }
  }

  lemma FailKeeps(env: Env, s: System, r: nat)
    requires Inv(env, s)
    ensures Inv(env, Apply(env, s, Fail(r)))
  {
    hide SnapshotOk, ClaimsOk, GrantsOk, RequestOk, SameClaim, NoNewGrant;
    if r < |s.requests| && !s.requests[r].place.Done? {
      var s' := Apply(env, s, Fail(r));
      MovedIsOk(env, s.requests[r], s'.requests[r].place, s.log, s.latest);
      StepOfOne(env, s, s', r);
    }
  }

  lemma ConsumedIsOk(env: Env, q: Request, outcome: ConsumeOutcome, replyLost: bool, log: seq<Fetch>, latest: int)
    requires RequestOk(env, q, log, latest) && q.place.Consuming?
    ensures var q' := AfterConsume(q, outcome, replyLost);
            RequestOk(env, q', log, latest) && NoNewGrant(q, q') && (q.claimed ==> q'.claimed)
            && !q.claimed && q.place.at <= latest
  {
    hide ShownFresh, Challenges.Verified;
  }

  lemma ConsumeKeeps(env: Env, s: System, r: nat, replyLost: bool)
    requires GoodEnv(env) && Inv(env, s) && r < |s.requests| && s.requests[r].place.Consuming?
    ensures Inv(env, ConsumedBy(env, s, r, s.requests[r].place.at, replyLost))
  {
    hide SnapshotOk, Consumption, ClaimsOk, GrantsOk, Id, Expiry, RequestOk, NoNewGrant, AfterConsume;
    var q := s.requests[r];
    var now := q.place.at;
    var s' := ConsumedBy(env, s, r, now, replyLost);
    var outcome := Consumption(s.store.used, Id(env, q), Expiry(q), now).1;
    ConsumedIsOk(env, q, outcome, replyLost, s.log, s.latest);
    ConsumeKeepsClaims(env, s, r, now, replyLost);
    assert SnapshotOk(env, s'.store, s'.log) by { SameSnapshot(env, s.store, s'.store, s.log); }
    if env.skew <= PRUNE_MARGIN_SECONDS + 1 {
      OthersUngranting(s, s', r);
      UngrantingKeepsGrants(s, s');
    }
    forall i | 0 <= i < |s'.requests| ensures RequestOk(env, s'.requests[i], s'.log, s'.latest) {
      assert RequestOk(env, s.requests[i], s.log, s.latest);
    }
  }

  lemma OthersUngranting(s: System, s': System, r: nat)
    requires r < |s.requests| && |s'.requests| == |s.requests| && s'.requests == s.requests[r := s'.requests[r]]
    requires NoNewGrant(s.requests[r], s'.requests[r]) && (s.requests[r].claimed ==> s'.requests[r].claimed)
    ensures Ungranting(s, s')
  {
  }

  /** A final check that passes is made before the challenge expires. */
  lemma FinalCheckIsInTime(env: Env, q: Request, now: int)
    requires Live(env, q, q.firstCheck) && Challenges.Verified(env.mac, q.body.challenge, now).Ok?
    ensures Live(env, q, now) && now < Expiry(q)
  {
    SameBytesAgain(env, q, now);
    Challenges.AcceptsExactlyLiveTokens(env.mac, q.body.challenge, now, q.bytes);
  }

  lemma FinallyCheckedIsOk(env: Env, q: Request, now: int, log: seq<Fetch>, latest: int, latest': int)
    requires RequestOk(env, q, log, latest) && q.place.Claimed? && latest' >= latest
    ensures var q' := FinallyChecked(env, q, now);
            && RequestOk(env, q', log, latest') && SameClaim(q, q') && q.claimed && q'.bytes == q.bytes
            && (if IsGranted(q') then now < Expiry(q) else NoNewGrant(q, q'))
  {
    hide ShownFresh, Challenges.Verified, Expiry;
    if Challenges.Verified(env.mac, q.body.challenge, now).Ok? { FinalCheckIsInTime(env, q, now); }
  }

  lemma FinalCheckKeeps(env: Env, s: System, r: nat, now: int)
    requires Inv(env, s) && At(s, r, Claimed) && Plausible(env, s, now)
    ensures Inv(env, Apply(env, s, FinalCheck(r, now)))
  {
    hide SnapshotOk, ClaimsOk, GrantsOk, Expiry, RequestOk, FinallyChecked, NoNewGrant, SameClaim, IsGranted;
    var q := s.requests[r];
    var s' := Apply(env, s, FinalCheck(r, now));
    FinallyCheckedIsOk(env, q, now, s.log, s.latest, s'.latest);
    if IsGranted(s'.requests[r]) {
      GrantStepKeeps(env, s, r, now, s');
    } else {
      StepOfOne(env, s, s', r);
    }
  }

  lemma GrantStepKeeps(env: Env, s: System, r: nat, now: int, s': System)
    requires Inv(env, s) && r < |s.requests| && |s'.requests| == |s.requests|
    requires s'.requests == s.requests[r := s'.requests[r]]
    requires s'.store == s.store && s'.log == s.log && s'.latest >= s.latest
    requires RequestOk(env, s'.requests[r], s.log, s'.latest) && SameClaim(s.requests[r], s'.requests[r])
    requires s.requests[r].claimed && s'.requests[r].bytes == s.requests[r].bytes
    requires IsGranted(s'.requests[r]) && Plausible(env, s, now) && now < Expiry(s.requests[r])
    ensures Inv(env, s')
  {
    hide SnapshotOk, ClaimsOk, GrantsOk, Expiry, Vetted, IsGranted;
    QuietKeepsClaims(env, s, s');
    Parts(env, s);
    if env.skew <= PRUNE_MARGIN_SECONDS + 1 { GrantKeepsUnique(env, s, r, now, s'); }
    forall i | 0 <= i < |s'.requests| ensures RequestOk(env, s'.requests[i], s'.log, s'.latest) {
      assert RequestOk(env, s.requests[i], s.log, s.latest);
    }
  }

  lemma Parts(env: Env, s: System)
    requires ClaimsOk(env, s)
    ensures RowsAreClaimed(env, s) && ClaimsAreHeld(env, s) && ClaimsAreRare(s)
  {
  }

  lemma CommitKeeps(env: Env, s: System, k: nat)
    requires GoodEnv(env) && Inv(env, s) && k < |s.refreshes| && s.refreshes[k].phase.Downloaded?
    ensures Inv(env, Committed(env, s, k))
  {
    var f := s.refreshes[k];
    CommitKeepsSnapshot(env, s.store, s.log, f.start, f.phase.checkedAt, f.phase.response);
    hide SnapshotOk, ClaimsOk, GrantsOk, RequestsOk, Refreshed, Commits;
    StepOfNone(env, s, Committed(env, s, k));
  }

  lemma RestartKeeps(env: Env, s: System)
    requires Inv(env, s)
    ensures Inv(env, Apply(env, s, Restart))
  {
    var s' := Apply(env, s, Restart);
    SameSnapshot(env, s.store, s'.store, s.log);
    hide SnapshotOk, ClaimsOk, GrantsOk, RequestsOk;
    StepOfNone(env, s, s');
  }

  lemma RefreshStepKeeps(env: Env, s: System, a: Action)
    requires Inv(env, s) && (a.Alarm? || a.Download?)
    ensures Inv(env, Apply(env, s, a))
  {
    hide SnapshotOk, ClaimsOk, GrantsOk, RequestsOk;
    StepOfNone(env, s, Apply(env, s, a));
  }

  lemma StepKeeps(env: Env, s: System, a: Action)
    requires GoodEnv(env) && Inv(env, s)
    ensures Inv(env, Apply(env, s, a))
  {
    hide Inv, GoodEnv, Resumed, Queried, Committed, Budgeted, ConsumedBy, FirstChecked, SecondChecked, FinallyChecked;
    match a
    case Arrive(body) => ArriveKeeps(env, s, body);
    case RunBudget(r) =>
      if r < |s.requests| && s.requests[r].place.Budgeting? { BudgetKeeps(env, s, r, s.requests[r].place.at); }
    case RunRevocations(r) => if At(s, r, Querying) { RevocationsKeep(env, s, r); }
    case Resume(r) => if r < |s.requests| && s.requests[r].place.Waiting? { ResumedKeeps(env, s, r); }
    case RunConsume(r, lost) =>
      if r < |s.requests| && s.requests[r].place.Consuming? { ConsumeKeeps(env, s, r, lost); }
    case FinalCheck(r, now) => if At(s, r, Claimed) && Plausible(env, s, now) { FinalCheckKeeps(env, s, r, now); }
    case Fail(r) => FailKeeps(env, s, r);
    case Commit(k) => if k < |s.refreshes| && s.refreshes[k].phase.Downloaded? { CommitKeeps(env, s, k); }
    case Restart => RestartKeeps(env, s);
    case Alarm(_) => RefreshStepKeeps(env, s, a);
    case Download(_, _, _) => RefreshStepKeeps(env, s, a);
    case CallBudget(_, _) => WorkerStepKeeps(env, s, a);
    case FirstCheck(_, _) => WorkerStepKeeps(env, s, a);
    case CallRevocations(_, _) => WorkerStepKeeps(env, s, a);
    case Attest(_, _) => WorkerStepKeeps(env, s, a);
    case SecondCheck(_, _) => WorkerStepKeeps(env, s, a);
    case CallConsume(_, _) => WorkerStepKeeps(env, s, a);
  }

  lemma {:induction false} RunKeeps(env: Env, t: int, actions: seq<Action>)
    requires GoodEnv(env)
    ensures Inv(env, Run(env, t, actions))
  {
    hide Apply, GoodEnv;
    if actions != [] {
      var before := actions[..|actions| - 1];
      RunKeeps(env, t, before);
      StepKeeps(env, Run(env, t, before), actions[|actions| - 1]);
    }
  }

  // ---- what holds in every run ----------------------------------------------------------------

  /** Single use: whatever else runs in between, two requests for one challenge are never both granted,
      as long as no clock reading is more than 61 seconds below an earlier one. */
  lemma ChallengeIsGrantedOnce(env: Env, t: int, actions: seq<Action>, i: nat, j: nat)
    requires GoodEnv(env) && env.skew <= PRUNE_MARGIN_SECONDS + 1
    ensures var s := Run(env, t, actions);
            i < |s.requests| && j < |s.requests| && i != j && IsGranted(s.requests[i]) && IsGranted(s.requests[j]) ==>
              s.requests[i].bytes != s.requests[j].bytes && s.requests[i].body.challenge != s.requests[j].body.challenge
  {
    RunKeeps(env, t, actions);
    var s := Run(env, t, actions);
    if i < |s.requests| && j < |s.requests| && i != j && IsGranted(s.requests[i]) && IsGranted(s.requests[j]) {
      var p, q := s.requests[i], s.requests[j];
      assert DistinctGrants(s.requests[if i < j then i else j], s.requests[if i < j then j else i]);
      assert RequestOk(env, p, s.log, s.latest) && RequestOk(env, q, s.log, s.latest);
      hide Challenges.Verified;
      if p.body.challenge == q.body.challenge {
        Challenges.TokensAndBytesAreOneToOne(env.mac, p.body.challenge, q.body.challenge, p.finalCheck, q.finalCheck);
      }
    }
  }

  /** Every row of the replay table was inserted by a request whose challenge passed both checks, whose
      snapshot was fresh and whose attestation was accepted against that snapshot. */
  lemma RowsWereVetted(env: Env, t: int, actions: seq<Action>, id: string)
    requires GoodEnv(env) && id in Run(env, t, actions).store.used
    ensures var s := Run(env, t, actions);
            exists i :: 0 <= i < |s.requests| && ClaimOf(env, s.requests[i], id, s.store.used[id])
              && Vetted(env, s.requests[i], s.log) && Stage(s.requests[i]) == 10
  {
    RunKeeps(env, t, actions);
    var s := Run(env, t, actions);
    hide Vetted, ClaimOf;
    var i :| 0 <= i < |s.requests| && ClaimOf(env, s.requests[i], id, s.store.used[id]);
    assert RequestOk(env, s.requests[i], s.log, s.latest);
    assert s.requests[i].claimed by { ClaimsAreClaimed(env, s.requests[i], id, s.store.used[id]); }
  }

  lemma ClaimsAreClaimed(env: Env, q: Request, id: string, expiry: int)
    requires ClaimOf(env, q, id, expiry)
    ensures q.claimed
  {
  }

  /** A granted request passed all four checks with the challenge live at each, and its attestation was
      judged against the serials of one feed that was still fresh when it asked for them. */
  lemma GrantsWereVetted(env: Env, t: int, actions: seq<Action>, i: nat)
    requires GoodEnv(env) && i < |Run(env, t, actions).requests| && IsGranted(Run(env, t, actions).requests[i])
    ensures var s := Run(env, t, actions);
            var q := s.requests[i];
            && Live(env, q, q.firstCheck) && Live(env, q, q.secondCheck) && Live(env, q, q.finalCheck)
            && env.attest(q.body, q.bytes, Elements(q.serials), q.attestedAt) == Ok(2)
            && ShownFresh(env, s.log, q.query, q.serials)
  {
    RunKeeps(env, t, actions);
    var s := Run(env, t, actions);
    assert RequestOk(env, s.requests[i], s.log, s.latest);
    hide Live, ShownFresh;
  }

  /** Serials shown to a request are always those of one feed, whose refresh started less than its time
      to live before the reading the request asked with; overlapping refreshes, failed refreshes and
      restarts included, and however the clock moves. */
  lemma SnapshotsAreFresh(env: Env, t: int, actions: seq<Action>, i: nat)
    requires GoodEnv(env) && NoCollisions(env, Run(env, t, actions).log) && i < |Run(env, t, actions).requests|
    ensures var s := Run(env, t, actions);
            var q := s.requests[i];
            Stage(q) >= 6 ==> FreshFromLog(s.log, q.query, q.serials)
  {
    RunKeeps(env, t, actions);
    var s := Run(env, t, actions);
    assert RequestOk(env, s.requests[i], s.log, s.latest);
    hide FreshFromLog, NoCollisions;
  }

  /** A cache that carries the row's digest holds exactly the row's serials. */
  lemma CacheAgreesWithRow(env: Env, t: int, actions: seq<Action>)
    requires GoodEnv(env) && NoCollisions(env, Run(env, t, actions).log)
    ensures var store := Run(env, t, actions).store;
            store.row.Some? && store.cache.Some? && store.cache.value.digest == store.row.value.digest ==>
              store.cache.value.serials == Stored(store.row.value.serials)
  {
    RunKeeps(env, t, actions);
    var s := Run(env, t, actions);
    if s.store.row.Some? && s.store.cache.Some? && s.store.cache.value.digest == s.store.row.value.digest {
      AgreesWhenDigestsDo(env, s.store, s.log);
    }
  }

  /** A request is told that its challenge was replayed only when another one has claimed the same id, and
      always when another one has claimed the same challenge and the latest reading is at most a minute
      after its expiry. */
  lemma ReplaysAreGenuine(env: Env, t: int, actions: seq<Action>, r: nat)
    requires GoodEnv(env)
    requires r < |Run(env, t, actions).requests| && Run(env, t, actions).requests[r].place.Consuming?
    ensures var s := Run(env, t, actions);
            var q := s.requests[r];
            var outcome := Consumption(s.store.used, Id(env, q), Expiry(q), q.place.at).1;
            && (outcome == Replayed ==> exists i :: ClaimsId(env, s, r, i))
            && (s.latest <= Expiry(q) + PRUNE_MARGIN_SECONDS && (exists i :: ClaimsChallenge(s, r, i)) ==> outcome == Replayed)
            && outcome != BadId
  {
    RunKeeps(env, t, actions);
    var s := Run(env, t, actions);
    var q := s.requests[r];
    assert RequestOk(env, q, s.log, s.latest);
    IdsAreGood(env, q);
    hide Consumption, ValidId, Id, Expiry, Vetted, Run, SnapshotOk, RequestsOk, GrantsOk, GoodEnv;
    ConsumptionIs(s.store.used, Id(env, q), Expiry(q), q.place.at);
    hide ClaimsId, ClaimsChallenge;
    if Id(env, q) in s.store.used { RowIsAnothersClaim(env, s, r); }
    if exists i :: ClaimsChallenge(s, r, i) {
      var i :| ClaimsChallenge(s, r, i);
      AnothersClaimIsHeld(env, s, r, i);
    }
  }

  lemma RowIsAnothersClaim(env: Env, s: System, r: nat)
    requires RowsAreClaimed(env, s) && r < |s.requests| && !s.requests[r].claimed && Id(env, s.requests[r]) in s.store.used
    ensures exists i :: ClaimsId(env, s, r, i)
  {
    hide Id, Expiry;
    var id := Id(env, s.requests[r]);
    var i :| 0 <= i < |s.requests| && ClaimOf(env, s.requests[i], id, s.store.used[id]);
    assert ClaimsId(env, s, r, i);
  }

  lemma AnothersClaimIsHeld(env: Env, s: System, r: nat, i: int)
    requires ClaimsAreHeld(env, s) && ClaimsChallenge(s, r, i)
    ensures var q := s.requests[r];
            s.latest <= Expiry(q) + PRUNE_MARGIN_SECONDS ==>
              Id(env, q) in s.store.used && s.store.used[Id(env, q)] == Expiry(q)
  {
    RowOfClaim(env, s.requests[i], s.requests[r]);
    hide Id, Expiry;
    assert Held(env, s, s.requests[i]);
  }

  /** Request i is another one that has claimed the id of request r. */
  ghost predicate ClaimsId(env: Env, s: System, r: nat, i: int) {
    && r < |s.requests| && 0 <= i < |s.requests| && i != r
    && s.requests[i].claimed && Id(env, s.requests[i]) == Id(env, s.requests[r])
  }

  /** Request i is another one that has claimed the challenge of request r. */
  ghost predicate ClaimsChallenge(s: System, r: nat, i: int) {
    && r < |s.requests| && 0 <= i < |s.requests| && i != r
    && s.requests[i].claimed && s.requests[i].bytes == s.requests[r].bytes
  }
}
