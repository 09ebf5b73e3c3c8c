/** The Durable Object of server/src/state.ts: replay table, request budget and revocation snapshot.
    `Store` holds its rows and its in-memory cache as values, with one function per operation; class
    `State` is the object itself, each method proved against the function. */
module State {
  import opened Common
  import Text
  import Revocations

  const RATE_LIMIT_PER_MINUTE := 60
  const PRUNE_MARGIN_SECONDS := 60

  datatype Row = Row(serials: string, digest: string, expiresAt: int, fetchedAt: int)
  datatype Cache = Cache(digest: string, serials: seq<string>)
  datatype Store = Store(used: map<string, int>, budget: map<int, nat>, row: Option<Row>, cache: Option<Cache>)

  // ---- request budget -------------------------------------------------------------------------

  function Minute(nowSeconds: int): int {
    nowSeconds / 60
  }

  function Count(budget: map<int, nat>, minute: int): nat {
    if minute in budget then budget[minute] else 0
  }

  /** The rows of the two minutes before `minute` and later. */
  function Kept(budget: map<int, nat>, minute: int): map<int, nat> {
    map m | m in budget && m >= minute - 2 :: budget[m]
  }

  function Allowed(budget: map<int, nat>, nowSeconds: int): (map<int, nat>, bool) {
    var minute := Minute(nowSeconds);
    var kept := Kept(budget, minute);
    if Count(kept, minute) >= RATE_LIMIT_PER_MINUTE then (kept, false)
    else (kept[minute := Count(kept, minute) + 1], true)
  }

  // ---- replay table ---------------------------------------------------------------------------

  datatype ConsumeOutcome = BadId | Replayed | Consumed

  predicate ValidId(id: string) {
    |id| == 64 && forall i :: 0 <= i < 64 ==> '0' <= id[i] <= '9' || 'a' <= id[i] <= 'f'
  }

  /** Create if absent, after deleting the rows that expired more than a minute ago. */
  function Consumption(used: map<string, int>, id: string, expiresAt: int, nowSeconds: int)
    : (map<string, int>, ConsumeOutcome)
  {
    if !ValidId(id) then (used, BadId)
    else
      var kept := map i | i in used && used[i] >= nowSeconds - PRUNE_MARGIN_SECONDS :: used[i];
      if id in kept then (kept, Replayed) else (kept[id := expiresAt], Consumed)
  }

  // ---- revocation snapshot --------------------------------------------------------------------

  /** A 200 response with a body of acceptable size. */
  datatype Response = Response(headers: Revocations.Headers, entries: seq<Revocations.Entry>)

  function Stored(serials: string): seq<string> {
    if serials == "" then [] else Text.Split(serials, '\n')
  }

  function Ttl(h: Revocations.Headers): nat {
    var t := Revocations.SnapshotTtl(h);
    if t < Revocations.MAX_TTL_SECONDS then t else Revocations.MAX_TTL_SECONDS
  }

  /** The sorted serials of a usable response. */
  function Serials(r: Response): Option<seq<string>> {
    var parsed := Revocations.ParsedFeed(r.entries);
    if parsed.None? then None else Some(Text.Sort(parsed.value))
  }

  /** Whether a refresh started at `start` replaces the snapshot: the response is usable and still fresh
      at `checkedAt`, when its download ended. */
  predicate Commits(start: int, checkedAt: int, response: Option<Response>) {
    response.Some? && checkedAt < start + Ttl(response.value.headers) && Serials(response.value).Some?
  }

  /** What a refresh leaves; any failure leaves the store as it was. */
  function Refreshed(sha: string -> string, s: Store, start: int, checkedAt: int, response: Option<Response>): Store {
    if !Commits(start, checkedAt, response) then s
    else
      var serials := Serials(response.value).value;
      var joined := Text.Join(serials, '\n');
      var digest := sha(joined);
      var expiresAt := start + Ttl(response.value.headers);
      if s.row.Some? && s.row.value.digest == digest
      then s.(row := Some(s.row.value.(expiresAt := expiresAt, fetchedAt := start)))
      else s.(row := Some(Row(joined, digest, expiresAt, start)), cache := Some(Cache(digest, serials)))
  }

  predicate Fresh(s: Store, nowSeconds: int) {
    s.row.Some? && nowSeconds < s.row.value.expiresAt
  }

  /** The cache after a view of a fresh row: rebuilt from the row when its digest differs. */
  function Synced(s: Store): Store
    requires s.row.Some?
  {
    var row := s.row.value;
    if s.cache.Some? && s.cache.value.digest == row.digest then s
    else s.(cache := Some(Cache(row.digest, Stored(row.serials))))
  }

  /** The serials shown for a query time, when the row is fresh. */
  function View(s: Store, nowSeconds: int): (Store, Option<seq<string>>) {
    if !Fresh(s, nowSeconds) then (s, None) else (Synced(s), Some(Synced(s).cache.value.serials))
  }

  class State {
    var used: map<string, int>
    var budget: map<int, nat>
    var row: Option<Row>
    var cache: Option<Cache>

    function Model(): Store
      reads this
    {
      Store(used, budget, row, cache)
    }

    /** Starts, or restarts, over the stored rows: the cache is empty. */
    constructor (stored: Store)
      ensures Model() == stored.(cache := None)
    {
      used, budget, row, cache := stored.used, stored.budget, stored.row, None;
    }

    method AllowRequest(nowSeconds: int) returns (granted: bool)
      modifies this`budget
      ensures (budget, granted) == Allowed(old(budget), nowSeconds)
    {
      var minute := Minute(nowSeconds);
      budget := map m | m in budget && m >= minute - 2 :: budget[m];
      assert budget == Kept(old(budget), minute);
      var requests := Count(budget, minute);
      if requests >= RATE_LIMIT_PER_MINUTE { return false; }
      budget := budget[minute := requests + 1];
      granted := true;
    }

    method Consume(id: string, expiresAtSeconds: int, nowSeconds: int) returns (outcome: ConsumeOutcome)
      modifies this`used
      ensures (used, outcome) == Consumption(old(used), id, expiresAtSeconds, nowSeconds)
    {
      if !ValidId(id) { return BadId; }
      used := map i | i in used && used[i] >= nowSeconds - PRUNE_MARGIN_SECONDS :: used[i];
      if id in used { return Replayed; }
      used := used[id := expiresAtSeconds];
      outcome := Consumed;
    }

    /** The part of `refresh` after its last await. */
    method CommitRefresh(sha: string -> string, start: int, checkedAt: int, response: Option<Response>)
      modifies this`row, this`cache
      ensures Model() == Refreshed(sha, old(Model()), start, checkedAt, response)
    {
      if response.None? { return; }
      var ttl := Ttl(response.value.headers);
      var expiresAt := start + ttl;
      if checkedAt >= expiresAt { return; }
      var parsed := Revocations.ParseFeed(response.value.entries);
      if parsed.None? { return; }
      var serials := Text.Sort(parsed.value);
      var joined := Text.Join(serials, '\n');
      var digest := sha(joined);
      if row.Some? && row.value.digest == digest {
        row := Some(row.value.(expiresAt := expiresAt, fetchedAt := start));
      } else {
        row := Some(Row(joined, digest, expiresAt, start));
        cache := Some(Cache(digest, serials));
      }
    }

    /** `revocations` before a refresh it may need, and again after it. */
    method RevocationView(nowSeconds: int) returns (serials: Option<seq<string>>)
      modifies this`cache
      ensures (Model(), serials) == View(old(Model()), nowSeconds)
    {
      if row.None? || nowSeconds >= row.value.expiresAt { return None; }
      if cache.None? || cache.value.digest != row.value.digest {
        cache := Some(Cache(row.value.digest, Stored(row.value.serials)));
      }
      serials := Some(cache.value.serials);
    }
  }
}

/** Runs of the request budget: what is granted in each minute. */
module BudgetRuns {
  import opened State

  function Max(a: int, b: int): int {
    if a < b then b else a
  }

  /** The table after a sequence of calls, each given by its clock reading. */
  function Table(calls: seq<int>): map<int, nat> {
    if calls == [] then map[] else Allowed(Table(calls[..|calls| - 1]), calls[|calls| - 1]).0
  }

  /** Whether the last call is granted. */
  predicate LastGranted(calls: seq<int>)
    requires calls != []
  {
    Allowed(Table(calls[..|calls| - 1]), calls[|calls| - 1]).1
  }

  function CallsIn(calls: seq<int>, minute: int): nat {
    if calls == [] then 0
    else CallsIn(calls[..|calls| - 1], minute) + (if Minute(calls[|calls| - 1]) == minute then 1 else 0)
  }

  function GrantedIn(calls: seq<int>, minute: int): nat {
    if calls == [] then 0
    else
      GrantedIn(calls[..|calls| - 1], minute)
      + (if Minute(calls[|calls| - 1]) == minute && LastGranted(calls) then 1 else 0)
  }

  function LatestMinute(calls: seq<int>): int
    requires calls != []
  {
    var last := Minute(calls[|calls| - 1]);
    if |calls| == 1 then last else Max(LatestMinute(calls[..|calls| - 1]), last)
  }

  /** No call has a minute more than two behind the largest minute already seen. */
  predicate AtMostTwoBehind(calls: seq<int>) {
    |calls| <= 1 ||
    (AtMostTwoBehind(calls[..|calls| - 1])
     && Minute(calls[|calls| - 1]) >= LatestMinute(calls[..|calls| - 1]) - 2)
  }

  function Least(a: nat, b: nat): nat {
    if a < b then a else b
  }

  /** The calls of a minute since its row was last pruned: by a call more than two minutes later. */
  function EpochCalls(calls: seq<int>, minute: int): nat {
    if calls == [] || Minute(calls[|calls| - 1]) > minute + 2 then 0
    else EpochCalls(calls[..|calls| - 1], minute) + (if Minute(calls[|calls| - 1]) == minute then 1 else 0)
  }

  /** In every run the row of a minute counts the calls since it was last pruned, up to sixty. */
  lemma {:induction false} RowCountsEpoch(calls: seq<int>, minute: int)
    ensures Count(Table(calls), minute) == Least(RATE_LIMIT_PER_MINUTE, EpochCalls(calls, minute))
  {
    if calls != [] {
      RowCountsEpoch(calls[..|calls| - 1], minute);
      hide Minute;
    }
  }

  /** In every run a call is granted exactly when its minute has had fewer than sixty since then. */
  lemma GrantedExactlyWithinEpoch(calls: seq<int>)
    requires calls != []
    ensures var before := calls[..|calls| - 1];
            LastGranted(calls) <==> EpochCalls(before, Minute(calls[|calls| - 1])) < RATE_LIMIT_PER_MINUTE
  {
    RowCountsEpoch(calls[..|calls| - 1], Minute(calls[|calls| - 1]));
    hide Minute, Table, EpochCalls;
  }

  /** Call i is in the minute, and a later call j prunes its row. */
  ghost predicate PrunedAt(calls: seq<int>, minute: int, i: int, j: int) {
    0 <= i < j < |calls| && Minute(calls[i]) == minute && Minute(calls[j]) > minute + 2
  }

  ghost predicate Pruned(calls: seq<int>, minute: int) {
    exists i, j :: PrunedAt(calls, minute, i, j)
  }

  /** The minute has a call again after a call that pruned its row. */
  ghost predicate Split(calls: seq<int>, minute: int) {
    exists k :: SplitAt(calls, minute, k)
  }

  ghost predicate SplitAt(calls: seq<int>, minute: int, k: int) {
    0 <= k < |calls| && Minute(calls[k]) == minute && Pruned(calls[..k], minute)
  }

  lemma PrunedGrows(calls: seq<int>, minute: int)
    requires calls != []
    ensures var before, last := calls[..|calls| - 1], Minute(calls[|calls| - 1]);
            Pruned(calls, minute) <==> Pruned(before, minute) || (last > minute + 2 && CallsIn(before, minute) > 0)
  {
    var n := |calls| - 1;
    var before := calls[..n];
    SomeCallIn(before, minute);
    hide Minute, CallsIn;
    if Pruned(calls, minute) {
      var i, j :| PrunedAt(calls, minute, i, j);
      assert before[i] == calls[i];
      if j < n { assert PrunedAt(before, minute, i, j); }
    }
    if Pruned(before, minute) {
      var i, j :| PrunedAt(before, minute, i, j);
      assert PrunedAt(calls, minute, i, j);
    }
    if Minute(calls[n]) > minute + 2 && CallsIn(before, minute) > 0 {
      var i :| 0 <= i < n && Minute(before[i]) == minute;
      assert PrunedAt(calls, minute, i, n);
    }
  }

  lemma {:induction false} SomeCallIn(calls: seq<int>, minute: int)
    ensures CallsIn(calls, minute) > 0 <==> exists i :: 0 <= i < |calls| && Minute(calls[i]) == minute
  {
    hide Minute;
    if calls != [] {
      var n := |calls| - 1;
      var before := calls[..n];
      SomeCallIn(before, minute);
      assert forall i :: 0 <= i < n ==> before[i] == calls[i];
      if exists i :: 0 <= i < |before| && Minute(before[i]) == minute {
        var i :| 0 <= i < |before| && Minute(before[i]) == minute;
        assert Minute(calls[i]) == minute;
      }
    }
  }

  lemma SplitGrows(calls: seq<int>, minute: int)
    requires calls != []
    ensures var before, last := calls[..|calls| - 1], Minute(calls[|calls| - 1]);
            Split(calls, minute) <==> Split(before, minute) || (last == minute && Pruned(before, minute))
  {
    hide Minute, Pruned;
    var n := |calls| - 1;
    var before := calls[..n];
    if Split(calls, minute) {
      var k :| SplitAt(calls, minute, k);
      if k < n {
        assert calls[..k] == before[..k];
        assert SplitAt(before, minute, k);
      }
    }
    if Split(before, minute) {
      var k :| SplitAt(before, minute, k);
      assert calls[..k] == before[..k];
      assert SplitAt(calls, minute, k);
    }
    if Minute(calls[n]) == minute && Pruned(before, minute) { assert SplitAt(calls, minute, n); }
  }

  /** What a run has granted in a minute, by whether the calls of the minute are split by a pruning one. */
  ghost predicate Granting(calls: seq<int>, minute: int) {
    var granted, made, epoch := GrantedIn(calls, minute), CallsIn(calls, minute), EpochCalls(calls, minute);
    && epoch <= made && (Pruned(calls, minute) <==> epoch < made)
    && (!Split(calls, minute) ==> granted == Least(RATE_LIMIT_PER_MINUTE, made) && (epoch == made || epoch == 0))
    && (Split(calls, minute) ==> epoch < made)
    && (Split(calls, minute) ==> if made <= RATE_LIMIT_PER_MINUTE then granted == made else granted > RATE_LIMIT_PER_MINUTE)
  }

  lemma {:induction false} RunsAreGranting(calls: seq<int>, minute: int)
    ensures Granting(calls, minute)
  {
    if calls != [] {
      var before := calls[..|calls| - 1];
      RunsAreGranting(before, minute);
      PrunedGrows(calls, minute);
      SplitGrows(calls, minute);
      GrantedExactlyWithinEpoch(calls);
      hide Minute, Pruned, Split, LastGranted;
    } else {
      NoCalls(minute);
      hide Pruned, Split;
    }
  }

  lemma NoCalls(minute: int)
    ensures !Pruned([], minute) && !Split([], minute)
  {
  }

  /** The budget is exact, min(60, calls made), in exactly the runs in which a minute with more than
      sixty calls has all of them on one side of every call that is more than two minutes later. */
  lemma BudgetIsExactUnlessSplit(calls: seq<int>, minute: int)
    ensures GrantedIn(calls, minute) == Least(RATE_LIMIT_PER_MINUTE, CallsIn(calls, minute)) <==>
            !(CallsIn(calls, minute) > RATE_LIMIT_PER_MINUTE && Split(calls, minute))
  {
    RunsAreGranting(calls, minute);
    hide Split, Pruned, GrantedIn, CallsIn, EpochCalls;
  }

  lemma {:induction false} LatestIsBehind(calls: seq<int>, j: nat)
    requires j < |calls|
    ensures Minute(calls[j]) <= LatestMinute(calls)
  {
    hide Minute;
    if j < |calls| - 1 { LatestIsBehind(calls[..|calls| - 1], j); }
  }

  lemma {:induction false} NeverSplit(calls: seq<int>, minute: int)
    requires AtMostTwoBehind(calls)
    ensures !Split(calls, minute)
  {
    if calls == [] {
      NoCalls(minute);
    } else {
      var before := calls[..|calls| - 1];
      if before == [] { NoCalls(minute); } else { NeverSplit(before, minute); }
      SplitGrows(calls, minute);
      if Pruned(before, minute) {
        var i, j :| PrunedAt(before, minute, i, j);
        LatestIsBehind(before, j);
      }
    }
  }

  /** When no call is more than two minutes behind, every minute is granted exactly its first sixty
      calls, despite the pruning. */
  lemma BudgetIsExact(calls: seq<int>, minute: int)
    requires AtMostTwoBehind(calls)
    ensures GrantedIn(calls, minute) == Least(RATE_LIMIT_PER_MINUTE, CallsIn(calls, minute))
    ensures calls != [] && minute >= LatestMinute(calls) - 2 ==> Count(Table(calls), minute) == GrantedIn(calls, minute)
  {
    NeverSplit(calls, minute);
    RunsAreGranting(calls, minute);
    RowCountsEpoch(calls, minute);
    if calls != [] && minute >= LatestMinute(calls) - 2 && Pruned(calls, minute) {
      var i, j :| PrunedAt(calls, minute, i, j);
      LatestIsBehind(calls, j);
    }
    hide Minute, Split, Pruned, Table, GrantedIn, CallsIn, EpochCalls;
  }

  /** n calls in the minute of t. */
  function Repeated(t: int, n: nat): seq<int> {
    if n == 0 then [] else Repeated(t, n - 1) + [t]
  }

  lemma {:induction false} RepeatedCalls(t: int, n: nat)
    ensures |Repeated(t, n)| == n && CallsIn(Repeated(t, n), Minute(t)) == n
    ensures n > 0 ==> Repeated(t, n)[0] == t
  {
    hide Minute;
    if n > 0 {
      RepeatedCalls(t, n - 1);
      assert Repeated(t, n)[..n - 1] == Repeated(t, n - 1);
    }
  }

  /** The margin is exactly two minutes: sixty calls in a minute, one call three or more minutes later
      and one more in the first minute are all granted, which makes sixty-one. */
  lemma MarginOfTwoMinutesIsTight(t: int, later: int)
    requires Minute(later) > Minute(t) + 2
    ensures var calls := Repeated(t, 60) + [later] + [t]; CallsIn(calls, Minute(t)) == 61 == GrantedIn(calls, Minute(t))
  {
    var full := Repeated(t, 60);
    var calls := full + [later] + [t];
    RepeatedCalls(t, 60);
    assert calls[..61] == full + [later] && (full + [later])[..60] == full;
    RunsAreGranting(full + [later], Minute(t));
    RunsAreGranting(full, Minute(t));
    GrantedExactlyWithinEpoch(full + [later]);
    GrantedExactlyWithinEpoch(calls);
    PrunedGrows(full + [later], Minute(t));
    SplitGrows(full + [later], Minute(t));
    hide Minute, Pruned, Split, LastGranted;
  }
}

/** Runs of the replay table: the pruned table against a set that is never pruned. */
module ReplayRuns {
  import opened State

  datatype Call = Call(id: string, now: int)

  /** The table after a sequence of calls; an id's expiry is a function of the id. */
  function Table(calls: seq<Call>, expiry: string -> int): map<string, int> {
    if calls == [] then map[]
    else
      var c := calls[|calls| - 1];
      Consumption(Table(calls[..|calls| - 1], expiry), c.id, expiry(c.id), c.now).0
  }

  /** The outcome of call k. */
  function Outcome(calls: seq<Call>, k: nat, expiry: string -> int): ConsumeOutcome
    requires k < |calls|
  {
    Consumption(Table(calls[..k], expiry), calls[k].id, expiry(calls[k].id), calls[k].now).1
  }

  /** The set that is never pruned. */
  function Seen(calls: seq<Call>): set<string> {
    set k | 0 <= k < |calls| && ValidId(calls[k].id) :: calls[k].id
  }

  function Latest(calls: seq<Call>): int
    requires calls != []
  {
    var last := calls[|calls| - 1].now;
    if |calls| == 1 then last
    else var m := Latest(calls[..|calls| - 1]); if m < last then last else m
  }

  // ---- exactly when a row is there ----------------------------------------------------------------

  /** No valid call after j, up to call k, reads more than a minute past the expiry of the id. */
  ghost predicate Unpruned(calls: seq<Call>, expiry: string -> int, id: string, j: int, k: int)
    requires k <= |calls|
  {
    forall i :: j < i < k && 0 <= i && ValidId(calls[i].id) ==> calls[i].now <= expiry(id) + PRUNE_MARGIN_SECONDS
  }

  /** Call j is for the id, and nothing from then to before call k has pruned its row. */
  ghost predicate Keeps(calls: seq<Call>, expiry: string -> int, id: string, j: int, k: int)
    requires k <= |calls|
  {
    0 <= j < k && ValidId(id) && calls[j].id == id && Unpruned(calls, expiry, id, j, k)
  }

  lemma KeepsBefore(calls: seq<Call>, expiry: string -> int, id: string, j: int)
    requires calls != []
    ensures var n := |calls| - 1;
            Keeps(calls, expiry, id, j, n + 1) <==>
              || (j == n && ValidId(id) && calls[n].id == id)
              || (Keeps(calls[..n], expiry, id, j, n)
                  && (ValidId(calls[n].id) ==> calls[n].now <= expiry(id) + PRUNE_MARGIN_SECONDS))
  {
    hide ValidId;
    var n := |calls| - 1;
    assert forall i :: 0 <= i < n ==> calls[..n][i] == calls[i];
    if j < n && ValidId(id) && calls[n].now <= expiry(id) + PRUNE_MARGIN_SECONDS {
      assert Unpruned(calls, expiry, id, j, n + 1) <==> Unpruned(calls[..n], expiry, id, j, n);
    }
  }

  /** In every run: a row holds the expiry of its id, and is there exactly when some call for the id was
      not followed by a valid call that reads more than a minute past that expiry. */
  lemma {:induction false} RowIsThereExactlyWhenKept(calls: seq<Call>, expiry: string -> int, id: string)
    ensures id in Table(calls, expiry) <==> exists j :: Keeps(calls, expiry, id, j, |calls|)
    ensures id in Table(calls, expiry) ==> Table(calls, expiry)[id] == expiry(id)
  {
    if calls != [] {
      var n := |calls| - 1;
      RowIsThereExactlyWhenKept(calls[..n], expiry, id);
      OneMoreCall(calls, expiry, id);
      hide Table, ValidId, Keeps, Consumption;
      KeepsBefore(calls, expiry, id, n);
      if exists j :: Keeps(calls[..n], expiry, id, j, n) {
        var j :| Keeps(calls[..n], expiry, id, j, n);
        KeepsBefore(calls, expiry, id, j);
      }
      if exists j :: Keeps(calls, expiry, id, j, |calls|) {
        var j :| Keeps(calls, expiry, id, j, |calls|);
        KeepsBefore(calls, expiry, id, j);
      }
    }
  }

  lemma OneMoreCall(calls: seq<Call>, expiry: string -> int, id: string)
    requires calls != []
    requires var before := Table(calls[..|calls| - 1], expiry); id in before ==> before[id] == expiry(id)
    ensures var n := |calls| - 1;
            var before := Table(calls[..n], expiry);
            && (id in Table(calls, expiry) <==>
                 || (ValidId(id) && calls[n].id == id)
                 || (id in before && (ValidId(calls[n].id) ==> calls[n].now <= expiry(id) + PRUNE_MARGIN_SECONDS)))
            && (id in Table(calls, expiry) ==> Table(calls, expiry)[id] == expiry(id))
  {
    hide ValidId;
  }

  /** In every run: a call is answered "replayed" exactly when an earlier call for the id was not followed,
      up to this call, by a valid call that reads more than a minute past the expiry. */
  lemma ReplayedExactlyWhenKept(calls: seq<Call>, k: nat, expiry: string -> int)
    requires k < |calls| && ValidId(calls[k].id)
    ensures Outcome(calls, k, expiry) == Replayed <==>
            exists j :: Keeps(calls, expiry, calls[k].id, j, k) && Unpruned(calls, expiry, calls[k].id, j, k + 1)
    ensures Outcome(calls, k, expiry) == Replayed || Outcome(calls, k, expiry) == Consumed
  {
    var id := calls[k].id;
    RowIsThereExactlyWhenKept(calls[..k], expiry, id);
    hide ValidId, Table;
    forall j ensures Keeps(calls[..k], expiry, id, j, k) <==> Keeps(calls, expiry, id, j, k) {
      assert forall i :: 0 <= i < k ==> calls[..k][i] == calls[i];
    }
    forall j | Keeps(calls, expiry, id, j, k)
      ensures Unpruned(calls, expiry, id, j, k + 1) <==> calls[k].now <= expiry(id) + PRUNE_MARGIN_SECONDS
    {
    }
  }

  // ---- exactly when an id is consumed twice ---------------------------------------------------------

  /** A valid call i reads more than a minute past the expiry, and call k, not earlier, is for the id. */
  ghost predicate LateBefore(calls: seq<Call>, expiry: string -> int, id: string, i: int, k: int) {
    && 0 <= i <= k < |calls| && ValidId(calls[i].id) && calls[i].now > expiry(id) + PRUNE_MARGIN_SECONDS
    && calls[k].id == id
  }

  /** The first call for the id from i on. */
  lemma {:induction false} NextFor(calls: seq<Call>, id: string, i: nat, k: nat) returns (next: nat)
    requires i <= k < |calls| && calls[k].id == id
    ensures i <= next <= k && calls[next].id == id && forall j :: i <= j < next ==> calls[j].id != id
    decreases k - i
  {
    if calls[i].id == id { next := i; } else { next := NextFor(calls, id, i + 1, k); }
  }

  /** A later call for an id consumes it again exactly when some valid call after the first one, up to
      some call for the id, reads more than a minute past the expiry. */
  lemma ConsumedAgainExactlyWhenLate(calls: seq<Call>, first: nat, expiry: string -> int)
    requires first < |calls| && ValidId(calls[first].id)
    ensures (exists k :: first < k < |calls| && calls[k].id == calls[first].id && Outcome(calls, k, expiry) == Consumed) <==>
            exists i, k :: first < i && LateBefore(calls, expiry, calls[first].id, i, k)
  {
    hide ValidId, Outcome, LateBefore, Keeps, Unpruned;
    var id := calls[first].id;
    if exists i, k :: first < i && LateBefore(calls, expiry, id, i, k) {
      var i, k :| first < i && LateBefore(calls, expiry, id, i, k);
      var next := LateIsConsumedAgain(calls, first, expiry, i, k);
    }
    if exists k :: first < k < |calls| && calls[k].id == id && Outcome(calls, k, expiry) == Consumed {
      var k :| first < k < |calls| && calls[k].id == id && Outcome(calls, k, expiry) == Consumed;
      var i := ConsumedAgainIsLate(calls, first, expiry, k);
    }
  }

  lemma LateIsConsumedAgain(calls: seq<Call>, first: nat, expiry: string -> int, i: int, k: int) returns (next: nat)
    requires first < |calls| && ValidId(calls[first].id) && first < i && LateBefore(calls, expiry, calls[first].id, i, k)
    ensures first < next < |calls| && calls[next].id == calls[first].id && Outcome(calls, next, expiry) == Consumed
  {
    hide ValidId, Outcome;
    var id := calls[first].id;
    next := NextFor(calls, id, i, k);
    ReplayedExactlyWhenKept(calls, next, expiry);
    forall j | Keeps(calls, expiry, id, j, next) ensures !Unpruned(calls, expiry, id, j, next + 1) {
      assert j < i <= next;
    }
  }

  lemma ConsumedAgainIsLate(calls: seq<Call>, first: nat, expiry: string -> int, k: nat) returns (i: int)
    requires first < k < |calls| && ValidId(calls[first].id) && calls[k].id == calls[first].id
    requires Outcome(calls, k, expiry) == Consumed
    ensures first < i && LateBefore(calls, expiry, calls[first].id, i, k)
  {
    hide ValidId, Outcome;
    var id := calls[first].id;
    assert Unpruned(calls, expiry, id, first, k + 1) ==> Keeps(calls, expiry, id, first, k);
    ReplayedExactlyWhenKept(calls, k, expiry);
    i :| first < i < k + 1 && ValidId(calls[i].id) && calls[i].now > expiry(id) + PRUNE_MARGIN_SECONDS;
  }

  /** "True exactly once" fails for any id: a call for it, and another one 61 seconds past its expiry. */
  lemma ConsumedTwice(id: string, t: int, expiry: string -> int)
    requires ValidId(id)
    ensures var calls := [Call(id, t), Call(id, expiry(id) + PRUNE_MARGIN_SECONDS + 1)];
            Outcome(calls, 0, expiry) == Consumed && Outcome(calls, 1, expiry) == Consumed
  {
    var calls := [Call(id, t), Call(id, expiry(id) + PRUNE_MARGIN_SECONDS + 1)];
    ReplayedExactlyWhenKept(calls, 0, expiry);
    ReplayedExactlyWhenKept(calls, 1, expiry);
    hide ValidId, Outcome;
    assert forall j :: !Unpruned(calls, expiry, id, j, 2) || j >= 1;
  }

  // ---- ids that are live --------------------------------------------------------------------------------

  lemma {:induction false} LatestIsLatest(calls: seq<Call>, k: nat)
    requires k < |calls|
    ensures calls[k].now <= Latest(calls)
  {
    if k < |calls| - 1 { LatestIsLatest(calls[..|calls| - 1], k); }
  }

  /** While no reading is more than a minute past its expiry, an id is in the table exactly when the
      never-pruned set has it. */
  lemma PrunedAgreesWithUnpruned(calls: seq<Call>, expiry: string -> int, id: string)
    ensures id in Table(calls, expiry) ==> Table(calls, expiry)[id] == expiry(id) && id in Seen(calls)
    ensures calls != [] && expiry(id) >= Latest(calls) - PRUNE_MARGIN_SECONDS && id in Seen(calls) ==>
            id in Table(calls, expiry)
  {
    RowIsThereExactlyWhenKept(calls, expiry, id);
    hide ValidId, Table;
    if calls != [] && expiry(id) >= Latest(calls) - PRUNE_MARGIN_SECONDS && id in Seen(calls) {
      var j :| 0 <= j < |calls| && ValidId(calls[j].id) && calls[j].id == id;
      forall i | 0 <= i < |calls| ensures calls[i].now <= expiry(id) + PRUNE_MARGIN_SECONDS {
        LatestIsLatest(calls, i);
      }
      assert Keeps(calls, expiry, id, j, |calls|);
    }
  }

  /** A call made while its id is live is answered as the never-pruned set would answer it: the first
      consumes, every later one is a replay. */
  lemma LiveCallsAreAnsweredExactly(calls: seq<Call>, k: nat, expiry: string -> int)
    requires k < |calls| && ValidId(calls[k].id)
    requires expiry(calls[k].id) >= Latest(calls[..k + 1]) - PRUNE_MARGIN_SECONDS
    ensures Outcome(calls, k, expiry) == if calls[k].id in Seen(calls[..k]) then Replayed else Consumed
  {
    var id := calls[k].id;
    ReplayedExactlyWhenKept(calls, k, expiry);
    hide ValidId, Outcome;
    forall i | 0 <= i <= k ensures calls[i].now <= expiry(id) + PRUNE_MARGIN_SECONDS {
      LatestIsLatest(calls[..k + 1], i);
    }
    if id in Seen(calls[..k]) {
      var j :| 0 <= j < k && ValidId(calls[..k][j].id) && calls[..k][j].id == id;
      assert Keeps(calls, expiry, id, j, k);
    }
    if Outcome(calls, k, expiry) == Replayed {
      var j :| Keeps(calls, expiry, id, j, k);
      assert calls[..k][j].id == id;
    }
  }

  lemma SeenMember(calls: seq<Call>, j: nat, k: nat)
    requires j < k <= |calls| && ValidId(calls[j].id)
    ensures calls[j].id in Seen(calls[..k])
  {
    assert calls[..k][j].id == calls[j].id;
  }

  /** While an id is live, exactly one of the calls for it has consumed it: the first. */
  lemma LiveIdIsConsumedExactlyOnce(calls: seq<Call>, first: nat, expiry: string -> int)
    requires first < |calls| && ValidId(calls[first].id) && calls[first].id !in Seen(calls[..first])
    requires expiry(calls[first].id) >= Latest(calls) - PRUNE_MARGIN_SECONDS
    ensures forall k :: 0 <= k < |calls| && calls[k].id == calls[first].id ==>
              (Outcome(calls, k, expiry) == Consumed <==> k == first)
  {
    var id := calls[first].id;
    hide ValidId, Outcome;
    forall k | 0 <= k < |calls| && calls[k].id == id
      ensures Outcome(calls, k, expiry) == Consumed <==> k == first
    {
      ReplayedExactlyWhenKept(calls, k, expiry);
      if k < first { SeenMember(calls, k, first); }
      if k == first {
        assert forall j :: 0 <= j < first ==> calls[..first][j].id == calls[j].id;
      } else {
        forall i | 0 <= i < |calls| ensures calls[i].now <= expiry(id) + PRUNE_MARGIN_SECONDS { LatestIsLatest(calls, i); }
        assert Keeps(calls, expiry, id, first, k) && Unpruned(calls, expiry, id, first, k + 1);
      }
    }
  }
}
