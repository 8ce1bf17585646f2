/**
  The per-user sliding-window rate limiter (`RateLimiter` in AtlasBot.py).
  The clock is a parameter: `now` is the time of the request, in seconds.
*/
module RateLimiting {
  import opened Text

  type UserId = String

  /** The length of the sliding window, in seconds. */
  const Window: real := 60.0

  /** The limit a `RateLimiter` gets when none is given. */
  const DefaultRequestsPerMinute: int := 60

  function Max(a: int, b: int): int {
    if a < b then b else a
  }

  /** The timestamps of `ts` that are still inside the window ending at `now`, in their order. */
  function Recent(ts: seq<real>, now: real): (r: seq<real>)
    ensures |r| <= |ts|
  {
    if ts == [] then []
    else if ts[0] > now - Window then [ts[0]] + Recent(ts[1..], now)
    else Recent(ts[1..], now)
  }

  /**
    One request at `now` against a history `ts`: whether it is allowed, and
    the history kept afterwards.
  */
  function Admit(ts: seq<real>, now: real, limit: int): (bool, seq<real>) {
    var recent := Recent(ts, now);
    if |recent| >= limit then (false, recent) else (true, recent + [now])
  }

  /** How many of `calls`, made one after the other on history `ts`, are allowed. */
  function AllowedCount(ts: seq<real>, calls: seq<real>, limit: int): nat
    decreases |calls|
  {
    if calls == [] then 0
    else
      var step := Admit(ts, calls[0], limit);
      (if step.0 then 1 else 0) + AllowedCount(step.1, calls[1..], limit)
  }

  /** The window keeps exactly the timestamps later than `now - Window`. */
  lemma {:induction false} RecentMembers(ts: seq<real>, now: real)
    ensures forall t :: t in Recent(ts, now) <==> t in ts && t > now - Window
  {
    if ts != [] {
      RecentMembers(ts[1..], now);
      assert ts == [ts[0]] + ts[1..];
    }
  }

  /** Filtering at some time and then at a later time is filtering at the later time. */
  lemma {:induction false} RecentLater(ts: seq<real>, now: real, later: real)
    requires now <= later
    ensures Recent(Recent(ts, now), later) == Recent(ts, later)
  {
    if ts != [] {
      RecentLater(ts[1..], now, later);
    }
  }

  lemma {:induction false} RecentAppend(ts: seq<real>, t: real, now: real)
    ensures Recent(ts + [t], now) == Recent(ts, now) + (if t > now - Window then [t] else [])
  {
    if ts != [] {
      RecentAppend(ts[1..], t, now);
      assert (ts + [t])[1..] == ts[1..] + [t];
    }
  }

  /**
    The limiter's promise: however long the history, at most `limit` of the
    requests that arrive within one 60-second window are allowed, fewer by
    the requests the history already holds in that window.
  */
  lemma {:induction false} AtMostLimitPerWindow(ts: seq<real>, calls: seq<real>, limit: int, start: real)
    requires forall k | 0 <= k < |calls| :: start < calls[k] <= start + Window
    ensures AllowedCount(ts, calls, limit) <= Max(0, limit - |Recent(ts, start + Window)|)
    decreases |calls|
  {
    var end := start + Window;
    if calls != [] {
      var t := calls[0];
      var recent := Recent(ts, t);
      var before := |Recent(ts, end)|;
      RecentLater(ts, t, end);
      assert before <= |recent|;
      if |recent| >= limit {
        RefusedStep(ts, calls, limit);
        AtMostLimitPerWindow(recent, calls[1..], limit, start);
        assert AllowedCount(ts, calls, limit) <= Max(0, limit - before);
      } else {
        var next := recent + [t];
        AllowedStep(ts, calls, limit);
        RecentAppend(recent, t, end);
        assert |Recent(next, end)| == before + 1;
        AtMostLimitPerWindow(next, calls[1..], limit, start);
        assert AllowedCount(next, calls[1..], limit) <= limit - before - 1;
        assert AllowedCount(ts, calls, limit) <= Max(0, limit - before);
      }
    }
  }

  /** One refused call of `AllowedCount`: a proof step of `AtMostLimitPerWindow`. */
  lemma RefusedStep(ts: seq<real>, calls: seq<real>, limit: int)
    requires calls != [] && |Recent(ts, calls[0])| >= limit
    ensures AllowedCount(ts, calls, limit) == AllowedCount(Recent(ts, calls[0]), calls[1..], limit)
  {
  }

  /** One admitted call of `AllowedCount`: a proof step of `AtMostLimitPerWindow`. */
  lemma AllowedStep(ts: seq<real>, calls: seq<real>, limit: int)
    requires calls != [] && |Recent(ts, calls[0])| < limit
    ensures AllowedCount(ts, calls, limit) == 1 + AllowedCount(Recent(ts, calls[0]) + [calls[0]], calls[1..], limit)
  {
  }

  /** From a clean history, no window ever lets more than `limit` requests through. */
  lemma AtMostLimitFromScratch(calls: seq<real>, limit: int, start: real)
    requires forall k | 0 <= k < |calls| :: start < calls[k] <= start + Window
    ensures AllowedCount([], calls, limit) <= Max(0, limit)
  {
    AtMostLimitPerWindow([], calls, limit, start);
  }

  class RateLimiter {
    const requestsPerMinute: int
    /** Each user's request times, oldest first; a missing user has no requests. */
    var userRequests: map<UserId, seq<real>>

    /** No user's history holds more requests than the limit allows. */
    ghost predicate Valid()
      reads this
    {
      forall u | u in userRequests :: |userRequests[u]| <= Max(0, requestsPerMinute)
    }

    /** The history of `user`; Python's `defaultdict(list)` gives an empty one. */
    function History(user: UserId): seq<real>
      reads this
    {
      if user in userRequests then userRequests[user] else []
    }

    constructor (requestsPerMinute: int := DefaultRequestsPerMinute)
      ensures Valid()
      ensures this.requestsPerMinute == requestsPerMinute && userRequests == map[]
    {
      this.requestsPerMinute := requestsPerMinute;
      userRequests := map[];
    }

    /**
      `is_allowed`: drops the user's requests older than the window, refuses
      when the ones left reach the limit, and records `now` otherwise.
    */
    method IsAllowed(user: UserId, now: real) returns (allowed: bool)
      requires Valid()
      modifies this
      ensures Valid()
      ensures allowed <==> |Recent(old(History(user)), now)| < requestsPerMinute
      ensures userRequests == old(userRequests)[user :=
        if allowed then Recent(old(History(user)), now) + [now] else Recent(old(History(user)), now)]
      ensures (allowed, History(user)) == Admit(old(History(user)), now, requestsPerMinute)
      ensures |History(user)| <= Max(0, requestsPerMinute)
    {
      var reqs := Recent(History(user), now);
      userRequests := userRequests[user := reqs];
      if |reqs| >= requestsPerMinute {
        return false;
      }
      userRequests := userRequests[user := reqs + [now]];
      return true;
    }
  }
}
