/**
 * The sliding-window-log rate limiter: for each client address, the instants
 * of its recent admitted requests. A request is refused when the client
 * already has `max_requests` requests younger than the window; a refused
 * request is not recorded.
 *
 * Instants are ticks of a monotone clock, one tick per nanosecond. The mutex
 * around the map makes each call atomic, so a call is one method here.
 */
module RateLimiting {
  import opened Streams

  const NANOS_PER_SECOND: nat := 1_000_000_000

  /** `now.duration_since(time)`, which is zero when `time` is later than `now`. */
  function Age(now: nat, t: nat): nat {
    if t <= now then now - t else 0
  }

  /** `timestamps.retain(|&time| now.duration_since(time) < window)`. */
  function Recent(times: seq<nat>, now: nat, window: nat): (r: seq<nat>)
    ensures |r| <= |times|
    ensures forall t :: t in r <==> t in times && Age(now, t) < window
  {
    if times == [] then []
    else
      var last := times[|times| - 1];
      Recent(times[..|times| - 1], now, window) + (if Age(now, last) < window then [last] else [])
  }

  predicate Sorted(times: seq<nat>) {
    forall i, j :: 0 <= i < j < |times| ==> times[i] <= times[j]
  }

  /** What one call decides for one client, and the client's list afterwards. */
  datatype Verdict = Verdict(limited: bool, times: seq<nat>)

  /** One `is_rate_limited` call on a client whose list is `times`. */
  function Check(times: seq<nat>, now: nat, window: nat, maxRequests: nat): Verdict {
    var recent := Recent(times, now, window);
    if |recent| >= maxRequests then Verdict(true, recent) else Verdict(false, recent + [now])
  }

  /** `map.entry(ip).or_insert_with(Vec::new)`: a client seen for the first time has no requests. */
  function Entry(log: map<IpAddr, seq<nat>>, ip: IpAddr): seq<nat> {
    if ip in log then log[ip] else []
  }

  class RateLimiter {
    var log: map<IpAddr, seq<nat>>
    const window: nat
    const maxRequests: nat
    /** The latest instant a call has been made at. */
    ghost var clock: nat

    /** Every list is in time order, no longer than `max_requests`, and in the past. */
    ghost predicate Valid()
      reads this
    {
      forall ip :: ip in log ==>
        && Sorted(log[ip])
        && |log[ip]| <= maxRequests
        && forall i :: 0 <= i < |log[ip]| ==> log[ip][i] <= clock
    }

    /** `RateLimiter::new_with_limits(window_secs, max_requests)`. */
    constructor NewWithLimits(windowSecs: nat, maxRequests: nat)
      ensures log == map[] && window == windowSecs * NANOS_PER_SECOND && this.maxRequests == maxRequests
      ensures clock == 0 && Valid()
    {
      log := map[];
      window := windowSecs * NANOS_PER_SECOND;
      this.maxRequests := maxRequests;
      clock := 0;
    }

    /**
     * `is_rate_limited(ip)` at instant `now`: prunes the client's list to the
     * window, then refuses without recording, or records `now` and admits.
     * Only the client's own entry changes, and it exists afterwards.
     */
    method IsRateLimited(ip: IpAddr, now: nat) returns (limited: bool)
      requires Valid() && clock <= now
      modifies this`log, this`clock
      ensures Valid() && clock == now
      ensures var v := Check(Entry(old(log), ip), now, window, maxRequests);
        limited == v.limited && log == old(log)[ip := v.times]
    {
      var times := if ip in log then log[ip] else [];
      var kept := [];
      for i := 0 to |times|
        invariant kept == Recent(times[..i], now, window)
      {
        assert times[..i + 1][..i] == times[..i];
        if Age(now, times[i]) < window {
          kept := kept + [times[i]];
        }
      }
      assert times[..|times|] == times;
      if |kept| >= maxRequests {
        limited := true;
      } else {
        kept := kept + [now];
        limited := false;
      }
      CheckKeepsOrder(times, now, window, maxRequests);
      log := log[ip := kept];
      clock := now;
    }
  }

  // ---------------------------------------------------------------- one call

  /** Pruning keeps the order of what it keeps. */
  lemma {:induction false} RecentSorted(times: seq<nat>, now: nat, window: nat)
    requires Sorted(times)
    ensures Sorted(Recent(times, now, window))
  {
    if times != [] {
      var init, last := times[..|times| - 1], times[|times| - 1];
      assert Sorted(init);
      RecentSorted(init, now, window);
      var before := Recent(init, now, window);
      assert forall i :: 0 <= i < |before| ==> before[i] in init;
      assert forall j :: 0 <= j < |init| ==> init[j] <= last;
      assert forall i :: 0 <= i < |before| ==> before[i] <= last;
    }
  }

  /** A call keeps a list in time order, within `max_requests`, and no later than `now`. */
  lemma CheckKeepsOrder(times: seq<nat>, now: nat, window: nat, maxRequests: nat)
    requires Sorted(times) && |times| <= maxRequests
    requires forall i :: 0 <= i < |times| ==> times[i] <= now
    ensures var v := Check(times, now, window, maxRequests);
      && Sorted(v.times)
      && |v.times| <= maxRequests
      && forall i :: 0 <= i < |v.times| ==> v.times[i] <= now
  {
    var recent := Recent(times, now, window);
    RecentSorted(times, now, window);
    assert forall i :: 0 <= i < |recent| ==> recent[i] in times;
  }

  /** A refused call records nothing: the list is only pruned. */
  lemma RefusedIsNotRecorded(times: seq<nat>, now: nat, window: nat, maxRequests: nat)
    requires Sorted(times) && forall i :: 0 <= i < |times| ==> times[i] < now
    ensures var v := Check(times, now, window, maxRequests);
      v.limited <==> now !in v.times
  {
    var v := Check(times, now, window, maxRequests);
    if !v.limited {
      assert v.times[|v.times| - 1] == now;
    }
  }

  /** With `max_requests == 0` every call is refused and a list never grows. */
  lemma ZeroAdmitsNothing(times: seq<nat>, now: nat, window: nat)
    ensures var v := Check(times, now, window, 0);
      v.limited && |v.times| <= |times| && forall t :: t in v.times ==> t in times
  {
  }

  /** A client with no request younger than the window is admitted while `max_requests` is positive. */
  lemma QuietClientIsAdmitted(times: seq<nat>, now: nat, window: nat, maxRequests: nat)
    requires maxRequests > 0
    requires forall i :: 0 <= i < |times| ==> Age(now, times[i]) >= window
    ensures Check(times, now, window, maxRequests) == Verdict(false, [now])
  {
    RecentOfOld(times, now, window);
  }

  lemma {:induction false} RecentOfOld(times: seq<nat>, now: nat, window: nat)
    requires forall i :: 0 <= i < |times| ==> Age(now, times[i]) >= window
    ensures Recent(times, now, window) == []
  {
    if times != [] {
      RecentOfOld(times[..|times| - 1], now, window);
    }
  }

  // ---------------------------------------------------------------- a client's calls over time

  /** The client's list after calls at the instants `calls`, starting from no entry. */
  function Stored(calls: seq<nat>, window: nat, maxRequests: nat): (r: seq<nat>)
    ensures |r| <= maxRequests
    ensures forall t :: t in r ==> t in calls
  {
    if calls == [] then []
    else
      var last := calls[|calls| - 1];
      var before := Stored(calls[..|calls| - 1], window, maxRequests);
      Check(before, last, window, maxRequests).times
  }

  /** The instants of the calls that were admitted, in order. */
  function Admitted(calls: seq<nat>, window: nat, maxRequests: nat): seq<nat> {
    if calls == [] then []
    else
      var last := calls[|calls| - 1];
      var before := Stored(calls[..|calls| - 1], window, maxRequests);
      Admitted(calls[..|calls| - 1], window, maxRequests)
        + (if Check(before, last, window, maxRequests).limited then [] else [last])
  }

  lemma {:induction false} RecentAppend(a: seq<nat>, b: seq<nat>, now: nat, window: nat)
    ensures Recent(a + b, now, window) == Recent(a, now, window) + Recent(b, now, window)
    decreases |b|
  {
    if b == [] {
      assert a + b == a;
    } else {
      var init, last := b[..|b| - 1], b[|b| - 1];
      assert (a + b)[..|a + b| - 1] == a + init;
      assert (a + b)[|a + b| - 1] == last;
      RecentAppend(a, init, now, window);
    }
  }

  /** Pruning at `c` and then at a later `now` is pruning at `now`, for instants no later than `c`. */
  lemma {:induction false} RecentLater(times: seq<nat>, c: nat, now: nat, window: nat)
    requires c <= now
    requires forall i :: 0 <= i < |times| ==> times[i] <= c
    ensures Recent(Recent(times, c, window), now, window) == Recent(times, now, window)
  {
    if times != [] {
      var init, last := times[..|times| - 1], times[|times| - 1];
      RecentLater(init, c, now, window);
      var kept := if Age(c, last) < window then [last] else [];
      RecentAppend(Recent(init, c, window), kept, now, window);
      assert Recent([last], now, window) == [] + (if Age(now, last) < window then [last] else []);
    }
  }

  /** What is stored after some calls was made no later than the latest of them. */
  lemma StoredNotLater(calls: seq<nat>, last: nat, window: nat, maxRequests: nat)
    requires forall i :: 0 <= i < |calls| ==> calls[i] <= last
    ensures var before := Stored(calls, window, maxRequests);
      forall i :: 0 <= i < |before| ==> before[i] <= last
  {
    var before := Stored(calls, window, maxRequests);
    assert forall i :: 0 <= i < |before| ==> before[i] in calls;
  }

  /** One more call keeps the stored list and the admitted calls in step. */
  lemma CallKeepsStep(before: seq<nat>, admitted: seq<nat>, last: nat, now: nat, window: nat, maxRequests: nat)
    requires last <= now && forall i :: 0 <= i < |before| ==> before[i] <= last
    requires Recent(before, now, window) == Recent(admitted, now, window)
    ensures var v := Check(before, last, window, maxRequests);
      Recent(v.times, now, window) == Recent(admitted + (if v.limited then [] else [last]), now, window)
  {
    RecentLater(before, last, now, window);
    var v := Check(before, last, window, maxRequests);
    if v.limited {
      assert admitted + [] == admitted;
    } else {
      RecentAppend(Recent(before, last, window), [last], now, window);
      RecentAppend(admitted, [last], now, window);
    }
  }

  /**
   * Seen from any instant at or after the last call, the stored list holds
   * exactly the admitted calls that are still inside the window.
   */
  lemma {:induction false} StoredIsAdmittedInWindow(calls: seq<nat>, now: nat, window: nat, maxRequests: nat)
    requires Sorted(calls)
    requires forall i :: 0 <= i < |calls| ==> calls[i] <= now
    ensures Recent(Stored(calls, window, maxRequests), now, window)
         == Recent(Admitted(calls, window, maxRequests), now, window)
  {
    if calls != [] {
      var init, last := calls[..|calls| - 1], calls[|calls| - 1];
      assert Sorted(init);
      StoredIsAdmittedInWindow(init, now, window, maxRequests);
      StoredNotLater(init, last, window, maxRequests);
      CallKeepsStep(Stored(init, window, maxRequests), Admitted(init, window, maxRequests), last, now, window, maxRequests);
    }
  }

  /**
   * The promise of the limiter: for calls at non-decreasing instants, any
   * window that ends at or after the last call holds at most `max_requests`
   * admitted calls.
   */
  lemma WindowBound(calls: seq<nat>, now: nat, window: nat, maxRequests: nat)
    requires Sorted(calls)
    requires forall i :: 0 <= i < |calls| ==> calls[i] <= now
    ensures |Recent(Admitted(calls, window, maxRequests), now, window)| <= maxRequests
  {
    StoredIsAdmittedInWindow(calls, now, window, maxRequests);
  }

  /** Pruning a list that ends in `x` prunes the rest, then keeps or drops `x`. */
  lemma RecentSnoc(times: seq<nat>, x: nat, now: nat, window: nat)
    ensures Recent(times + [x], now, window)
         == Recent(times, now, window) + (if Age(now, x) < window then [x] else [])
  {
    assert (times + [x])[..|times|] == times;
  }

  /** Two calls inside one window, by a fresh client, are both admitted. */
  lemma FirstTwoAdmitted(a: nat, b: nat, window: nat)
    requires a <= b < a + window
    ensures Check([], a, window, 2) == Verdict(false, [a])
    ensures Check([a], b, window, 2) == Verdict(false, [a, b])
  {
    RecentSnoc([], a, b, window);
    assert [] + [a] == [a];
  }

  /** A third call inside the window of the first two is refused. */
  lemma ThirdRefused(a: nat, b: nat, c: nat, window: nat)
    requires a <= b <= c < a + window
    ensures Check([a, b], c, window, 2) == Verdict(true, [a, b])
  {
    RecentSnoc([], a, c, window);
    assert [] + [a] == [a];
    RecentSnoc([a], b, c, window);
    assert [a] + [b] == [a, b];
  }

  /** Once the first call has left the window, a call is admitted again. */
  lemma AdmittedAfterExpiry(a: nat, b: nat, d: nat, window: nat)
    requires a <= b <= d && a + window <= d < b + window
    ensures Check([a, b], d, window, 2) == Verdict(false, [b, d])
  {
    RecentSnoc([], a, d, window);
    assert [] + [a] == [a];
    RecentSnoc([a], b, d, window);
    assert [a] + [b] == [a, b];
    assert [] + [b] == [b];
  }

  /**
   * With a 60-second window and two requests allowed, calls at 0 s and 10 s
   * are admitted, the call at 20 s is refused, and the call at 61 s is
   * admitted again because the one at 0 s has left the window.
   */
  method Scenario() returns (verdicts: seq<bool>)
    ensures verdicts == [false, false, true, false]
  {
    var limiter := new RateLimiter.NewWithLimits(60, 2);
    var ip := UNSPECIFIED;
    var window := 60 * NANOS_PER_SECOND;
    var t10, t20, t61 := 10 * NANOS_PER_SECOND, 20 * NANOS_PER_SECOND, 61 * NANOS_PER_SECOND;
    FirstTwoAdmitted(0, t10, window);
    ThirdRefused(0, t10, t20, window);
    AdmittedAfterExpiry(0, t10, t61, window);
    var a := limiter.IsRateLimited(ip, 0);
    var b := limiter.IsRateLimited(ip, t10);
    var c := limiter.IsRateLimited(ip, t20);
    var d := limiter.IsRateLimited(ip, t61);
    verdicts := [a, b, c, d];
  }
}
